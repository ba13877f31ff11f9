/** The label text field of apps/web/components/sourcing-ingestion-panel.tsx: `splitListValue` reads it and
    a `", "` join shows it. */
module LabelList {
  import opened Keyed
  import opened Text

  /** `/[,\n|/]/`. */
  predicate IsSeparator(c: char) {
    c == ',' || c == '\n' || c == '|' || c == '/'
  }

  predicate Unseparated(s: string) {
    forall i :: 0 <= i < |s| ==> !IsSeparator(s[i])
  }

  /** `value.split(/[,\n|/]/)`. */
  function Pieces(s: string): (r: seq<string>)
    ensures r != []
  {
    if s == "" then [""]
    else
      var front, c := Pieces(s[..|s| - 1]), s[|s| - 1];
      if IsSeparator(c) then front + [""]
      else front[..|front| - 1] + [front[|front| - 1] + [c]]
  }

  function Self(s: string): string {
    s
  }

  /** `splitListValue`: a `Set` keeps the first of equal items. */
  function SplitList(value: string): seq<string> {
    FirstOf(Self, Kept(Trims(Pieces(value)), NotEmpty))
  }

  predicate ProperLabel(s: string) {
    s != "" && Trimmed(s) && Unseparated(s)
  }

  /** Distinct labels, each trimmed, non-empty and free of separators. */
  ghost predicate Proper(labels: seq<string>) {
    DistinctBy(Self, labels) && forall i :: 0 <= i < |labels| ==> ProperLabel(labels[i])
  }

  lemma {:induction false} PiecesUnseparated(s: string)
    ensures forall i :: 0 <= i < |Pieces(s)| ==> Unseparated(Pieces(s)[i])
  {
    if s != "" {
      PiecesUnseparated(s[..|s| - 1]);
    }
  }

  lemma TrimUnseparated(s: string)
    requires Unseparated(s)
    ensures Unseparated(Trim(s)) && Trimmed(Trim(s))
  {
    hide Trim, IsSeparator;
    var lo, hi := TrimWindow(s);
  }

  /** What the field yields is always proper. */
  lemma SplitListProper(value: string)
    ensures Proper(SplitList(value))
  {
    hide Pieces, Trims, Kept, FirstOf, IsFirst, ProperLabel;
    var items := Trims(Pieces(value));
    var kept := Kept(items, NotEmpty);
    PiecesUnseparated(value);
    FirstOfDistinct(Self, kept);
    var index := KeptInOrder(items, NotEmpty);
    var first := FirstOfInOrder(Self, kept);
    forall i | 0 <= i < |kept| ensures ProperLabel(kept[i]) {
      assert index[i] in index;
      ProperItem(Pieces(value)[index[i]]);
    }
  }

  lemma ProperItem(piece: string)
    requires Unseparated(piece) && Trim(piece) != ""
    ensures ProperLabel(Trim(piece))
  {
    hide Trim, Unseparated;
    TrimUnseparated(piece);
  }

  /** The separators between the pieces, in order. */
  function Separators(s: string): seq<string> {
    if s == "" then []
    else
      var front, c := Separators(s[..|s| - 1]), s[|s| - 1];
      if IsSeparator(c) then front + [[c]] else front
  }

  lemma {:induction false} PiecesWovenBack(s: string)
    ensures |Pieces(s)| == |Separators(s)| + 1 && Woven(Pieces(s), Separators(s)) == s
  {
    hide Woven, IsSeparator;
    if s == "" {
      WovenSingle("");
    } else {
      var front, c := s[..|s| - 1], s[|s| - 1];
      PiecesWovenBack(front);
      WovenSnoc(Pieces(front), Separators(front), [c], "");
      WovenExtend(Pieces(front), Separators(front), [c]);
      assert s == front + [c];
    }
  }

  lemma {:induction false} SeparatorsAre(s: string)
    ensures forall i :: 0 <= i < |Separators(s)| ==> Separators(s)[i] in [",", "\n", "|", "/"]
  {
    if s != "" {
      SeparatorsAre(s[..|s| - 1]);
    }
  }

  /** The pieces are the text cut at its separators: woven together with them they give it back, and no piece holds
      one. */
  lemma PiecesWoven(s: string)
    ensures |Pieces(s)| == |Separators(s)| + 1 && Woven(Pieces(s), Separators(s)) == s
    ensures forall i :: 0 <= i < |Separators(s)| ==> Separators(s)[i] in [",", "\n", "|", "/"]
    ensures forall i, k :: 0 <= i < |Pieces(s)| && 0 <= k < |Pieces(s)[i]| ==> Pieces(s)[i][k] !in ",\n|/"
  {
    hide Pieces, Separators, Woven;
    PiecesWovenBack(s);
    SeparatorsAre(s);
    PiecesUnseparated(s);
  }

  /** The labels are the trimmed pieces, without empty and repeated ones: none is lost or invented, and they stand
      in the order in which they first occur. */
  lemma SplitListExact(value: string) returns (index: seq<nat>)
    ensures var items, labels := Trims(Pieces(value)), SplitList(value);
            && (forall x :: x in labels <==> x in items && x != "")
            && |index| == |labels| && Increasing(index, |items|)
            && (forall i :: 0 <= i < |index| ==> labels[i] == items[index[i]] && labels[i] !in items[..index[i]])
  {
    hide Pieces, Kept, FirstOf, IsFirst, Trims;
    var items := Trims(Pieces(value));
    var kept := Kept(items, NotEmpty);
    var keptAt := KeptInOrder(items, NotEmpty);
    var firstAt := FirstOfInOrder(Self, kept);
    forall x ensures x in SplitList(value) <==> x in items && x != "" {
      FirstOfKeys(Self, kept, x);
      HasSelf(FirstOf(Self, kept), x);
      HasSelf(kept, x);
      KeptMember(items, x, keptAt);
    }
    index := seq(|firstAt|, i requires 0 <= i < |firstAt| => keptAt[firstAt[i]]);
    forall i | 0 <= i < |index| ensures SplitList(value)[i] !in items[..index[i]] {
      FirstIsNew(items, keptAt, firstAt, i);
    }
  }

  lemma HasSelf(s: seq<string>, x: string)
    ensures HasKey(Self, s, x) <==> x in s
  {
  }

  lemma KeptMember(items: seq<string>, x: string, keptAt: seq<nat>)
    requires |keptAt| == |Kept(items, NotEmpty)| && Increasing(keptAt, |items|)
    requires forall i :: 0 <= i < |keptAt| ==> Kept(items, NotEmpty)[i] == items[keptAt[i]]
    requires forall r :: 0 <= r < |items| ==> (r in keptAt <==> NotEmpty(items[r]))
    ensures x in Kept(items, NotEmpty) <==> x in items && x != ""
  {
    hide Kept;
    if x in items && x != "" {
      var r :| 0 <= r < |items| && items[r] == x;
      var i :| 0 <= i < |keptAt| && keptAt[i] == r;
      assert Kept(items, NotEmpty)[i] == x;
    }
    if x in Kept(items, NotEmpty) {
      var i :| 0 <= i < |keptAt| && Kept(items, NotEmpty)[i] == x;
      assert keptAt[i] in keptAt;
    }
  }

  lemma EarlierDiffers(s: seq<string>, r: nat, j: nat)
    requires j < r < |s| && IsFirst(Self, s, r)
    ensures s[j] != s[r]
  {
    assert s[..r][j] == s[j];
  }

  lemma FirstIsNew(items: seq<string>, keptAt: seq<nat>, firstAt: seq<nat>, i: nat)
    requires |keptAt| == |Kept(items, NotEmpty)| && Increasing(keptAt, |items|)
    requires forall i :: 0 <= i < |keptAt| ==> Kept(items, NotEmpty)[i] == items[keptAt[i]]
    requires forall r :: 0 <= r < |items| ==> (r in keptAt <==> NotEmpty(items[r]))
    requires i < |firstAt| && Increasing(firstAt, |keptAt|)
    requires forall r :: 0 <= r < |keptAt| ==> (r in firstAt <==> IsFirst(Self, Kept(items, NotEmpty), r))
    ensures items[keptAt[firstAt[i]]] !in items[..keptAt[firstAt[i]]]
  {
    hide Kept;
    var kept, f := Kept(items, NotEmpty), firstAt[i];
    var x, n := kept[f], keptAt[f];
    assert f in firstAt && n in keptAt;
    forall r | 0 <= r < n ensures items[r] != x {
      if r in keptAt {
        var j :| 0 <= j < |keptAt| && keptAt[j] == r;
        if j < f {
          EarlierDiffers(kept, f, j);
        }
      }
    }
  }

  /** A separator-free text behind a comma is one more piece. */
  lemma {:induction false} PiecesComma(a: string, b: string)
    requires Unseparated(b)
    ensures Pieces(a + "," + b) == Pieces(a) + [b]
  {
    var s := a + "," + b;
    if b == "" {
      assert s[..|s| - 1] == a;
    } else {
      var front, c := b[..|b| - 1], b[|b| - 1];
      assert b == front + [c] && s[..|s| - 1] == a + "," + front && s[|s| - 1] == c;
      PiecesComma(a, front);
      GrowsLast(Pieces(a), front, c);
    }
  }

  lemma GrowsLast(lead: seq<string>, last: string, c: char)
    ensures var parts := lead + [last]; parts[..|parts| - 1] + [parts[|parts| - 1] + [c]] == lead + [last + [c]]
  {
  }

  lemma {:induction false} PiecesSingle(b: string)
    requires Unseparated(b)
    ensures Pieces(b) == [b]
  {
    if b != "" {
      assert b == b[..|b| - 1] + [b[|b| - 1]];
      PiecesSingle(b[..|b| - 1]);
    }
  }

  lemma TrimSpaced(s: string)
    ensures Trim(" " + s) == Trim(s)
  {
  }

  lemma {:induction false} ItemsOfJoin(labels: seq<string>)
    requires labels != [] && forall i :: 0 <= i < |labels| ==> ProperLabel(labels[i])
    ensures Trims(Pieces(Join(labels, ", "))) == labels
  {
    hide Join, Trim, Pieces;
    var front, last := labels[..|labels| - 1], labels[|labels| - 1];
    TrimTrimmed(last);
    if front == [] {
      JoinSingle(last, ", ");
      PiecesSingle(last);
      assert labels == [last];
    } else {
      assert labels == front + [last];
      JoinSnoc(front, last, ", ");
      ItemsOfJoin(front);
      var shown := Join(front, ", ");
      assert shown + ", " + last == shown + "," + (" " + last);
      PiecesComma(shown, " " + last);
      TrimSpaced(last);
    }
  }

  /** Showing a list and reading it back gives the same list exactly when the list is proper. */
  lemma ShowThenSplit(labels: seq<string>)
    ensures SplitList(Join(labels, ", ")) == labels <==> Proper(labels)
  {
    hide Pieces, Trims, Kept, FirstOf, ProperLabel, Join;
    if SplitList(Join(labels, ", ")) == labels {
      SplitListProper(Join(labels, ", "));
    }
    if Proper(labels) {
      SplitShown(labels);
    }
  }

  lemma SplitShown(labels: seq<string>)
    requires Proper(labels)
    ensures SplitList(Join(labels, ", ")) == labels
  {
    if labels == [] {
      assert Trims(Pieces("")) == [""];
      KeptNothing();
    } else {
      SplitShownSome(labels);
    }
  }

  lemma KeptNothing()
    ensures FirstOf(Self, Kept([""], NotEmpty)) == []
  {
  }

  lemma SplitShownSome(labels: seq<string>)
    requires Proper(labels) && labels != []
    ensures SplitList(Join(labels, ", ")) == labels
  {
    hide Pieces, Trims, Kept, FirstOf, Join, Trimmed, Unseparated;
    ItemsOfJoin(labels);
    KeptAll(labels, NotEmpty);
    FirstOfSelf(Self, labels);
  }

  /** The text shown for what was read from any input reads back as the same list. */
  lemma FieldFixpoint(value: string)
    ensures SplitList(Join(SplitList(value), ", ")) == SplitList(value)
  {
    hide SplitList, Join, Proper;
    SplitListProper(value);
    ShowThenSplit(SplitList(value));
  }
}

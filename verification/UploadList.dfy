/** The file list of apps/web/components/bulk-cv-upload-modal.tsx: `dedupeFiles`, `appendFiles` and the
    remove buttons. `accepted` stands for the extension test. */
module UploadList {
  import opened Keyed
  import opened Text

  datatype File = File(name: string, size: nat, lastModified: int)

  function Printed(n: int): (s: string)
    ensures Free(s, ':')
  {
    if n < 0 then "-" + Decimal(-n) else Decimal(n)
  }

  lemma PrintedInjective(m: int, n: int)
    ensures Printed(m) == Printed(n) ==> m == n
  {
    hide Decimal;
    if Printed(m) == Printed(n) {
      var a, b := Decimal(if m < 0 then -m else m), Decimal(if n < 0 then -n else n);
      assert (m < 0 <==> n < 0) by {
        assert Printed(m)[0] == Printed(n)[0];
      }
      assert m < 0 ==> Printed(m)[1..] == a && Printed(n)[1..] == b;
      DecimalInjective(if m < 0 then -m else m, if n < 0 then -n else n);
    }
  }

  function FileKey(file: File): string {
    file.name + ":" + Printed(file.size) + ":" + Printed(file.lastModified)
  }

  /** The last colon of a text splits it in one way. */
  lemma LastColonSplits(a: string, x: string, b: string, y: string)
    requires Free(x, ':') && Free(y, ':') && a + ":" + x == b + ":" + y
    ensures a == b && x == y
  {
    var s := a + ":" + x;
    assert |s| == |a| + 1 + |x| == |b| + 1 + |y|;
    assert s[|a|] == ':' && s[|b|] == ':';
    assert forall i :: |a| < i < |s| ==> s[i] == x[i - |a| - 1];
    assert forall i :: |b| < i < |s| ==> s[i] == y[i - |b| - 1];
    assert |a| == |b|;
    assert a == s[..|a|] == b && x == s[|a| + 1..] == y;
  }

  /** The key tells files apart, also when names hold colons. */
  lemma FileKeyInjective(f: File, g: File)
    ensures FileKey(f) == FileKey(g) <==> f == g
  {
    hide Printed;
    if FileKey(f) == FileKey(g) {
      LastColonSplits(f.name + ":" + Printed(f.size), Printed(f.lastModified), g.name + ":" + Printed(g.size),
                      Printed(g.lastModified));
      LastColonSplits(f.name, Printed(f.size), g.name, Printed(g.size));
      PrintedInjective(f.size, g.size);
      PrintedInjective(f.lastModified, g.lastModified);
    }
  }

  /** `dedupeFiles`: a filter that remembers the keys it has let through. */
  method DedupeFiles(files: seq<File>) returns (r: seq<File>)
    ensures r == FirstOf(FileKey, files)
  {
    hide FileKey, HasKey;
    var seen: set<string> := {};
    r := [];
    forall k ensures !HasKey(FileKey, r, k) {
      NoKey(FileKey, k);
    }
    for i := 0 to |files|
      invariant r == FirstOf(FileKey, files[..i])
      invariant forall k :: k in seen <==> HasKey(FileKey, r, k)
    {
      var key := FileKey(files[i]);
      assert files[..i + 1][..i] == files[..i];
      if key !in seen {
        forall k ensures HasKey(FileKey, r + [files[i]], k) <==> HasKey(FileKey, r, k) || k == key {
          HasKeySnoc(FileKey, r, files[i], k);
        }
        seen := seen + {key};
        r := r + [files[i]];
      }
    }
    assert files[..|files|] == files;
  }

  function Differs(file: File): File -> bool {
    (item: File) => FileKey(item) != FileKey(file)
  }

  // ---- What a run of edits leaves ----

  function AfterAppend(files: seq<File>, selected: seq<File>): seq<File> {
    FirstOf(FileKey, files + selected)
  }

  function AfterRemove(files: seq<File>, file: File): seq<File> {
    Kept(files, Differs(file))
  }

  datatype Edit = Append(accepted: seq<File>) | Drop(file: File)

  function After(files: seq<File>, edit: Edit): seq<File> {
    match edit
    case Append(selected) => AfterAppend(files, selected)
    case Drop(file) => AfterRemove(files, file)
  }

  function Run(edits: seq<Edit>): seq<File> {
    if edits == [] then [] else After(Run(edits[..|edits| - 1]), edits[|edits| - 1])
  }

  class Upload {
    var files: seq<File>
    var failed: bool
    /** The edits that changed the list so far. */
    ghost var edits: seq<Edit>

    ghost predicate Valid()
      reads this
    {
      files == Run(edits)
    }

    constructor ()
      ensures Valid() && files == [] && !failed && edits == []
    {
      files, failed, edits := [], false, [];
    }

    /** `appendFiles`: nothing but the error flag changes when no file is accepted. */
    method AppendFiles(accepted: File -> bool, next: seq<File>)
      requires Valid()
      modifies this
      ensures Valid()
      ensures failed <==> Kept(next, accepted) == []
      ensures failed ==> files == old(files) && edits == old(edits)
      ensures !failed ==> files == AfterAppend(old(files), Kept(next, accepted))
      ensures !failed ==> edits == old(edits) + [Append(Kept(next, accepted))]
    {
      hide Kept, FirstOf;
      var selected := Kept(next, accepted);
      if selected == [] {
        failed := true;
        return;
      }
      failed := false;
      files := DedupeFiles(files + selected);
      edits := edits + [Append(selected)];
      assert edits[..|edits| - 1] == old(edits);
    }

    /** The remove button of one file. */
    method Remove(file: File)
      requires Valid()
      modifies this`files, this`edits
      ensures Valid()
      ensures files == AfterRemove(old(files), file) && edits == old(edits) + [Drop(file)]
    {
      hide Kept, FirstOf;
      files := Kept(files, Differs(file));
      edits := edits + [Drop(file)];
      assert edits[..|edits| - 1] == old(edits);
    }
  }

  ghost predicate NoDuplicates(files: seq<File>) {
    forall i, j :: 0 <= i < j < |files| ==> files[i] != files[j]
  }

  lemma NoDuplicatesByKey(files: seq<File>)
    ensures NoDuplicates(files) <==> DistinctBy(FileKey, files)
  {
    hide FileKey;
    forall i, j | 0 <= i < j < |files| ensures files[i] != files[j] <==> FileKey(files[i]) != FileKey(files[j]) {
      FileKeyInjective(files[i], files[j]);
    }
  }

  lemma HasKeyIsMember(files: seq<File>, file: File)
    ensures HasKey(FileKey, files, FileKey(file)) <==> file in files
  {
    hide FileKey;
    if HasKey(FileKey, files, FileKey(file)) {
      var i :| 0 <= i < |files| && FileKey(files[i]) == FileKey(file);
      FileKeyInjective(files[i], file);
    }
  }

  /** De-duplicating keeps exactly the files that do not occur before, in order. */
  lemma DedupeExactly(files: seq<File>) returns (index: seq<nat>)
    ensures |index| == |FirstOf(FileKey, files)| && Increasing(index, |files|)
    ensures forall i :: 0 <= i < |index| ==> FirstOf(FileKey, files)[i] == files[index[i]]
    ensures forall r :: 0 <= r < |files| ==> (r in index <==> files[r] !in files[..r])
  {
    hide FileKey, HasKey, FirstOf;
    index := FirstOfInOrder(FileKey, files);
    forall r | 0 <= r < |files| ensures IsFirst(FileKey, files, r) <==> files[r] !in files[..r] {
      HasKeyIsMember(files[..r], files[r]);
    }
  }

  /** A remove button takes its file out, wherever it stands, and keeps the others in order. */
  lemma RemoveExactly(files: seq<File>, file: File) returns (index: seq<nat>)
    ensures |index| == |AfterRemove(files, file)| && Increasing(index, |files|)
    ensures forall i :: 0 <= i < |index| ==> AfterRemove(files, file)[i] == files[index[i]]
    ensures forall r :: 0 <= r < |files| ==> (r in index <==> files[r] != file)
  {
    hide FileKey, Kept;
    index := KeptInOrder(files, Differs(file));
    forall r | 0 <= r < |files| ensures Differs(file)(files[r]) <==> files[r] != file {
      FileKeyInjective(files[r], file);
    }
  }

  lemma AppendMembers(files: seq<File>, selected: seq<File>, file: File)
    ensures file in AfterAppend(files, selected) <==> file in files || file in selected
  {
    hide FileKey, HasKey, FirstOf;
    FirstOfKeys(FileKey, files + selected, FileKey(file));
    HasKeyIsMember(AfterAppend(files, selected), file);
    HasKeyIsMember(files + selected, file);
  }

  lemma RemoveMembers(files: seq<File>, removed: File, file: File)
    ensures file in AfterRemove(files, removed) <==> file in files && file != removed
  {
    hide FileKey, Kept;
    var index := KeptInOrder(files, Differs(removed));
    FileKeyInjective(file, removed);
    if file in AfterRemove(files, removed) {
      var i :| 0 <= i < |index| && Kept(files, Differs(removed))[i] == file;
      assert index[i] in index;
    }
    if file in files && file != removed {
      var r :| 0 <= r < |files| && files[r] == file;
      var i :| 0 <= i < |index| && index[i] == r;
      assert Kept(files, Differs(removed))[i] == file;
    }
  }

  /** A file is wanted when it was accepted at some point and not removed after. */
  ghost predicate Wanted(edits: seq<Edit>, file: File) {
    exists i :: 0 <= i < |edits| && Adds(edits[i], file) && forall j :: i < j < |edits| ==> edits[j] != Drop(file)
  }

  predicate Adds(edit: Edit, file: File) {
    edit.Append? && file in edit.accepted
  }

  lemma WantedSnoc(edits: seq<Edit>, edit: Edit, file: File)
    ensures Wanted(edits + [edit], file) <==> Adds(edit, file) || (Wanted(edits, file) && edit != Drop(file))
  {
    var all := edits + [edit];
    if Wanted(edits, file) && edit != Drop(file) {
      var i :| 0 <= i < |edits| && Adds(edits[i], file) && forall j :: i < j < |edits| ==> edits[j] != Drop(file);
      assert Adds(all[i], file);
    }
    if Adds(edit, file) {
      assert Adds(all[|edits|], file);
    }
    if Wanted(all, file) {
      var i :| 0 <= i < |all| && Adds(all[i], file) && forall j :: i < j < |all| ==> all[j] != Drop(file);
      assert all[|edits|] == edit;
      if i < |edits| {
        assert Adds(edits[i], file);
        assert forall j :: i < j < |edits| ==> edits[j] == all[j];
      }
    }
  }

  /** Over any run of edits the list never holds a file twice, and holds exactly the wanted ones. */
  lemma {:induction false} RunHoldsWanted(edits: seq<Edit>)
    ensures NoDuplicates(Run(edits)) && forall file :: file in Run(edits) <==> Wanted(edits, file)
  {
    hide FirstOf, Kept, Wanted, Adds;
    if edits != [] {
      var n := |edits| - 1;
      var front, last := edits[..n], edits[n];
      RunHoldsWanted(front);
      assert edits == front + [last];
      forall file ensures file in Run(edits) <==> Wanted(edits, file) {
        WantedSnoc(front, last, file);
        MembersAfter(Run(front), last, file);
      }
      DistinctAfter(Run(front), last);
    } else {
      forall file ensures !Wanted(edits, file) {
        NothingWanted(file);
      }
    }
  }

  lemma NothingWanted(file: File)
    ensures !Wanted([], file)
  {
  }

  lemma MembersAfter(files: seq<File>, edit: Edit, file: File)
    ensures file in After(files, edit) <==> Adds(edit, file) || (file in files && edit != Drop(file))
  {
    hide AfterAppend, AfterRemove;
    match edit
    case Append(selected) => AppendMembers(files, selected, file);
    case Drop(removed) => RemoveMembers(files, removed, file);
  }

  lemma DistinctAfter(files: seq<File>, edit: Edit)
    requires NoDuplicates(files)
    ensures NoDuplicates(After(files, edit))
  {
    hide FirstOf, Kept, NoDuplicates, DistinctBy;
    NoDuplicatesByKey(After(files, edit));
    match edit
    case Append(selected) => FirstOfDistinct(FileKey, files + selected);
    case Drop(removed) => DistinctKept(files, Differs(removed));
  }

  lemma DistinctKept(files: seq<File>, keep: File -> bool)
    requires NoDuplicates(files)
    ensures DistinctBy(FileKey, Kept(files, keep))
  {
    hide Kept;
    var index := KeptInOrder(files, keep);
    NoDuplicatesByKey(Kept(files, keep));
  }

  /** An append keeps the current list as it is, in front. */
  lemma AppendKeepsPrefix(files: seq<File>, selected: seq<File>)
    requires NoDuplicates(files)
    ensures files <= AfterAppend(files, selected)
  {
    hide FirstOf, NoDuplicates, DistinctBy;
    NoDuplicatesByKey(files);
    FirstOfSelf(FileKey, files);
    FirstOfPrefix(FileKey, files, selected);
  }

  /** De-duplicating twice is de-duplicating once. */
  lemma DedupeIdempotent(files: seq<File>)
    ensures FirstOf(FileKey, FirstOf(FileKey, files)) == FirstOf(FileKey, files)
  {
    hide FirstOf;
    FirstOfDistinct(FileKey, files);
    FirstOfSelf(FileKey, FirstOf(FileKey, files));
  }
}

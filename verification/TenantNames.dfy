/** Tenant ids of scripts/provision-pilot-account.ts: the slug of a company name and the search for a
    free id. `lower` stands for `toLowerCase`. */
module TenantNames {
  import opened Options
  import opened Text

  // ---- Slugs ----

  predicate IsSlugChar(c: char) {
    'a' <= c <= 'z' || '0' <= c <= '9'
  }

  function Latin(c: char): char {
    match c
    case '\U{011F}' => 'g'
    case '\U{00FC}' => 'u'
    case '\U{015F}' => 's'
    case '\U{0131}' => 'i'
    case '\U{00F6}' => 'o'
    case '\U{00E7}' => 'c'
    case _ => c
  }

  function LatinText(s: string): (r: string)
    ensures |r| == |s| && forall i :: 0 <= i < |s| ==> r[i] == Latin(s[i])
  {
    seq(|s|, i requires 0 <= i < |s| => Latin(s[i]))
  }

  predicate EndsInSlug(s: string) {
    s != "" && IsSlugChar(s[|s| - 1])
  }

  /** `.replace(/[^a-z0-9]+/g, "-")`: each run of other characters becomes one dash. */
  function DashRuns(s: string): string {
    if s == "" then ""
    else
      var front, c := s[..|s| - 1], s[|s| - 1];
      if IsSlugChar(c) then DashRuns(front) + [c]
      else if front == "" || IsSlugChar(front[|front| - 1]) then DashRuns(front) + "-"
      else DashRuns(front)
  }

  function DropLeadingDashes(s: string): string {
    if s != "" && s[0] == '-' then DropLeadingDashes(s[1..]) else s
  }

  function DropTrailingDashes(s: string): string {
    if s != "" && s[|s| - 1] == '-' then DropTrailingDashes(s[..|s| - 1]) else s
  }

  /** `.replace(/-{2,}/g, "-")`. */
  function SingleDashes(s: string): string {
    if s == "" then ""
    else if |s| >= 2 && s[|s| - 1] == '-' && s[|s| - 2] == '-' then SingleDashes(s[..|s| - 1])
    else SingleDashes(s[..|s| - 1]) + [s[|s| - 1]]
  }

  function NormalizeSlugPart(lower: string -> string, value: string): string {
    SingleDashes(DropTrailingDashes(DropLeadingDashes(DashRuns(LatinText(lower(Trim(value)))))))
  }

  /** The words of a text: its maximal runs of slug characters. */
  function Words(s: string): seq<string> {
    if s == "" then []
    else
      var front, c := s[..|s| - 1], s[|s| - 1];
      var words := Words(front);
      if !IsSlugChar(c) then words
      else if EndsInSlug(front) && words != [] then words[..|words| - 1] + [words[|words| - 1] + [c]]
      else words + [[c]]
  }

  predicate IsWord(w: string) {
    w != "" && forall i :: 0 <= i < |w| ==> IsSlugChar(w[i])
  }

  predicate AllWords(words: seq<string>) {
    forall i :: 0 <= i < |words| ==> IsWord(words[i])
  }

  lemma {:induction false} WordsAreWords(s: string)
    ensures AllWords(Words(s)) && (EndsInSlug(s) ==> Words(s) != [])
  {
    if s != "" {
      WordsAreWords(s[..|s| - 1]);
    }
  }

  /** What `DashRuns` makes of a text: its words joined by dashes, with one more dash for other
      characters in front and one for other characters behind. */
  function Dashed(s: string): string {
    if s == "" then ""
    else if Words(s) == [] then "-"
    else (if IsSlugChar(s[0]) then "" else "-") + Join(Words(s), "-") + (if EndsInSlug(s) then "" else "-")
  }

  lemma {:induction false} DashRunsAreWords(s: string)
    ensures DashRuns(s) == Dashed(s)
  {
    hide Words, Join;
    if s != "" {
      var front, c := s[..|s| - 1], s[|s| - 1];
      DashRunsAreWords(front);
      WordsAreWords(front);
      assert front != "" ==> s[0] == front[0];
      DashStep(front, c);
      assert s == front + [c];
    }
  }

  lemma WordsSnoc(front: string, c: char)
    ensures Words(front + [c]) ==
            if !IsSlugChar(c) then Words(front)
            else if EndsInSlug(front) && Words(front) != [] then
              Words(front)[..|Words(front)| - 1] + [Words(front)[|Words(front)| - 1] + [c]]
            else Words(front) + [[c]]
  {
  }

  lemma SplitLast<T>(s: seq<T>)
    requires s != []
    ensures s == s[..|s| - 1] + [s[|s| - 1]]
  {
  }

  lemma JoinExtendLast(words: seq<string>, c: char)
    requires words != []
    ensures Join(words[..|words| - 1] + [words[|words| - 1] + [c]], "-") == Join(words, "-") + [c]
  {
    hide Join;
    SplitLast(words);
    JoinExtend(words[..|words| - 1], words[|words| - 1], [c], "-");
  }

  lemma {:induction false} FirstSlugGivesWord(s: string)
    requires s != "" && IsSlugChar(s[0])
    ensures Words(s) != []
  {
    if |s| > 1 {
      FirstSlugGivesWord(s[..|s| - 1]);
    }
  }

  lemma NoWords()
    ensures Words("") == []
  {
  }

  lemma DashStep(front: string, c: char)
    ensures Dashed(front + [c]) ==
            if IsSlugChar(c) then Dashed(front) + [c]
            else if front == "" || IsSlugChar(front[|front| - 1]) then Dashed(front) + "-"
            else Dashed(front)
  {
    hide Words;
    hide Join;
    var s := front + [c];
    WordsSnoc(front, c);
    NoWords();
    WordsAreWords(front);
    var words := Words(front);
    if front != "" {
      assert s[0] == front[0];
      if IsSlugChar(front[0]) {
        FirstSlugGivesWord(front);
      }
    }
    if IsSlugChar(c) {
      JoinSingle([c], "-");
      if EndsInSlug(front) {
        JoinExtendLast(words, c);
      } else if words != [] {
        JoinSnoc(words, [c], "-");
        var head := if IsSlugChar(s[0]) then "" else "-";
        assert Dashed(front) + [c] == head + Join(words, "-") + "-" + [c] == head + (Join(words, "-") + "-" + [c]);
      } else {
        assert words + [[c]] == [[c]];
      }
    }
  }

  predicate DashPair(s: string, i: nat)
    requires i + 1 < |s|
  {
    s[i] == '-' && s[i + 1] == '-'
  }

  predicate SinglyDashed(s: string) {
    forall i :: 0 <= i < |s| - 1 ==> !DashPair(s, i)
  }

  lemma {:induction false} JoinedWordsShape(words: seq<string>)
    requires AllWords(words)
    ensures var s := Join(words, "-");
            && (words == [] <==> s == "")
            && (s != "" ==> IsSlugChar(s[0]) && IsSlugChar(s[|s| - 1]))
            && (forall i :: 0 <= i < |s| ==> IsSlugChar(s[i]) || s[i] == '-')
            && SinglyDashed(s)
    decreases |words|
  {
    if |words| > 1 {
      var rest := words[1..];
      JoinedWordsShape(rest);
      var r := Join(rest, "-");
      var s := Join(words, "-");
      assert s == words[0] + "-" + r;
      forall i | 0 <= i < |s| - 1 ensures !DashPair(s, i) {
        if i > |words[0]| { assert !DashPair(r, i - |words[0]| - 1); }
      }
    } else if |words| == 1 {
      assert IsWord(words[0]);
    }
  }

  lemma {:induction false} SingleDashesKeep(s: string)
    requires SinglyDashed(s)
    ensures SingleDashes(s) == s
  {
    if s != "" {
      var front := s[..|s| - 1];
      forall i | 0 <= i < |front| - 1 ensures !DashPair(front, i) {
        assert !DashPair(s, i);
      }
      SingleDashesKeep(front);
      assert s == front + [s[|s| - 1]];
      assert |s| >= 2 ==> !DashPair(s, |s| - 2);
    }
  }

  lemma DropLeadingOne(u: string)
    requires u != "" && u[0] != '-'
    ensures DropLeadingDashes("-" + u) == u && DropLeadingDashes(u) == u
  {
  }

  lemma DropTrailingOne(t: string)
    requires t != "" && t[|t| - 1] != '-'
    ensures DropTrailingDashes(t + "-") == t && DropTrailingDashes(t) == t
  {
  }

  lemma DropOuterDashes(t: string, lead: bool, trail: bool)
    requires t != "" && t[0] != '-' && t[|t| - 1] != '-'
    ensures DropTrailingDashes(DropLeadingDashes((if lead then "-" else "") + t + (if trail then "-" else ""))) == t
  {
    hide DropLeadingDashes;
    hide DropTrailingDashes;
    var u := t + if trail then "-" else "";
    DropLeadingOne(u);
    DropTrailingOne(t);
    assert (if lead then "-" else "") + t + (if trail then "-" else "") == if lead then "-" + u else u;
    assert u == if trail then t + "-" else t;
  }

  /** Before the last collapse the slug is already the words joined by single dashes. */
  lemma StrippedIsWords(s: string)
    ensures DropTrailingDashes(DropLeadingDashes(DashRuns(s))) == Join(Words(s), "-")
  {
    DashRunsAreWords(s);
    WordsAreWords(s);
    JoinedWordsShape(Words(s));
    if Words(s) == [] {
      if s != "" { assert "-"[1..] == ""; }
    } else {
      DropOuterDashes(Join(Words(s), "-"), !IsSlugChar(s[0]), !EndsInSlug(s));
    }
  }

  lemma SlugIsJoinedWords(lower: string -> string, value: string)
    ensures var text := LatinText(lower(Trim(value)));
            && NormalizeSlugPart(lower, value) == Join(Words(text), "-")
            && NormalizeSlugPart(lower, value) == DropTrailingDashes(DropLeadingDashes(DashRuns(text)))
            && AllWords(Words(text))
  {
    var text := LatinText(lower(Trim(value)));
    StrippedIsWords(text);
    WordsAreWords(text);
    JoinedWordsShape(Words(text));
    SingleDashesKeep(Join(Words(text), "-"));
  }

  predicate NoSlugChars(s: string) {
    forall i :: 0 <= i < |s| ==> !IsSlugChar(s[i])
  }

  /** The words with the gaps around them; between two words there is one. */
  ghost predicate AreMaximalRuns(words: seq<string>, gaps: seq<string>, text: string) {
    && |gaps| == |words| + 1 && Woven(gaps, words) == text
    && AllWords(words)
    && (forall i :: 0 <= i < |gaps| ==> NoSlugChars(gaps[i]))
    && (forall i :: 0 < i < |gaps| - 1 ==> gaps[i] != "")
  }
  lemma OneGap()
    ensures AreMaximalRuns([], [""], "")
  {
  }

  /** The last word grows when nothing stands behind it. */
  lemma GrowWord(words: seq<string>, gaps: seq<string>, text: string, c: char)
    requires AreMaximalRuns(words, gaps, text) && words != [] && gaps[|words|] == "" && IsSlugChar(c)
    ensures AreMaximalRuns(words[..|words| - 1] + [words[|words| - 1] + [c]], gaps, text + [c])
  {
    hide Woven, IsSlugChar;
    var n := |words| - 1;
    var before, lead, w := words[..n], gaps[..n + 1], words[n];
    assert words == before + [w] && gaps == lead + [""];
    WovenSnoc(lead, before, w, "");
    WovenSnoc(lead, before, w + [c], "");
    assert Woven(lead, before) + (w + [c]) + "" == (Woven(lead, before) + w + "") + [c];
  }

  lemma NewWord(words: seq<string>, gaps: seq<string>, text: string, c: char)
    requires AreMaximalRuns(words, gaps, text) && (words != [] ==> gaps[|words|] != "") && IsSlugChar(c)
    ensures AreMaximalRuns(words + [[c]], gaps + [""], text + [c])
  {
    hide Woven, IsSlugChar;
    WovenSnoc(gaps, words, [c], "");
  }

  lemma GrowGap(words: seq<string>, gaps: seq<string>, text: string, c: char)
    requires AreMaximalRuns(words, gaps, text) && !IsSlugChar(c)
    ensures AreMaximalRuns(words, gaps[..|words|] + [gaps[|words|] + [c]], text + [c])
  {
    hide Woven, IsSlugChar;
    WovenExtend(gaps, words, [c]);
  }

  lemma {:induction false} WordsAreRuns(text: string) returns (gaps: seq<string>)
    ensures AreMaximalRuns(Words(text), gaps, text)
    ensures EndsInSlug(text) <==> Words(text) != [] && gaps[|Words(text)|] == ""
  {
    hide AreMaximalRuns;
    if text == "" {
      gaps := [""];
      OneGap();
    } else {
      var front, c := text[..|text| - 1], text[|text| - 1];
      var words := Words(front);
      gaps := WordsAreRuns(front);
      assert text == front + [c];
      RunsFit(words, gaps, front);
      if !IsSlugChar(c) {
        GrowGap(words, gaps, front, c);
        gaps := gaps[..|words|] + [gaps[|words|] + [c]];
      } else if EndsInSlug(front) {
        GrowWord(words, gaps, front, c);
      } else {
        NewWord(words, gaps, front, c);
        gaps := gaps + [""];
      }
    }
  }

  lemma RunsFit(words: seq<string>, gaps: seq<string>, text: string)
    requires AreMaximalRuns(words, gaps, text)
    ensures |gaps| == |words| + 1
  {
  }

  /** The Turkish letters become Latin ones, every other character stays. */
  predicate IsLatinised(text: string, lowered: string) {
    |text| == |lowered|
    && forall i :: 0 <= i < |text| ==>
         var c := lowered[i];
         && (c == '\U{011F}' ==> text[i] == 'g') && (c == '\U{00FC}' ==> text[i] == 'u')
         && (c == '\U{015F}' ==> text[i] == 's') && (c == '\U{0131}' ==> text[i] == 'i')
         && (c == '\U{00F6}' ==> text[i] == 'o') && (c == '\U{00E7}' ==> text[i] == 'c')
         && (c !in "\U{011F}\U{00FC}\U{015F}\U{0131}\U{00F6}\U{00E7}" ==> text[i] == c)
  }

  /** A slug is the words of the transliterated name, its maximal runs of `[a-z0-9]`, joined by single dashes; the
      final collapse of dashes never changes anything. */
  lemma SlugIsWords(lower: string -> string, value: string)
    returns (text: string, words: seq<string>, gaps: seq<string>)
    ensures IsLatinised(text, lower(Trim(value))) && AreMaximalRuns(words, gaps, text)
    ensures forall i, k :: 0 <= i < |words| && 0 <= k < |words[i]| ==>
              'a' <= words[i][k] <= 'z' || '0' <= words[i][k] <= '9'
    ensures forall i, k :: 0 <= i < |gaps| && 0 <= k < |gaps[i]| ==>
              !('a' <= gaps[i][k] <= 'z') && !('0' <= gaps[i][k] <= '9')
    ensures NormalizeSlugPart(lower, value) == Join(words, "-")
            == DropTrailingDashes(DropLeadingDashes(DashRuns(text)))
  {
    hide Words, NormalizeSlugPart, Join, DashRuns, Trim, Woven;
    text := LatinText(lower(Trim(value)));
    words := Words(text);
    gaps := WordsAreRuns(text);
    SlugIsJoinedWords(lower, value);
  }

  lemma {:induction false} WordsOfWord(w: string)
    requires IsWord(w)
    ensures Words(w) == [w]
  {
    if |w| == 1 {
      assert w[..0] == "";
      assert w == [w[0]];
    } else {
      WordsOfWord(w[..|w| - 1]);
      assert w == w[..|w| - 1] + [w[|w| - 1]];
    }
  }

  lemma {:induction false} WordsAfterDash(a: string, b: string)
    requires b == "" || !EndsInSlug(a)
    ensures Words(a + b) == Words(a) + Words(b)
    decreases |b|
  {
    hide Words;
    NoWords();
    if b == "" {
      assert a + b == a;
    } else {
      var b', c := b[..|b| - 1], b[|b| - 1];
      assert a + b == (a + b') + [c] && b == b' + [c];
      WordsAfterDash(a, b');
      WordsSnoc(a + b', c);
      WordsSnoc(b', c);
      WordsAreWords(b');
      var words, more := Words(a), Words(b');
      assert EndsInSlug(a + b') <==> EndsInSlug(b') by {
        if b' == "" { assert a + b' == a; }
      }
      if IsSlugChar(c) {
        if EndsInSlug(b') {
          assert (words + more)[..|words + more| - 1] == words + more[..|more| - 1];
          assert (words + more)[|words + more| - 1] == more[|more| - 1];
        } else {
          assert words + (more + [[c]]) == (words + more) + [[c]];
        }
      }
    }
  }

  lemma {:induction false} WordsOfJoined(words: seq<string>)
    requires AllWords(words)
    ensures Words(Join(words, "-")) == words
    decreases |words|
  {
    if |words| == 1 {
      WordsOfWord(words[0]);
    } else if |words| > 1 {
      var rest := Join(words[1..], "-");
      WordsOfJoined(words[1..]);
      WordsOfWord(words[0]);
      WordsSnoc(words[0], '-');
      WordsAfterDash(words[0] + "-", rest);
      assert words[0] + "-" + rest == Join(words, "-");
    }
  }

  /** Case folding leaves slug text alone. */
  ghost predicate KeepsSlugs(lower: string -> string) {
    forall s :: (forall i :: 0 <= i < |s| ==> IsSlugChar(s[i]) || s[i] == '-') ==> lower(s) == s
  }

  lemma SlugIdempotent(lower: string -> string, value: string)
    requires KeepsSlugs(lower)
    ensures NormalizeSlugPart(lower, NormalizeSlugPart(lower, value)) == NormalizeSlugPart(lower, value)
  {
    hide NormalizeSlugPart;
    hide Words;
    hide Join;
    hide Trim;
    hide DashRuns;
    var slug := NormalizeSlugPart(lower, value);
    var words := Words(LatinText(lower(Trim(value))));
    SlugIsJoinedWords(lower, value);
    SlugIsJoinedWords(lower, slug);
    JoinedWordsShape(words);
    TrimTrimmed(slug);
    assert lower(slug) == slug;
    assert LatinText(slug) == slug;
    WordsOfJoined(words);
  }

  // ---- The free id ----

  const FIRST_SUFFIX := 2
  const SUFFIX_LIMIT := 10_000

  function Candidate(direct: string, suffix: nat): string {
    direct + "_" + Decimal(suffix)
  }

  function DirectId(lower: string -> string, companyName: string): string {
    var slug := NormalizeSlugPart(lower, companyName);
    "ten_" + if slug == "" then "pilot" else slug
  }

  function FreeSuffix(taken: set<string>, direct: string, suffix: nat): Option<string>
    requires suffix <= SUFFIX_LIMIT
    decreases SUFFIX_LIMIT - suffix
  {
    if suffix == SUFFIX_LIMIT then None
    else if Candidate(direct, suffix) !in taken then Some(Candidate(direct, suffix))
    else FreeSuffix(taken, direct, suffix + 1)
  }

  /** `resolveTenantId`; `None` is the exception. */
  function TenantId(lower: string -> string, taken: set<string>, explicit: Option<string>,
                    companyName: string): Option<string> {
    if explicit.Some? then explicit
    else
      var direct := DirectId(lower, companyName);
      if direct !in taken then Some(direct) else FreeSuffix(taken, direct, FIRST_SUFFIX)
  }

  method ResolveTenantId(lower: string -> string, taken: set<string>, explicit: Option<string>, companyName: string)
    returns (id: Option<string>)
    ensures id == TenantId(lower, taken, explicit, companyName)
  {
    if explicit.Some? {
      return explicit;
    }
    var slug := NormalizeSlugPart(lower, companyName);
    var direct := "ten_" + if slug == "" then "pilot" else slug;
    if direct !in taken {
      return Some(direct);
    }
    var suffix := FIRST_SUFFIX;
    while suffix < SUFFIX_LIMIT
      invariant FIRST_SUFFIX <= suffix <= SUFFIX_LIMIT
      invariant FreeSuffix(taken, direct, suffix) == FreeSuffix(taken, direct, FIRST_SUFFIX)
    {
      var candidate := Candidate(direct, suffix);
      if candidate !in taken {
        return Some(candidate);
      }
      suffix := suffix + 1;
    }
    return None;
  }

  lemma {:induction false} FreeSuffixLeast(taken: set<string>, direct: string, suffix: nat) returns (k: nat)
    requires suffix <= SUFFIX_LIMIT
    ensures suffix <= k <= SUFFIX_LIMIT && forall j :: suffix <= j < k ==> Candidate(direct, j) in taken
    ensures FreeSuffix(taken, direct, suffix) == if k == SUFFIX_LIMIT then None else Some(Candidate(direct, k))
    ensures k < SUFFIX_LIMIT ==> Candidate(direct, k) !in taken
    decreases SUFFIX_LIMIT - suffix
  {
    hide Candidate;
    if suffix < SUFFIX_LIMIT && Candidate(direct, suffix) in taken {
      k := FreeSuffixLeast(taken, direct, suffix + 1);
    } else {
      k := suffix;
    }
  }

  lemma CandidateInjective(direct: string, j: nat, k: nat)
    requires Candidate(direct, j) == Candidate(direct, k)
    ensures j == k
  {
    var p := direct + "_";
    assert Candidate(direct, j)[|p|..] == Decimal(j) && Candidate(direct, k)[|p|..] == Decimal(k);
    DecimalInjective(j, k);
  }

  lemma CandidateIsLonger(direct: string, k: nat)
    ensures |Candidate(direct, k)| > |direct|
  {
    hide Decimal;
  }

  function Candidates(direct: string, n: nat): set<string>
    requires n >= FIRST_SUFFIX
    decreases n
  {
    if n == FIRST_SUFFIX then {direct} else Candidates(direct, n - 1) + {Candidate(direct, n - 1)}
  }

  lemma {:induction false} CandidatesCount(direct: string, n: nat)
    requires n >= FIRST_SUFFIX
    ensures |Candidates(direct, n)| == n - 1
    ensures forall id :: id in Candidates(direct, n) ==>
              id == direct || exists k :: FIRST_SUFFIX <= k < n && id == Candidate(direct, k)
    decreases n
  {
    hide Candidate;
    if n > FIRST_SUFFIX {
      CandidatesCount(direct, n - 1);
      var next := Candidate(direct, n - 1);
      CandidateIsLonger(direct, n - 1);
      if next in Candidates(direct, n - 1) && next != direct {
        var k :| FIRST_SUFFIX <= k < n - 1 && next == Candidate(direct, k);
        CandidateInjective(direct, k, n - 1);
      }
    }
  }

  /** The plain id and every suffixed one are taken. */
  ghost predicate AllTaken(taken: set<string>, direct: string) {
    direct in taken && forall j :: 2 <= j < 10_000 ==> direct + "_" + Decimal(j) in taken
  }

  /** A given id is taken as it is. Without one the search finds a free id: "ten_" and the slug, or "pilot" for an
      empty one, if free, else that with the least free suffix from 2. It fails exactly when all 9999 are taken. */
  lemma TenantIdIsFree(lower: string -> string, taken: set<string>, explicit: Option<string>, companyName: string)
    ensures explicit.Some? ==> TenantId(lower, taken, explicit, companyName) == explicit
    ensures explicit.None? ==>
              var id := TenantId(lower, taken, explicit, companyName);
              var slug := NormalizeSlugPart(lower, companyName);
              var direct := "ten_" + if slug == "" then "pilot" else slug;
              && (id.Some? ==> id.value !in taken)
              && (direct !in taken ==> id == Some(direct))
              && (direct in taken && id.Some? ==>
                    exists k :: 2 <= k < 10_000 && id.value == direct + "_" + Decimal(k)
                                && forall j :: 2 <= j < k ==> direct + "_" + Decimal(j) in taken)
              && (id.None? <==> AllTaken(taken, direct))
  {
    hide NormalizeSlugPart, FreeSuffix, Decimal;
    var direct := DirectId(lower, companyName);
    var free := FreeSuffixLeast(taken, direct, FIRST_SUFFIX);
    forall j: nat | 2 <= j < free ensures direct + "_" + Decimal(j) in taken {
      assert Candidate(direct, j) in taken;
    }
    if free < SUFFIX_LIMIT {
      assert Candidate(direct, free) == direct + "_" + Decimal(free);
    }
  }

  lemma SubsetCount<T>(a: set<T>, b: set<T>)
    requires a <= b
    ensures |a| <= |b|
  {
    assert b == a + (b - a);
  }

  /** The names differ, so that takes at least 9999 tenants. */
  lemma AllTakenIsMany(taken: set<string>, direct: string)
    requires AllTaken(taken, direct)
    ensures |taken| >= 9_999
  {
    hide Decimal, Candidates;
    CandidatesCount(direct, SUFFIX_LIMIT);
    forall id | id in Candidates(direct, SUFFIX_LIMIT) ensures id in taken {
      if id != direct {
        var k :| FIRST_SUFFIX <= k < SUFFIX_LIMIT && id == Candidate(direct, k);
      }
    }
    SubsetCount(Candidates(direct, SUFFIX_LIMIT), taken);
  }
}

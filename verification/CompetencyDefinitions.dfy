/** Competency definitions of a job profile: `competencyKey` and `attachSelectedCompetencyDefinitions` of
    apps/web/components/job-editor-form.tsx. `fold` stands for `toLocaleLowerCase("tr-TR")`. */
module CompetencyDefinitions {
  import opened Keyed
  import opened Options
  import opened Text

  datatype Category = Core | Functional | Technical | Managerial

  function CategoryText(c: Category): (s: string)
    ensures Free(s, ':')
  {
    match c
    case Core => "core"
    case Functional => "functional"
    case Technical => "technical"
    case Managerial => "managerial"
  }

  datatype Definition = Definition(name: string, category: Category, definition: string,
                                   expectedBehavior: Option<string>)

  function CompetencyKey(fold: string -> string, category: Category, name: string): string {
    CategoryText(category) + ":" + fold(Trim(name))
  }

  lemma CategoryTextInjective(a: Category, b: Category)
    ensures CategoryText(a) == CategoryText(b) ==> a == b
  {
  }

  lemma ColonSplits(a: string, x: string, b: string, y: string)
    requires Free(a, ':') && Free(b, ':') && a + ":" + x == b + ":" + y
    ensures a == b && x == y
  {
    var s := a + ":" + x;
    assert s[..|a|] == a && s[..|b|] == b && s[|a|] == ':' && s[|b|] == ':';
    IndexOfUnique(s, ':', |a|);
    IndexOfUnique(s, ':', |b|);
    assert s[|a| + 1..] == x && s[|b| + 1..] == y;
  }

  /** Two keys are equal exactly when the category and the folded name are. */
  lemma CompetencyKeyInjective(fold: string -> string, a: Category, x: string, b: Category, y: string)
    ensures CompetencyKey(fold, a, x) == CompetencyKey(fold, b, y) <==> a == b && fold(Trim(x)) == fold(Trim(y))
  {
    hide Trim, CategoryText;
    if CompetencyKey(fold, a, x) == CompetencyKey(fold, b, y) {
      ColonSplits(CategoryText(a), fold(Trim(x)), CategoryText(b), fold(Trim(y)));
      CategoryTextInjective(a, b);
    }
  }

  function KeyOf(fold: string -> string): Definition -> string {
    (d: Definition) => CompetencyKey(fold, d.category, d.name)
  }

  datatype CompetencySets = CompetencySets(core: seq<string>, functional: seq<string>, technical: seq<string>,
                                           managerial: seq<string>)

  /** A name of its own category selects a definition, up to trimming and folding. */
  ghost predicate Selected(fold: string -> string, sets: CompetencySets, d: Definition) {
    exists name :: && fold(Trim(name)) == fold(Trim(d.name))
                   && match d.category
                      case Core => name in sets.core
                      case Functional => name in sets.functional
                      case Technical => name in sets.technical
                      case Managerial => name in sets.managerial
  }

  ghost function SelectedKeys(fold: string -> string, category: Category, values: seq<string>): set<string> {
    set i | 0 <= i < |values| :: CompetencyKey(fold, category, values[i])
  }

  /** `addSelected`. */
  method AddSelected(fold: string -> string, selected: set<string>, category: Category, values: seq<string>)
    returns (r: set<string>)
    ensures r == selected + SelectedKeys(fold, category, values)
  {
    hide CompetencyKey;
    r := selected;
    for i := 0 to |values|
      invariant r == selected + set k | 0 <= k < i :: CompetencyKey(fold, category, values[k])
    {
      r := r + {CompetencyKey(fold, category, values[i])};
    }
  }

  lemma SelectedKeysExact(fold: string -> string, category: Category, values: seq<string>, d: Definition)
    ensures KeyOf(fold)(d) in SelectedKeys(fold, category, values)
       <==> category == d.category && exists name :: name in values && fold(Trim(name)) == fold(Trim(d.name))
  {
    hide CompetencyKey, Trim;
    forall i | 0 <= i < |values|
      ensures CompetencyKey(fold, category, values[i]) == KeyOf(fold)(d)
         <==> category == d.category && fold(Trim(values[i])) == fold(Trim(d.name))
    {
      CompetencyKeyInjective(fold, category, values[i], d.category, d.name);
    }
    if category == d.category && exists name :: name in values && fold(Trim(name)) == fold(Trim(d.name)) {
      var name :| name in values && fold(Trim(name)) == fold(Trim(d.name));
      var i :| 0 <= i < |values| && values[i] == name;
      assert CompetencyKey(fold, category, values[i]) == KeyOf(fold)(d);
    }
  }

  ghost function AllSelectedKeys(fold: string -> string, sets: CompetencySets): set<string> {
    SelectedKeys(fold, Core, sets.core) + SelectedKeys(fold, Functional, sets.functional)
    + SelectedKeys(fold, Technical, sets.technical) + SelectedKeys(fold, Managerial, sets.managerial)
  }

  lemma AllSelectedKeysExact(fold: string -> string, sets: CompetencySets, d: Definition)
    ensures KeyOf(fold)(d) in AllSelectedKeys(fold, sets) <==> Selected(fold, sets, d)
  {
    hide SelectedKeys, KeyOf, Trim;
    SelectedKeysExact(fold, Core, sets.core, d);
    SelectedKeysExact(fold, Functional, sets.functional, d);
    SelectedKeysExact(fold, Technical, sets.technical, d);
    SelectedKeysExact(fold, Managerial, sets.managerial, d);
  }

  /** Membership of the collected key set, as the filter of the two loops. */
  ghost function Picks(fold: string -> string, sets: CompetencySets): Definition -> bool {
    (d: Definition) => KeyOf(fold)(d) in AllSelectedKeys(fold, sets)
  }

  /** The selected definitions of both sources, the profile's first. */
  ghost function Candidates(fold: string -> string, sets: CompetencySets, own: seq<Definition>, tenant: seq<Definition>)
    : seq<Definition>
  {
    Kept(own, Picks(fold, sets)) + Kept(tenant, Picks(fold, sets))
  }

  ghost function Attached(fold: string -> string, sets: CompetencySets, own: seq<Definition>, tenant: seq<Definition>)
    : seq<Definition>
  {
    Puts(KeyOf(fold), Candidates(fold, sets, own, tenant))
  }

  lemma PutNext(fold: string -> string, sets: CompetencySets, before: seq<Definition>, source: seq<Definition>, i: nat)
    requires i < |source|
    ensures var picks := Picks(fold, sets);
            var all := before + Kept(source[..i], picks);
            Puts(KeyOf(fold), before + Kept(source[..i + 1], picks))
            == if picks(source[i]) then Put(KeyOf(fold), Puts(KeyOf(fold), all), source[i]) else Puts(KeyOf(fold), all)
  {
    hide AllSelectedKeys, KeyOf, Put;
    var picks := Picks(fold, sets);
    var all := before + Kept(source[..i], picks);
    assert source[..i + 1][..i] == source[..i];
    if picks(source[i]) {
      assert before + Kept(source[..i + 1], picks) == all + [source[i]];
      assert (all + [source[i]])[..|all|] == all;
    }
  }

  /** One of the two loops over a definition list. */
  method PutSelected(fold: string -> string, selected: set<string>, definitions: seq<Definition>,
                     source: seq<Definition>, ghost sets: CompetencySets, ghost before: seq<Definition>)
    returns (r: seq<Definition>)
    requires selected == AllSelectedKeys(fold, sets) && definitions == Puts(KeyOf(fold), before)
    ensures r == Puts(KeyOf(fold), before + Kept(source, Picks(fold, sets)))
  {
    KeptNone(Picks(fold, sets));
    hide AllSelectedKeys, KeyOf, Put, Puts, Kept;
    r := definitions;
    ghost var picks := Picks(fold, sets);
    assert source[..0] == [] && before + [] == before;
    for i := 0 to |source|
      invariant r == Puts(KeyOf(fold), before + Kept(source[..i], picks))
    {
      PutNext(fold, sets, before, source, i);
      if KeyOf(fold)(source[i]) in selected {
        r := Put(KeyOf(fold), r, source[i]);
      }
    }
    assert source[..|source|] == source;
  }

  method AttachSelectedCompetencyDefinitions(fold: string -> string, sets: CompetencySets, own: seq<Definition>,
                                             tenant: Option<seq<Definition>>)
    returns (r: seq<Definition>)
    ensures r == Attached(fold, sets, own, if tenant.Some? then tenant.value else [])
  {
    hide CompetencyKey, KeyOf, Puts, Kept, SelectedKeys;
    var selected := AddSelected(fold, {}, Core, sets.core);
    selected := AddSelected(fold, selected, Functional, sets.functional);
    selected := AddSelected(fold, selected, Technical, sets.technical);
    selected := AddSelected(fold, selected, Managerial, sets.managerial);
    NoPuts(fold);
    r := PutSelected(fold, selected, [], own, sets, []);
    assert [] + Kept(own, Picks(fold, sets)) == Kept(own, Picks(fold, sets));
    r := PutSelected(fold, selected, r, if tenant.Some? then tenant.value else [], sets, Kept(own, Picks(fold, sets)));
  }

  lemma KeptNone(keep: Definition -> bool)
    ensures Kept([], keep) == []
  {
  }

  lemma NoPuts(fold: string -> string)
    ensures Puts(KeyOf(fold), []) == []
  {
  }

  lemma MergeByKey(fold: string -> string, sets: CompetencySets, own: seq<Definition>, tenant: seq<Definition>)
    ensures var r := Attached(fold, sets, own, tenant);
            && DistinctBy(KeyOf(fold), r)
            && SameKeys(KeyOf(fold), r, FirstOf(KeyOf(fold), Kept(own + tenant, Picks(fold, sets))))
            && (forall i :: 0 <= i < |r| ==> Selected(fold, sets, r[i]) && Winner(fold, own, tenant, r[i]))
  {
    hide Puts, KeyOf, Selected, Winner, AllSelectedKeys, Kept, FirstOf;
    var r := Attached(fold, sets, own, tenant);
    PutsDistinct(KeyOf(fold), Candidates(fold, sets, own, tenant));
    PutsKeys(KeyOf(fold), Candidates(fold, sets, own, tenant));
    KeptConcat(own, tenant, Picks(fold, sets));
    forall i | 0 <= i < |r| ensures Selected(fold, sets, r[i]) && Winner(fold, own, tenant, r[i]) {
      MergedWins(fold, sets, own, tenant, i);
    }
  }

  /** The definition that holds under its key: the tenant's last one, else the profile's last one. */
  ghost predicate Winner(fold: string -> string, own: seq<Definition>, tenant: seq<Definition>, d: Definition) {
    var key, k := KeyOf(fold), KeyOf(fold)(d);
    if HasKey(key, tenant, k) then d == LastOf(key, tenant, k) else HasKey(key, own, k) && d == LastOf(key, own, k)
  }

  lemma MergedWins(fold: string -> string, sets: CompetencySets, own: seq<Definition>, tenant: seq<Definition>, i: nat)
    requires i < |Attached(fold, sets, own, tenant)|
    ensures var d := Attached(fold, sets, own, tenant)[i]; Selected(fold, sets, d) && Winner(fold, own, tenant, d)
  {
    hide Puts, KeyOf, Selected, AllSelectedKeys, Kept, LastOf, HasKey;
    var key, keep := KeyOf(fold), Picks(fold, sets);
    var d := Attached(fold, sets, own, tenant)[i];
    PutsLast(key, Candidates(fold, sets, own, tenant), i);
    LastOfConcat(key, Kept(own, keep), Kept(tenant, keep), key(d));
    HasKeyConcat(key, Kept(own, keep), Kept(tenant, keep), key(d));
    KeptIsPicked(fold, sets, own, key(d));
    KeptIsPicked(fold, sets, tenant, key(d));
    AllSelectedKeysExact(fold, sets, d);
    LastOfKept(key, own, keep, key(d));
    LastOfKept(key, tenant, keep, key(d));
  }

  lemma KeptIsPicked(fold: string -> string, sets: CompetencySets, s: seq<Definition>, k: string)
    ensures HasKey(KeyOf(fold), Kept(s, Picks(fold, sets)), k) ==> k in AllSelectedKeys(fold, sets)
  {
    hide KeyOf, AllSelectedKeys;
    var index := KeptInOrder(s, Picks(fold, sets));
    forall i | 0 <= i < |index| ensures KeyOf(fold)(s[index[i]]) in AllSelectedKeys(fold, sets) {
      assert index[i] in index;
    }
  }

  // ---- The merge, definition by definition ----

  /** Of one category, and of one name up to trimming and folding. */
  predicate Same(fold: string -> string, x: Definition, y: Definition) {
    x.category == y.category && fold(Trim(x.name)) == fold(Trim(y.name))
  }

  lemma SameByKey(fold: string -> string, x: Definition, y: Definition)
    ensures KeyOf(fold)(x) == KeyOf(fold)(y) <==> Same(fold, x, y)
  {
    hide CompetencyKey, Trim;
    CompetencyKeyInjective(fold, x.category, x.name, y.category, y.name);
  }

  lemma HasSame(fold: string -> string, s: seq<Definition>, d: Definition)
    ensures HasKey(KeyOf(fold), s, KeyOf(fold)(d)) <==> exists i :: 0 <= i < |s| && Same(fold, s[i], d)
  {
    hide KeyOf, Same;
    forall i | 0 <= i < |s| ensures KeyOf(fold)(s[i]) == KeyOf(fold)(d) <==> Same(fold, s[i], d) {
      SameByKey(fold, s[i], d);
    }
  }

  ghost predicate IsLastAt(fold: string -> string, s: seq<Definition>, d: Definition, p: nat) {
    p < |s| && s[p] == d && forall q :: p < q < |s| ==> !Same(fold, s[q], d)
  }

  /** The tenant's last definition of its kind, or, when the tenant has none, the profile's last. */
  ghost predicate Prevails(fold: string -> string, own: seq<Definition>, tenant: seq<Definition>, d: Definition) {
    if exists i :: 0 <= i < |tenant| && Same(fold, tenant[i], d) then exists p: nat :: IsLastAt(fold, tenant, d, p)
    else exists p: nat :: IsLastAt(fold, own, d, p)
  }

  lemma LastSame(fold: string -> string, s: seq<Definition>, d: Definition)
    requires HasKey(KeyOf(fold), s, KeyOf(fold)(d)) && d == LastOf(KeyOf(fold), s, KeyOf(fold)(d))
    ensures exists p: nat :: IsLastAt(fold, s, d, p)
  {
    hide KeyOf, Same, LastOf;
    var p := LastOfAt(KeyOf(fold), s, KeyOf(fold)(d));
    forall q | p < q < |s| ensures !Same(fold, s[q], d) {
      SameByKey(fold, s[q], d);
    }
    assert IsLastAt(fold, s, d, p);
  }

  lemma WinnerPrevails(fold: string -> string, own: seq<Definition>, tenant: seq<Definition>, d: Definition)
    requires Winner(fold, own, tenant, d)
    ensures Prevails(fold, own, tenant, d)
  {
    hide KeyOf, Same, LastOf, HasKey, IsLastAt;
    HasSame(fold, tenant, d);
    if HasKey(KeyOf(fold), tenant, KeyOf(fold)(d)) {
      LastSame(fold, tenant, d);
    } else {
      LastSame(fold, own, d);
    }
  }

  /** What the merge yields: no two definitions of one kind, in the order in which the kinds first occur, the profile's
      before the tenant's; only selected ones; and of each kind the one that prevails. */
  lemma MergeExact(fold: string -> string, sets: CompetencySets, own: seq<Definition>, tenant: seq<Definition>)
    returns (index: seq<nat>)
    ensures var r, all := Attached(fold, sets, own, tenant), own + tenant;
            && (forall i, j :: 0 <= i < j < |r| ==> !Same(fold, r[i], r[j]))
            && |index| == |r| && Increasing(index, |all|)
            && forall i :: 0 <= i < |r| ==>
                 && Selected(fold, sets, r[i]) && Prevails(fold, own, tenant, r[i])
                 && Same(fold, all[index[i]], r[i]) && forall q :: 0 <= q < index[i] ==> !Same(fold, all[q], r[i])
  {
    hide Attached, KeyOf, Selected, Winner, Prevails, AllSelectedKeys, Kept, FirstOf, Same, HasKey, IsFirst;
    var r, all := Attached(fold, sets, own, tenant), own + tenant;
    var key, picks := KeyOf(fold), Picks(fold, sets);
    MergeByKey(fold, sets, own, tenant);
    var keptAt := KeptInOrder(all, picks);
    var firstAt := FirstOfInOrder(key, Kept(all, picks));
    index := seq(|firstAt|, i requires 0 <= i < |firstAt| => keptAt[firstAt[i]]);
    forall i, j | 0 <= i < j < |r| ensures !Same(fold, r[i], r[j]) {
      SameByKey(fold, r[i], r[j]);
    }
    forall i | 0 <= i < |r|
      ensures Prevails(fold, own, tenant, r[i])
      ensures Same(fold, all[index[i]], r[i]) && forall q :: 0 <= q < index[i] ==> !Same(fold, all[q], r[i])
    {
      WinnerPrevails(fold, own, tenant, r[i]);
      assert firstAt[i] in firstAt;
      SameByKey(fold, all[index[i]], r[i]);
      forall q | 0 <= q < index[i] ensures !Same(fold, all[q], r[i]) {
        FirstPicked(fold, sets, all, keptAt, firstAt[i], q);
        SameByKey(fold, all[q], r[i]);
      }
    }
  }

  /** No definition of a kind stands before its first picked one, for picking goes by kind. */
  lemma FirstPicked(fold: string -> string, sets: CompetencySets, all: seq<Definition>, keptAt: seq<nat>, f: nat,
                    q: nat)
    requires |keptAt| == |Kept(all, Picks(fold, sets))| && Increasing(keptAt, |all|) && f < |keptAt|
    requires forall i :: 0 <= i < |keptAt| ==> Kept(all, Picks(fold, sets))[i] == all[keptAt[i]]
    requires forall r :: 0 <= r < |all| ==> (r in keptAt <==> Picks(fold, sets)(all[r]))
    requires IsFirst(KeyOf(fold), Kept(all, Picks(fold, sets)), f) && q < keptAt[f]
    ensures KeyOf(fold)(all[q]) != KeyOf(fold)(all[keptAt[f]])
  {
    hide KeyOf, Kept, AllSelectedKeys;
    var kept := Kept(all, Picks(fold, sets));
    NoneBefore(KeyOf(fold), kept, f);
    assert keptAt[f] in keptAt;
    if Picks(fold, sets)(all[q]) {
      var i :| 0 <= i < |keptAt| && keptAt[i] == q;
      assert KeyOf(fold)(kept[i]) == KeyOf(fold)(all[q]);
    }
  }

  lemma CoveredByKey(fold: string -> string, sets: CompetencySets, own: seq<Definition>, tenant: seq<Definition>,
                     d: Definition)
    requires d in own + tenant && Selected(fold, sets, d)
    ensures HasKey(KeyOf(fold), Attached(fold, sets, own, tenant), KeyOf(fold)(d))
  {
    hide Puts, KeyOf, Selected, AllSelectedKeys, Kept, HasKey;
    var key, keep, k := KeyOf(fold), Picks(fold, sets), KeyOf(fold)(d);
    AllSelectedKeysExact(fold, sets, d);
    PutsHas(key, Candidates(fold, sets, own, tenant), k);
    KeptConcat(own, tenant, keep);
    LastOfKept(key, own + tenant, keep, k);
    var i :| 0 <= i < |own + tenant| && (own + tenant)[i] == d;
    KeyAt(key, own + tenant, i);
  }

  /** Every selected definition of either source is covered by one of its kind. */
  lemma MergeCovers(fold: string -> string, sets: CompetencySets, own: seq<Definition>, tenant: seq<Definition>,
                    d: Definition)
    requires d in own + tenant && Selected(fold, sets, d)
    ensures var r := Attached(fold, sets, own, tenant); exists i :: 0 <= i < |r| && Same(fold, r[i], d)
  {
    hide Attached, Selected, Same;
    CoveredByKey(fold, sets, own, tenant, d);
    HasSame(fold, Attached(fold, sets, own, tenant), d);
  }

  /** Attaching again changes nothing. */
  lemma AttachIdempotent(fold: string -> string, sets: CompetencySets, own: seq<Definition>, tenant: seq<Definition>)
    ensures Attached(fold, sets, Attached(fold, sets, own, tenant), tenant) == Attached(fold, sets, own, tenant)
  {
    hide Puts, KeyOf, Selected, AllSelectedKeys, Kept, Winner, FirstOf;
    var r := Attached(fold, sets, own, tenant);
    MergeByKey(fold, sets, own, tenant);
    forall i | 0 <= i < |r| ensures Picks(fold, sets)(r[i]) {
      AllSelectedKeysExact(fold, sets, r[i]);
    }
    KeptAll(r, Picks(fold, sets));
    PutsAgain(KeyOf(fold), Kept(own, Picks(fold, sets)), Kept(tenant, Picks(fold, sets)));
  }
}

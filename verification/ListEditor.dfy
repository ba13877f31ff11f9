/** Case-folded lists of a job profile: `appendUniqueValue` of apps/web/lib/job-profile.ts and the preset
    buttons of `StringListEditor` in apps/web/components/job-editor-form.tsx. `fold` stands for
    `toLocaleLowerCase("tr-TR")`. */
module ListEditor {
  import opened Keyed
  import opened Text

  function Folded(fold: string -> string): string -> string {
    (value: string) => fold(Trim(value))
  }

  /** `appendUniqueValue`. */
  function AppendUnique(fold: string -> string, list: seq<string>, value: string): seq<string> {
    if Trim(value) == "" || HasKey(Folded(fold), list, fold(Trim(value))) then list else list + [Trim(value)]
  }

  function Others(fold: string -> string, preset: string): string -> bool {
    (value: string) => fold(Trim(value)) != fold(Trim(preset))
  }

  /** The list after `togglePreset`. */
  function TogglePreset(fold: string -> string, list: seq<string>, preset: string): seq<string> {
    if HasKey(Folded(fold), list, fold(Trim(preset))) then Kept(list, Others(fold, preset))
    else AppendUnique(fold, list, preset)
  }

  /** Some entry agrees with the text up to trimming and folding. */
  ghost predicate Agrees(fold: string -> string, list: seq<string>, value: string) {
    exists item :: item in list && fold(Trim(item)) == fold(Trim(value))
  }

  lemma AgreesByKey(fold: string -> string, list: seq<string>, value: string)
    ensures HasKey(Folded(fold), list, fold(Trim(value))) <==> Agrees(fold, list, value)
  {
    hide Trim;
    if Agrees(fold, list, value) {
      var item :| item in list && fold(Trim(item)) == fold(Trim(value));
      var i :| 0 <= i < |list| && list[i] == item;
      assert Folded(fold)(list[i]) == fold(Trim(value));
    }
  }

  /** Appending adds the trimmed text at the end unless it is blank or an entry agrees with it; so does pressing a
      preset, which otherwise takes every entry out that agrees with it and keeps the rest in order. */
  lemma EditsExactly(fold: string -> string, list: seq<string>, value: string) returns (index: seq<nat>)
    ensures AppendUnique(fold, list, value)
            == if Blank(value) || Agrees(fold, list, value) then list else list + [Trim(value)]
    ensures !Agrees(fold, list, value) ==>
              TogglePreset(fold, list, value) == if Blank(value) then list else list + [Trim(value)]
    ensures Agrees(fold, list, value) ==>
              var rest := TogglePreset(fold, list, value);
              && |index| == |rest| && Increasing(index, |list|)
              && (forall i :: 0 <= i < |index| ==> rest[i] == list[index[i]])
              && (forall r :: 0 <= r < |list| ==> (r in index <==> fold(Trim(list[r])) != fold(Trim(value))))
  {
    hide Trim, Kept, HasKey, Agrees, Folded;
    AgreesByKey(fold, list, value);
    var _, _ := TrimWindow(value);
    index := KeptInOrder(list, Others(fold, value));
  }

  /** No two entries agree up to trimming and folding. */
  ghost predicate Unique(fold: string -> string, list: seq<string>) {
    DistinctBy(Folded(fold), list)
  }

  lemma {:induction false} KeptUnique(fold: string -> string, list: seq<string>, keep: string -> bool)
    requires Unique(fold, list)
    ensures Unique(fold, Kept(list, keep))
  {
    hide Kept;
    var index := KeptInOrder(list, keep);
  }

  /** Appending and toggling keep the list free of entries that agree up to folding. */
  lemma EditsKeepUnique(fold: string -> string, list: seq<string>, value: string)
    requires Unique(fold, list)
    ensures Unique(fold, AppendUnique(fold, list, value)) && Unique(fold, TogglePreset(fold, list, value))
  {
    hide Trim, Kept;
    TrimIdempotent(value);
    KeptUnique(fold, list, Others(fold, value));
  }

  lemma {:induction false} KeptNone(fold: string -> string, list: seq<string>, preset: string)
    ensures !HasKey(Folded(fold), Kept(list, Others(fold, preset)), fold(Trim(preset)))
  {
    hide Kept, Trim;
    var index := KeptInOrder(list, Others(fold, preset));
    forall i | 0 <= i < |index| ensures Others(fold, preset)(list[index[i]]) {
      assert index[i] in index;
    }
  }

  lemma KeptUntouched(fold: string -> string, list: seq<string>, preset: string)
    requires !HasKey(Folded(fold), list, fold(Trim(preset)))
    ensures Kept(list, Others(fold, preset)) == list
  {
  }

  /** An absent preset comes and goes. */
  lemma ToggleAbsent(fold: string -> string, list: seq<string>, preset: string)
    requires !HasKey(Folded(fold), list, fold(Trim(preset)))
    ensures TogglePreset(fold, TogglePreset(fold, list, preset), preset) == list
  {
    hide Kept, Trim, HasKey;
    if Trim(preset) != "" {
      var p := Trim(preset);
      TrimIdempotent(preset);
      HasKeySnoc(Folded(fold), list, p, fold(p));
      KeptUntouched(fold, list, preset);
      KeptConcat(list, [p], Others(fold, preset));
      KeptOne(p, Others(fold, preset));
    }
  }

  lemma KeptOne(value: string, keep: string -> bool)
    ensures Kept([value], keep) == if keep(value) then [value] else []
  {
  }

  /** The preset closes the list, spelt as the button spells it, and occurs nowhere else. */
  predicate ClosedBy(fold: string -> string, list: seq<string>, preset: string) {
    && Trim(preset) != "" && list != [] && list[|list| - 1] == Trim(preset)
    && !HasKey(Folded(fold), list[..|list| - 1], fold(Trim(preset)))
  }

  /** A present preset is put back where it was exactly when it closes the list. */
  lemma TogglePresent(fold: string -> string, list: seq<string>, preset: string)
    requires HasKey(Folded(fold), list, fold(Trim(preset)))
    ensures TogglePreset(fold, TogglePreset(fold, list, preset), preset) == list <==> ClosedBy(fold, list, preset)
  {
    hide Kept, Trim, HasKey;
    var rest := Kept(list, Others(fold, preset));
    KeptNone(fold, list, preset);
    if ClosedBy(fold, list, preset) {
      var front := list[..|list| - 1];
      assert list == front + [Trim(preset)];
      TrimIdempotent(preset);
      KeptUntouched(fold, front, preset);
      KeptConcat(front, [Trim(preset)], Others(fold, preset));
      KeptOne(Trim(preset), Others(fold, preset));
      assert front + [] == front;
    } else if rest + [Trim(preset)] == list {
      assert rest == list[..|list| - 1];
    }
  }

  /** Pressing a preset twice restores the list exactly when no entry matched it or the only match closed
      the list in the preset's own spelling. */
  lemma ToggleTwice(fold: string -> string, list: seq<string>, preset: string)
    ensures TogglePreset(fold, TogglePreset(fold, list, preset), preset) == list
       <==> !HasKey(Folded(fold), list, fold(Trim(preset))) || ClosedBy(fold, list, preset)
  {
    hide TogglePreset, HasKey, ClosedBy, Trim;
    if HasKey(Folded(fold), list, fold(Trim(preset))) {
      TogglePresent(fold, list, preset);
    } else {
      ToggleAbsent(fold, list, preset);
    }
  }

  /** Pressing the first of two entries twice moves it to the end. */
  lemma ToggleMovesToEnd()
    ensures TogglePreset(s => s, TogglePreset(s => s, ["a", "b"], "a"), "a") != ["a", "b"]
  {
    hide TogglePreset;
    var fold := (s: string) => s;
    TrimTrimmed("a");
    assert Folded(fold)(["a", "b"][0]) == fold(Trim("a"));
    ToggleTwice(fold, ["a", "b"], "a");
  }
}

/** One piece of visible text (a text node or an attribute) under the locale cache of
    apps/web/components/site-language-provider.tsx. The translation `transformUiText` is any function
    `t` of a text and a locale. */
module LocaleSlot {
  import opened Options
  import opened Text

  datatype Locale = Tr | En

  const DEFAULT_LOCALE := Tr

  type Transform = (string, Locale) -> string

  /** `transformUiText` returns empty text unchanged (apps/web/lib/i18n.ts:4544). */
  ghost predicate KeepsEmpty(t: Transform) {
    forall l :: t("", l) == ""
  }

  /** Assumed where it is named: no translation of visible text is blank. */
  ghost predicate KeepsText(t: Transform) {
    forall s, l :: Trim(s) != "" ==> Trim(t(s, l)) != ""
  }

  datatype Kind = TextNode | Attribute

  /** What is on display and the cached source, if any. */
  datatype SlotState = SlotState(kind: Kind, value: string, source: Option<string>)

  function ResolveSourceValue(t: Transform, cached: Option<string>, current: string, previous: Locale): string {
    if cached.None? || cached.value == "" then current
    else if t(cached.value, previous) != current then current
    else cached.value
  }

  /** Blank text nodes are left alone; blank attributes are not. */
  predicate PassedOver(s: SlotState) {
    s.kind.TextNode? && Trim(s.value) == ""
  }

  function Visit(t: Transform, s: SlotState, previous: Locale, locale: Locale): SlotState {
    if PassedOver(s) then s
    else
      var source := ResolveSourceValue(t, s.source, s.value, previous);
      s.(value := t(source, locale), source := Some(source))
  }

  predicate Rendered(t: Transform, s: SlotState, locale: Locale) {
    s.source.Some? && s.value == t(s.source.value, locale)
  }

  /** A second visit in the same locale changes nothing, whatever the first one found. */
  lemma VisitSettles(t: Transform, s: SlotState, previous: Locale, locale: Locale)
    requires KeepsEmpty(t)
    ensures Visit(t, Visit(t, s, previous, locale), locale, locale) == Visit(t, s, previous, locale)
    ensures PassedOver(s) || Rendered(t, Visit(t, s, previous, locale), locale)
  {
  }

  // ---- Locale switches alone ----

  /** The state after visits that follow a sequence of locale switches. */
  function Switches(t: Transform, s: SlotState, previous: Locale, locales: seq<Locale>): SlotState
    decreases |locales|
  {
    if locales == [] then s
    else Switches(t, Visit(t, s, previous, locales[0]), locales[0], locales[1..])
  }

  /** Between outside writes the display depends on the source and on the last locale only, by
      whatever switches that locale was reached. */
  lemma {:induction false} SwitchesPathIndependent(t: Transform, s: SlotState, previous: Locale, locales: seq<Locale>)
    requires KeepsEmpty(t) && KeepsText(t) && Rendered(t, s, previous)
    requires s.kind.TextNode? ==> Trim(s.source.value) != ""
    ensures var r := Switches(t, s, previous, locales);
            var last := if locales == [] then previous else locales[|locales| - 1];
            r.source == s.source && r.value == t(s.source.value, last)
    decreases |locales|
  {
    if locales != [] {
      var source := s.source.value;
      assert t("", previous) == "";
      SwitchesPathIndependent(t, Visit(t, s, previous, locales[0]), locales[0], locales[1..]);
    }
  }

  // ---- The life of a slot: outside writes, switches and flushes in any order ----

  datatype Event =
    | Authored(text: string)      // the page itself writes the text
    | Switched(locale: Locale)    // a locale switch whose pass visits the slot
    | Missed(locale: Locale)      // a locale switch while the slot is hidden or detached
    | Flushed                     // a flush that visits the slot

  /** A slot, the locale of the last pass, and the text its author means to show. */
  datatype Life = Life(slot: SlotState, previous: Locale, author: string)

  /** The text an outside write stands for. A write of exactly what the cached source shows cannot be
      told from no write, so it stands for that source. */
  function Meaning(t: Transform, life: Life, written: string): string {
    ResolveSourceValue(t, life.slot.source, written, life.previous)
  }

  /** A write of just what another cached source shows in the current locale. */
  predicate Collides(t: Transform, cached: Option<string>, written: string, previous: Locale) {
    cached.Some? && cached.value != "" && cached.value != written && t(cached.value, previous) == written
  }

  /** A write stands for itself unless it collides. */
  lemma MeaningExact(t: Transform, life: Life, written: string)
    ensures Meaning(t, life, written) == written <==> !Collides(t, life.slot.source, written, life.previous)
  {
  }

  function Live(t: Transform, life: Life, e: Event): Life {
    match e
    case Authored(w) => life.(slot := life.slot.(value := w), author := Meaning(t, life, w))
    case Switched(l) => life.(slot := Visit(t, life.slot, life.previous, l), previous := l)
    case Missed(l) => life.(previous := l)
    case Flushed => life.(slot := Visit(t, life.slot, life.previous, life.previous))
  }

  function LiveAll(t: Transform, life: Life, events: seq<Event>): Life
    decreases |events|
  {
    if events == [] then life else LiveAll(t, Live(t, life, events[0]), events[1..])
  }

  /** The source that a pass from `previous` would find. */
  function SourceOf(t: Transform, s: SlotState, previous: Locale): string {
    ResolveSourceValue(t, s.source, s.value, previous)
  }

  /** The next pass would find the author's text; no text node has a blank source. */
  ghost predicate Faithful(t: Transform, life: Life) {
    var s := life.slot;
    && (s.kind.TextNode? && s.source.Some? ==> Trim(s.source.value) != "")
    && SourceOf(t, s, life.previous) == life.author
  }

  /** Missing the switch to a locale does not change what the next pass will find. */
  predicate Harmless(t: Transform, life: Life, missed: Locale) {
    SourceOf(t, life.slot, missed) == SourceOf(t, life.slot, life.previous)
  }

  /** That is: there is no cached source, or the display is the cached source itself, or the cached source shows
      the display in both locales or in neither. */
  lemma HarmlessExactly(t: Transform, life: Life, missed: Locale)
    ensures var s := life.slot;
            Harmless(t, life, missed)
            <==> s.source.None? || s.source.value == "" || s.source.value == s.value
                 || (t(s.source.value, missed) == s.value <==> t(s.source.value, life.previous) == s.value)
  {
  }

  /** Every event keeps a slot faithful, a missed switch exactly when it is harmless. A visit then shows the one
      translation of the author's text. */
  lemma LiveFaithful(t: Transform, life: Life, e: Event)
    requires KeepsEmpty(t) && KeepsText(t) && Faithful(t, life)
    ensures Faithful(t, Live(t, life, e)) <==> (e.Missed? ==> Harmless(t, life, e.locale))
    ensures (e.Switched? || e.Flushed?) && !PassedOver(life.slot) ==>
              var next := Live(t, life, e);
              next.slot.source == Some(life.author) && next.slot.value == t(life.author, next.previous)
  {
  }

  /** Every switch that the slot misses is harmless when it happens. */
  predicate HarmlessMisses(t: Transform, life: Life, events: seq<Event>)
    decreases |events|
  {
    events == [] || ((events[0].Missed? ==> Harmless(t, life, events[0].locale))
                     && HarmlessMisses(t, Live(t, life, events[0]), events[1..]))
  }

  /** No text is ever translated twice: along any run whose missed switches are harmless, what is on display is
      the author's text or one translation of it, even if `t` is not idempotent. */
  lemma {:induction false} NeverTranslatedTwice(t: Transform, life: Life, events: seq<Event>)
    requires KeepsEmpty(t) && KeepsText(t) && Faithful(t, life) && HarmlessMisses(t, life, events)
    ensures var end := LiveAll(t, life, events);
            && Faithful(t, end)
            && (end.slot.value == end.author || end.slot.value == t(end.author, end.previous))
    decreases |events|
  {
    hide Harmless, PassedOver;
    if events != [] {
      LiveFaithful(t, life, events[0]);
      NeverTranslatedTwice(t, Live(t, life, events[0]), events[1..]);
    }
  }

  ghost predicate NoWrites(events: seq<Event>) {
    forall i :: 0 <= i < |events| ==> !events[i].Authored?
  }

  lemma {:induction false} AuthorStays(t: Transform, life: Life, events: seq<Event>)
    requires NoWrites(events)
    ensures LiveAll(t, life, events).author == life.author
    decreases |events|
  {
    hide Visit;
    if events != [] {
      assert !events[0].Authored?;
      AuthorStays(t, Live(t, life, events[0]), events[1..]);
    }
  }

  /** In terms of what was written: after a write that does not collide, and no later write, the display is the
      written text or one translation of it. */
  lemma LastWriteKept(t: Transform, life: Life, written: string, rest: seq<Event>)
    requires KeepsEmpty(t) && KeepsText(t) && Faithful(t, life) && NoWrites(rest)
    requires HarmlessMisses(t, Live(t, life, Authored(written)), rest)
    requires !Collides(t, life.slot.source, written, life.previous)
    ensures var end := LiveAll(t, Live(t, life, Authored(written)), rest);
            end.author == written && (end.slot.value == written || end.slot.value == t(written, end.previous))
  {
    hide LiveAll, Faithful;
    LiveFaithful(t, life, Authored(written));
    AuthorStays(t, Live(t, life, Authored(written)), rest);
    NeverTranslatedTwice(t, Live(t, life, Authored(written)), rest);
  }

  // ---- When a pass is missed ----

  /** After a missed switch the next pass takes the author's text as the source exactly when the miss was
      harmless, also when an outside write has not been flushed yet. */
  lemma MissedPassExact(t: Transform, life: Life, missed: Locale, next: Locale)
    requires KeepsEmpty(t) && KeepsText(t) && Faithful(t, life) && !PassedOver(life.slot)
    ensures LiveAll(t, life, [Missed(missed), Switched(next)]).slot.source == Some(life.author)
       <==> Harmless(t, life, missed)
  {
    var events := [Missed(missed), Switched(next)];
    assert events[1..] == [Switched(next)] && events[1..][1..] == [];
    var later := Live(t, life, Missed(missed));
    assert LiveAll(t, life, events) == LiveAll(t, later, events[1..]) == Live(t, later, Switched(next));
  }

  /** For a slot that shows its source in `shown`: exactly when both locales show that source alike or the
      display is the source itself. */
  lemma MissedPassKeepsSource(t: Transform, s: SlotState, shown: Locale, missed: Locale, next: Locale)
    requires KeepsEmpty(t) && Rendered(t, s, shown) && !PassedOver(s)
    ensures Visit(t, s, missed, next).source == s.source
            <==> t(s.source.value, shown) == t(s.source.value, missed) || t(s.source.value, shown) == s.source.value
  {
  }

  function Greet(s: string, l: Locale): string {
    if s == "x" then (if l.Tr? then "y" else "z") else s
  }

  /** A write that has not been flushed can be lost in a missed switch: over the English rendering of "x" the
      page writes what is its Turkish rendering, and the next English pass shows "x" translated again. */
  lemma WriteLostWhenHidden()
    ensures var life := Life(SlotState(TextNode, "z", Some("x")), En, "x");
            var end := LiveAll(Greet, life, [Authored("y"), Missed(Tr), Switched(En)]);
            && !Collides(Greet, life.slot.source, "y", En) && end.author == "y"
            && end.slot == SlotState(TextNode, "z", Some("x"))
  {
    var events := [Authored("y"), Missed(Tr), Switched(En)];
    TrimTrimmed("y");
    var one := Live(Greet, Life(SlotState(TextNode, "z", Some("x")), En, "x"), events[0]);
    var two := Live(Greet, one, events[1]);
    var three := Live(Greet, two, events[2]);
    assert !PassedOver(two.slot) && three.slot == SlotState(TextNode, "z", Some("x"));
    assert events[1..][1..] == [Switched(En)] && events[1..][0] == events[1] && [Switched(En)][1..] == [];
    assert LiveAll(Greet, two, [Switched(En)]) == three;
    assert LiveAll(Greet, one, events[1..]) == three;
  }

  function Exclaim(s: string, l: Locale): string {
    if s == "" || l.Tr? then s else s + "!"
  }

  /** Otherwise the translation is translated again: hidden during the switch back to Turkish, the
      English text becomes the source of the next English pass. */
  lemma TranslatedTwiceWhenHidden()
    ensures var life := Life(SlotState(TextNode, "Ad", None), Tr, "Ad");
            LiveAll(Exclaim, life, [Switched(En), Missed(Tr), Switched(En)]).slot.value
              == Exclaim(Exclaim("Ad", En), En)
  {
  }

  /** A colliding write is taken for the cached source: the page writes "Ad!" over the English rendering of
      "Ad", and the next switch to Turkish shows "Ad". */
  lemma CollidingWriteMistaken()
    ensures var life := Life(SlotState(TextNode, "Ad", None), Tr, "Ad");
            LiveAll(Exclaim, life, [Switched(En), Authored("Ad!"), Switched(Tr)]).slot.value == "Ad"
  {
    var events := [Switched(En), Authored("Ad!"), Switched(Tr)];
    var one := Live(Exclaim, Life(SlotState(TextNode, "Ad", None), Tr, "Ad"), events[0]);
    assert !IsSpace('A') && !IsSpace('d') && !IsSpace('!');
    TrimTrimmed("Ad");
    TrimTrimmed("Ad!");
    assert one.slot == SlotState(TextNode, "Ad!", Some("Ad"));
    var two := Live(Exclaim, one, events[1]);
    var three := Live(Exclaim, two, events[2]);
    assert three.slot.value == "Ad";
    assert events[1..][1..] == [Switched(Tr)] && events[1..][0] == events[1] && [Switched(Tr)][1..] == [];
    assert LiveAll(Exclaim, two, [Switched(Tr)]) == three;
    assert LiveAll(Exclaim, one, events[1..]) == three;
  }
}

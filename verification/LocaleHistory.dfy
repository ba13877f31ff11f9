/** What a run of the whole document means for one slot: the slot lives through the events the run
    projects to, and a quiet document shows each slot's author text in the current locale. */
module LocaleHistory {
  import opened LocaleDocument
  import opened LocaleSlot
  import opened Options
  import opened Text

  function EventOf(s: Session, step: Step, slot: Slot): (e: Option<Event>)
    requires slot in s.page.values
  {
    match step
    case Outside(_, values, _) =>
      if slot in values && values[slot] != s.page.values[slot] then Some(Authored(values[slot])) else None
    case Choose(l) =>
      if l == s.locale then None else if s.page.Shown(slot) then Some(Switched(l)) else Some(Missed(l))
    case Delivery => None
    case Frame => if s.frame && slot in s.page.Reach(s.pending) then Some(Flushed) else None
  }

  /** The slot stays in the document; it may move and change. */
  predicate Lasts(steps: seq<Step>, slot: Slot) {
    forall i :: 0 <= i < |steps| && steps[i].Outside? ==> slot in steps[i].values
  }

  function Events(t: Transform, s: Session, steps: seq<Step>, slot: Slot): seq<Event>
    requires slot in s.page.values && Lasts(steps, slot)
    decreases |steps|
  {
    if steps == [] then []
    else
      var rest := Events(t, Next(t, s, steps[0]), steps[1..], slot);
      match EventOf(s, steps[0], slot)
      case None => rest
      case Some(e) => [e] + rest
  }

  function LifeOf(s: Session, slot: Slot, author: string): Life
    requires slot in s.page.values
  {
    Life(s.page.State(slot), s.previous, author)
  }

  lemma NextIsEvent(t: Transform, s: Session, step: Step, slot: Slot, author: string)
    requires slot in s.page.values && (step.Outside? ==> slot in step.values) && s.previous == s.locale
    ensures slot in Next(t, s, step).page.values && Next(t, s, step).previous == Next(t, s, step).locale
    ensures var next := Next(t, s, step);
            match EventOf(s, step, slot)
            case None => LifeOf(next, slot, author) == LifeOf(s, slot, author)
            case Some(e) =>
              LifeOf(next, slot, Live(t, LifeOf(s, slot, author), e).author) == Live(t, LifeOf(s, slot, author), e)
  {
  }

  /** The document run and the slot's own life agree on display, source and locale. */
  lemma {:induction false} RunIsLife(t: Transform, s: Session, steps: seq<Step>, slot: Slot, author: string)
    requires slot in s.page.values && Lasts(steps, slot) && s.previous == s.locale
    ensures slot in Run(t, s, steps).page.values
    ensures var end := LiveAll(t, LifeOf(s, slot, author), Events(t, s, steps, slot));
            end == LifeOf(Run(t, s, steps), slot, end.author)
    decreases |steps|
  {
    if steps != [] {
      NextIsEvent(t, s, steps[0], slot, author);
      var next := Next(t, s, steps[0]);
      match EventOf(s, steps[0], slot)
      case None => RunIsLife(t, next, steps[1..], slot, author);
      case Some(e) =>
        var life := LifeOf(s, slot, author);
        RunIsLife(t, next, steps[1..], slot, Live(t, life, e).author);
        var rest := Events(t, next, steps[1..], slot);
        assert Events(t, s, steps, slot)[1..] == rest;
    }
  }

  // ---- Sources of text nodes are never blank ----

  ghost predicate VisibleSources(page: Page) {
    forall slot :: slot in page.sources && slot.TextSlot? ==> Trim(page.sources[slot]) != ""
  }

  lemma VisitsKeepVisible(t: Transform, page: Page, slots: set<Slot>, previous: Locale, locale: Locale)
    requires VisibleSources(page) && slots <= page.values.Keys
    ensures VisibleSources(VisitAll(t, page, slots, previous, locale))
  {
    hide Trim;
    var next := VisitAll(t, page, slots, previous, locale);
    forall slot | slot in next.sources && slot.TextSlot? ensures Trim(next.sources[slot]) != "" {
      if slot in page.values {
        assert next.State(slot).source == Some(next.sources[slot]);
      }
    }
  }

  lemma StepKeepsVisible(t: Transform, s: Session, step: Step)
    requires VisibleSources(s.page)
    ensures VisibleSources(Next(t, s, step).page)
  {
    hide VisitAll, VisibleSources;
    VisitsKeepVisible(t, s.page, s.page.Reach(s.pending), s.previous, s.locale);
    match step
    case Outside(dom, values, _) => SameSources(s.page, dom, values);
    case Choose(l) => VisitsKeepVisible(t, s.page, s.page.Reach({s.page.dom.body}), s.previous, l);
    case Delivery =>
    case Frame =>
  }

  lemma SameSources(page: Page, dom: Dom, values: map<Slot, string>)
    requires VisibleSources(page)
    ensures VisibleSources(page.(dom := dom, values := values))
  {
  }

  lemma {:induction false} RunKeepsVisible(t: Transform, s: Session, steps: seq<Step>)
    requires VisibleSources(s.page)
    ensures VisibleSources(Run(t, s, steps).page)
    decreases |steps|
  {
    hide Next, VisibleSources;
    if steps != [] {
      StepKeepsVisible(t, s, steps[0]);
      RunKeepsVisible(t, Next(t, s, steps[0]), steps[1..]);
    }
  }

  lemma MountIsVisible(t: Transform, page: Page, locale: Locale)
    requires page.sources == map[]
    ensures VisibleSources(StartLocale(t, page, locale, locale).page)
  {
    hide VisitAll;
    VisitsKeepVisible(t, page, page.Reach({page.dom.body}), locale, locale);
  }

  // ---- What a slot shows ----

  /** The source the code would find for a slot as it stands. */
  function SourceNow(t: Transform, s: Session, slot: Slot): string
    requires slot in s.page.values
  {
    SourceOf(t, s.page.State(slot), s.previous)
  }

  /** Whenever the slot is hidden or detached at a locale switch of the run, that is harmless. */
  predicate MissesAreHarmless(t: Transform, s: Session, steps: seq<Step>, slot: Slot)
    requires slot in s.page.values && Lasts(steps, slot)
  {
    HarmlessMisses(t, LifeOf(s, slot, SourceNow(t, s, slot)), Events(t, s, steps, slot))
  }

  /** From any point on: let outside changes, switches, deliveries and flushes happen in any order. A slot that
      stays in the document and misses switches only harmlessly never holds more than one translation of its
      author's text, and once the observer is quiet a visible slot shows exactly that text in the current
      locale. */
  lemma SlotShowsAuthor(t: Transform, s: Session, steps: seq<Step>, slot: Slot, author: string)
    requires KeepsEmpty(t) && KeepsText(t) && s.Valid() && Covered(t, s) && LegalRun(t, s, steps)
    requires slot in s.page.values && Lasts(steps, slot) && Faithful(t, LifeOf(s, slot, author))
    requires MissesAreHarmless(t, s, steps, slot)
    ensures slot in Run(t, s, steps).page.values
    ensures Shows(t, Run(t, s, steps), slot, LiveAll(t, LifeOf(s, slot, author), Events(t, s, steps, slot)).author)
  {
    hide Visit, LiveAll, Run, Events;
    RunCovers(t, s, steps);
    RunIsLife(t, s, steps, slot, author);
    NeverTranslatedTwice(t, LifeOf(s, slot, author), Events(t, s, steps, slot));
    assert t("", Run(t, s, steps).locale) == "";
  }

  /** The slot holds the author's text or one translation of it, and the latter once the session is quiet. */
  predicate Shows(t: Transform, s: Session, slot: Slot, author: string)
    requires slot in s.page.values
  {
    && (s.page.values[slot] == author || s.page.values[slot] == t(author, s.locale))
    && (s.observing && Quiet(s) && s.page.Shown(slot) && !PassedOver(s.page.State(slot)) ==>
          s.page.values[slot] == t(author, s.locale))
  }

  /** The text a slot's author means to show at the end of a run that starts with a fresh page. */
  function AuthorAtEnd(t: Transform, page: Page, locale: Locale, steps: seq<Step>, slot: Slot): string
    requires slot in page.values && Lasts(steps, slot)
  {
    var s := StartLocale(t, page, locale, locale);
    LiveAll(t, LifeOf(s, slot, page.values[slot]), Events(t, s, steps, slot)).author
  }

  /** For texts that are there when the provider mounts, on a page without cached sources. */
  lemma PageShowsAuthor(t: Transform, page: Page, locale: Locale, steps: seq<Step>, slot: Slot)
    requires KeepsEmpty(t) && KeepsText(t) && page.Valid() && page.sources == map[]
    requires slot in page.values && Lasts(steps, slot)
    requires LegalRun(t, StartLocale(t, page, locale, locale), steps)
    requires MissesAreHarmless(t, StartLocale(t, page, locale, locale), steps, slot)
    ensures var end := Run(t, StartLocale(t, page, locale, locale), steps);
            slot in end.page.values && Shows(t, end, slot, AuthorAtEnd(t, page, locale, steps, slot))
  {
    hide Visit, LiveAll, Run, Events, StartLocale, Faithful;
    StartFaithful(t, page, locale, slot);
    MountCovers(t, page, locale);
    SlotShowsAuthor(t, StartLocale(t, page, locale, locale), steps, slot, page.values[slot]);
  }

  lemma StartFaithful(t: Transform, page: Page, locale: Locale, slot: Slot)
    requires KeepsEmpty(t) && KeepsText(t) && page.sources == map[] && slot in page.values
    ensures var s := StartLocale(t, page, locale, locale);
            slot in s.page.values && s.previous == s.locale == locale
            && Faithful(t, LifeOf(s, slot, page.values[slot]))
  {
  }

  // ---- Texts that enter or change later ----

  lemma {:induction false} RunConcat(t: Transform, s: Session, pre: seq<Step>, post: seq<Step>)
    ensures Run(t, s, pre + post) == Run(t, Run(t, s, pre), post)
    ensures LegalRun(t, s, pre + post) ==> LegalRun(t, s, pre) && LegalRun(t, Run(t, s, pre), post)
    decreases |pre|
  {
    hide Next, LegalStep;
    if pre == [] {
      assert pre + post == post;
    } else {
      assert (pre + post)[1..] == pre[1..] + post;
      RunConcat(t, Next(t, s, pre[0]), pre[1..], post);
    }
  }

  /** At any moment a slot can be taken to show the text the code would find as its source. */
  lemma FaithfulNow(t: Transform, s: Session, slot: Slot)
    requires VisibleSources(s.page) && slot in s.page.values
    ensures Faithful(t, LifeOf(s, slot, SourceNow(t, s, slot)))
  {
    hide Trim;
  }

  /** The session right after the write in `pre + [write] + post`. */
  function AfterWrite(t: Transform, page: Page, locale: Locale, pre: seq<Step>, write: Step): Session {
    Next(t, Run(t, StartLocale(t, page, locale, locale), pre), write)
  }

  /** Texts that enter the document or change after the provider has mounted, also ones that come back with a
      cached source: run to the last outside step that writes the slot's text, then on with switches,
      deliveries, flushes and changes elsewhere. Unless the write is just what another cached source showed,
      the slot holds the written text or one translation of it, and once quiet exactly that text in the
      current locale. */
  lemma LastWriteShows(t: Transform, page: Page, locale: Locale, pre: seq<Step>, write: Step, post: seq<Step>,
                       slot: Slot)
    requires KeepsEmpty(t) && KeepsText(t) && page.Valid() && page.sources == map[]
    requires LegalRun(t, StartLocale(t, page, locale, locale), pre + ([write] + post))
    requires write.Outside? && slot in write.values && Lasts(post, slot)
    requires MissesAreHarmless(t, AfterWrite(t, page, locale, pre, write), post, slot)
    requires NoWrites(Events(t, AfterWrite(t, page, locale, pre, write), post, slot))
    ensures var s := AfterWrite(t, page, locale, pre, write);
            var end := Run(t, StartLocale(t, page, locale, locale), pre + ([write] + post));
            var written := write.values[slot];
            && slot in end.page.values && Shows(t, end, slot, SourceNow(t, s, slot))
            && (SourceNow(t, s, slot) == written <==> !Collides(t, s.page.State(slot).source, written, s.previous))
  {
    hide Visit, LiveAll, Run, Events, StartLocale, Faithful, LegalRun, Covered, Shows, VisibleSources;
    var start := StartLocale(t, page, locale, locale);
    var before := Run(t, start, pre);
    var s := Next(t, before, write);
    RunConcat(t, start, pre, [write] + post);
    OneStep(t, before, write, post);
    MountCovers(t, page, locale);
    RunCovers(t, start, pre);
    StepCovers(t, before, write);
    MountIsVisible(t, page, locale);
    RunKeepsVisible(t, start, pre);
    StepKeepsVisible(t, before, write);
    FaithfulNow(t, s, slot);
    SlotShowsAuthor(t, s, post, slot, SourceNow(t, s, slot));
    AuthorStays(t, LifeOf(s, slot, SourceNow(t, s, slot)), Events(t, s, post, slot));
  }

  lemma OneStep(t: Transform, s: Session, step: Step, rest: seq<Step>)
    ensures Run(t, s, [step] + rest) == Run(t, Next(t, s, step), rest)
    ensures LegalRun(t, s, [step] + rest) ==> LegalStep(s, step) && LegalRun(t, Next(t, s, step), rest)
  {
    assert ([step] + rest)[1..] == rest;
  }
}

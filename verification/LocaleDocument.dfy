/** The document under the locale cache, as values: which slots a pass reaches, what a set of visits
    does, and the step system of outside changes, locale switches, observer deliveries and flushes. */
module LocaleDocument {
  import opened LocaleSlot
  import opened Options
  import opened Text

  type Node = nat

  const SKIP_TEXT_TAGS: set<string> := {"SCRIPT", "STYLE", "NOSCRIPT", "PRE", "CODE"}
  const TRANSFORMABLE_ATTRIBUTES: seq<string> := ["placeholder", "title", "aria-label"]

  /** The tree: text nodes and elements, each with at most one parent element, in document order.
      `rank` grows from parent to child. */
  datatype Dom = Dom(body: Node, order: seq<Node>, texts: set<Node>, elements: set<Node>,
                     parent: map<Node, Node>, rank: map<Node, nat>,
                     tagName: map<Node, string>, noTranslate: set<Node>)
  {
    function Rank(n: Node): nat {
      if n in rank then rank[n] else 0
    }

    ghost predicate WellFormed() {
      && texts !! elements && body in elements
      && (forall n :: n in order <==> n in texts || n in elements)
      && (forall i, j :: 0 <= i < j < |order| ==> order[i] != order[j])
      && (forall n :: n in parent ==> parent[n] in elements && Rank(parent[n]) < Rank(n))
      && tagName.Keys == elements && noTranslate <= elements
    }

    /** The node and everything above it. */
    function Path(n: Node): set<Node>
      decreases Rank(n)
    {
      if n in parent && Rank(parent[n]) < Rank(n) then {n} + Path(parent[n]) else {n}
    }

    predicate Skipping(n: Node) {
      (n in tagName && tagName[n] in SKIP_TEXT_TAGS) || n in noTranslate
    }

    predicate InSkippedTree(n: Node) {
      exists a :: a in Path(n) && Skipping(a)
    }
  }

  lemma {:induction false} PathTransitive(dom: Dom, n: Node, a: Node)
    requires a in dom.Path(n)
    ensures dom.Path(a) <= dom.Path(n)
    decreases dom.Rank(n)
  {
    if a != n {
      PathTransitive(dom, dom.parent[n], a);
    }
  }

  datatype Slot = TextSlot(node: Node) | AttrSlot(node: Node, name: string)

  /** The document with its texts and attributes, and both source caches. */
  datatype Page = Page(dom: Dom, values: map<Slot, string>, sources: map<Slot, string>) {
    ghost predicate Valid() {
      && dom.WellFormed()
      && (forall n :: n in dom.texts ==> TextSlot(n) in values)
      && (forall s :: s in values ==>
            if s.TextSlot? then s.node in dom.texts
            else s.node in dom.elements && s.name in ["placeholder", "title", "aria-label"])
    }

    function State(s: Slot): SlotState
      requires s in values
    {
      SlotState(if s.TextSlot? then TextNode else Attribute, values[s], if s in sources then Some(sources[s]) else None)
    }

    /** The slots that applying the locale to `nodes` visits. */
    function Reach(nodes: set<Node>): (r: set<Slot>)
      ensures r <= values.Keys
    {
      set s | s in values && !dom.InSkippedTree(s.node) && dom.Path(s.node) * nodes != {}
    }

    predicate Shown(s: Slot) {
      s in Reach({dom.body})
    }
  }

  /** One visit to each slot of `slots`. */
  function VisitAll(t: Transform, page: Page, slots: set<Slot>, previous: Locale, locale: Locale): (r: Page)
    requires slots <= page.values.Keys
    ensures r.dom == page.dom && r.values.Keys == page.values.Keys
    ensures forall s :: s in page.values ==>
              r.State(s) == if s in slots then Visit(t, page.State(s), previous, locale) else page.State(s)
    ensures forall s :: s !in page.values ==> (s in r.sources <==> s in page.sources) &&
                                              (s in r.sources ==> r.sources[s] == page.sources[s])
  {
    var values := map s | s in page.values ::
                    if s in slots then Visit(t, page.State(s), previous, locale).value else page.values[s];
    var sources := map s | s in page.sources.Keys + slots
                         && (s in slots ==> Visit(t, page.State(s), previous, locale).source.Some?) ::
                     if s in slots then Visit(t, page.State(s), previous, locale).source.value else page.sources[s];
    page.(values := values, sources := sources)
  }

  /** The nodes that those visits write to. */
  function Written(t: Transform, page: Page, slots: set<Slot>, previous: Locale, locale: Locale): set<Node>
    requires slots <= page.values.Keys
  {
    set s | s in slots && Visit(t, page.State(s), previous, locale).value != page.values[s] :: s.node
  }

  lemma SamePage(p: Page, q: Page)
    requires p.dom == q.dom && p.values.Keys == q.values.Keys
    requires forall s :: s in p.values ==> p.State(s) == q.State(s)
    requires forall s :: s !in p.values ==> (s in p.sources <==> s in q.sources) &&
                                            (s in p.sources ==> p.sources[s] == q.sources[s])
    ensures p == q
  {
  }

  /** Visits to different slots, one set after the other, come to visiting them together. */
  lemma VisitDisjoint(t: Transform, page: Page, a: set<Slot>, b: set<Slot>, previous: Locale, locale: Locale)
    requires a <= page.values.Keys && b <= page.values.Keys && a !! b
    ensures VisitAll(t, VisitAll(t, page, a, previous, locale), b, previous, locale)
            == VisitAll(t, page, a + b, previous, locale)
  {
    hide Visit;
    SamePage(VisitAll(t, VisitAll(t, page, a, previous, locale), b, previous, locale),
             VisitAll(t, page, a + b, previous, locale));
  }

  lemma WrittenDisjoint(t: Transform, page: Page, a: set<Slot>, b: set<Slot>, previous: Locale, locale: Locale)
    requires a <= page.values.Keys && b <= page.values.Keys && a !! b
    ensures Written(t, page, a, previous, locale)
            + Written(t, VisitAll(t, page, a, previous, locale), b, previous, locale)
         == Written(t, page, a + b, previous, locale)
  {
  }

  lemma VisitedStays(t: Transform, page: Page, a: set<Slot>, locale: Locale)
    requires a <= page.values.Keys && KeepsEmpty(t)
    ensures var p := VisitAll(t, page, a, locale, locale);
            forall s :: s in a ==> Visit(t, p.State(s), locale, locale) == p.State(s)
  {
  }

  /** Once the previous locale is the current one, overlapping visits, in any order and any number of
      times, come to one visit each. */
  lemma VisitOverlapping(t: Transform, page: Page, a: set<Slot>, b: set<Slot>, locale: Locale)
    requires a <= page.values.Keys && b <= page.values.Keys && KeepsEmpty(t)
    ensures VisitAll(t, VisitAll(t, page, a, locale, locale), b, locale, locale)
            == VisitAll(t, page, a + b, locale, locale)
  {
    VisitedStays(t, page, a, locale);
    hide Visit;
    SamePage(VisitAll(t, VisitAll(t, page, a, locale, locale), b, locale, locale),
             VisitAll(t, page, a + b, locale, locale));
  }

  /** And the repeated visits write nothing. */
  lemma WrittenOverlapping(t: Transform, page: Page, a: set<Slot>, b: set<Slot>, locale: Locale)
    requires a <= page.values.Keys && b <= page.values.Keys && KeepsEmpty(t)
    ensures Written(t, page, a, locale, locale) + Written(t, VisitAll(t, page, a, locale, locale), b, locale, locale)
         == Written(t, page, a + b, locale, locale)
  {
    VisitedStays(t, page, a, locale);
    hide Visit;
    var p := VisitAll(t, page, a, locale, locale);
    assert forall s :: s in a ==> p.values[s] == p.State(s).value;
    assert forall s :: s in page.values && s !in a ==> p.State(s) == page.State(s) && p.values[s] == page.values[s];
    assert Written(t, p, b, locale, locale) == Written(t, page, b - a, locale, locale);
  }

  // ---- The step system ----

  /** The provider between two JavaScript tasks. `recorded` are the nodes in undelivered mutation
      records, `pending` the nodes waiting for the next animation frame. */
  datatype Session = Session(page: Page, locale: Locale, previous: Locale, observing: bool,
                             recorded: set<Node>, pending: set<Node>, frame: bool)
  {
    ghost predicate Valid() {
      && page.Valid()
      && previous == locale
      && (observing <==> locale != DEFAULT_LOCALE)
      && (frame <==> pending != {})
      && (!observing ==> recorded == {} && pending == {})
    }
  }

  /** The effect that runs when the locale changes: the old observer is disconnected, the whole body
      is passed over, and unless the locale is the default one a new observer starts. */
  function StartLocale(t: Transform, page: Page, previous: Locale, locale: Locale): Session {
    Session(VisitAll(t, page, page.Reach({page.dom.body}), previous, locale), locale, locale,
            locale != DEFAULT_LOCALE, {}, {}, false)
  }

  function SwitchLocale(t: Transform, s: Session, locale: Locale): Session {
    if locale == s.locale then s else StartLocale(t, s.page, s.previous, locale)
  }

  /** The observer callback: recorded nodes become pending and a frame is requested. */
  function Deliver(s: Session): Session {
    if s.observing then s.(recorded := {}, pending := s.pending + s.recorded, frame := s.pending + s.recorded != {})
    else s
  }

  /** The animation frame: pending nodes are passed over; the pass's own writes are recorded. */
  function Flush(t: Transform, s: Session): Session {
    if !s.frame then s
    else
      var slots := s.page.Reach(s.pending);
      var own := Written(t, s.page, slots, s.previous, s.locale);
      s.(page := VisitAll(t, s.page, slots, s.previous, s.locale),
         recorded := if s.observing then s.recorded + own else s.recorded,
         pending := {}, frame := false)
  }

  /** A change made by the rest of the page: any new tree and texts; `touched` are the nodes named in
      the mutation records it causes. */
  function Change(s: Session, dom: Dom, values: map<Slot, string>, touched: set<Node>): Session {
    s.(page := s.page.(dom := dom, values := values),
       recorded := if s.observing then s.recorded + touched else s.recorded)
  }

  datatype Step =
    | Outside(dom: Dom, values: map<Slot, string>, touched: set<Node>)
    | Choose(locale: Locale)
    | Delivery
    | Frame

  function Next(t: Transform, s: Session, step: Step): Session {
    match step
    case Outside(dom, values, touched) => Change(s, dom, values, touched)
    case Choose(l) => SwitchLocale(t, s, l)
    case Delivery => Deliver(s)
    case Frame => Flush(t, s)
  }

  function Run(t: Transform, s: Session, steps: seq<Step>): Session
    decreases |steps|
  {
    if steps == [] then s else Run(t, Next(t, s, steps[0]), steps[1..])
  }

  // ---- Quiescence ----

  /** A flush leaves nothing to do on the slots it visited, and its own records lead back only to
      those slots. */
  lemma OwnWritesLeadBack(t: Transform, page: Page, nodes: set<Node>, previous: Locale, locale: Locale)
    ensures var slots := page.Reach(nodes);
            var next := VisitAll(t, page, slots, previous, locale);
            next.Reach(Written(t, page, slots, previous, locale)) <= slots
  {
    var slots := page.Reach(nodes);
    var next := VisitAll(t, page, slots, previous, locale);
    var own := Written(t, page, slots, previous, locale);
    forall s | s in next.Reach(own) ensures s in slots {
      var n :| n in page.dom.Path(s.node) * own;
      var w :| w in slots && w.node == n;
      var a :| a in page.dom.Path(w.node) * nodes;
      PathTransitive(page.dom, s.node, n);
      assert a in page.dom.Path(s.node) * nodes;
    }
  }

  lemma SettledVisit(t: Transform, page: Page, slots: set<Slot>, again: set<Slot>, locale: Locale)
    requires slots <= page.values.Keys && again <= slots && KeepsEmpty(t)
    ensures var next := VisitAll(t, page, slots, locale, locale);
            VisitAll(t, next, again, locale, locale) == next && Written(t, next, again, locale, locale) == {}
  {
    var next := VisitAll(t, page, slots, locale, locale);
    VisitOverlapping(t, page, slots, again, locale);
    assert slots + again == slots;
    VisitedStays(t, page, slots, locale);
    assert forall s :: s in again ==> next.values[s] == next.State(s).value;
  }

  /** Nothing is recorded, pending or scheduled. */
  predicate Quiet(s: Session) {
    s.recorded == {} && s.pending == {} && !s.frame
  }

  /** With no further outside change the feedback of the program's own writes dies out: one delivery
      and flush handle everything outstanding, the next flush writes nothing, and then the session is
      quiet for good. */
  lemma FeedbackDiesOut(t: Transform, s: Session)
    requires KeepsEmpty(t) && s.Valid()
    ensures var first := Flush(t, Deliver(s));
            var second := Flush(t, Deliver(first));
            && second.page == first.page && Quiet(second)
            && Deliver(second) == second && Flush(t, second) == second
  {
    if s.observing {
      var d := Deliver(s);
      var first := Flush(t, d);
      if d.frame {
        var slots := d.page.Reach(d.pending);
        var own := Written(t, d.page, slots, s.locale, s.locale);
        OwnWritesLeadBack(t, d.page, d.pending, s.locale, s.locale);
        SettledVisit(t, d.page, slots, first.page.Reach(own), s.locale);
      }
    }
  }

  /** Everything that the recorded or pending nodes lead to shows its source already. */
  ghost predicate Settled(t: Transform, s: Session, nodes: set<Node>) {
    forall slot :: slot in s.page.Reach(nodes) ==>
      Visit(t, s.page.State(slot), s.locale, s.locale) == s.page.State(slot)
  }

  /** A bound on the frames that may still write: one for the pending nodes and one for the records. */
  ghost function Unsettled(t: Transform, s: Session): nat {
    (if Settled(t, s, s.pending) then 0 else 1) + (if Settled(t, s, s.recorded) then 0 else 1)
  }

  predicate Writes(t: Transform, s: Session, step: Step) {
    Next(t, s, step).page.values != s.page.values
  }

  function WritingSteps(t: Transform, s: Session, steps: seq<Step>): nat
    decreases |steps|
  {
    if steps == [] then 0
      else (if Writes(t, s, steps[0]) then 1 else 0) + WritingSteps(t, Next(t, s, steps[0]), steps[1..])
  }

  predicate OwnStep(step: Step) {
    step.Delivery? || step.Frame?
  }

  lemma ReachUnion(page: Page, a: set<Node>, b: set<Node>)
    ensures page.Reach(a + b) == page.Reach(a) + page.Reach(b)
  {
    forall slot | slot in page.values
      ensures page.dom.Path(slot.node) * (a + b) != {} <==>
            page.dom.Path(slot.node) * a != {} || page.dom.Path(slot.node) * b != {}
    {
      assert page.dom.Path(slot.node) * (a + b) == page.dom.Path(slot.node) * a + page.dom.Path(slot.node) * b;
    }
  }

  lemma VisitsOfSettled(t: Transform, s: Session, slots: set<Slot>)
    requires slots <= s.page.values.Keys
    requires forall slot :: slot in slots ==> Visit(t, s.page.State(slot), s.locale, s.locale) == s.page.State(slot)
    ensures VisitAll(t, s.page, slots, s.locale, s.locale) == s.page
  {
    hide Visit;
    SamePage(VisitAll(t, s.page, slots, s.locale, s.locale), s.page);
  }

  lemma FlushSettles(t: Transform, s: Session, slot: Slot)
    requires KeepsEmpty(t) && s.Valid() && s.frame && slot in s.page.values
    requires slot in s.page.Reach(s.pending) || Visit(t, s.page.State(slot), s.locale, s.locale) == s.page.State(slot)
    ensures var next := Flush(t, s); Visit(t, next.page.State(slot), s.locale, s.locale) == next.page.State(slot)
  {
    VisitSettles(t, s.page.State(slot), s.locale, s.locale);
  }

  /** A delivery or a flush that writes uses up one of the frames that may. */
  lemma OwnStepSettles(t: Transform, s: Session, step: Step)
    requires KeepsEmpty(t) && s.Valid() && OwnStep(step)
    ensures Next(t, s, step).Valid()
    ensures Unsettled(t, Next(t, s, step)) + (if Writes(t, s, step) then 1 else 0) <= Unsettled(t, s)
  {
    hide Visit;
    var next := Next(t, s, step);
    if step.Delivery? {
      ReachUnion(s.page, s.pending, s.recorded);
    } else if s.frame {
      var slots := s.page.Reach(s.pending);
      var own := Written(t, s.page, slots, s.locale, s.locale);
      VisitKeepsValid(t, s.page, slots, s.locale, s.locale);
      OwnWritesLeadBack(t, s.page, s.pending, s.locale, s.locale);
      ReachUnion(next.page, s.recorded, own);
      assert next.page.Reach(s.recorded) == s.page.Reach(s.recorded);
      if Settled(t, s, s.pending) {
        VisitsOfSettled(t, s, slots);
      }
      if Settled(t, s, s.recorded) {
        forall slot | slot in next.page.Reach(next.recorded)
          ensures Visit(t, next.page.State(slot), next.locale, next.locale) == next.page.State(slot)
        {
          FlushSettles(t, s, slot);
        }
      }
    }
  }

  /** Whatever the schedule of deliveries and frames, without outside changes at most two of its frames write,
      and none at all when nothing recorded or pending is unsettled. */
  lemma {:induction false} FewFramesWrite(t: Transform, s: Session, steps: seq<Step>)
    requires KeepsEmpty(t) && s.Valid() && forall i :: 0 <= i < |steps| ==> OwnStep(steps[i])
    ensures WritingSteps(t, s, steps) <= Unsettled(t, s) <= 2
    decreases |steps|
  {
    hide Next, Writes, Settled;
    if steps != [] {
      OwnStepSettles(t, s, steps[0]);
      FewFramesWrite(t, Next(t, s, steps[0]), steps[1..]);
    }
  }

  // ---- Coherence ----

  /** A slot shows its cached source in the current locale, or is blank text. */
  predicate Coherent(t: Transform, s: Session, slot: Slot)
    requires slot in s.page.values
  {
    PassedOver(s.page.State(slot)) || Rendered(t, s.page.State(slot), s.locale)
  }

  /** A locale switch leaves every visible slot coherent. */
  lemma SwitchIsCoherent(t: Transform, s: Session, locale: Locale)
    requires KeepsEmpty(t) && locale != s.locale
    ensures var next := SwitchLocale(t, s, locale);
            next.page.Reach({next.page.dom.body}) == s.page.Reach({s.page.dom.body})
            && forall slot :: next.page.Shown(slot) ==> Coherent(t, next, slot)
  {
  }

  /** A node on the slot's path is recorded or pending, so some later flush will visit it. */
  predicate Awaited(s: Session, slot: Slot) {
    s.page.dom.Path(slot.node) * (s.recorded + s.pending) != {}
  }

  /** While observed, every visible slot is coherent or awaited. */
  ghost predicate Covered(t: Transform, s: Session) {
    s.observing ==> forall slot :: s.page.Shown(slot) ==> Coherent(t, s, slot) || Awaited(s, slot)
  }

  /** The browser reports an outside change: each slot visible afterwards was visible before with the
      same text and keeps its ancestors, or one of its ancestors is in a record. */
  ghost predicate Reported(s: Session, step: Step) {
    step.Outside? && s.observing ==>
      var after := Page(step.dom, step.values, s.page.sources);
      forall slot :: after.Shown(slot) ==>
        || step.dom.Path(slot.node) * step.touched != {}
        || (s.page.Shown(slot) && step.values[slot] == s.page.values[slot]
          && s.page.dom.Path(slot.node) <= step.dom.Path(slot.node))
  }

  ghost predicate LegalStep(s: Session, step: Step) {
    (step.Outside? ==> Page(step.dom, step.values, s.page.sources).Valid()) && Reported(s, step)
  }

  ghost predicate LegalRun(t: Transform, s: Session, steps: seq<Step>)
    decreases |steps|
  {
    steps == [] || (LegalStep(s, steps[0]) && LegalRun(t, Next(t, s, steps[0]), steps[1..]))
  }

  lemma VisitKeepsValid(t: Transform, page: Page, slots: set<Slot>, previous: Locale, locale: Locale)
    requires page.Valid() && slots <= page.values.Keys
    ensures VisitAll(t, page, slots, previous, locale).Valid()
  {
  }

  lemma FlushCovers(t: Transform, s: Session)
    requires KeepsEmpty(t) && s.Valid() && Covered(t, s) && s.frame
    ensures Covered(t, Flush(t, s))
  {
    var next := Flush(t, s);
    forall slot | next.page.Shown(slot) ensures Coherent(t, next, slot) || Awaited(next, slot) {
      assert s.page.Shown(slot);
      VisitSettles(t, s.page.State(slot), s.locale, s.locale);
      if slot !in s.page.Reach(s.pending) {
        assert next.page.State(slot) == s.page.State(slot);
        if !Coherent(t, s, slot) {
          var n :| n in s.page.dom.Path(slot.node) * (s.recorded + s.pending);
          assert n in s.page.dom.Path(slot.node) * (next.recorded + next.pending);
        }
      }
    }
  }

  lemma OutsideCovers(t: Transform, s: Session, step: Step)
    requires s.Valid() && Covered(t, s) && step.Outside? && LegalStep(s, step)
    ensures Covered(t, Next(t, s, step))
  {
  }

  lemma StepCovers(t: Transform, s: Session, step: Step)
    requires KeepsEmpty(t) && s.Valid() && Covered(t, s) && LegalStep(s, step)
    ensures Next(t, s, step).Valid() && Covered(t, Next(t, s, step))
  {
    match step
    case Outside(_, _, _) => OutsideCovers(t, s, step);
    case Choose(l) =>
      if l != s.locale {
        VisitKeepsValid(t, s.page, s.page.Reach({s.page.dom.body}), s.previous, l);
        SwitchIsCoherent(t, s, l);
      }
    case Delivery =>
      var next := Deliver(s);
      forall slot | next.observing && next.page.Shown(slot) ensures Coherent(t, next, slot) || Awaited(next, slot) {
        assert Coherent(t, s, slot) <==> Coherent(t, next, slot);
        assert s.pending + s.recorded == next.recorded + next.pending == s.recorded + s.pending;
      }
    case Frame =>
      if s.frame {
        VisitKeepsValid(t, s.page, s.page.Reach(s.pending), s.previous, s.locale);
        FlushCovers(t, s);
      }
  }

  /** Coverage holds along every run of reported changes, switches, deliveries and flushes. */
  lemma {:induction false} RunCovers(t: Transform, s: Session, steps: seq<Step>)
    requires KeepsEmpty(t) && s.Valid() && Covered(t, s) && LegalRun(t, s, steps)
    ensures Run(t, s, steps).Valid() && Covered(t, Run(t, s, steps))
    decreases |steps|
  {
    if steps != [] {
      StepCovers(t, s, steps[0]);
      RunCovers(t, Next(t, s, steps[0]), steps[1..]);
    }
  }

  /** The provider's first pass covers the document. */
  lemma MountCovers(t: Transform, page: Page, locale: Locale)
    requires KeepsEmpty(t) && page.Valid()
    ensures StartLocale(t, page, locale, locale).Valid() && Covered(t, StartLocale(t, page, locale, locale))
  {
  }

  /** Whenever an observed session is quiet, every visible slot shows its source in the current
      locale. */
  lemma QuietIsCoherent(t: Transform, page: Page, locale: Locale, steps: seq<Step>)
    requires KeepsEmpty(t) && page.Valid() && LegalRun(t, StartLocale(t, page, locale, locale), steps)
    ensures var end := Run(t, StartLocale(t, page, locale, locale), steps);
            end.observing && Quiet(end) ==> forall slot :: end.page.Shown(slot) ==> Coherent(t, end, slot)
  {
    MountCovers(t, page, locale);
    RunCovers(t, StartLocale(t, page, locale, locale), steps);
  }

  // ---- The default locale, which is not observed ----

  lemma {:induction false} UnobservedIsIdle(t: Transform, s: Session, steps: seq<Step>)
    requires s.Valid() && s.locale == DEFAULT_LOCALE && forall i :: 0 <= i < |steps| ==> OwnStep(steps[i])
    ensures Run(t, s, steps) == s
    decreases |steps|
  {
    if steps != [] {
      assert OwnStep(steps[0]);
      assert Next(t, s, steps[0]) == s;
      UnobservedIsIdle(t, s, steps[1..]);
    }
  }

  /** In the default locale a text that enters after the pass stays as it was written until the next switch, so it
      is coherent only if it is blank or happens to be what a cached source shows. */
  lemma LateTextStaysRaw(t: Transform, s: Session, write: Step, steps: seq<Step>, slot: Slot)
    requires s.Valid() && s.locale == DEFAULT_LOCALE && write.Outside? && LegalStep(s, write) && slot in write.values
    requires forall i :: 0 <= i < |steps| ==> OwnStep(steps[i])
    ensures var end := Run(t, Next(t, s, write), steps);
            && end.page.values == write.values
            && (Coherent(t, end, slot)
                <==> PassedOver(end.page.State(slot))
                     || (slot in s.page.sources && write.values[slot] == t(s.page.sources[slot], s.locale)))
  {
    hide Next, Run, PassedOver;
    assert Next(t, s, write) == Change(s, write.dom, write.values, write.touched) by {
      OutsideIsChange(t, s, write);
    }
    UnobservedIsIdle(t, Next(t, s, write), steps);
  }

  lemma OutsideIsChange(t: Transform, s: Session, write: Step)
    requires write.Outside?
    ensures Next(t, s, write) == Change(s, write.dom, write.values, write.touched)
  {
  }

  function BodyOnly(): Page {
    Page(Dom(0, [0], {}, {0}, map[], map[0 := 0], map[0 := "BODY"], {}), map[], map[])
  }

  /** The step that puts the text "x" into the body. */
  function AddText(): Step {
    Outside(Dom(0, [0, 1], {1}, {0}, map[1 := 0], map[0 := 0, 1 := 1], map[0 := "BODY"], {}),
            map[TextSlot(1) := "x"], {1})
  }

  lemma EmptyBody()
    ensures BodyOnly().Valid()
    ensures StartLocale(Greet, BodyOnly(), Tr, Tr) == Session(BodyOnly(), Tr, Tr, false, {}, {}, false)
  {
    hide Visit;
    var page := BodyOnly();
    assert page.Reach({page.dom.body}) == {};
    assert VisitAll(Greet, page, {}, Tr, Tr).values == map[];
  }

  lemma AddTextShown()
    ensures var page := Page(AddText().dom, AddText().values, map[]); page.Valid() && page.Shown(TextSlot(1))
  {
    var page := Page(AddText().dom, AddText().values, map[]);
    var dom := page.dom;
    assert dom.Path(0) == {0};
    assert dom.Path(1) == {1} + dom.Path(0);
    assert !dom.Skipping(0) && !dom.Skipping(1);
    assert 0 in dom.Path(1) * {0};
  }

  /** A text added to an empty body in Turkish keeps its raw form, though its Turkish rendering differs and the
      same text present at the pass would show that. */
  lemma AddedTextStaysRaw(steps: seq<Step>)
    requires forall i :: 0 <= i < |steps| ==> OwnStep(steps[i])
    ensures var end := Run(Greet, Next(Greet, StartLocale(Greet, BodyOnly(), Tr, Tr), AddText()), steps);
            && end.page.Shown(TextSlot(1)) && end.page.values[TextSlot(1)] == "x" && Greet("x", Tr) == "y"
            && !Coherent(Greet, end, TextSlot(1))
  {
    EmptyBody();
    AddTextShown();
    hide Run, Next, StartLocale, VisitAll, BodyOnly, Page.Shown, Page.Valid, Coherent;
    var s := StartLocale(Greet, BodyOnly(), Tr, Tr);
    assert BodyOnly().sources == map[] by {
      NoSources();
    }
    OutsideIsChange(Greet, s, AddText());
    UnobservedIsIdle(Greet, Next(Greet, s, AddText()), steps);
    TrimTrimmed("x");
    LateTextStaysRaw(Greet, s, AddText(), steps, TextSlot(1));
  }

  lemma NoSources()
    ensures BodyOnly().sources == map[]
  {
  }
}

/** Which texts the provider of apps/web/components/site-language-provider.tsx touches, said with chains of parents:
    nothing inside an element that opts out or holds no prose is ever changed, everything else is visited. */
module LocaleOptOut {
  import opened LocaleDocument
  import opened LocaleSlot
  import opened Options
  import opened Text

  /** The nodes from `n` up to `a`, each the parent of the one before. */
  ghost predicate IsChain(dom: Dom, chain: seq<Node>, n: Node, a: Node) {
    && chain != [] && chain[0] == n && chain[|chain| - 1] == a
    && forall i :: 0 <= i < |chain| - 1 ==> chain[i] in dom.parent && dom.parent[chain[i]] == chain[i + 1]
  }

  ghost predicate IsAbove(dom: Dom, n: Node, a: Node) {
    exists chain :: IsChain(dom, chain, n, a)
  }

  lemma {:induction false} PathHasChain(dom: Dom, n: Node, a: Node) returns (chain: seq<Node>)
    requires a in dom.Path(n)
    ensures IsChain(dom, chain, n, a)
    decreases dom.Rank(n)
  {
    if a == n {
      chain := [n];
    } else {
      var rest := PathHasChain(dom, dom.parent[n], a);
      chain := [n] + rest;
    }
  }

  lemma {:induction false} ChainInPath(dom: Dom, chain: seq<Node>, n: Node, a: Node)
    requires dom.WellFormed() && IsChain(dom, chain, n, a)
    ensures a in dom.Path(n)
    decreases |chain|
  {
    if |chain| > 1 {
      ChainInPath(dom, chain[1..], chain[1], a);
    }
  }

  /** A path holds exactly what stands above the node, itself included. */
  lemma PathIsAncestry(dom: Dom, n: Node, a: Node)
    requires dom.WellFormed()
    ensures a in dom.Path(n) <==> IsAbove(dom, n, a)
  {
    hide IsChain, Dom.Path, Dom.WellFormed;
    if a in dom.Path(n) {
      var chain := PathHasChain(dom, n, a);
    }
    if IsAbove(dom, n, a) {
      var chain :| IsChain(dom, chain, n, a);
      ChainInPath(dom, chain, n, a);
    }
  }

  /** The node opts out itself, or is of a kind that holds no prose. */
  ghost predicate Bars(dom: Dom, a: Node) {
    || a in dom.noTranslate
    || (a in dom.tagName && dom.tagName[a] in {"SCRIPT", "STYLE", "NOSCRIPT", "PRE", "CODE"})
  }

  /** The node or something above it bars translation. */
  ghost predicate OptedOut(dom: Dom, n: Node) {
    exists a :: IsAbove(dom, n, a) && Bars(dom, a)
  }

  lemma SkippedIsOptedOut(dom: Dom, n: Node)
    requires dom.WellFormed()
    ensures dom.InSkippedTree(n) <==> OptedOut(dom, n)
  {
    hide IsAbove, Dom.Path, Dom.WellFormed;
    forall a ensures a in dom.Path(n) <==> IsAbove(dom, n, a) {
      PathIsAncestry(dom, n, a);
    }
    assert forall a :: dom.Skipping(a) <==> Bars(dom, a);
  }

  /** Applying the locale to some nodes reaches exactly the slots below one of them that are not opted out. */
  lemma ReachExactly(page: Page, nodes: set<Node>, slot: Slot)
    requires page.dom.WellFormed()
    ensures slot in page.Reach(nodes)
            <==> && slot in page.values && !OptedOut(page.dom, slot.node)
                 && exists a :: a in nodes && IsAbove(page.dom, slot.node, a)
  {
    hide IsAbove, Dom.Path, Dom.WellFormed, Dom.InSkippedTree, OptedOut;
    SkippedIsOptedOut(page.dom, slot.node);
    forall a ensures a in page.dom.Path(slot.node) <==> IsAbove(page.dom, slot.node, a) {
      PathIsAncestry(page.dom, slot.node, a);
    }
    if a :| a in nodes && IsAbove(page.dom, slot.node, a) {
      assert a in page.dom.Path(slot.node) * nodes;
    }
  }

  /** Neither the text nor its cached source differs. */
  ghost predicate SameSlot(before: Page, after: Page, slot: Slot) {
    && (slot in before.values <==> slot in after.values)
    && (slot in before.values ==> after.values[slot] == before.values[slot])
    && (slot in before.sources <==> slot in after.sources)
    && (slot in before.sources ==> after.sources[slot] == before.sources[slot])
  }

  lemma NotVisited(t: Transform, page: Page, slots: set<Slot>, previous: Locale, locale: Locale, slot: Slot)
    requires slots <= page.values.Keys && slot !in slots
    ensures SameSlot(page, VisitAll(t, page, slots, previous, locale), slot)
  {
    hide Visit;
    if slot in page.values {
      assert VisitAll(t, page, slots, previous, locale).State(slot) == page.State(slot);
    }
  }

  /** A switch, a delivery and a frame leave an opted-out text and its cached source as they are. */
  lemma OptedOutUntouched(t: Transform, s: Session, step: Step, slot: Slot)
    requires s.page.dom.WellFormed() && !step.Outside? && OptedOut(s.page.dom, slot.node)
    ensures Next(t, s, step).page.dom == s.page.dom && SameSlot(s.page, Next(t, s, step).page, slot)
  {
    hide VisitAll, SameSlot, Dom.WellFormed, Page.Reach, OptedOut, Written;
    ReachExactly(s.page, {s.page.dom.body}, slot);
    ReachExactly(s.page, s.pending, slot);
    Same(s.page, slot);
    match step
    case Choose(l) => NotVisited(t, s.page, s.page.Reach({s.page.dom.body}), s.previous, l, slot);
    case Frame => NotVisited(t, s.page, s.page.Reach(s.pending), s.previous, s.locale, slot);
    case Delivery =>
  }

  lemma Same(page: Page, slot: Slot)
    ensures SameSlot(page, page, slot)
  {
  }

  /** Along the run the page keeps the slot and its opt-out, also where it rebuilds the tree or writes the text. */
  ghost predicate StaysOptedOut(s: Session, steps: seq<Step>, slot: Slot) {
    && s.page.dom.WellFormed() && slot in s.page.values && OptedOut(s.page.dom, slot.node)
    && forall i :: 0 <= i < |steps| && steps[i].Outside? ==>
         steps[i].dom.WellFormed() && slot in steps[i].values && OptedOut(steps[i].dom, slot.node)
  }

  /** The text the page itself wrote last, or `first` if it wrote none. */
  function LastWritten(first: string, steps: seq<Step>, slot: Slot): string
    requires forall i :: 0 <= i < |steps| && steps[i].Outside? ==> slot in steps[i].values
    decreases |steps|
  {
    if steps == [] then first
    else LastWritten(if steps[0].Outside? then steps[0].values[slot] else first, steps[1..], slot)
  }

  lemma {:induction false} LastWrittenIs(first: string, steps: seq<Step>, slot: Slot, k: nat)
    requires forall i :: 0 <= i < |steps| && steps[i].Outside? ==> slot in steps[i].values
    ensures (forall i :: 0 <= i < |steps| ==> !steps[i].Outside?) ==> LastWritten(first, steps, slot) == first
    ensures k < |steps| && steps[k].Outside? && (forall i :: k < i < |steps| ==> !steps[i].Outside?) ==>
              LastWritten(first, steps, slot) == steps[k].values[slot]
    decreases |steps|
  {
    if steps != [] {
      var next := if steps[0].Outside? then steps[0].values[slot] else first;
      LastWrittenIs(next, steps[1..], slot, if k > 0 then k - 1 else 0);
    }
  }

  /** Over any run, switches, deliveries, frames and outside changes in any order, an opted-out text shows what the page
      wrote last, and no source is ever cached for it. */
  lemma {:induction false} OptedOutShowsItself(t: Transform, s: Session, steps: seq<Step>, slot: Slot)
    requires StaysOptedOut(s, steps, slot)
    ensures var end := Run(t, s, steps).page;
            && slot in end.values && end.values[slot] == LastWritten(s.page.values[slot], steps, slot)
            && (slot in end.sources <==> slot in s.page.sources)
            && (slot in s.page.sources ==> end.sources[slot] == s.page.sources[slot])
    decreases |steps|
  {
    hide Next, OptedOut, Dom.WellFormed;
    if steps != [] {
      if steps[0].Outside? {
        OutsideIsChange(t, s, steps[0]);
      } else {
        OptedOutUntouched(t, s, steps[0], slot);
      }
      OptedOutShowsItself(t, Next(t, s, steps[0]), steps[1..], slot);
    }
  }

  // ---- What is visited ----

  /** The slot's source is settled and shown in the locale: the cached source if the text is what that shows in the
      previous locale, and the text itself otherwise. */
  ghost predicate IsVisited(t: Transform, before: Page, after: Page, slot: Slot, previous: Locale, locale: Locale)
    requires slot in before.values && slot in after.values
  {
    var shown := before.values[slot];
    && slot in after.sources
    && after.sources[slot] == (if && slot in before.sources && before.sources[slot] != ""
                                  && t(before.sources[slot], previous) == shown
                               then before.sources[slot] else shown)
    && after.values[slot] == t(after.sources[slot], locale)
  }

  lemma VisitedSlot(t: Transform, page: Page, slots: set<Slot>, previous: Locale, locale: Locale, slot: Slot)
    requires slots <= page.values.Keys && slot in slots
    ensures var after := VisitAll(t, page, slots, previous, locale);
            if slot.TextSlot? && Blank(page.values[slot]) then SameSlot(page, after, slot)
            else IsVisited(t, page, after, slot, previous, locale)
  {
    hide Trim;
    var after := VisitAll(t, page, slots, previous, locale);
    var _, _ := TrimWindow(page.values[slot]);
    assert after.State(slot) == Visit(t, page.State(slot), previous, locale);
  }

  /** Whatever was recorded or pending is forgotten in a switch; a frame records exactly the nodes whose texts it
      changed, if the page is observed. */
  lemma RecordsExactly(t: Transform, s: Session, locale: Locale)
    ensures locale != s.locale ==>
              var next := Next(t, s, Choose(locale));
              next.recorded == {} && next.pending == {} && !next.frame && (next.observing <==> locale != Tr)
    ensures s.frame ==>
              var next := Next(t, s, Frame);
              && next.pending == {} && !next.frame && next.page.values.Keys == s.page.values.Keys
              && next.recorded
                 == s.recorded + if s.observing then ChangedNodes(s.page.values, next.page.values) else {}
  {
    if s.frame {
      var slots := s.page.Reach(s.pending);
      var next := Flush(t, s);
      WrittenIsChanged(t, s.page, slots, s.previous, s.locale);
    }
  }

  ghost function ChangedNodes(before: map<Slot, string>, after: map<Slot, string>): set<Node> {
    set slot | slot in before && slot in after && after[slot] != before[slot] :: slot.node
  }

  lemma WrittenIsChanged(t: Transform, page: Page, slots: set<Slot>, previous: Locale, locale: Locale)
    requires slots <= page.values.Keys
    ensures Written(t, page, slots, previous, locale)
            == ChangedNodes(page.values, VisitAll(t, page, slots, previous, locale).values)
  {
    hide Visit;
    var after := VisitAll(t, page, slots, previous, locale);
    assert forall slot :: slot in page.values ==> after.values[slot] == after.State(slot).value;
    assert forall slot :: slot in page.values ==> page.values[slot] == page.State(slot).value;
  }

  /** A switch visits exactly the texts and attributes below the body that are not opted out, blank texts excepted. */
  lemma SwitchVisitsExactly(t: Transform, s: Session, locale: Locale, slot: Slot)
    requires s.page.dom.WellFormed() && locale != s.locale && slot in s.page.values
    ensures var after := Next(t, s, Choose(locale)).page;
            && slot in after.values
            && if && IsAbove(s.page.dom, slot.node, s.page.dom.body) && !OptedOut(s.page.dom, slot.node)
                  && !(slot.TextSlot? && Blank(s.page.values[slot]))
               then IsVisited(t, s.page, after, slot, s.previous, locale)
               else SameSlot(s.page, after, slot)
  {
    hide VisitAll, Page.Reach, Dom.WellFormed, OptedOut, IsAbove, IsVisited, SameSlot, Blank;
    var slots := s.page.Reach({s.page.dom.body});
    ReachExactly(s.page, {s.page.dom.body}, slot);
    if slot in slots {
      VisitedSlot(t, s.page, slots, s.previous, locale, slot);
    } else {
      NotVisited(t, s.page, slots, s.previous, locale, slot);
    }
  }

  /** A frame does so below the pending nodes. */
  lemma FrameVisitsExactly(t: Transform, s: Session, slot: Slot)
    requires s.page.dom.WellFormed() && s.frame && slot in s.page.values
    ensures var after := Next(t, s, Frame).page;
            && slot in after.values
            && if && (exists a :: a in s.pending && IsAbove(s.page.dom, slot.node, a))
                  && !OptedOut(s.page.dom, slot.node) && !(slot.TextSlot? && Blank(s.page.values[slot]))
               then IsVisited(t, s.page, after, slot, s.previous, s.locale)
               else SameSlot(s.page, after, slot)
  {
    hide VisitAll, Page.Reach, Dom.WellFormed, OptedOut, IsAbove, IsVisited, SameSlot, Blank, Written;
    var slots := s.page.Reach(s.pending);
    ReachExactly(s.page, s.pending, slot);
    if slot in slots {
      VisitedSlot(t, s.page, slots, s.previous, s.locale, slot);
    } else {
      NotVisited(t, s.page, slots, s.previous, s.locale, slot);
    }
  }
}

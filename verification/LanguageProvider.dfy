/** The provider of apps/web/components/site-language-provider.tsx as an object: the document it
    writes to, its caches and refs, and each of its functions, proved against the step system. */
module LanguageProvider {
  import opened LocaleDocument
  import opened LocaleOptOut
  import opened LocaleSlot
  import opened Options
  import opened Text

  /** A mutation record: nodes that were added, or the target of a text or attribute change. */
  datatype Mutation = ChildList(added: seq<Node>) | Changed(target: Node)

  function Mentioned(m: Mutation): seq<Node> {
    match m case ChildList(added) => added case Changed(target) => [target]
  }

  function MentionedIn(mutations: seq<Mutation>): seq<Node> {
    if mutations == [] then [] else MentionedIn(mutations[..|mutations| - 1]) + Mentioned(mutations[|mutations| - 1])
  }

  function Members(nodes: seq<Node>): set<Node> {
    set n | n in nodes
  }

  lemma NoMembers(nodes: seq<Node>)
    ensures Members(nodes) == {} <==> nodes == []
  {
    if nodes != [] {
      assert nodes[0] in Members(nodes);
    }
  }

  lemma MembersSnoc(nodes: seq<Node>, n: Node)
    ensures Members(nodes + [n]) == Members(nodes) + {n}
  {
  }

  lemma MentionSnoc(mutations: seq<Mutation>, m: Mutation)
    ensures Members(MentionedIn(mutations + [m])) == Members(MentionedIn(mutations)) + Members(Mentioned(m))
  {
  }

  lemma {:induction false} MentionConcat(a: seq<Mutation>, b: seq<Mutation>)
    ensures Members(MentionedIn(a + b)) == Members(MentionedIn(a)) + Members(MentionedIn(b))
  {
    hide Mentioned;
    if b == [] {
      assert a + b == a;
    } else {
      var front, m := b[..|b| - 1], b[|b| - 1];
      MentionConcat(a, front);
      MentionSnoc(a + front, m);
      MentionSnoc(front, m);
      assert a + b == (a + front) + [m] && b == front + [m];
      hide Members;
      hide MentionedIn;
      assert Members(MentionedIn(b)) == Members(MentionedIn(front)) + Members(Mentioned(m));
    }
  }

  // ---- Walking the tree ----

  function Filter(nodes: seq<Node>, keep: set<Node>): seq<Node> {
    if nodes == [] then []
    else Filter(nodes[..|nodes| - 1], keep) + (if nodes[|nodes| - 1] in keep then [nodes[|nodes| - 1]] else [])
  }

  lemma {:induction false} FilterMembers(nodes: seq<Node>, keep: set<Node>)
    requires forall i, j :: 0 <= i < j < |nodes| ==> nodes[i] != nodes[j]
    ensures forall n :: n in Filter(nodes, keep) <==> n in nodes && n in keep
    ensures forall i, j :: 0 <= i < j < |Filter(nodes, keep)| ==> Filter(nodes, keep)[i] != Filter(nodes, keep)[j]
  {
    if nodes != [] {
      FilterMembers(nodes[..|nodes| - 1], keep);
    }
  }

  /** The text nodes below `root` in document order: `createTreeWalker(root, SHOW_TEXT)`. */
  function TextsBelow(dom: Dom, root: Node): seq<Node> {
    Filter(dom.order, set n | n in dom.texts && root in dom.Path(n))
  }

  predicate HasAttribute(values: map<Slot, string>, n: Node) {
    exists a :: a in TRANSFORMABLE_ATTRIBUTES && AttrSlot(n, a) in values
  }

  /** `root.querySelectorAll` on the transformable attributes: strictly below the root. */
  function ElementsBelow(page: Page, root: Node): seq<Node> {
    Filter(page.dom.order, set n | n in page.dom.elements && n != root && root in page.dom.Path(n)
      && HasAttribute(page.values, n))
  }

  /** The visible slots of the given nodes, one kind at a time. */
  function TextSlotsOf(page: Page, nodes: seq<Node>): (r: set<Slot>)
    ensures r <= page.values.Keys
  {
    set s | s in page.values && s.TextSlot? && s.node in nodes && !page.dom.InSkippedTree(s.node)
  }

  function AttrSlotsOf(page: Page, nodes: seq<Node>): (r: set<Slot>)
    ensures r <= page.values.Keys
  {
    set s | s in page.values && s.AttrSlot? && s.node in nodes && !page.dom.InSkippedTree(s.node)
  }

  lemma SkippedBelow(dom: Dom, n: Node, root: Node)
    requires root in dom.Path(n) && dom.InSkippedTree(root)
    ensures dom.InSkippedTree(n)
  {
    PathTransitive(dom, n, root);
  }

  lemma {:induction false} OnlyElementsAbove(dom: Dom, n: Node, a: Node)
    requires dom.WellFormed() && a in dom.Path(n)
    ensures a == n || a in dom.elements
    decreases dom.Rank(n)
  {
    if a != n {
      OnlyElementsAbove(dom, dom.parent[n], a);
    }
  }

  lemma ReachOfText(page: Page, n: Node)
    requires page.Valid() && n in page.dom.texts
    ensures page.Reach({n}) == TextSlotsOf(page, [n])
    ensures TextSlotsOf(page, [n]) == if page.dom.InSkippedTree(n) then {} else {TextSlot(n)}
  {
    forall s | s in page.Reach({n}) ensures s == TextSlot(n) {
      OnlyElementsAbove(page.dom, s.node, n);
    }
    assert n in page.dom.Path(n) * {n};
    assert TextSlot(n) in page.values;
    assert TextSlot(n).node == n;
  }

  lemma ReachOfElement(page: Page, root: Node)
    requires page.Valid() && root in page.dom.elements
    ensures page.dom.InSkippedTree(root) ==> page.Reach({root}) == {}
    ensures page.Reach({root}) ==
            AttrSlotsOf(page, [root]) + TextSlotsOf(page, TextsBelow(page.dom, root))
              + AttrSlotsOf(page, ElementsBelow(page, root))
  {
    var texts, elements := TextsBelow(page.dom, root), ElementsBelow(page, root);
    FilterMembers(page.dom.order, set n | n in page.dom.texts && root in page.dom.Path(n));
    FilterMembers(page.dom.order,
                  set n | n in page.dom.elements && n != root && root in page.dom.Path(n)
                    && HasAttribute(page.values, n));
    assert root in page.dom.Path(root);
    forall s | s in page.Reach({root})
      ensures s in AttrSlotsOf(page, [root]) + TextSlotsOf(page, texts) + AttrSlotsOf(page, elements)
      ensures !page.dom.InSkippedTree(root)
    {
      assert root in page.dom.Path(s.node);
      if page.dom.InSkippedTree(root) {
        SkippedBelow(page.dom, s.node, root);
      }
      if s.AttrSlot? && s.node != root {
        assert HasAttribute(page.values, s.node);
      }
    }
    forall s | s in AttrSlotsOf(page, [root]) + TextSlotsOf(page, texts) + AttrSlotsOf(page, elements)
      ensures s in page.Reach({root})
    {
      assert root in page.dom.Path(s.node) * {root};
    }
  }

  // ---- Visits one after the other ----

  /** From one document and set of recorded nodes to another by visiting exactly the slots of `done`. */
  predicate VisitedFrom(t: Transform, page: Page, recorded: set<Node>, done: set<Slot>, previous: Locale,
                        current: Locale, observing: bool, pageAfter: Page, recordedAfter: set<Node>)
    requires done <= page.values.Keys
  {
    && pageAfter == VisitAll(t, page, done, previous, current)
    && recordedAfter == recorded + if observing then Written(t, page, done, previous, current) else {}
  }

  lemma NothingVisited(t: Transform, page: Page, slots: set<Slot>, previous: Locale, current: Locale)
    requires slots <= page.values.Keys && forall s :: s in slots ==> PassedOver(page.State(s))
    ensures VisitAll(t, page, slots, previous, current) == page && Written(t, page, slots, previous, current) == {}
  {
    SamePage(VisitAll(t, page, slots, previous, current), page);
  }

  /** One slot with a new text and source. */
  function Put(page: Page, slot: Slot, value: string, source: string): (r: Page)
    requires slot in page.values
    ensures r.dom == page.dom && r.values.Keys == page.values.Keys && r.values[slot] == value
    ensures r.State(slot) == page.State(slot).(value := value, source := Some(source))
    ensures forall s :: s in page.values && s != slot ==> r.State(s) == page.State(s)
    ensures forall s :: s !in page.values ==> (s in r.sources <==> s in page.sources) &&
                                              (s in r.sources ==> r.sources[s] == page.sources[s])
  {
    page.(values := page.values[slot := value], sources := page.sources[slot := source])
  }

  lemma OneVisited(t: Transform, page: Page, slot: Slot, previous: Locale, current: Locale)
    requires slot in page.values && !PassedOver(page.State(slot))
    ensures var source := ResolveSourceValue(t, page.State(slot).source, page.values[slot], previous);
            && VisitAll(t, page, {slot}, previous, current) == Put(page, slot, t(source, current), source)
            && Written(t, page, {slot}, previous, current) ==
               if t(source, current) != page.values[slot] then {slot.node} else {}
  {
    var source := ResolveSourceValue(t, page.State(slot).source, page.values[slot], previous);
    assert Visit(t, page.State(slot), previous, current)
      == page.State(slot).(value := t(source, current), source := Some(source));
    OneWritten(t, page, slot, previous, current);
    hide Visit, Put, Written, ResolveSourceValue;
    SamePage(VisitAll(t, page, {slot}, previous, current), Put(page, slot, t(source, current), source));
  }

  lemma OneWritten(t: Transform, page: Page, slot: Slot, previous: Locale, current: Locale)
    requires slot in page.values
    ensures Written(t, page, {slot}, previous, current)
            == if Visit(t, page.State(slot), previous, current).value != page.values[slot] then {slot.node} else {}
  {
    hide Visit;
  }

  /** What `Render` does to the document and to the records. */
  lemma RenderedSlot(t: Transform, page: Page, slot: Slot, source: string, previous: Locale, current: Locale,
                     observing: bool, records: seq<Mutation>, recordsAfter: seq<Mutation>)
    requires slot in page.values && !PassedOver(page.State(slot))
    requires source == ResolveSourceValue(t, page.State(slot).source, page.values[slot], previous)
    requires recordsAfter ==
             if observing && t(source, current) != page.values[slot] then records + [Changed(slot.node)] else records
    ensures VisitedFrom(t, page, Members(MentionedIn(records)), {slot}, previous, current, observing,
                        Put(page, slot, t(source, current), source), Members(MentionedIn(recordsAfter)))
  {
    hide VisitAll;
    hide Written;
    hide ResolveSourceValue;
    hide Put;
    hide MentionedIn;
    OneVisited(t, page, slot, previous, current);
    MentionSnoc(records, Changed(slot.node));
    assert Members(Mentioned(Changed(slot.node))) == {slot.node};
  }

  /** Visits change neither the tree nor which slots there are, so they change no reach. */
  lemma VisitsKeep(t: Transform, page: Page, recorded: set<Node>, done: set<Slot>, previous: Locale, current: Locale,
                   observing: bool, pageAfter: Page, recordedAfter: set<Node>)
    requires done <= page.values.Keys
    requires VisitedFrom(t, page, recorded, done, previous, current, observing, pageAfter, recordedAfter)
    ensures pageAfter.dom == page.dom && pageAfter.values.Keys == page.values.Keys
    ensures page.Valid() ==> pageAfter.Valid()
  {
  }

  lemma SameSlots(p: Page, q: Page, nodes: seq<Node>, roots: set<Node>)
    requires p.dom == q.dom && p.values.Keys == q.values.Keys
    ensures p.Reach(roots) == q.Reach(roots)
    ensures TextSlotsOf(p, nodes) == TextSlotsOf(q, nodes) && AttrSlotsOf(p, nodes) == AttrSlotsOf(q, nodes)
    ensures forall root :: ElementsBelow(p, root) == ElementsBelow(q, root)
  {
    forall root ensures ElementsBelow(p, root) == ElementsBelow(q, root) {
      forall n ensures HasAttribute(p.values, n) <==> HasAttribute(q.values, n) {
        assert forall a :: AttrSlot(n, a) in p.values <==> AttrSlot(n, a) in q.values;
      }
      assert (set n | n in p.dom.elements && n != root && root in p.dom.Path(n) && HasAttribute(p.values, n))
        == (set n | n in q.dom.elements && n != root && root in q.dom.Path(n) && HasAttribute(q.values, n));
    }
  }

  lemma VisitedMore(t: Transform, page: Page, recorded: set<Node>, done: set<Slot>, more: set<Slot>, previous: Locale,
                    current: Locale, observing: bool, pageMid: Page, recordedMid: set<Node>, pageAfter: Page,
                    recordedAfter: set<Node>)
    requires done <= page.values.Keys && more <= page.values.Keys && done !! more
    requires VisitedFrom(t, page, recorded, done, previous, current, observing, pageMid, recordedMid)
    requires VisitedFrom(t, pageMid, recordedMid, more, previous, current, observing, pageAfter, recordedAfter)
    ensures VisitedFrom(t, page, recorded, done + more, previous, current, observing, pageAfter, recordedAfter)
  {
    VisitDisjoint(t, page, done, more, previous, current);
    WrittenDisjoint(t, page, done, more, previous, current);
  }

  lemma VisitedAgain(t: Transform, page: Page, recorded: set<Node>, done: set<Slot>, more: set<Slot>, current: Locale,
                     observing: bool, pageMid: Page, recordedMid: set<Node>, pageAfter: Page, recordedAfter: set<Node>)
    requires done <= page.values.Keys && more <= page.values.Keys && KeepsEmpty(t)
    requires VisitedFrom(t, page, recorded, done, current, current, observing, pageMid, recordedMid)
    requires VisitedFrom(t, pageMid, recordedMid, more, current, current, observing, pageAfter, recordedAfter)
    ensures VisitedFrom(t, page, recorded, done + more, current, current, observing, pageAfter, recordedAfter)
  {
    VisitOverlapping(t, page, done, more, current);
    WrittenOverlapping(t, page, done, more, current);
  }

  // ---- The provider ----

  class Provider {
    const transform: Transform
    // the document
    var dom: Dom
    var values: map<Slot, string>
    // textSourceCacheRef and attributeSourceCacheRef
    var sources: map<Slot, string>
    // component state and refs
    var locale: Locale
    var previousLocale: Locale
    var isApplyingLocale: bool
    var frameRequested: bool
    // the mutation observer of the current effect
    var observing: bool
    var records: seq<Mutation>
    var pendingNodes: seq<Node>

    ghost function PageNow(): Page
      reads this
    {
      Page(dom, values, sources)
    }

    ghost function RecordedNow(): set<Node>
      reads this
    {
      Members(MentionedIn(records))
    }

    ghost function Now(): Session
      reads this
    {
      Session(PageNow(), locale, previousLocale, observing, RecordedNow(), Members(pendingNodes), frameRequested)
    }

    ghost predicate Valid()
      reads this
    {
      Now().Valid() && !isApplyingLocale
    }

    /** Since `page` and `recorded`, exactly the slots of `done` have been visited. */
    ghost predicate Visited(page: Page, recorded: set<Node>, done: set<Slot>, previous: Locale, current: Locale)
      requires done <= page.values.Keys
      reads this
    {
      VisitedFrom(transform, page, recorded, done, previous, current, observing, PageNow(), RecordedNow())
    }

    /** `isInSkippedTree`: walk up until a skipping element or the root. */
    method IsInSkippedTree(element: Option<Node>) returns (skipped: bool)
      requires dom.WellFormed()
      ensures skipped <==> element.Some? && dom.InSkippedTree(element.value)
      ensures skipped <==> element.Some? && OptedOut(dom, element.value)
    {
      hide OptedOut;
      if element.Some? {
        SkippedIsOptedOut(dom, element.value);
      }
      var current := element;
      while current.Some?
        invariant current.Some? ==> element.Some?
        invariant element.Some? ==>
                    (dom.InSkippedTree(element.value) <==> current.Some? && dom.InSkippedTree(current.value))
        decreases if current.Some? then 1 + dom.Rank(current.value) else 0
      {
        var n := current.value;
        if n in dom.tagName && dom.tagName[n] in SKIP_TEXT_TAGS {
          assert n in dom.Path(n);
          return true;
        }
        if n in dom.noTranslate {
          assert n in dom.Path(n);
          return true;
        }
        current := if n in dom.parent then Some(dom.parent[n]) else None;
      }
      return false;
    }

    /** The shared tail of the two `applyLocaleTo…` functions: resolve, cache, translate, and write
        only a changed value; a write while observed leaves a record. */
    method Render(slot: Slot, previous: Locale, current: Locale)
      requires slot in values && !PassedOver(PageNow().State(slot))
      modifies `values, `sources, `records
      ensures Visited(old(PageNow()), old(RecordedNow()), {slot}, previous, current)
    {
      hide VisitedFrom;
      hide MentionedIn;
      ghost var page, before := PageNow(), records;
      var value := values[slot];
      var cached := if slot in sources then Some(sources[slot]) else None;
      var source := ResolveSourceValue(transform, cached, value, previous);
      sources := sources[slot := source];
      var transformed := transform(source, current);
      if transformed != value {
        values := values[slot := transformed];
        if observing {
          records := records + [Changed(slot.node)];
        }
      } else {
        assert values[slot := value] == values;
      }
      RenderedSlot(transform, page, slot, source, previous, current, observing, before, records);
    }

    method ApplyLocaleToTextNode(n: Node, previous: Locale, current: Locale)
      requires PageNow().Valid() && n in dom.texts
      modifies `values, `sources, `records
      ensures Visited(old(PageNow()), old(RecordedNow()), old(PageNow().Reach({n})), previous, current)
    {
      hide VisitAll;
      hide Written;
      ghost var page := PageNow();
      ReachOfText(page, n);
      var value := values[TextSlot(n)];
      var skipped := IsInSkippedTree(if n in dom.parent then Some(dom.parent[n]) else None);
      ParentSkips(dom, n);
      if Trim(value) == "" || skipped {
        NothingVisited(transform, page, page.Reach({n}), previous, current);
        return;
      }
      Render(TextSlot(n), previous, current);
    }

    method ApplyLocaleToAttributes(element: Node, previous: Locale, current: Locale)
      requires PageNow().Valid() && element in dom.elements
      modifies `values, `sources, `records
      ensures Visited(old(PageNow()), old(RecordedNow()), old(AttrSlotsOf(PageNow(), [element])), previous, current)
    {
      hide VisitedFrom;
      hide MentionedIn;
      hide AttrSlotsOf;
      hide AttributePrefix;
      hide Dom.WellFormed;
      hide Dom.InSkippedTree;
      hide ResolveSourceValue;
      ghost var page, recorded := PageNow(), RecordedNow();
      NothingVisitedYet(transform, page, recorded, previous, current, observing);
      AttributesInTurn(page, element);
      var skipped := IsInSkippedTree(Some(element));
      if skipped {
        return;
      }
      var i := 0;
      while i < |TRANSFORMABLE_ATTRIBUTES|
        invariant 0 <= i <= |TRANSFORMABLE_ATTRIBUTES|
        invariant dom == page.dom && values.Keys == page.values.Keys
        invariant Visited(page, recorded, AttributePrefix(page, element, i), previous, current)
      {
        var slot := AttrSlot(element, TRANSFORMABLE_ATTRIBUTES[i]);
        AttributeStep(page, element, i);
        if slot in values {
          ghost var pageMid, recordedMid := PageNow(), RecordedNow();
          Render(slot, previous, current);
          VisitsKeep(transform, pageMid, recordedMid, {slot}, previous, current, observing, PageNow(), RecordedNow());
          VisitedMore(transform, page, recorded, AttributePrefix(page, element, i), {slot}, previous, current,
                      observing, pageMid, recordedMid, PageNow(), RecordedNow());
        }
        i := i + 1;
      }
    }

    /** The loop over the text walker. */
    method ApplyLocaleToTexts(texts: seq<Node>, previous: Locale, current: Locale)
      requires PageNow().Valid() && Distinct(texts) && forall n :: n in texts ==> n in dom.texts
      modifies `values, `sources, `records
      ensures Visited(old(PageNow()), old(RecordedNow()), old(TextSlotsOf(PageNow(), texts)), previous, current)
    {
      hide VisitedFrom;
      hide MentionedIn;
      hide TextSlotsOf;
      ghost var page, recorded := PageNow(), RecordedNow();
      NothingVisitedYet(transform, page, recorded, previous, current, observing);
      NodesInTurn(page, texts);
      for i := 0 to |texts|
        invariant PageNow().Valid() && dom == page.dom && values.Keys == page.values.Keys
        invariant Visited(page, recorded, TextSlotsOf(page, texts[..i]), previous, current)
      {
        ghost var pageMid, recordedMid := PageNow(), RecordedNow();
        SameSlots(page, pageMid, [texts[i]], {texts[i]});
        ReachOfText(page, texts[i]);
        ApplyLocaleToTextNode(texts[i], previous, current);
        ghost var more := TextSlotsOf(page, [texts[i]]);
        VisitsKeep(transform, pageMid, recordedMid, more, previous, current, observing, PageNow(), RecordedNow());
        VisitedMore(transform, page, recorded, TextSlotsOf(page, texts[..i]), more, previous, current, observing,
                    pageMid, recordedMid, PageNow(), RecordedNow());
      }
      assert texts[..|texts|] == texts;
    }

    /** The loop over the descendants with transformable attributes. */
    method ApplyLocaleToDescendants(elements: seq<Node>, previous: Locale, current: Locale)
      requires PageNow().Valid() && Distinct(elements) && forall n :: n in elements ==> n in dom.elements
      modifies `values, `sources, `records
      ensures Visited(old(PageNow()), old(RecordedNow()), old(AttrSlotsOf(PageNow(), elements)), previous, current)
    {
      hide VisitedFrom;
      hide MentionedIn;
      hide AttrSlotsOf;
      ghost var page, recorded := PageNow(), RecordedNow();
      NothingVisitedYet(transform, page, recorded, previous, current, observing);
      NodesInTurn(page, elements);
      for i := 0 to |elements|
        invariant PageNow().Valid() && dom == page.dom && values.Keys == page.values.Keys
        invariant Visited(page, recorded, AttrSlotsOf(page, elements[..i]), previous, current)
      {
        ghost var pageMid, recordedMid := PageNow(), RecordedNow();
        SameSlots(page, pageMid, [elements[i]], {});
        ApplyLocaleToAttributes(elements[i], previous, current);
        ghost var more := AttrSlotsOf(page, [elements[i]]);
        VisitsKeep(transform, pageMid, recordedMid, more, previous, current, observing, PageNow(), RecordedNow());
        VisitedMore(transform, page, recorded, AttrSlotsOf(page, elements[..i]), more, previous, current, observing,
                    pageMid, recordedMid, PageNow(), RecordedNow());
      }
      assert elements[..|elements|] == elements;
    }

    /** The root's attributes, then every text node below it, then every element below it with a
        transformable attribute: each visible slot exactly once. */
    method ApplyLocaleToElementTree(root: Node, previous: Locale, current: Locale)
      requires PageNow().Valid() && root in dom.elements
      modifies `values, `sources, `records
      ensures Visited(old(PageNow()), old(RecordedNow()), old(PageNow().Reach({root})), previous, current)
    {
      hide VisitedFrom;
      hide MentionedIn;
      hide AttrSlotsOf;
      hide TextSlotsOf;
      hide ElementsBelow;
      hide TextsBelow;
      ghost var page, recorded := PageNow(), RecordedNow();
      NothingVisitedYet(transform, page, recorded, previous, current, observing);
      ReachOfElement(page, root);
      WalkersDistinct(page, root);
      var texts := TextsBelow(dom, root);
      ghost var attributes, textSlots, below :=
        AttrSlotsOf(page, [root]), TextSlotsOf(page, texts), AttrSlotsOf(page, ElementsBelow(page, root));
      var skipped := IsInSkippedTree(Some(root));
      if skipped {
        return;
      }
      ApplyLocaleToAttributes(root, previous, current);
      ghost var page1, recorded1 := PageNow(), RecordedNow();
      VisitsKeep(transform, page, recorded, attributes, previous, current, observing, page1, recorded1);

      SameSlots(page, page1, texts, {});
      ApplyLocaleToTexts(texts, previous, current);
      ghost var page2, recorded2 := PageNow(), RecordedNow();
      VisitsKeep(transform, page1, recorded1, textSlots, previous, current, observing, page2, recorded2);
      VisitedMore(transform, page, recorded, attributes, textSlots, previous, current, observing,
                  page1, recorded1, page2, recorded2);

      SameSlots(page, page2, ElementsBelow(page, root), {});
      var descendants := ElementsBelow(Page(dom, values, sources), root);
      ApplyLocaleToDescendants(descendants, previous, current);
      VisitedMore(transform, page, recorded, attributes + textSlots, below, previous, current, observing,
                  page2, recorded2, PageNow(), RecordedNow());
    }

    method ApplyLocaleToNode(node: Node, previous: Locale, current: Locale)
      requires PageNow().Valid()
      modifies `values, `sources, `records
      ensures Visited(old(PageNow()), old(RecordedNow()), old(PageNow().Reach({node})), previous, current)
    {
      if node in dom.texts {
        ApplyLocaleToTextNode(node, previous, current);
      } else if node in dom.elements {
        ApplyLocaleToElementTree(node, previous, current);
      } else {
        ReachOfNothing(PageNow(), node);
        NothingVisitedYet(transform, PageNow(), RecordedNow(), previous, current, observing);
      }
    }

    // ---- The effect, the observer callback and the animation frame ----

    /** `runTransform`: one pass over the body, from the previous locale to the current one; nothing
        while a pass is already under way. */
    method RunTransform()
      requires PageNow().Valid() && !observing
      modifies `values, `sources, `records, `previousLocale, `isApplyingLocale
      ensures old(isApplyingLocale) ==> Now() == old(Now()) && isApplyingLocale
      ensures !old(isApplyingLocale) ==>
                && PageNow() == old(VisitAll(transform, PageNow(), PageNow().Reach({dom.body}), previousLocale, locale))
                && previousLocale == locale && !isApplyingLocale && RecordedNow() == old(RecordedNow())
    {
      hide VisitAll, Written, Mentioned, MentionedIn, Dom.Path, Dom.InSkippedTree;
      if isApplyingLocale {
        return;
      }
      isApplyingLocale := true;
      ApplyLocaleToElementTree(dom.body, previousLocale, locale);
      previousLocale := locale;
      isApplyingLocale := false;
    }

    /** The provider mounts on a document nobody has translated yet. */
    constructor (transform: Transform, dom: Dom, values: map<Slot, string>, locale: Locale)
      requires Page(dom, values, map[]).Valid()
      ensures this.transform == transform
      ensures Valid() && Now() == StartLocale(transform, Page(dom, values, map[]), locale, locale)
    {
      this.transform, this.dom, this.values, this.sources := transform, dom, values, map[];
      this.locale, this.previousLocale := locale, locale;
      isApplyingLocale, frameRequested, observing, records, pendingNodes := false, false, false, [], [];
      new;
      VisitKeepsValid(transform, PageNow(), PageNow().Reach({dom.body}), locale, locale);
      RunTransform();
      observing := locale != DEFAULT_LOCALE;
    }

    /** Choosing a locale: a new one tears the old effect down and runs it again. */
    method SetLocale(next: Locale)
      requires Valid()
      modifies this
      ensures Valid() && Now() == SwitchLocale(transform, old(Now()), next)
    {
      if next == locale {
        return;
      }
      locale := next;
      // clean-up of the old effect: disconnect drops undelivered records
      observing, records, frameRequested, pendingNodes := false, [], false, [];
      VisitKeepsValid(transform, PageNow(), PageNow().Reach({dom.body}), previousLocale, locale);
      RunTransform();
      if locale == DEFAULT_LOCALE {
        return;
      }
      observing := true;
    }

    /** The observer callback; the browser hands over all queued records. */
    method DeliverMutations()
      requires Valid()
      modifies `records, `pendingNodes, `frameRequested
      ensures Valid() && Now() == Deliver(old(Now()))
    {
      var mutations := records;
      records := [];
      if isApplyingLocale {
        return;
      }
      CollectPending(mutations);
      NoMembers(pendingNodes);
      NoMembers(MentionedIn([]));
      if pendingNodes == [] {
        return;
      }
      frameRequested := true;
    }

    method CollectPending(mutations: seq<Mutation>)
      modifies `pendingNodes
      ensures Members(pendingNodes) == old(Members(pendingNodes)) + Members(MentionedIn(mutations))
    {
      NoMembers([]);
      for i := 0 to |mutations|
        invariant Members(pendingNodes) == old(Members(pendingNodes)) + Members(MentionedIn(mutations[..i]))
      {
        MentionSnoc(mutations[..i], mutations[i]);
        AddPending(Mentioned(mutations[i]));
        assert mutations[..i + 1] == mutations[..i] + [mutations[i]];
      }
      assert mutations[..|mutations|] == mutations;
    }

    /** `pendingNodes.add` for each node: an insertion-ordered set. */
    method AddPending(nodes: seq<Node>)
      modifies `pendingNodes
      ensures Members(pendingNodes) == old(Members(pendingNodes)) + Members(nodes)
    {
      NoMembers([]);
      for i := 0 to |nodes|
        invariant Members(pendingNodes) == old(Members(pendingNodes)) + Members(nodes[..i])
      {
        MembersSnoc(nodes[..i], nodes[i]);
        MembersSnoc(pendingNodes, nodes[i]);
        assert nodes[..i + 1] == nodes[..i] + [nodes[i]];
        if nodes[i] !in pendingNodes {
          pendingNodes := pendingNodes + [nodes[i]];
        }
      }
      assert nodes[..|nodes|] == nodes;
    }

    /** The animation frame. Its result does not depend on the order of the pending nodes or on their
        being nested: it visits the union of what they reach. */
    method FlushPending()
      requires Valid() && KeepsEmpty(transform)
      modifies this
      ensures Valid() && Now() == Flush(transform, old(Now()))
    {
      if !frameRequested {
        return;
      }
      frameRequested := false;
      if pendingNodes == [] {
        return;
      }
      ghost var page, recorded := PageNow(), RecordedNow();
      NothingVisitedYet(transform, page, recorded, locale, locale, observing);
      isApplyingLocale := true;
      VisitPending(pendingNodes, previousLocale, locale);
      VisitsKeep(transform, page, recorded, page.Reach(Members(pendingNodes)), locale, locale, observing, PageNow(),
                 RecordedNow());
      NoMembers([]);
      NoMembers(pendingNodes);
      pendingNodes := [];
      isApplyingLocale := false;
    }

    /** The loop of the frame over the pending nodes. */
    method VisitPending(nodes: seq<Node>, previous: Locale, current: Locale)
      requires PageNow().Valid() && previous == current && KeepsEmpty(transform)
      modifies `values, `sources, `records
      ensures Visited(old(PageNow()), old(RecordedNow()), old(PageNow().Reach(Members(nodes))), current, current)
    {
      hide VisitedFrom;
      hide MentionedIn;
      ghost var page, recorded := PageNow(), RecordedNow();
      NothingVisitedYet(transform, page, recorded, current, current, observing);
      for i := 0 to |nodes|
        invariant PageNow().Valid() && dom == page.dom && values.Keys == page.values.Keys
        invariant Visited(page, recorded, page.Reach(Members(nodes[..i])), current, current)
      {
        ghost var pageMid, recordedMid := PageNow(), RecordedNow();
        SameSlots(page, pageMid, [], {nodes[i]});
        ApplyLocaleToNode(nodes[i], previous, current);
        ghost var done, more := page.Reach(Members(nodes[..i])), page.Reach({nodes[i]});
        ReachSnoc(page, nodes[..i], nodes[i]);
        VisitsKeep(transform, pageMid, recordedMid, more, current, current, observing, PageNow(), RecordedNow());
        VisitedAgain(transform, page, recorded, done, more, current, observing, pageMid, recordedMid, PageNow(),
                     RecordedNow());
        assert nodes[..i + 1] == nodes[..i] + [nodes[i]];
      }
      assert nodes[..|nodes|] == nodes;
    }

    /** The rest of the page changes the document; while observed, the browser queues records. */
    method PageChanges(dom: Dom, values: map<Slot, string>, mutations: seq<Mutation>)
      requires Valid() && Page(dom, values, sources).Valid()
      modifies `dom, `values, `records
      ensures Valid() && Now() == Change(old(Now()), dom, values, Members(MentionedIn(mutations)))
    {
      this.dom, this.values := dom, values;
      if observing {
        MentionConcat(records, mutations);
        records := records + mutations;
      }
    }
  }

  predicate Distinct(nodes: seq<Node>) {
    forall i, j :: 0 <= i < j < |nodes| ==> nodes[i] != nodes[j]
  }

  function AttributePrefix(page: Page, element: Node, k: nat): (r: set<Slot>)
    requires k <= |TRANSFORMABLE_ATTRIBUTES|
    ensures r <= page.values.Keys
  {
    set s | s in AttrSlotsOf(page, [element]) && s.name in TRANSFORMABLE_ATTRIBUTES[..k]
  }

  lemma AttributesInTurn(page: Page, element: Node)
    requires page.Valid()
    ensures page.dom.InSkippedTree(element) ==> AttrSlotsOf(page, [element]) == {}
    ensures AttributePrefix(page, element, 0) == {}
    ensures AttributePrefix(page, element, |TRANSFORMABLE_ATTRIBUTES|) == AttrSlotsOf(page, [element])
  {
  }

  /** An element's attributes are visited one after the other. */
  lemma AttributeStep(page: Page, element: Node, i: nat)
    requires i < |TRANSFORMABLE_ATTRIBUTES| && !page.dom.InSkippedTree(element)
    ensures var slot := AttrSlot(element, TRANSFORMABLE_ATTRIBUTES[i]);
            && slot !in AttributePrefix(page, element, i)
            && AttributePrefix(page, element, i + 1)
               == if slot in page.values then AttributePrefix(page, element, i) + {slot}
                 else AttributePrefix(page, element, i)
  {
  }

  /** Distinct nodes have disjoint slots, so a list of them is visited one after the other. */
  lemma NodesInTurn(page: Page, nodes: seq<Node>)
    requires Distinct(nodes)
    ensures TextSlotsOf(page, nodes[..0]) == {} && AttrSlotsOf(page, nodes[..0]) == {}
    ensures forall i :: 0 <= i < |nodes| ==>
              && TextSlotsOf(page, nodes[..i]) !! TextSlotsOf(page, [nodes[i]])
              && TextSlotsOf(page, nodes[..i + 1]) == TextSlotsOf(page, nodes[..i]) + TextSlotsOf(page, [nodes[i]])
              && AttrSlotsOf(page, nodes[..i]) !! AttrSlotsOf(page, [nodes[i]])
              && AttrSlotsOf(page, nodes[..i + 1]) == AttrSlotsOf(page, nodes[..i]) + AttrSlotsOf(page, [nodes[i]])
  {
  }

  lemma WalkersDistinct(page: Page, root: Node)
    requires page.Valid()
    ensures Distinct(TextsBelow(page.dom, root)) && forall n :: n in TextsBelow(page.dom, root) ==> n in page.dom.texts
    ensures Distinct(ElementsBelow(page, root)) && root !in ElementsBelow(page, root)
    ensures forall n :: n in ElementsBelow(page, root) ==> n in page.dom.elements
    ensures AttrSlotsOf(page, [root]) !! TextSlotsOf(page, TextsBelow(page.dom, root))
    ensures (AttrSlotsOf(page, [root]) + TextSlotsOf(page, TextsBelow(page.dom, root))) !! AttrSlotsOf(page,
            ElementsBelow(page, root))
  {
    FilterMembers(page.dom.order, set n | n in page.dom.texts && root in page.dom.Path(n));
    FilterMembers(page.dom.order,
                  set n | n in page.dom.elements && n != root && root in page.dom.Path(n)
                    && HasAttribute(page.values, n));
  }

  lemma ReachOfNothing(page: Page, node: Node)
    requires page.Valid() && node !in page.dom.texts && node !in page.dom.elements
    ensures page.Reach({node}) == {}
  {
    forall s | s in page.Reach({node}) ensures false {
      OnlyElementsAbove(page.dom, s.node, node);
    }
  }

  lemma ReachSnoc(page: Page, nodes: seq<Node>, n: Node)
    ensures page.Reach(Members(nodes + [n])) == page.Reach(Members(nodes)) + page.Reach({n})
  {
  }

  lemma NothingVisitedYet(t: Transform, page: Page, recorded: set<Node>, previous: Locale, current: Locale,
                          observing: bool)
    ensures VisitedFrom(t, page, recorded, {}, previous, current, observing, page, recorded)
    ensures page.Reach(Members([])) == {}
  {
  }

  lemma ParentSkips(dom: Dom, n: Node)
    requires dom.WellFormed() && n in dom.texts
    ensures dom.InSkippedTree(n) <==> n in dom.parent && dom.InSkippedTree(dom.parent[n])
  {
  }
}

/** `normalizeJobProfile` of apps/web/lib/job-profile.ts. In a raw profile `None` stands for a part that is
    missing, null or of the wrong type. */
module JobProfile {
  import opened CompetencyDefinitions
  import opened Keyed
  import opened Options
  import opened Text

  type Texts = Option<seq<string>>

  datatype RawDefinition = RawDefinition(name: string, category: string, definition: string,
                                         expectedBehavior: Option<string>)

  datatype RawSets = RawSets(core: Texts, functional: Texts, technical: Texts, managerial: Texts)

  datatype RawCriteria = RawCriteria(educationLevel: Option<string>, schoolDepartments: Texts, certificates: Texts,
                                     minimumExperienceYears: Option<int>, tools: Texts, languages: Texts)

  datatype RawProfile = RawProfile(titleLevel: Option<string>, responsibilities: Texts, competencySets: Option<RawSets>,
                                   competencyDefinitions: Option<seq<RawDefinition>>, criteria: Option<RawCriteria>,
                                   applicantQuestions: Texts, responseSlaDays: Option<int>,
                                   hideCompensation: Option<bool>, logoUrl: Option<string>, imageUrls: Texts,
                                   notes: Option<string>)

  datatype Criteria = Criteria(educationLevel: Option<string>, schoolDepartments: seq<string>,
                               certificates: seq<string>, minimumExperienceYears: Option<int>, tools: seq<string>,
                               languages: seq<string>)

  datatype Profile = Profile(titleLevel: Option<string>, responsibilities: seq<string>, competencySets: CompetencySets,
                             competencyDefinitions: seq<Definition>, criteria: Criteria,
                             applicantQuestions: seq<string>, responseSlaDays: int, hideCompensation: bool,
                             logoUrl: Option<string>, imageUrls: seq<string>, notes: Option<string>)

  const DEFAULT_RESPONSE_SLA_DAYS := 15

  function CleanText(value: Option<string>): Option<string> {
    if value.None? || Trim(value.value) == "" then None else Some(Trim(value.value))
  }

  function NormalizeList(values: Texts): seq<string> {
    if values.None? then [] else Kept(Trims(values.value), NotEmpty)
  }

  function CategoryOf(text: string): Option<Category> {
    if text == "core" then Some(Core) else if text == "functional" then Some(Functional)
    else if text == "technical" then Some(Technical) else if text == "managerial" then Some(Managerial) else None
  }

  /** The cleaned definition when its name and text are not blank and its category is known. */
  function CleanDefinition(d: RawDefinition): Option<Definition> {
    if Trim(d.name) == "" || Trim(d.definition) == "" || CategoryOf(d.category).None? then None
    else Some(Definition(Trim(d.name), CategoryOf(d.category).value, Trim(d.definition), CleanText(d.expectedBehavior)))
  }

  function NormalizeDefinitions(values: seq<RawDefinition>): seq<Definition> {
    if values == [] then []
    else
      var front, last := NormalizeDefinitions(values[..|values| - 1]), CleanDefinition(values[|values| - 1]);
      if last.Some? then front + [last.value] else front
  }

  function NormalizeSets(sets: Option<RawSets>): CompetencySets {
    match sets
    case None => CompetencySets([], [], [], [])
    case Some(s) => CompetencySets(NormalizeList(s.core), NormalizeList(s.functional), NormalizeList(s.technical),
                                   NormalizeList(s.managerial))
  }

  function NormalizeCriteria(criteria: Option<RawCriteria>): Criteria {
    match criteria
    case None => Criteria(None, [], [], None, [], [])
    case Some(c) => Criteria(CleanText(c.educationLevel), NormalizeList(c.schoolDepartments),
                             NormalizeList(c.certificates), c.minimumExperienceYears, NormalizeList(c.tools),
                             NormalizeList(c.languages))
  }

  const NOTHING: RawProfile := RawProfile(None, None, None, None, None, None, None, None, None, None, None)

  function NormalizeJobProfile(profile: Option<RawProfile>): Profile {
    var p := if profile.Some? then profile.value else NOTHING;
    Profile(CleanText(p.titleLevel), NormalizeList(p.responsibilities), NormalizeSets(p.competencySets),
            if p.competencyDefinitions.Some? then NormalizeDefinitions(p.competencyDefinitions.value) else [],
            NormalizeCriteria(p.criteria), NormalizeList(p.applicantQuestions),
            if p.responseSlaDays.Some? then p.responseSlaDays.value else DEFAULT_RESPONSE_SLA_DAYS,
            p.hideCompensation != Some(false), CleanText(p.logoUrl), NormalizeList(p.imageUrls), CleanText(p.notes))
  }

  // ---- A normal profile read as a raw one ----

  function RawOfDefinitions(definitions: seq<Definition>): (r: seq<RawDefinition>)
    ensures |r| == |definitions|
    ensures forall i :: 0 <= i < |r| ==> r[i] == RawOfDefinition(definitions[i])
  {
    seq(|definitions|, i requires 0 <= i < |definitions| => RawOfDefinition(definitions[i]))
  }

  function RawOfDefinition(d: Definition): RawDefinition {
    RawDefinition(d.name, CategoryText(d.category), d.definition, d.expectedBehavior)
  }

  function RawOf(p: Profile): RawProfile {
    var s, c := p.competencySets, p.criteria;
    RawProfile(p.titleLevel, Some(p.responsibilities),
               Some(RawSets(Some(s.core), Some(s.functional), Some(s.technical), Some(s.managerial))),
               Some(RawOfDefinitions(p.competencyDefinitions)),
               Some(RawCriteria(c.educationLevel, Some(c.schoolDepartments), Some(c.certificates),
                                c.minimumExperienceYears, Some(c.tools), Some(c.languages))),
               Some(p.applicantQuestions), Some(p.responseSlaDays), Some(p.hideCompensation), p.logoUrl,
               Some(p.imageUrls), p.notes)
  }

  predicate Clean(s: string) {
    s != "" && Trimmed(s)
  }

  predicate CleanOption(s: Option<string>) {
    s.Some? ==> Clean(s.value)
  }

  predicate CleanList(values: seq<string>) {
    forall i :: 0 <= i < |values| ==> Clean(values[i])
  }

  predicate CleanDefinitions(definitions: seq<Definition>) {
    forall i :: 0 <= i < |definitions| ==>
      Clean(definitions[i].name) && Clean(definitions[i].definition) && CleanOption(definitions[i].expectedBehavior)
  }

  /** Every text a profile holds is trimmed and not empty. */
  predicate Normal(p: Profile) {
    var s, c := p.competencySets, p.criteria;
    && CleanOption(p.titleLevel) && CleanList(p.responsibilities) && CleanList(s.core) && CleanList(s.functional)
    && CleanList(s.technical) && CleanList(s.managerial) && CleanDefinitions(p.competencyDefinitions)
    && CleanOption(c.educationLevel) && CleanList(c.schoolDepartments) && CleanList(c.certificates)
    && CleanList(c.tools)
    && CleanList(c.languages) && CleanList(p.applicantQuestions) && CleanOption(p.logoUrl) && CleanList(p.imageUrls)
    && CleanOption(p.notes)
  }

  lemma CleanTextClean(value: Option<string>)
    ensures CleanOption(CleanText(value))
  {
    hide Trim;
    if value.Some? {
      var _, _ := TrimWindow(value.value);
    }
  }

  lemma ListClean(values: Texts)
    ensures CleanList(NormalizeList(values))
  {
    hide Trim, Kept;
    if values.Some? {
      var index := KeptInOrder(Trims(values.value), NotEmpty);
      forall i | 0 <= i < |index| ensures Clean(Trim(values.value[index[i]])) {
        assert index[i] in index;
        var _, _ := TrimWindow(values.value[index[i]]);
      }
    }
  }

  lemma {:induction false} DefinitionsClean(values: seq<RawDefinition>)
    ensures CleanDefinitions(NormalizeDefinitions(values))
  {
    hide Trim, CategoryOf;
    if values != [] {
      var last := values[|values| - 1];
      DefinitionsClean(values[..|values| - 1]);
      var _, _ := TrimWindow(last.name);
      var _, _ := TrimWindow(last.definition);
      CleanTextClean(last.expectedBehavior);
    }
  }

  /** Normalising leaves only trimmed, non-empty texts. */
  lemma NormalizedIsNormal(profile: Option<RawProfile>)
    ensures Normal(NormalizeJobProfile(profile))
  {
    hide CleanText, NormalizeList, NormalizeDefinitions, CleanList, CleanOption, CleanDefinitions;
    var p := if profile.Some? then profile.value else NOTHING;
    CleanTextClean(p.titleLevel);
    CleanTextClean(p.logoUrl);
    CleanTextClean(p.notes);
    ListClean(p.responsibilities);
    ListClean(p.applicantQuestions);
    ListClean(p.imageUrls);
    SetsClean(p.competencySets);
    CriteriaClean(p.criteria);
    DefinitionsClean(if p.competencyDefinitions.Some? then p.competencyDefinitions.value else []);
    assert NormalizeDefinitions([]) == [] && CleanDefinitions([]) by {
      NoDefinitions();
    }
  }

  lemma NoDefinitions()
    ensures NormalizeDefinitions([]) == [] && CleanDefinitions([])
  {
  }

  lemma SetsClean(sets: Option<RawSets>)
    ensures var s := NormalizeSets(sets);
            CleanList(s.core) && CleanList(s.functional) && CleanList(s.technical) && CleanList(s.managerial)
  {
    hide NormalizeList;
    if sets.Some? {
      ListClean(sets.value.core);
      ListClean(sets.value.functional);
      ListClean(sets.value.technical);
      ListClean(sets.value.managerial);
    }
  }

  lemma CriteriaClean(criteria: Option<RawCriteria>)
    ensures var c := NormalizeCriteria(criteria);
            CleanOption(c.educationLevel) && CleanList(c.schoolDepartments) && CleanList(c.certificates)
              && CleanList(c.tools)
            && CleanList(c.languages)
  {
    hide NormalizeList, CleanText;
    if criteria.Some? {
      CleanTextClean(criteria.value.educationLevel);
      ListClean(criteria.value.schoolDepartments);
      ListClean(criteria.value.certificates);
      ListClean(criteria.value.tools);
      ListClean(criteria.value.languages);
    }
  }

  lemma TextFixed(value: Option<string>)
    requires CleanOption(value)
    ensures CleanText(value) == value
  {
  }

  lemma ListFixed(values: seq<string>)
    requires CleanList(values)
    ensures NormalizeList(Some(values)) == values
  {
    hide Trim, Kept;
    forall i | 0 <= i < |values| ensures Trims(values)[i] == values[i] {
      TrimTrimmed(values[i]);
    }
    assert Trims(values) == values;
    KeptAll(values, NotEmpty);
  }

  lemma DefinitionFixed(d: Definition)
    requires Clean(d.name) && Clean(d.definition) && CleanOption(d.expectedBehavior)
    ensures CleanDefinition(RawOfDefinition(d)) == Some(d)
  {
    hide Trim, CleanText;
    TrimTrimmed(d.name);
    TrimTrimmed(d.definition);
    TextFixed(d.expectedBehavior);
    assert CategoryOf(CategoryText(d.category)) == Some(d.category);
  }

  lemma {:induction false} DefinitionsFixed(definitions: seq<Definition>)
    requires CleanDefinitions(definitions)
    ensures NormalizeDefinitions(RawOfDefinitions(definitions)) == definitions
  {
    hide CleanDefinition, RawOfDefinition, Clean, CleanOption;
    if definitions != [] {
      var n := |definitions| - 1;
      assert RawOfDefinitions(definitions)[..n] == RawOfDefinitions(definitions[..n]);
      DefinitionsFixed(definitions[..n]);
      DefinitionFixed(definitions[n]);
    }
  }

  lemma NormalFixed(p: Profile)
    requires Normal(p)
    ensures NormalizeJobProfile(Some(RawOf(p))) == p
  {
    hide CleanText, NormalizeList, NormalizeDefinitions, CleanList, CleanOption, CleanDefinitions, RawOfDefinitions;
    var s, c := p.competencySets, p.criteria;
    TextFixed(p.titleLevel);
    TextFixed(c.educationLevel);
    TextFixed(p.logoUrl);
    TextFixed(p.notes);
    ListFixed(p.responsibilities);
    ListFixed(s.core);
    ListFixed(s.functional);
    ListFixed(s.technical);
    ListFixed(s.managerial);
    ListFixed(c.schoolDepartments);
    ListFixed(c.certificates);
    ListFixed(c.tools);
    ListFixed(c.languages);
    ListFixed(p.applicantQuestions);
    ListFixed(p.imageUrls);
    DefinitionsFixed(p.competencyDefinitions);
  }

  /** A profile is what normalising leaves alone exactly when it is normal, so normalising twice is
      normalising once. */
  lemma FixedIffNormal(p: Profile)
    ensures NormalizeJobProfile(Some(RawOf(p))) == p <==> Normal(p)
  {
    hide NormalizeJobProfile, Normal, RawOf;
    NormalizedIsNormal(Some(RawOf(p)));
    if Normal(p) {
      NormalFixed(p);
    }
  }

  lemma NormalizeIdempotent(profile: Option<RawProfile>)
    ensures var p := NormalizeJobProfile(profile); NormalizeJobProfile(Some(RawOf(p))) == p
  {
    hide NormalizeJobProfile, Normal, RawOf;
    NormalizedIsNormal(profile);
    NormalFixed(NormalizeJobProfile(profile));
  }

  // ---- What normalising keeps ----

  /** The text without the white space around it; a missing or blank one is absent. */
  predicate IsCleanText(result: Option<string>, raw: Option<string>) {
    if raw.None? || Blank(raw.value) then result.None? else result == Some(Trim(raw.value))
  }

  /** The texts that are not blank, trimmed and in order; none for a missing list. */
  ghost predicate IsCleanList(result: seq<string>, raw: Texts) {
    if raw.None? then result == []
    else exists index: seq<nat> :: AreTrimsAt(result, raw.value, index)
  }

  ghost predicate AreTrimsAt(result: seq<string>, raw: seq<string>, index: seq<nat>) {
    && |index| == |result| && Increasing(index, |raw|)
    && (forall i :: 0 <= i < |index| ==> result[i] == Trim(raw[index[i]]))
    && (forall r :: 0 <= r < |raw| ==> (r in index <==> !Blank(raw[r])))
  }

  /** The raw definition, cleaned, under the category its text names. */
  predicate IsCleanDefinition(result: Definition, raw: RawDefinition) {
    && result.name == Trim(raw.name) && result.definition == Trim(raw.definition)
    && IsCleanText(result.expectedBehavior, raw.expectedBehavior)
    && raw.category == match result.category
                       case Core => "core"
                       case Functional => "functional"
                       case Technical => "technical"
                       case Managerial => "managerial"
  }

  /** It has a name, a text and a known category. */
  predicate IsUsable(raw: RawDefinition) {
    !Blank(raw.name) && !Blank(raw.definition) && raw.category in {"core", "functional", "technical", "managerial"}
  }

  /** The usable definitions, cleaned and in order. */
  ghost predicate AreDefinitionsAt(result: seq<Definition>, raw: seq<RawDefinition>, index: seq<nat>) {
    && |index| == |result| && Increasing(index, |raw|)
    && (forall i :: 0 <= i < |index| ==> IsCleanDefinition(result[i], raw[index[i]]))
    && (forall r :: 0 <= r < |raw| ==> (r in index <==> IsUsable(raw[r])))
  }

  ghost predicate AreCleanDefinitions(result: seq<Definition>, raw: Option<seq<RawDefinition>>) {
    if raw.None? then result == []
    else exists index: seq<nat> :: AreDefinitionsAt(result, raw.value, index)
  }

  lemma TextCleaned(raw: Option<string>)
    ensures IsCleanText(CleanText(raw), raw)
  {
    hide Trim;
    if raw.Some? {
      var _, _ := TrimWindow(raw.value);
    }
  }

  lemma ListCleaned(raw: Texts)
    ensures IsCleanList(NormalizeList(raw), raw)
  {
    hide Trim, Kept, Blank;
    if raw.Some? {
      var values := raw.value;
      var index := KeptInOrder(Trims(values), NotEmpty);
      forall r | 0 <= r < |values| ensures Trim(values[r]) != "" <==> !Blank(values[r]) {
        var _, _ := TrimWindow(values[r]);
      }
      assert AreTrimsAt(NormalizeList(raw), values, index);
    }
  }

  lemma DefinitionCleaned(raw: RawDefinition)
    ensures CleanDefinition(raw).Some? <==> IsUsable(raw)
    ensures CleanDefinition(raw).Some? ==> IsCleanDefinition(CleanDefinition(raw).value, raw)
  {
    hide Trim, CleanText;
    var _, _ := TrimWindow(raw.name);
    var _, _ := TrimWindow(raw.definition);
    TextCleaned(raw.expectedBehavior);
  }

  lemma {:induction false} DefinitionsCleaned(raw: seq<RawDefinition>) returns (index: seq<nat>)
    ensures AreDefinitionsAt(NormalizeDefinitions(raw), raw, index)
  {
    hide CleanDefinition, IsCleanDefinition, IsUsable;
    index := [];
    if raw != [] {
      var n := |raw| - 1;
      index := DefinitionsCleaned(raw[..n]);
      DefinitionCleaned(raw[n]);
      if CleanDefinition(raw[n]).Some? {
        index := index + [n];
      }
    }
  }

  lemma AllDefinitionsCleaned(raw: Option<seq<RawDefinition>>)
    ensures AreCleanDefinitions(if raw.Some? then NormalizeDefinitions(raw.value) else [], raw)
  {
    hide NormalizeDefinitions, AreDefinitionsAt;
    if raw.Some? {
      var index := DefinitionsCleaned(raw.value);
    }
  }

  /** Normalising takes every part from its own place: texts and lists cleaned, numbers as they are, 15 days and a
      hidden compensation where nothing else is said. A missing profile or group counts as one with nothing in it. */
  lemma NormalizeExactly(profile: Option<RawProfile>, p: RawProfile, sets: RawSets, criteria: RawCriteria)
    requires if profile.Some? then profile.value == p
             else p == RawProfile(None, None, None, None, None, None, None, None, None, None, None)
    requires if p.competencySets.Some? then p.competencySets.value == sets else sets == RawSets(None, None, None, None)
    requires if p.criteria.Some? then p.criteria.value == criteria
             else criteria == RawCriteria(None, None, None, None, None, None)
    ensures var r := NormalizeJobProfile(profile);
            && IsCleanText(r.titleLevel, p.titleLevel) && IsCleanList(r.responsibilities, p.responsibilities)
            && IsCleanList(r.competencySets.core, sets.core)
            && IsCleanList(r.competencySets.functional, sets.functional)
            && IsCleanList(r.competencySets.technical, sets.technical)
            && IsCleanList(r.competencySets.managerial, sets.managerial)
            && AreCleanDefinitions(r.competencyDefinitions, p.competencyDefinitions)
            && IsCleanText(r.criteria.educationLevel, criteria.educationLevel)
            && IsCleanList(r.criteria.schoolDepartments, criteria.schoolDepartments)
            && IsCleanList(r.criteria.certificates, criteria.certificates)
            && r.criteria.minimumExperienceYears == criteria.minimumExperienceYears
            && IsCleanList(r.criteria.tools, criteria.tools) && IsCleanList(r.criteria.languages, criteria.languages)
            && IsCleanList(r.applicantQuestions, p.applicantQuestions)
            && r.responseSlaDays == (if p.responseSlaDays.Some? then p.responseSlaDays.value else 15)
            && (r.hideCompensation <==> p.hideCompensation != Some(false))
            && IsCleanText(r.logoUrl, p.logoUrl) && IsCleanList(r.imageUrls, p.imageUrls)
            && IsCleanText(r.notes, p.notes)
  {
    hide IsCleanList, IsCleanText, CleanText, NormalizeList, NormalizeDefinitions, AreCleanDefinitions;
    forall raw: Option<string> ensures IsCleanText(CleanText(raw), raw) {
      TextCleaned(raw);
    }
    forall raw: Texts ensures IsCleanList(NormalizeList(raw), raw) {
      ListCleaned(raw);
    }
    AllDefinitionsCleaned(p.competencyDefinitions);
    NothingToClean();
  }

  lemma NothingToClean()
    ensures IsCleanText(None, None) && IsCleanList([], None) && NormalizeList(None) == [] && CleanText(None) == None
  {
  }
}

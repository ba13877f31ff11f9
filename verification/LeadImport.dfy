/** Leads from a mapped table: `buildLeadsFromTable` of apps/web/components/sourcing-ingestion-panel.tsx. */
module LeadImport {
  import opened Experience
  import opened Keyed
  import opened LabelList
  import opened Options
  import opened Text

  datatype Field = Ignore | FullName | Headline | CurrentTitle | CurrentCompany | LocationText | Email | Phone
                 | YearsOfExperience | SourceUrl | Skills | Languages | Notes | ExternalRef

  datatype Value = Words(text: string) | Years(years: Option<nat>) | Labels(labels: seq<string>)

  /** A lead object: the fields assigned so far. */
  type Lead = map<Field, Value>

  function ValueOf(field: Field, text: string): Value {
    match field
    case YearsOfExperience => Years(ParseExperience(text))
    case Skills => Labels(SplitList(text))
    case Languages => Labels(SplitList(text))
    case _ => Words(text)
  }

  /** `row[columnIndex]?.trim()`, empty when the row is too short. */
  function CellText(row: seq<string>, column: nat): string {
    if column < |row| then Trim(row[column]) else ""
  }

  predicate Sets(row: seq<string>, mapping: seq<Field>, column: nat, field: Field)
    requires column < |mapping|
  {
    mapping[column] == field && CellText(row, column) != ""
  }

  /** The last of the first `n` columns that is mapped to the field and not blank. */
  function LastColumn(row: seq<string>, mapping: seq<Field>, n: nat, field: Field): (c: Option<nat>)
    requires n <= |mapping|
    ensures c.Some? ==> c.value < n && Sets(row, mapping, c.value, field)
                        && forall j :: c.value < j < n ==> !Sets(row, mapping, j, field)
    ensures c.None? ==> forall j :: 0 <= j < n ==> !Sets(row, mapping, j, field)
  {
    if n == 0 then None
    else if Sets(row, mapping, n - 1, field) then Some(n - 1)
    else LastColumn(row, mapping, n - 1, field)
  }

  /** What a field holds after the first `n` columns. */
  function FieldAfter(row: seq<string>, mapping: seq<Field>, n: nat, field: Field): Option<Value>
    requires n <= |mapping|
  {
    if field == Ignore then None
    else match LastColumn(row, mapping, n, field)
      case Some(c) => Some(ValueOf(field, CellText(row, c)))
      case None => if field == FullName then Some(Words("")) else None
  }

  ghost predicate Holds(lead: Lead, row: seq<string>, mapping: seq<Field>, n: nat)
    requires n <= |mapping|
  {
    forall field: Field :: (if field in lead then Some(lead[field]) else None) == FieldAfter(row, mapping, n, field)
  }

  /** The lead of a row: exactly the fields that hold something after all columns. */
  ghost function LeadOf(row: seq<string>, mapping: seq<Field>): (lead: Lead)
    ensures Holds(lead, row, mapping, |mapping|)
  {
    map field: Field | FieldAfter(row, mapping, |mapping|, field).Some? ::
      FieldAfter(row, mapping, |mapping|, field).value
  }

  lemma LeadUnique(lead: Lead, row: seq<string>, mapping: seq<Field>)
    requires Holds(lead, row, mapping, |mapping|)
    ensures lead == LeadOf(row, mapping)
  {
  }

  /** One row: every field gets the reading of its last non-blank mapped column, also when that reading is
      empty; unmapped fields stay away, and the name starts out empty. */
  method ReadLead(row: seq<string>, mapping: seq<Field>) returns (lead: Lead)
    ensures lead == LeadOf(row, mapping)
  {
    hide ValueOf, CellText;
    lead := map[FullName := Words("")];
    for j := 0 to |mapping|
      invariant Holds(lead, row, mapping, j)
    {
      var value, field := CellText(row, j), mapping[j];
      if value != "" && field != Ignore {
        lead := lead[field := ValueOf(field, value)];
      }
    }
    LeadUnique(lead, row, mapping);
  }

  predicate HasName(lead: Lead) {
    FullName in lead && lead[FullName].Words? && Utf16Length(Trim(lead[FullName].text)) >= 2
  }

  ghost function Leads(rows: seq<seq<string>>, mapping: seq<Field>): (leads: seq<Lead>)
    ensures |leads| == |rows| && forall r :: 0 <= r < |rows| ==> leads[r] == LeadOf(rows[r], mapping)
  {
    seq(|rows|, r requires 0 <= r < |rows| => LeadOf(rows[r], mapping))
  }

  /** `.map(...).filter(...)` over the rows. */
  method BuildLeads(rows: seq<seq<string>>, mapping: seq<Field>) returns (leads: seq<Lead>)
    ensures leads == Kept(Leads(rows, mapping), HasName)
  {
    hide LeadOf, HasName;
    leads := [];
    for n := 0 to |rows|
      invariant leads == Kept(Leads(rows[..n], mapping), HasName)
    {
      var lead := ReadLead(rows[n], mapping);
      ghost var next := Leads(rows[..n + 1], mapping);
      assert next[..n] == Leads(rows[..n], mapping) && next[n] == lead;
      if HasName(lead) {
        leads := leads + [lead];
      }
    }
    assert rows[..|rows|] == rows;
  }

  // ---- What a lead says, column by column ----

  /** The column is mapped to the field and not blank in the row. */
  predicate IsMapped(row: seq<string>, mapping: seq<Field>, field: Field, c: nat) {
    c < |mapping| && mapping[c] == field && c < |row| && !Blank(row[c])
  }

  predicate IsLastMapped(row: seq<string>, mapping: seq<Field>, field: Field, c: nat) {
    IsMapped(row, mapping, field, c) && forall j :: c < j < |mapping| ==> !IsMapped(row, mapping, field, j)
  }

  /** Years are parsed, skills and languages split into labels, every other text is taken as it is. */
  predicate IsReading(value: Value, field: Field, text: string) {
    match value
    case Years(years) => field == YearsOfExperience && years == ParseExperience(text)
    case Labels(labels) => field in {Skills, Languages} && labels == SplitList(text)
    case Words(words) => field !in {YearsOfExperience, Skills, Languages} && words == text
  }

  lemma MappedSets(row: seq<string>, mapping: seq<Field>, field: Field, c: nat)
    ensures IsMapped(row, mapping, field, c) <==> c < |mapping| && Sets(row, mapping, c, field)
  {
    hide Trim;
    if c < |row| {
      var _, _ := TrimWindow(row[c]);
    }
  }

  /** A lead holds, for every field, the reading of the row's last non-blank column mapped to it, and no other field;
      ignored columns leave nothing, and a name that no column sets is empty. */
  lemma LeadExact(row: seq<string>, mapping: seq<Field>, field: Field)
    ensures var lead := LeadOf(row, mapping);
            && (field == Ignore ==> field !in lead)
            && (field != Ignore ==>
                  forall c: nat :: IsLastMapped(row, mapping, field, c) ==>
                    c < |row| && field in lead && IsReading(lead[field], field, Trim(row[c])))
            && ((forall c: nat :: !IsMapped(row, mapping, field, c)) ==>
                  if field == FullName then field in lead && lead[field] == Words("") else field !in lead)
    ensures (forall c: nat :: !IsMapped(row, mapping, field, c))
            || exists c: nat :: IsLastMapped(row, mapping, field, c)
  {
    hide LastColumn, Trim, Sets, IsMapped, ParseExperience, SplitList;
    forall c: nat ensures IsMapped(row, mapping, field, c) <==> c < |mapping| && Sets(row, mapping, c, field) {
      MappedSets(row, mapping, field, c);
    }
    var last := LastColumn(row, mapping, |mapping|, field);
    if last.Some? {
      assert IsLastMapped(row, mapping, field, last.value);
      CellOfMapped(row, mapping, field, last.value);
      assert forall c: nat :: IsLastMapped(row, mapping, field, c) ==> c == last.value;
    }
  }

  lemma CellOfMapped(row: seq<string>, mapping: seq<Field>, field: Field, c: nat)
    requires IsMapped(row, mapping, field, c)
    ensures c < |row| && CellText(row, c) == Trim(row[c])
  {
  }

  /** Printed values are read back: a trimmed text, a number of years in decimal, a list of proper labels. */
  lemma LeadReadBack(row: seq<string>, mapping: seq<Field>, field: Field, c: nat, years: nat, labels: seq<string>)
    requires field != Ignore && IsLastMapped(row, mapping, field, c) && Trimmed(row[c])
    ensures field in LeadOf(row, mapping)
    ensures var read := LeadOf(row, mapping)[field];
            && (field !in {YearsOfExperience, Skills, Languages} ==> read == Words(row[c]))
            && (field == YearsOfExperience && row[c] == Decimal(years) ==> read == Years(Some(years)))
            && (field in {Skills, Languages} && Proper(labels) && row[c] == Join(labels, ", ") ==>
                  read == Labels(labels))
  {
    hide LeadOf, Trim, Join, Decimal, ParseExperience, SplitList, Proper;
    LeadExact(row, mapping, field);
    TrimTrimmed(row[c]);
    PrintedNumberFound("", years, "");
    assert "" + Decimal(years) + "" == Decimal(years);
    ShowThenSplit(labels);
  }

  /** The leads are those of exactly the rows whose name has two or more UTF-16 units, in order. */
  lemma LeadsAreNamedRows(rows: seq<seq<string>>, mapping: seq<Field>) returns (index: seq<nat>)
    ensures var leads := Kept(Leads(rows, mapping), HasName);
            && |index| == |leads| && Increasing(index, |rows|)
            && forall i :: 0 <= i < |index| ==> leads[i] == LeadOf(rows[index[i]], mapping)
    ensures forall r :: 0 <= r < |rows| ==>
              (r in index <==> HasTwoUnits(NameOf(LeadOf(rows[r], mapping))))
  {
    hide Kept, HasName, LeadOf;
    index := KeptInOrder(Leads(rows, mapping), HasName);
    forall r | 0 <= r < |rows|
      ensures HasName(LeadOf(rows[r], mapping)) <==> HasTwoUnits(NameOf(LeadOf(rows[r], mapping)))
    {
      NamedLead(rows[r], mapping);
    }
  }

  function NameOf(lead: Lead): string {
    if FullName in lead && lead[FullName].Words? then lead[FullName].text else ""
  }

  lemma NamedLead(row: seq<string>, mapping: seq<Field>)
    ensures HasName(LeadOf(row, mapping)) <==> HasTwoUnits(NameOf(LeadOf(row, mapping)))
  {
    hide LeadOf, Trim, HasTwoUnits, IsMapped;
    var lead := LeadOf(row, mapping);
    LeadExact(row, mapping, FullName);
    if c: nat :| IsLastMapped(row, mapping, FullName, c) {
      CellOfMapped(row, mapping, FullName, c);
      TrimIdempotent(row[c]);
    } else {
      TrimTrimmed("");
    }
    TwoUnitsExactly(NameOf(lead));
  }
}

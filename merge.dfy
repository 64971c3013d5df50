/** The merge rule of the offline extractor (scripts/parse-data.mjs): how
    a repeated item fills the descriptive fields of the one already
    collected and extends its project list. */
module ItemMerge {
  import opened Text
  import opened Types

  /** An item as an extractor hands it over, before it has an id. */
  datatype RawItem = RawItem(
    term: string,
    definition: string,
    kind: Kind,
    language: string,
    project: string,
    category: string,
    whatItIs: string,
    whyItExists: string,
    whereItRuns: string,
    whatItTouches: string,
    whatBreaks: string,
    projectUsage: string,
    commonConfusion: string)

  /** `{ id, ...raw }`. */
  function WithId(id: string, raw: RawItem): StudyItem {
    StudyItem(id, raw.term, raw.definition, raw.kind, raw.language, raw.project, raw.category,
              raw.whatItIs, raw.whyItExists, raw.whereItRuns, raw.whatItTouches, raw.whatBreaks,
              raw.projectUsage, raw.commonConfusion)
  }

  /** The seven descriptive fields the merge may fill in, in its order. */
  datatype TextField = Definition | WhyItExists | WhereItRuns | WhatItTouches | WhatBreaks | ProjectUsage | CommonConfusion

  const MergedFields: seq<TextField> :=
    [Definition, WhyItExists, WhereItRuns, WhatItTouches, WhatBreaks, ProjectUsage, CommonConfusion]

  /** `item[field]`. */
  function Get(item: StudyItem, f: TextField): string {
    match f
    case Definition => item.definition
    case WhyItExists => item.whyItExists
    case WhereItRuns => item.whereItRuns
    case WhatItTouches => item.whatItTouches
    case WhatBreaks => item.whatBreaks
    case ProjectUsage => item.projectUsage
    case CommonConfusion => item.commonConfusion
  }

  /** `raw[field]`. */
  function GetRaw(raw: RawItem, f: TextField): string {
    Get(WithId("", raw), f)
  }

  /** `item[field] = v`. */
  function Set(item: StudyItem, f: TextField, v: string): (r: StudyItem)
    ensures Get(r, f) == v
    ensures forall g :: g != f ==> Get(r, g) == Get(item, g)
    ensures r.(definition := item.definition, whyItExists := item.whyItExists, whereItRuns := item.whereItRuns,
               whatItTouches := item.whatItTouches, whatBreaks := item.whatBreaks,
               projectUsage := item.projectUsage, commonConfusion := item.commonConfusion) == item
  {
    match f
    case Definition => item.(definition := v)
    case WhyItExists => item.(whyItExists := v)
    case WhereItRuns => item.(whereItRuns := v)
    case WhatItTouches => item.(whatItTouches := v)
    case WhatBreaks => item.(whatBreaks := v)
    case ProjectUsage => item.(projectUsage := v)
    case CommonConfusion => item.(commonConfusion := v)
  }

  /** The merge rule for one field: the incoming text replaces the existing
      one only when the existing one is empty or the sentinel and the
      incoming one is neither. */
  function Fill(existing: string, incoming: string): string {
    if !HasContent(existing) && HasContent(incoming) then incoming else existing
  }

  /** A field with content is never overwritten, a field gains content
      exactly when either side has it, and filling twice is filling once. */
  lemma FillSpec(existing: string, incoming: string)
    ensures var r := Fill(existing, incoming);
            && (r == existing || r == incoming)
            && (HasContent(existing) ==> r == existing)
            && (HasContent(r) <==> HasContent(existing) || HasContent(incoming))
            && Fill(r, incoming) == r
  {
  }

  /** The field loop of the merge from the `k`-th listed field on. */
  function FillFrom(item: StudyItem, raw: RawItem, fields: seq<TextField>): StudyItem
    decreases |fields|
  {
    if fields == [] then item
    else FillFrom(Set(item, fields[0], Fill(Get(item, fields[0]), GetRaw(raw, fields[0]))), raw, fields[1..])
  }

  /** Over distinct fields, the loop fills each listed field by the rule and
      changes nothing else. */
  lemma {:induction false} FillFromSpec(item: StudyItem, raw: RawItem, fields: seq<TextField>)
    requires Distinct(fields)
    ensures forall f :: Get(FillFrom(item, raw, fields), f)
                        == if f in fields then Fill(Get(item, f), GetRaw(raw, f)) else Get(item, f)
    ensures SameOutsideText(FillFrom(item, raw, fields), item)
    decreases |fields|
  {
    if fields != [] {
      var f0 := fields[0];
      var next := Set(item, f0, Fill(Get(item, f0), GetRaw(raw, f0)));
      assert Distinct(fields[1..]);
      assert f0 !in fields[1..];
      FillFromSpec(next, raw, fields[1..]);
    }
  }

  /** One turn of the field loop: a field is written only when the rule
      changes it. */
  lemma FillFromStep(item: StudyItem, raw: RawItem, fields: seq<TextField>, k: nat)
    requires k < |fields|
    ensures var f := fields[k];
            var next := if !HasContent(Get(item, f)) && HasContent(GetRaw(raw, f)) then Set(item, f, GetRaw(raw, f)) else item;
            FillFrom(item, raw, fields[k..]) == FillFrom(next, raw, fields[k + 1..])
  {
    var f := fields[k];
    assert fields[k..][1..] == fields[k + 1..];
    if !(!HasContent(Get(item, f)) && HasContent(GetRaw(raw, f))) {
      assert Set(item, f, Get(item, f)) == item;
    }
  }

  /** Two items agree on every field but the seven descriptive ones. */
  predicate SameOutsideText(a: StudyItem, b: StudyItem) {
    && a.id == b.id && a.term == b.term && a.kind == b.kind && a.language == b.language
    && a.project == b.project && a.category == b.category && a.whatItIs == b.whatItIs
  }

  /** The project rule: append ", " + the incoming project when it is
      non-empty and the existing project does not already contain it,
      ignoring case. */
  function AppendProject(existing: string, incoming: string): string {
    if incoming != "" && !Contains(Lower(existing), Lower(incoming)) then existing + ", " + incoming
    else existing
  }

  /** After the project rule the project names the incoming one, and
      applying the rule again changes nothing. */
  lemma AppendProjectSpec(existing: string, incoming: string)
    ensures var r := AppendProject(existing, incoming);
            && (incoming != "" ==> Contains(Lower(r), Lower(incoming)))
            && existing <= r
            && AppendProject(r, incoming) == r
  {
    var r := AppendProject(existing, incoming);
    if r != existing {
      LowerConcat(existing + ", ", incoming);
      ContainsSuffix(Lower(existing + ", "), Lower(incoming));
    }
  }

  /** The merge into an existing item. */
  function Merge(existing: StudyItem, raw: RawItem): StudyItem {
    var filled := FillFrom(existing, raw, MergedFields);
    filled.(project := AppendProject(filled.project, raw.project))
  }

  lemma MergedFieldsDistinct()
    ensures Distinct(MergedFields)
    ensures forall f :: f in MergedFields
  {
    forall f
      ensures f in MergedFields
    {
      match f
      case Definition => assert MergedFields[0] == f;
      case WhyItExists => assert MergedFields[1] == f;
      case WhereItRuns => assert MergedFields[2] == f;
      case WhatItTouches => assert MergedFields[3] == f;
      case WhatBreaks => assert MergedFields[4] == f;
      case ProjectUsage => assert MergedFields[5] == f;
      case CommonConfusion => assert MergedFields[6] == f;
    }
  }

  /** The merge fills each of the seven descriptive fields by the rule. */
  lemma MergeFillsFields(existing: StudyItem, raw: RawItem)
    ensures forall f :: Get(Merge(existing, raw), f) == Fill(Get(existing, f), GetRaw(raw, f))
  {
    var filled := FillFrom(existing, raw, MergedFields);
    var m := Merge(existing, raw);
    assert m == filled.(project := AppendProject(filled.project, raw.project));
    MergedFieldsDistinct();
    FillFromSpec(existing, raw, MergedFields);
    forall f
      ensures Get(m, f) == Fill(Get(existing, f), GetRaw(raw, f))
    {
      GetIgnoresProject(filled, AppendProject(filled.project, raw.project), f);
    }
  }

  lemma GetIgnoresProject(item: StudyItem, p: string, f: TextField)
    ensures Get(item.(project := p), f) == Get(item, f)
  {
  }

  /** The merge applies the project rule and keeps the fields outside the
      seven descriptive ones. */
  lemma MergeKeepsIdentity(existing: StudyItem, raw: RawItem)
    ensures var m := Merge(existing, raw);
            && m.project == AppendProject(existing.project, raw.project)
            && m.id == existing.id && m.term == existing.term && m.kind == existing.kind
            && m.language == existing.language && m.category == existing.category
            && m.whatItIs == existing.whatItIs
  {
    MergedFieldsDistinct();
    FillFromSpec(existing, raw, MergedFields);
  }

  /** The merge fills each of the seven descriptive fields by the rule,
      applies the project rule, and never changes the id, term, kind,
      language, category or whatItIs. */
  lemma MergeSpec(existing: StudyItem, raw: RawItem)
    ensures var m := Merge(existing, raw);
            && (forall f :: Get(m, f) == Fill(Get(existing, f), GetRaw(raw, f)))
            && m.project == AppendProject(existing.project, raw.project)
            && m.id == existing.id && m.term == existing.term && m.kind == existing.kind
            && m.language == existing.language && m.category == existing.category
            && m.whatItIs == existing.whatItIs
  {
    MergeFillsFields(existing, raw);
    MergeKeepsIdentity(existing, raw);
  }

  /** Merging the same raw item twice is merging it once. */
  lemma MergeIdempotent(existing: StudyItem, raw: RawItem)
    ensures Merge(Merge(existing, raw), raw) == Merge(existing, raw)
  {
    var m := Merge(existing, raw);
    MergeSpec(existing, raw);
    MergeSpec(m, raw);
    forall f
      ensures Get(Merge(m, raw), f) == Get(m, f)
    {
      FillSpec(Get(existing, f), GetRaw(raw, f));
    }
    AppendProjectSpec(existing.project, raw.project);
    GetAllFields(Merge(m, raw), m);
  }

  /** Items that agree on the seven descriptive fields and on the rest are
      equal. */
  lemma GetAllFields(a: StudyItem, b: StudyItem)
    requires forall f :: Get(a, f) == Get(b, f)
    requires SameOutsideText(a, b)
    ensures a == b
  {
    assert Get(a, Definition) == Get(b, Definition);
    assert Get(a, WhyItExists) == Get(b, WhyItExists);
    assert Get(a, WhereItRuns) == Get(b, WhereItRuns);
    assert Get(a, WhatItTouches) == Get(b, WhatItTouches);
    assert Get(a, WhatBreaks) == Get(b, WhatBreaks);
    assert Get(a, ProjectUsage) == Get(b, ProjectUsage);
    assert Get(a, CommonConfusion) == Get(b, CommonConfusion);
  }

  /** Merging an item's own raw data into it changes nothing. */
  lemma MergeOwnRaw(x: StudyItem, raw: RawItem)
    requires x == WithId(x.id, raw)
    ensures Merge(x, raw) == x
  {
    MergeSpec(x, raw);
    forall f
      ensures Get(Merge(x, raw), f) == Get(x, f)
    {
    }
    assert Contains(Lower(raw.project), Lower(raw.project)) by {
      assert Lower(raw.project)[0..] == Lower(raw.project);
    }
    GetAllFields(Merge(x, raw), x);
  }

  /** The body of addItem for a seen key: the field loop, then the project
      rule, on a copy of the existing item. */
  method MergeInto(item: StudyItem, raw: RawItem) returns (existing: StudyItem)
    ensures existing == Merge(item, raw)
  {
    existing := item;
    for k := 0 to |MergedFields|
      invariant FillFrom(existing, raw, MergedFields[k..]) == FillFrom(item, raw, MergedFields)
    {
      var f := MergedFields[k];
      FillFromStep(existing, raw, MergedFields, k);
      if !HasContent(Get(existing, f)) && HasContent(GetRaw(raw, f)) {
        existing := Set(existing, f, GetRaw(raw, f));
      }
    }
    if raw.project != "" && !Contains(Lower(existing.project), Lower(raw.project)) {
      existing := existing.(project := existing.project + ", " + raw.project);
    }
  }

}

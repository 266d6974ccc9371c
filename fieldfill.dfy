/**
 * One tick of each of the two form-field filler jobs, as functions of the page's field
 * table. The table maps an input name to the current value of the first input carrying
 * that name (what `document.querySelector('input[name="..."]')` finds); names without
 * such an input are not in the table.
 */
module FieldFill {
  import opened Wrappers

  type FieldTable = map<string, string>

  /** The hidden inputs that receive the Segment anonymous id. */
  const SegmentFieldNames: seq<string> := ["segment_anon_id", "segment_anon_id__c"]

  /** The hidden inputs that receive the GA4 pseudo user id. */
  const PseudoIdFieldNames: seq<string> := ["ga4_pseudo_user_id", "user_pseudo_id", "pseudo_user_id"]

  /** The outcome of a tick: the new field table and the value the tick returns. */
  datatype TickResult = TickResult(fields: FieldTable, done: bool)

  /** A value JavaScript treats as true: present and not the empty string. */
  predicate Truthy(v: Option<string>) {
    v.Some? && v.value != ""
  }

  /** `names.map(querySelector).filter(Boolean)`: the names that have an input on the page. */
  function PresentNames(t: FieldTable, names: seq<string>): (r: seq<string>)
    ensures forall n :: n in r <==> n in names && n in t
  {
    if names == [] then []
    else if names[0] in t then [names[0]] + PresentNames(t, names[1..])
    else PresentNames(t, names[1..])
  }

  /** `formFields.forEach(f => { f.value = v; })`: every present named input takes `v`. */
  function Overwrite(t: FieldTable, names: seq<string>, v: string): (r: FieldTable)
    ensures r.Keys == t.Keys
    ensures forall n :: n in t && n in names ==> r[n] == v
    ensures forall n :: n in t && n !in names ==> r[n] == t[n]
  {
    if names == [] then t
    else
      var rest := Overwrite(t, names[1..], v);
      if names[0] in t then rest[names[0] := v] else rest
  }

  /**
   * `formFields.forEach(f => { if (!f.value) f.value = v; })`: only the present named
   * inputs that are empty take `v`.
   */
  function FillEmpty(t: FieldTable, names: seq<string>, v: string): (r: FieldTable)
    ensures r.Keys == t.Keys
    ensures forall n :: n in t && n in names && t[n] == "" ==> r[n] == v
    ensures forall n :: n in t && (n !in names || t[n] != "") ==> r[n] == t[n]
  {
    if names == [] then t
    else
      var rest := FillEmpty(t, names[1..], v);
      if names[0] in t && t[names[0]] == "" then rest[names[0] := v] else rest
  }

  /** A table that agrees with `Overwrite` on every present input is its result. */
  lemma OverwriteFrom(t: FieldTable, names: seq<string>, v: string, present: seq<string>, r: FieldTable)
    requires present == PresentNames(t, names)
    requires r.Keys == t.Keys
    requires forall n :: n in t ==> r[n] == if n in present then v else t[n]
    ensures r == Overwrite(t, names, v)
  {
  }

  /** A table that agrees with `FillEmpty` on every present input is its result. */
  lemma FillEmptyFrom(t: FieldTable, names: seq<string>, v: string, present: seq<string>, r: FieldTable)
    requires present == PresentNames(t, names)
    requires r.Keys == t.Keys
    requires forall n :: n in t ==> r[n] == if n in present && t[n] == "" then v else t[n]
    ensures r == FillEmpty(t, names, v)
  {
  }

  /**
   * The Segment filler tick: with a truthy anonymous id and at least one of its inputs on
   * the page, write the id into every such input and report success; otherwise change
   * nothing and report failure.
   */
  function SegmentFill(t: FieldTable, anonymousId: Option<string>): (r: TickResult)
    ensures r.fields.Keys == t.Keys
    ensures r.done ==> Truthy(anonymousId)
  {
    if !Truthy(anonymousId) then TickResult(t, false)
    else if |PresentNames(t, SegmentFieldNames)| > 0 then
      TickResult(Overwrite(t, SegmentFieldNames, anonymousId.value), true)
    else TickResult(t, false)
  }

  /**
   * The pseudo-id filler tick: with a truthy pseudo id and at least one of its inputs on
   * the page, write the id into those inputs that are still empty and report success;
   * otherwise change nothing and report failure.
   */
  function PseudoIdFill(t: FieldTable, pseudoId: Option<string>): (r: TickResult)
    ensures r.fields.Keys == t.Keys
    ensures r.done ==> Truthy(pseudoId)
  {
    if Truthy(pseudoId) && |PresentNames(t, PseudoIdFieldNames)| > 0 then
      TickResult(FillEmpty(t, PseudoIdFieldNames, pseudoId.value), true)
    else TickResult(t, false)
  }

  /**
   * The Segment tick succeeds exactly when the id is truthy and one of its inputs exists;
   * it then sets every such input to the id, overwriting, and touches nothing else.
   */
  lemma SegmentFillEffect(t: FieldTable, anonymousId: Option<string>)
    ensures SegmentFill(t, anonymousId).done
        <==> Truthy(anonymousId) && exists n :: n in SegmentFieldNames && n in t
    ensures SegmentFill(t, anonymousId).fields.Keys == t.Keys
    ensures forall n :: n in t ==>
      SegmentFill(t, anonymousId).fields[n]
        == if SegmentFill(t, anonymousId).done && n in SegmentFieldNames then anonymousId.value else t[n]
  {
    var present := PresentNames(t, SegmentFieldNames);
    if |present| > 0 {
      assert present[0] in present;
    }
    if Truthy(anonymousId) && (exists n :: n in SegmentFieldNames && n in t) {
      var n :| n in SegmentFieldNames && n in t;
      assert n in present;
    }
  }

  /**
   * The pseudo-id tick succeeds exactly when the id is truthy and one of its inputs
   * exists; it then fills the empty ones among them and touches nothing else.
   */
  lemma PseudoIdFillEffect(t: FieldTable, pseudoId: Option<string>)
    ensures PseudoIdFill(t, pseudoId).done
        <==> Truthy(pseudoId) && exists n :: n in PseudoIdFieldNames && n in t
    ensures PseudoIdFill(t, pseudoId).fields.Keys == t.Keys
    ensures forall n :: n in t ==>
      PseudoIdFill(t, pseudoId).fields[n]
        == if PseudoIdFill(t, pseudoId).done && n in PseudoIdFieldNames && t[n] == "" then pseudoId.value else t[n]
  {
    var present := PresentNames(t, PseudoIdFieldNames);
    if |present| > 0 {
      assert present[0] in present;
    }
    if Truthy(pseudoId) && (exists n :: n in PseudoIdFieldNames && n in t) {
      var n :| n in PseudoIdFieldNames && n in t;
      assert n in present;
    }
  }

  /** The pseudo-id tick never changes a field that already holds a value. */
  lemma PseudoIdFillKeepsValues(t: FieldTable, pseudoId: Option<string>, n: string)
    requires n in t && t[n] != ""
    ensures n in PseudoIdFill(t, pseudoId).fields && PseudoIdFill(t, pseudoId).fields[n] == t[n]
  {
    PseudoIdFillEffect(t, pseudoId);
  }

  /** Running the pseudo-id tick twice with the same id leaves the fields as one run did. */
  lemma PseudoIdFillIdempotent(t: FieldTable, pseudoId: Option<string>)
    ensures PseudoIdFill(PseudoIdFill(t, pseudoId).fields, pseudoId).fields == PseudoIdFill(t, pseudoId).fields
    ensures PseudoIdFill(PseudoIdFill(t, pseudoId).fields, pseudoId).done == PseudoIdFill(t, pseudoId).done
  {
    var once := PseudoIdFill(t, pseudoId);
    var twice := PseudoIdFill(once.fields, pseudoId);
    PseudoIdFillEffect(t, pseudoId);
    PseudoIdFillEffect(once.fields, pseudoId);
    assert twice.fields == once.fields;
  }

  /** Running the Segment tick twice with the same id leaves the fields as one run did. */
  lemma SegmentFillIdempotent(t: FieldTable, anonymousId: Option<string>)
    ensures SegmentFill(SegmentFill(t, anonymousId).fields, anonymousId) == SegmentFill(t, anonymousId)
  {
    var once := SegmentFill(t, anonymousId);
    var twice := SegmentFill(once.fields, anonymousId);
    SegmentFillEffect(t, anonymousId);
    SegmentFillEffect(once.fields, anonymousId);
    assert twice.fields == once.fields;
  }

  /** No input name is targeted by both jobs. */
  lemma TargetsDisjoint()
    ensures forall n :: n in SegmentFieldNames ==> n !in PseudoIdFieldNames
  {
    forall n | n in SegmentFieldNames
      ensures n !in PseudoIdFieldNames
    {
      assert n[0] == 's';
    }
  }

  /** The two jobs target disjoint inputs, so their ticks commute. */
  lemma FillersTouchDisjointFields(t: FieldTable, anonymousId: Option<string>, pseudoId: Option<string>)
    ensures PseudoIdFill(SegmentFill(t, anonymousId).fields, pseudoId).fields
         == SegmentFill(PseudoIdFill(t, pseudoId).fields, anonymousId).fields
  {
    var s := SegmentFill(t, anonymousId);
    var p := PseudoIdFill(t, pseudoId);
    var sp := PseudoIdFill(s.fields, pseudoId);
    var ps := SegmentFill(p.fields, anonymousId);
    SegmentFillEffect(t, anonymousId);
    PseudoIdFillEffect(t, pseudoId);
    PseudoIdFillEffect(s.fields, pseudoId);
    SegmentFillEffect(p.fields, anonymousId);
    TargetsDisjoint();
    assert sp.fields == ps.fields;
  }
}

/**
 * The state the tag changes on a page: the values of the hidden form inputs it fills,
 * `window.dataLayer`, and the calls it makes to `gtag`. The filler-job ticks and the two
 * event listeners are methods over that state. What the page supplies from outside —
 * the Segment SDK's anonymous id, `document.cookie`, the hostname and whether `gtag` is
 * a function — is passed to each method as it stands at that moment.
 */
module Tag {
  import opened Wrappers
  import opened Cookies
  import opened Ga4Config
  import opened FieldFill
  import opened EventBridge

  class Page {
    /** The value of the first input with each name, for the names that have an input. */
    var fields: FieldTable
    /** `window.dataLayer`, `None` while it does not exist. */
    var dataLayer: Option<seq<Entry>>
    /** The `gtag` calls made, in order. */
    var gtagCalls: seq<GtagCall>

    constructor (fields: FieldTable, dataLayer: Option<seq<Entry>>)
      ensures this.fields == fields && this.dataLayer == dataLayer && gtagCalls == []
    {
      this.fields := fields;
      this.dataLayer := dataLayer;
      gtagCalls := [];
    }

    /** The page's analytics outputs. */
    function Outputs(): Channels
      reads this
    {
      Channels(dataLayer, gtagCalls)
    }

    /**
     * One tick of the Segment anonymous-id job. Without a truthy anonymous id it stops at
     * once; otherwise it collects the target inputs that exist and, if there is one,
     * overwrites each with the id.
     */
    method SegmentAnonymousIdTick(anonymousId: Option<string>) returns (done: bool)
      modifies this
      ensures fields == SegmentFill(old(fields), anonymousId).fields
      ensures done == SegmentFill(old(fields), anonymousId).done
      ensures dataLayer == old(dataLayer) && gtagCalls == old(gtagCalls)
    {
      if !Truthy(anonymousId) {
        return false;
      }
      var present := CollectPresent(SegmentFieldNames);
      if |present| > 0 {
        OverwriteAll(present, SegmentFieldNames, anonymousId.value);
        return true;
      }
      return false;
    }

    /**
     * One tick of the pseudo-id job. It reads the pseudo id from the cookie string and
     * collects the target inputs that exist; with a truthy id and at least one input, it
     * writes the id into each input that is still empty.
     */
    method PseudoIdTick(cookie: string) returns (done: bool)
      modifies this
      ensures fields == PseudoIdFill(old(fields), UserPseudoId(cookie)).fields
      ensures done == PseudoIdFill(old(fields), UserPseudoId(cookie)).done
      ensures dataLayer == old(dataLayer) && gtagCalls == old(gtagCalls)
    {
      var pseudoId := UserPseudoId(cookie);
      var present := CollectPresent(PseudoIdFieldNames);
      if Truthy(pseudoId) && |present| > 0 {
        FillEmptyAll(present, PseudoIdFieldNames, pseudoId.value);
        return true;
      }
      return false;
    }

    /** `formFields.forEach(f => { f.value = v; })` over the inputs found for `names`. */
    method OverwriteAll(present: seq<string>, names: seq<string>, v: string)
      requires present == PresentNames(fields, names)
      modifies this
      ensures fields == Overwrite(old(fields), names, v)
      ensures dataLayer == old(dataLayer) && gtagCalls == old(gtagCalls)
    {
      ghost var before := fields;
      var i := 0;
      while i < |present|
        invariant 0 <= i <= |present|
        invariant fields.Keys == before.Keys
        invariant forall n :: n in before && n !in present[..i] ==> fields[n] == before[n]
        invariant forall n :: n in present[..i] ==> fields[n] == v
        invariant dataLayer == old(dataLayer) && gtagCalls == old(gtagCalls)
      {
        var name := present[i];
        assert present[..i + 1] == present[..i] + [name];
        assert name in present && name in before;
        fields := fields[name := v];
        i := i + 1;
      }
      assert present[..i] == present;
      OverwriteFrom(before, names, v, present, fields);
    }

    /** `formFields.forEach(f => { if (!f.value) f.value = v; })` over the inputs found for `names`. */
    method FillEmptyAll(present: seq<string>, names: seq<string>, v: string)
      requires present == PresentNames(fields, names)
      modifies this
      ensures fields == FillEmpty(old(fields), names, v)
      ensures dataLayer == old(dataLayer) && gtagCalls == old(gtagCalls)
    {
      ghost var before := fields;
      var i := 0;
      while i < |present|
        invariant 0 <= i <= |present|
        invariant fields.Keys == before.Keys
        invariant forall n :: n in before && n !in present[..i] ==> fields[n] == before[n]
        invariant forall n :: n in before && n in present[..i] ==> fields[n] == if before[n] == "" then v else before[n]
        invariant dataLayer == old(dataLayer) && gtagCalls == old(gtagCalls)
      {
        var name := present[i];
        assert present[..i + 1] == present[..i] + [name];
        assert name in present && name in before;
        if fields[name] == "" {
          fields := fields[name := v];
        }
        i := i + 1;
      }
      assert present[..i] == present;
      FillEmptyFrom(before, names, v, present, fields);
    }

    /** `names.map(querySelector).filter(Boolean)`: the target names that have an input. */
    method CollectPresent(names: seq<string>) returns (present: seq<string>)
      ensures present == PresentNames(fields, names)
      ensures forall i :: 0 <= i < |present| ==> present[i] in fields
    {
      present := [];
      var i := |names|;
      while i > 0
        invariant 0 <= i <= |names|
        invariant present == PresentNames(fields, names[i..])
      {
        i := i - 1;
        assert names[i..][1..] == names[i + 1..];
        if names[i] in fields {
          present := [names[i]] + present;
        }
      }
    }

    /**
     * `triggerGa4EventForHubspotFormSubmission(params)`: a `gtag` event call when GA4 is
     * configured; otherwise `dataLayer` is created when missing and the merged entry
     * pushed onto it.
     */
    method TriggerGa4EventForHubspotFormSubmission(params: Params, gtagDefined: bool)
      modifies this
      ensures Outputs() == Dispatch(old(Outputs()), gtagDefined, params)
      ensures fields == old(fields)
    {
      if ValidateGa4Configuration(gtagDefined, dataLayer) {
        gtagCalls := gtagCalls + [GtagCall("event", EventName, params)];
      } else {
        if dataLayer.None? {
          dataLayer := Some([]);
        }
        dataLayer := Some(dataLayer.value + [SubmissionEntry(params)]);
      }
    }

    /** The `message` listener: only a form-submit callback is reported. */
    method OnMessage(data: Option<MessageData>, hostname: string, cookie: string, gtagDefined: bool)
      modifies this
      ensures Outputs() == EventBridge.OnMessage(old(Outputs()), data, hostname, cookie, gtagDefined)
      ensures fields == old(fields)
    {
      if IsFormSubmitMessage(data) {
        var params := FormSubmissionParameters(hostname, data.value.id, cookie);
        TriggerGa4EventForHubspotFormSubmission(params, gtagDefined);
      }
    }

    /** The `submit` listener: every submission is reported; a submit event has no `data.id`. */
    method OnSubmit(hostname: string, cookie: string, gtagDefined: bool)
      modifies this
      ensures Outputs() == EventBridge.OnSubmit(old(Outputs()), hostname, cookie, gtagDefined)
      ensures fields == old(fields)
    {
      var params := FormSubmissionParameters(hostname, Undefined, cookie);
      TriggerGa4EventForHubspotFormSubmission(params, gtagDefined);
    }
  }
}

/**
 * Reporting a form submission to GA4: the event parameters, and the two ways the event
 * leaves the page — a `gtag` call when GA4 is configured, otherwise an entry pushed onto
 * `dataLayer` for Tag Manager. The page's two analytics outputs are held in `Channels`.
 */
module EventBridge {
  import opened Wrappers
  import opened JsString
  import opened Cookies
  import opened Ga4Config

  /** An event-parameter object: property name to value. */
  type Params = map<string, JsValue>

  const EventName: string := "hubspot_form_submission"
  const CanibuildHost: string := "canibuild.com"

  /** The utk cookie as a property value: the token, or `null` when there is none. */
  function UtkValue(utk: Option<string>): JsValue {
    match utk
    case Some(token) => Str(token)
    case None => Null
  }

  /**
   * `getHubspotFormSubmissionParameters(event)`: on a `canibuild.com` host the utk token
   * is reported as the form id; elsewhere the form id comes from the event (`undefined`
   * when it has none) and the utk token is reported beside it.
   */
  function FormSubmissionParameters(hostname: string, formId: JsValue, cookie: string): (p: Params)
    ensures "hubspot_form_id" in p
    ensures Contains(hostname, CanibuildHost) ==> p.Keys == {"hubspot_form_id"}
    ensures !Contains(hostname, CanibuildHost) ==> p.Keys == {"hubspot_form_id", "hubspot_utk"}
  {
    var utk := UtkValue(HubspotUtk(cookie));
    if Contains(hostname, CanibuildHost) then
      map["hubspot_form_id" := utk]
    else
      map["hubspot_form_id" := formId, "hubspot_utk" := utk]
  }

  /**
   * The token of the `hubspotutk` cookie is always reported, under `hubspot_form_id` on a
   * `canibuild.com` host and under `hubspot_utk` elsewhere; elsewhere the form id is the
   * event's.
   */
  lemma ParametersCarryUtk(hostname: string, formId: JsValue, cookie: string)
    ensures var p := FormSubmissionParameters(hostname, formId, cookie);
            var utk := UtkValue(HubspotUtk(cookie));
            if Contains(hostname, CanibuildHost) then p["hubspot_form_id"] == utk
            else p["hubspot_form_id"] == formId && p["hubspot_utk"] == utk
  {
  }

  /** On a `canibuild.com` host (any subdomain too) the event's form id is not looked at. */
  lemma CanibuildIgnoresEvent(hostname: string, formId1: JsValue, formId2: JsValue, cookie: string)
    requires Contains(hostname, CanibuildHost)
    ensures FormSubmissionParameters(hostname, formId1, cookie) == FormSubmissionParameters(hostname, formId2, cookie)
  {
  }

  /** Subdomains of `canibuild.com` take the `canibuild.com` branch. */
  lemma CanibuildSubdomain(sub: string)
    ensures Contains(sub + CanibuildHost, CanibuildHost)
  {
    ContainsOccurs(sub + CanibuildHost, CanibuildHost);
    assert OccursAt(sub + CanibuildHost, CanibuildHost, |sub|);
  }

  /** The parameters never carry an `event` property nor an index property. */
  lemma ParametersKeys(hostname: string, formId: JsValue, cookie: string)
    ensures var p := FormSubmissionParameters(hostname, formId, cookie);
            "event" !in p && "0" !in p
  {
  }

  /** `{ event: "hubspot_form_submission", ...params }`: later properties win. */
  function SubmissionEntry(params: Params): (e: Entry)
    ensures e.Object?
    ensures e.props.Keys == params.Keys + {"event"}
    ensures forall k :: k in params ==> e.props[k] == params[k]
    ensures "event" !in params ==> e.props["event"] == Str(EventName)
  {
    Object(map["event" := Str(EventName)] + params)
  }

  /** A recorded `gtag(command, eventName, params)` call. */
  datatype GtagCall = GtagCall(command: string, eventName: string, params: Params)

  /**
   * The page's analytics outputs: `window.dataLayer` (`None` while it does not exist)
   * and the calls made to `gtag`.
   */
  datatype Channels = Channels(dataLayer: Option<seq<Entry>>, gtagCalls: seq<GtagCall>)

  /** How many things the page has sent out: `gtag` calls plus `dataLayer` entries of any kind. */
  function OutputCount(c: Channels): nat {
    |c.gtagCalls| + |c.dataLayer.GetOr([])|
  }

  /**
   * `triggerGa4EventForHubspotFormSubmission(params)`: one `gtag` event call when GA4 is
   * configured; otherwise `dataLayer` is created if need be and the merged entry pushed.
   */
  function Dispatch(c: Channels, gtagDefined: bool, params: Params): (d: Channels)
    ensures OutputCount(d) == OutputCount(c) + 1
    ensures d.gtagCalls == c.gtagCalls || d.dataLayer == c.dataLayer
  {
    if ValidateGa4Configuration(gtagDefined, c.dataLayer) then
      c.(gtagCalls := c.gtagCalls + [GtagCall("event", EventName, params)])
    else
      c.(dataLayer := Some(c.dataLayer.GetOr([]) + [SubmissionEntry(params)]))
  }

  /** An object entry reporting a form submission. */
  predicate IsSubmissionEntry(e: Entry) {
    e.Object? && "event" in e.props && e.props["event"] == Str(EventName)
  }

  /** The number of form-submission entries in a list. */
  function SubmissionCount(entries: seq<Entry>): (n: nat)
    ensures n <= |entries|
    ensures n == 0 <==> forall i :: 0 <= i < |entries| ==> !IsSubmissionEntry(entries[i])
  {
    if entries == [] then 0
    else (if IsSubmissionEntry(entries[0]) then 1 else 0) + SubmissionCount(entries[1..])
  }

  /** Counting over an appended entry. */
  lemma {:induction false} SubmissionCountAppend(entries: seq<Entry>, e: Entry)
    ensures SubmissionCount(entries + [e]) == SubmissionCount(entries) + (if IsSubmissionEntry(e) then 1 else 0)
  {
    if entries != [] {
      assert (entries + [e])[1..] == entries[1..] + [e];
      SubmissionCountAppend(entries[1..], e);
    } else {
      assert [] + [e] == [e];
    }
  }

  /** How many submissions the page has reported: `gtag` calls plus pushed entries. */
  function Emitted(c: Channels): nat {
    |c.gtagCalls| + SubmissionCount(c.dataLayer.GetOr([]))
  }

  /**
   * Dispatch reports the submission exactly once. With GA4 configured it makes one
   * `gtag("event", "hubspot_form_submission", params)` call and leaves `dataLayer` as it
   * was; otherwise it makes no call and `dataLayer` becomes its old entries (none if it
   * did not exist) followed by the merged entry.
   */
  lemma DispatchReportsOnce(c: Channels, gtagDefined: bool, params: Params)
    requires "event" !in params
    ensures var d := Dispatch(c, gtagDefined, params);
            Emitted(d) == Emitted(c) + 1
    ensures var d := Dispatch(c, gtagDefined, params);
            if ValidateGa4Configuration(gtagDefined, c.dataLayer) then
              d.dataLayer == c.dataLayer && d.gtagCalls == c.gtagCalls + [GtagCall("event", EventName, params)]
            else
              d.gtagCalls == c.gtagCalls && d.dataLayer.Some?
              && |d.dataLayer.value| == |c.dataLayer.GetOr([])| + 1
              && d.dataLayer.value[..|d.dataLayer.value| - 1] == c.dataLayer.GetOr([])
              && d.dataLayer.value[|d.dataLayer.value| - 1] == SubmissionEntry(params)
  {
    if !ValidateGa4Configuration(gtagDefined, c.dataLayer) {
      var before := c.dataLayer.GetOr([]);
      var e := SubmissionEntry(params);
      SubmissionCountAppend(before, e);
      assert IsSubmissionEntry(e);
      assert (before + [e])[..|before|] == before;
    }
  }

  /**
   * Falling back to `dataLayer` does not configure GA4: the next dispatch with the same
   * `gtag` presence takes the same route.
   */
  lemma FallbackKeepsRoute(c: Channels, gtagDefined: bool, params: Params)
    requires "0" !in params
    ensures ValidateGa4Configuration(gtagDefined, Dispatch(c, gtagDefined, params).dataLayer)
         == ValidateGa4Configuration(gtagDefined, c.dataLayer)
  {
    if !ValidateGa4Configuration(gtagDefined, c.dataLayer) {
      var e := SubmissionEntry(params);
      ObjectWithoutIndicesIsNoConfig(e.props);
      AppendNonConfigKeepsStatus(gtagDefined, c.dataLayer.GetOr([]), e);
      if c.dataLayer.None? {
        assert ValidateGa4Configuration(gtagDefined, Some([])) == false;
        assert [] + [e] == [e];
      }
    }
  }

  /** What a `message` event carries in `event.data`, when it is an object. */
  datatype MessageData = MessageData(kind: JsValue, eventName: JsValue, id: JsValue)

  /** `event.data?.type === "hsFormCallback" && event.data.eventName === "onFormSubmit"`. */
  predicate IsFormSubmitMessage(data: Option<MessageData>) {
    data.Some? && data.value.kind == Str("hsFormCallback") && data.value.eventName == Str("onFormSubmit")
  }

  /** The `message` listener: a form-submit callback is dispatched, anything else ignored. */
  function OnMessage(c: Channels, data: Option<MessageData>, hostname: string, cookie: string, gtagDefined: bool): (d: Channels)
    ensures OutputCount(d) == OutputCount(c) + (if IsFormSubmitMessage(data) then 1 else 0)
    ensures !IsFormSubmitMessage(data) ==> d == c
  {
    if IsFormSubmitMessage(data) then
      Dispatch(c, gtagDefined, FormSubmissionParameters(hostname, data.value.id, cookie))
    else c
  }

  /** The `submit` listener: every form submission is dispatched, without a form id. */
  function OnSubmit(c: Channels, hostname: string, cookie: string, gtagDefined: bool): (d: Channels)
    ensures OutputCount(d) == OutputCount(c) + 1
  {
    Dispatch(c, gtagDefined, FormSubmissionParameters(hostname, Undefined, cookie))
  }

  /** The `message` listener reports exactly one submission for a form-submit callback, and none otherwise. */
  lemma OnMessageReportsOnce(c: Channels, data: Option<MessageData>, hostname: string, cookie: string, gtagDefined: bool)
    ensures Emitted(OnMessage(c, data, hostname, cookie, gtagDefined)) == Emitted(c) + (if IsFormSubmitMessage(data) then 1 else 0)
    ensures !IsFormSubmitMessage(data) ==> OnMessage(c, data, hostname, cookie, gtagDefined) == c
  {
    if IsFormSubmitMessage(data) {
      var p := FormSubmissionParameters(hostname, data.value.id, cookie);
      ParametersKeys(hostname, data.value.id, cookie);
      DispatchReportsOnce(c, gtagDefined, p);
    }
  }

  /** The `submit` listener reports exactly one submission per event. */
  lemma OnSubmitReportsOnce(c: Channels, hostname: string, cookie: string, gtagDefined: bool)
    ensures Emitted(OnSubmit(c, hostname, cookie, gtagDefined)) == Emitted(c) + 1
  {
    ParametersKeys(hostname, Undefined, cookie);
    DispatchReportsOnce(c, gtagDefined, FormSubmissionParameters(hostname, Undefined, cookie));
  }
}

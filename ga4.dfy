/**
 * The analytics data layer and the check that decides whether the GA4 tag is set up:
 * `gtag` must be a function, `dataLayer` must exist, and one of its entries must be a
 * `config` command naming a GA4 measurement id (one that starts with `G-`).
 */
module Ga4Config {
  import opened Wrappers
  import opened JsString

  /** The JavaScript values the tag reads out of `dataLayer` entries and event data. */
  datatype JsValue = Undefined | Null | Str(s: string)

  /**
   * An entry of `dataLayer`: a command as `gtag(...)` records it (its argument list), or a
   * plain object such as the ones pushed for Tag Manager.
   */
  datatype Entry = Command(args: seq<JsValue>) | Object(props: map<string, JsValue>)

  /** The property name under which an object holds element `i`. */
  function IndexKey(i: nat): string
    requires i < 2
  {
    if i == 0 then "0" else "1"
  }

  /** `entry[i]` for the two indices the check reads: a missing element is `undefined`. */
  function Element(e: Entry, i: nat): JsValue
    requires i < 2
  {
    match e
    case Command(args) => if i < |args| then args[i] else Undefined
    case Object(props) => if IndexKey(i) in props then props[IndexKey(i)] else Undefined
  }

  /** `entry[0] === "config" && entry[1]?.startsWith("G-")`. */
  predicate IsGa4ConfigEntry(e: Entry) {
    Element(e, 0) == Str("config") && Element(e, 1).Str? && StartsWith(Element(e, 1).s, "G-")
  }

  /**
   * `validateGa4Configuration()`: `gtag` is a function, `dataLayer` exists (any array is
   * truthy, the empty one too) and some entry configures a GA4 measurement id.
   */
  function ValidateGa4Configuration(gtagDefined: bool, dataLayer: Option<seq<Entry>>): (r: bool)
    ensures r <==> gtagDefined && dataLayer.Some?
                   && exists i :: 0 <= i < |dataLayer.value| && IsGa4ConfigEntry(dataLayer.value[i])
  {
    if gtagDefined && dataLayer.Some? then
      Find(dataLayer.value, IsGa4ConfigEntry).Some?
    else
      false
  }

  /** Only a command can configure GA4 unless an object carries the properties `0` and `1`. */
  lemma ObjectWithoutIndicesIsNoConfig(props: map<string, JsValue>)
    requires "0" !in props
    ensures !IsGa4ConfigEntry(Object(props))
  {
    assert Element(Object(props), 0) == Undefined;
  }

  /** Appending an entry that configures nothing leaves the outcome of the check as it was. */
  lemma AppendNonConfigKeepsStatus(gtagDefined: bool, entries: seq<Entry>, e: Entry)
    requires !IsGa4ConfigEntry(e)
    ensures ValidateGa4Configuration(gtagDefined, Some(entries + [e]))
         == ValidateGa4Configuration(gtagDefined, Some(entries))
  {
    var es := entries + [e];
    if ValidateGa4Configuration(gtagDefined, Some(es)) {
      var i :| 0 <= i < |es| && IsGa4ConfigEntry(es[i]);
      assert i < |entries| && es[i] == entries[i];
    }
    if ValidateGa4Configuration(gtagDefined, Some(entries)) {
      var i :| 0 <= i < |entries| && IsGa4ConfigEntry(entries[i]);
      assert es[i] == entries[i];
    }
  }

  /** A universal-analytics `config` command alone is not a GA4 setup. */
  lemma ExampleUniversalAnalyticsOnly()
    ensures !ValidateGa4Configuration(true, Some([Command([Str("config"), Str("UA-123")])]))
  {
    var e := Command([Str("config"), Str("UA-123")]);
    assert Element(e, 1) == Str("UA-123");
    assert !StartsWith("UA-123", "G-") by { assert "UA-123"[0] != "G-"[0]; }
    assert !IsGa4ConfigEntry(e);
  }

  /** A GA4 `config` command after other entries is found. */
  lemma ExampleGa4Config(earlier: seq<Entry>)
    ensures ValidateGa4Configuration(true, Some(earlier + [Command([Str("config"), Str("G-ABC123")])]))
  {
    var e := Command([Str("config"), Str("G-ABC123")]);
    assert Element(e, 1) == Str("G-ABC123");
    assert StartsWith("G-ABC123", "G-");
    assert (earlier + [e])[|earlier|] == e;
  }
}

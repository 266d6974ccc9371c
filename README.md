# RoadwayTag identity bridge, modelled in Dafny

`tag.js` is a browser snippet with three jobs:

- It copies visitor identifiers into hidden form fields:
  - the Segment anonymous id goes into `segment_anon_id` / `segment_anon_id__c`;
  - the GA4 pseudo user id goes into `ga4_pseudo_user_id` / `user_pseudo_id` / `pseudo_user_id`. The pseudo id is read from the `_ga` cookie.
- It reads the HubSpot tracking token from the `hubspotutk` cookie.
- It reports each HubSpot form submission to GA4 as a `hubspot_form_submission` event:
  - when GA4 is configured, with a `gtag` call;
  - otherwise by pushing an entry onto `window.dataLayer`.

The model has one module per concern:

- `JsString` (`jsstring.dfy`) holds the JavaScript operations the tag relies on:
  - `split` with a one-character separator;
  - `join`;
  - `trim`, using the ECMAScript white-space and line-terminator set;
  - `startsWith` and `includes`;
  - `slice(-2)`;
  - `Array.prototype.find`, as the index of the first match.
- `Cookies` (`cookies.dfy`) models `getUserPseudoId` and `getHubspotUtkCookie`, both over the `document.cookie` string:
  - `UserPseudoId` is a function.
  - The utk search loop is a method, `GetHubspotUtkCookie`, proved equal to the function `HubspotUtk`.
- `Ga4Config` (`ga4.dfy`) covers the data layer's entries and `validateGa4Configuration`. An entry is either a command argument list or a plain object.
- `EventBridge` (`eventbridge.dfy`) has:
  - the parameter builder;
  - the merged `{event, ...params}` entry;
  - the dispatch and the two listener bodies, as functions over the page's two outputs (`dataLayer` and the recorded `gtag` calls).
- `FieldFill` (`fieldfill.dfy`) holds one tick of each filler job, as a function of the field table. The table maps an input name to the value of the first input with that name.
- `Tag` (`tag.dfy`) holds the class `Page`, whose fields are the state the tag changes in place: the field table, `dataLayer`, and the list of `gtag` calls. Its methods are:
  - the two ticks, which loop over the inputs found;
  - the dispatch, which lazily creates `dataLayer` and pushes onto it;
  - the two listeners.
  
  Each method is proved against a specification function in `FieldFill` or `EventBridge`:
  - `SegmentAnonymousIdTick` against `SegmentFill`;
  - `PseudoIdTick` against `PseudoIdFill`;
  - `CollectPresent` against `PresentNames`;
  - `OverwriteAll` against `Overwrite`;
  - `FillEmptyAll` against `FillEmpty`;
  - `TriggerGa4EventForHubspotFormSubmission` against `Dispatch`;
  - `OnMessage` against `EventBridge.OnMessage`;
  - `OnSubmit` against `EventBridge.OnSubmit`.

Everything the page supplies from outside is a parameter of the operation that reads it:

- the Segment SDK's anonymous id;
- `document.cookie`;
- `window.location.hostname`;
- whether `window.gtag` is a function;
- the data of a `message` event.

A `gtag` call is recorded, not performed.

Three details of the code that the model follows exactly:

- **Pseudo-id value.** The value used is the text between the first and the second `=` of the entry (`split("=")[1]`), not the whole cookie value. `PseudoIdOfValue` proves that anything after a second `=` is ignored.
- **The `_gat` guard.** The guard `!row.includes("_gat")` looks at the whole entry. It reads as protection against the `_gat` cookie, but an entry named `_gat` never starts with `_ga=` in the first place. What the guard actually does is reject `_ga=` entries whose value contains `_gat` (`GatGuardOnlyInspectsValue`).
- **The utk match.** The cookie is matched by name: the code tests `indexOf("hubspotutk=") === 0`, which is the same as `startsWith` on the trimmed entry, and that is how it is modelled.

## Model

| member | source | states |
|---|---|---|
| JsString.ContainsOccurs | tag.js:79 | `includes` holds exactly when the searched text occurs at some index |
| JsString.TrimSlice | tag.js:77 | `trim` keeps one slice of the input; everything outside it is white space, and the slice neither starts nor ends with white space |
| JsString.SplitPieces | tag.js:77 | no piece of `split(d)` contains `d`; there is a single piece exactly when `d` does not occur |
| JsString.JoinSplit | tag.js:85 | joining the pieces of a split with the same separator gives back the string |
| JsString.SplitJoin | tag.js:85 | splitting a join of separator-free pieces gives back the pieces |
| JsString.LastTwo | tag.js:85 | `slice(-2)` is the last two elements, or all of them when there are fewer |
| JsString.Find | tag.js:78-80 | `find` returns the first index whose element satisfies the predicate, and nothing exactly when no element does |
| Cookies.TrimAll | tag.js:77 | every entry is the trimmed piece at the same position |
| Cookies.SingleEntry | tag.js:77 | a cookie string without `;` and without surrounding white space is a single entry |
| Cookies.Entries | tag.js:77 | a cookie string always has at least one entry, and more than one exactly when it holds a `;`; each entry is the trimmed piece at its position (`TrimAll`) |
| Cookies.UserPseudoId | tag.js:69-92 | returns nothing exactly when no trimmed entry starts with `_ga=` and lacks `_gat`; otherwise returns the pseudo id of the first such entry |
| Cookies.IsGaEntry | tag.js:79 | the `find` test on a trimmed entry; a predicate without a contract of its own, whose meaning `GatGuardOnlyInspectsValue` states (starts with `_ga=` and the value holds no `_gat`) |
| Cookies.PseudoIdOfEntry | tag.js:85 | the id of a `_ga=` entry, without a contract of its own: `PseudoIdOfValue`, `PseudoIdOfClientId` and `PseudoIdOfShortValue` state what it yields |
| Cookies.EmptyCookieHasNoGaEntry | tag.js:72-75 | the empty cookie string has no `_ga=` entry |
| Cookies.GatGuardOnlyInspectsValue | tag.js:79 | an entry qualifies exactly when it starts with `_ga=` and its value has no `_gat`; an entry starting with `_gat` never qualifies |
| Cookies.PseudoIdOfValue | tag.js:85 | the pseudo id depends only on the text between the first and second `=` |
| Cookies.PseudoIdOfClientId | tag.js:85 | for a client id `_ga=<fields>.<a>.<b>`, with or without a trailing `=...`, the pseudo id is `<a>.<b>` |
| Cookies.PseudoIdOfShortValue | tag.js:85 | a value without a `.` is kept whole |
| Cookies.PseudoIdOfSoleEntry | tag.js:77-87 | a cookie string that is one qualifying entry yields that entry's pseudo id |
| Cookies.ExampleClientIdEntry | tag.js:85 | the entry `_ga=GA1.1.123456789.987654321` carries the pseudo id `123456789.987654321` |
| Cookies.ExampleClientIdCookie | tag.js:77-87 | any cookie string in which `_ga=GA1.1.123456789.987654321` is an entry and no earlier entry qualifies yields `123456789.987654321` |
| Cookies.ExampleClientIdQualifies | tag.js:78-80 | the example entry passes the `_ga=` test and the `_gat` guard |
| Cookies.NoGatWithoutT | tag.js:79 | an entry without the letter `t` always passes the `_gat` guard |
| Cookies.ExampleOnlyGatCookie | tag.js:78-84 | the cookie string `_gat=1` yields no pseudo id |
| Cookies.KeepTokenChars | tag.js:134 | the result of `replace(/[^\w-]/g, "")` holds only `[A-Za-z0-9_-]` characters |
| Cookies.KeepTokenCharsCounts | tag.js:134 | each token character is kept as often as it occurs; every other character is dropped |
| Cookies.KeepTokenCharsSubsequence | tag.js:134 | the result is a subsequence of the input |
| Cookies.KeepTokenCharsAppend | tag.js:134 | the cleaning distributes over concatenation |
| Cookies.KeepTokenCharsOfToken | tag.js:134 | a string of token characters is left unchanged |
| Cookies.KeepTokenCharsDropsOne | tag.js:134 | a non-token character after a run of token characters is removed and the run kept |
| Cookies.HubspotUtk | tag.js:125-146 | returns nothing exactly when no trimmed entry starts with `hubspotutk=`; otherwise returns the cleaned value of the first such entry, which is token-only |
| Cookies.IsUtkEntry | tag.js:133 | `indexOf("hubspotutk=") === 0`, a predicate without a contract of its own; `HubspotUtk` and `UtkFoundAt` state the search over it |
| Cookies.UtkFoundAt | tag.js:130-134 | the first trimmed piece that matches is the entry `HubspotUtk` selects |
| Cookies.GetHubspotUtkCookie | tag.js:127-141 | the search loop with early return computes `HubspotUtk` |
| Cookies.UtkIsSubsequenceOfValue | tag.js:133-134 | the token is a subsequence of the raw value of the first `hubspotutk=` entry |
| Cookies.UtkOfSoleEntry | tag.js:130-134 | a cookie string that is one `hubspotutk=` entry yields that entry's cleaned value |
| Cookies.ExampleUtkCookie | tag.js:128-134 | `hubspotutk=ab#c!123` yields `abc123` |
| Cookies.ExampleNoUtkCookie | tag.js:127-141 | the empty cookie string and one holding only a `_ga` cookie yield no token |
| Ga4Config.ValidateGa4Configuration | tag.js:104-123 | true exactly when `gtag` is a function, `dataLayer` exists, and some entry has element 0 equal to `"config"` and element 1 a string starting with `G-` |
| Ga4Config.IsGa4ConfigEntry | tag.js:107 | the `find` test on a `dataLayer` entry, a predicate without a contract of its own; `ObjectWithoutIndicesIsNoConfig`, `ExampleUniversalAnalyticsOnly` and `ExampleGa4Config` state what passes it |
| Ga4Config.ObjectWithoutIndicesIsNoConfig | tag.js:106-108 | an object entry without an index property `0` never configures GA4 |
| Ga4Config.AppendNonConfigKeepsStatus | tag.js:106-108 | appending an entry that configures nothing does not change the outcome |
| Ga4Config.ExampleUniversalAnalyticsOnly | tag.js:106-118 | a data layer holding only `["config", "UA-123"]` is not a GA4 setup |
| Ga4Config.ExampleGa4Config | tag.js:106-113 | a `["config", "G-ABC123"]` command after any entries is found |
| EventBridge.FormSubmissionParameters | tag.js:148-163 | on a `canibuild.com` host the keys are exactly `hubspot_form_id`; elsewhere they are exactly `hubspot_form_id` and `hubspot_utk` |
| EventBridge.ParametersCarryUtk | tag.js:153-162 | the utk token (or `null`) is reported under `hubspot_form_id` on a `canibuild.com` host and under `hubspot_utk` elsewhere; elsewhere `hubspot_form_id` is the event's id |
| EventBridge.CanibuildIgnoresEvent | tag.js:151-156 | on a `canibuild.com` host the parameters do not depend on the event |
| EventBridge.CanibuildSubdomain | tag.js:149-151 | every subdomain of `canibuild.com` takes the `canibuild.com` branch |
| EventBridge.ParametersKeys | tag.js:154-161 | the parameters never hold an `event` or `0` property |
| EventBridge.SubmissionEntry | tag.js:174-177 | the pushed object has the parameters' properties with their values, plus `event: "hubspot_form_submission"` |
| EventBridge.SubmissionCount | tag.js:174-177 | the count of submission entries is zero exactly when there are none |
| EventBridge.SubmissionCountAppend | tag.js:174-177 | appending an entry adds one to the count exactly when it is a submission entry |
| EventBridge.Dispatch | tag.js:165-179 | one more output than before, in one channel only: either `gtagCalls` or `dataLayer` is left as it was; `DispatchReportsOnce` gives the exact new state |
| EventBridge.DispatchReportsOnce | tag.js:165-179 | dispatch reports exactly once: configured, one `gtag("event", "hubspot_form_submission", params)` call and `dataLayer` unchanged; otherwise no call, and `dataLayer` becomes its old entries (or none) followed by the merged entry |
| EventBridge.FallbackKeepsRoute | tag.js:166-177 | the fallback push does not change whether GA4 counts as configured |
| EventBridge.IsFormSubmitMessage | tag.js:183-186 | the `message` filter, a predicate without a contract of its own; `OnMessageReportsOnce` states what follows from it |
| EventBridge.OnMessage | tag.js:182-194 | one more output for a form-submit callback, the outputs untouched for any other message |
| EventBridge.OnSubmit | tag.js:198-208 | one more output for every submit event |
| EventBridge.OnMessageReportsOnce | tag.js:182-194 | the `message` listener reports exactly one submission when `data.type` is `hsFormCallback` and `data.eventName` is `onFormSubmit`, and otherwise changes nothing |
| EventBridge.OnSubmitReportsOnce | tag.js:198-208 | the `submit` listener reports exactly one submission per event |
| FieldFill.PresentNames | tag.js:22-24 | the names kept are exactly the target names that have an input on the page |
| FieldFill.Overwrite | tag.js:27-29 | every present target input takes the value; nothing else changes |
| FieldFill.FillEmpty | tag.js:54-58 | only present target inputs that are empty take the value; nothing else changes |
| FieldFill.SegmentFill | tag.js:17-36 | the tick keeps the set of inputs and succeeds only with a truthy id; `SegmentFillEffect` gives the exact new fields |
| FieldFill.PseudoIdFill | tag.js:40-62 | the tick keeps the set of inputs and succeeds only with a truthy id; `PseudoIdFillEffect` gives the exact new fields |
| FieldFill.SegmentFillEffect | tag.js:19-35 | the Segment tick returns true exactly when the id is truthy and a target input exists; it then overwrites every target input and changes no other field; otherwise it changes nothing |
| FieldFill.PseudoIdFillEffect | tag.js:47-61 | the pseudo-id tick returns true exactly when the id is truthy and a target input exists; it then fills only the empty target inputs; otherwise it changes nothing |
| FieldFill.PseudoIdFillKeepsValues | tag.js:55-57 | the pseudo-id tick never changes a field that holds a value |
| FieldFill.PseudoIdFillIdempotent | tag.js:47-61 | a second pseudo-id tick with the same id leaves the fields and the result as they were |
| FieldFill.SegmentFillIdempotent | tag.js:19-35 | a second Segment tick with the same id leaves the fields and the result as they were |
| FieldFill.FillersTouchDisjointFields | tag.js:15-45 | the two jobs target disjoint inputs, so their ticks commute |
| Tag.Page.CollectPresent | tag.js:22-24 | collects the target names that have an input, in order |
| Tag.Page.OverwriteAll | tag.js:27-29 | the `forEach` loop sets every present target input to the value and changes nothing else |
| Tag.Page.FillEmptyAll | tag.js:54-58 | the `forEach` loop fills only the empty present target inputs and changes nothing else |
| Tag.Page.SegmentAnonymousIdTick | tag.js:17-36 | one Segment tick updates the fields and returns as `SegmentFill` prescribes; `dataLayer` and the `gtag` calls are unchanged |
| Tag.Page.PseudoIdTick | tag.js:40-62 | one pseudo-id tick, on the pseudo id read from the cookie string, updates the fields and returns as `PseudoIdFill` prescribes |
| Tag.Page.TriggerGa4EventForHubspotFormSubmission | tag.js:165-179 | the in-place `gtag` call, or the lazy creation of `dataLayer` plus the push, leaves the page's outputs as `Dispatch` prescribes; the fields are unchanged |
| Tag.Page.OnMessage | tag.js:182-194 | the `message` handler changes the outputs as `EventBridge.OnMessage` prescribes |
| Tag.Page.OnSubmit | tag.js:198-208 | the `submit` handler dispatches the parameters built with no form id |

## Left out

- `debugLog` (tag.js:2-12): it only reads the URL and writes to the console. It has no effect on behaviour.
- The timers and bootstrap (tag.js:93-102, 211-233): `runIndefinitely`'s `setInterval`, the delayed start, and `main`. Only single ticks are modelled. No modelled step can throw, so the swallowed exceptions have no counterpart.
- `addEventListener` registration (tag.js:182, 198). Only the handler bodies are modelled, applied to an abstract event.
- The Segment SDK call chain (tag.js:66): its result is the `anonymousId` parameter.
- The real `gtag`: a call is recorded in `Page.gtagCalls`. Whatever `gtag` itself does with `dataLayer` is not modelled.
- DOM mechanics. `querySelector` is the field table: one value per input name, that of the first input with the name. Other inputs with the same name are not modelled, since the tag never touches them either.
- `try`/`catch` (tag.js:71, 88-91, 126, 131-138, 142-145, 199, 205-207). Every modelled step is total, so the catch branches are unreachable in the model.
- JavaScript values other than strings, `null` and `undefined` are not modelled. A data-layer entry `["config", 42]` would make `entry[1]?.startsWith` throw in the source. So would a `null` entry, through `entry[0]`. Neither case is represented.
- A `message` event whose `event.data` is present but not an object (such as a string) is represented as `MessageData(Undefined, Undefined, Undefined)`. Its `type` reads as `undefined`, so it is ignored exactly as in the source.
- Property order: objects are maps, so the order of the merged entry's properties is not modelled.
- A truthy `window.dataLayer` that is not an array is not modelled: `dataLayer` is absent or a sequence of entries.
- Characters are Dafny `char`s, not UTF-16 code units. `trim`'s white-space set is written out from the ECMAScript definition.

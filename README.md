# Element hiding and Duck Player overlay messages, modelled in Dafny

This project models two pieces of decision logic from a browser content-script
toolkit for a privacy-protection extension.

**Element hiding** (`src/features/element-hiding.js`) hides ad containers on a
page. Its `init` resolves the rules that apply to a site. The matching domain
entries' rule lists are flattened, the global rules are appended, and every
rule sharing a selector with a domain `override` rule is dropped. The hiding
pass then collapses each matched element by its rule type:

- `hide` hides the element;
- `hide-empty` hides it only when it is empty;
- `closest-empty` walks up from the element and hides the outermost empty node.

The emptiness check re-parses the node and reads the `hidden` attribute of
every iframe in it, including the node itself. `hideNode` sets that attribute.
So hiding an iframe makes it, and any node whose only content it is, count as
empty for every later check in the same pass (`HiddenAdEmptiesItsSlot`).

Later, `unHideLoadedAds` unhides every hidden node that is not empty. A node
that a `hide` rule hid while it had content of its own (text, media, or an
iframe other than itself) is unhidden again, so the pass undoes `hide` rules on
such elements (`UnhideUndoesHide`). An iframe whose only content is its own
`src` counts as empty once hidden, and stays hidden (`HiddenIframeStaysHidden`).

The `closest-empty` walk can climb past `<html>` to the document when every node
on the way is empty. The document has no `classList`, so `collapseDomNode`
throws a TypeError there. That ends the hiding pass, and the model reports it
as a `Throws` outcome.

The page is an abstract forest. Nodes are indices. `parent[i]` is the parent of
node i, or -1 for none. `hidden[i]` is the `ddg-hidden` marker. Each node carries
the content the emptiness check looks at. Its iframes are page nodes (the node
itself or nodes inside it), so whether each is hidden is read from the markers.
A root node is `<html>`, and its parent (-1) is the document. The files are:

- `element_rules.dfy` (module `ElementRules`): rule resolution as pure functions,
  the `init` filtering loop as a method, and the lemmas about the result;
- `dom_forest.dfy` (module `DomForest`): the emptiness decision, and the
  specification function `CollapseTarget` giving what one collapse does (hide one
  node, change nothing, or throw). Its lemmas characterise that outcome on its
  own terms;
- `element_hiding.dfy` (module `ElementHiding`): class `Page`, which holds the
  `parent` and `hidden` arrays. Its methods `HideNode`, `CollapseDomNode`,
  `HideAdNodes`, `UnHideLoadedAds` and `Init` change the page in place and are
  proved against those functions. `HideAll` specifies the whole hiding pass.

**Duck Player overlay messages** (`src/features/duckplayer/overlay-messages.js`,
module `OverlayMessages` in `overlay_messages.dfy`) covers these parts:

- the pixel names and parameters;
- the `sendPixel` payload;
- `assertCustomEvent`;
- the listener that `serpProxy` installs for events from the search page.

Calls into the messaging library (`request`, `notify`, `subscribe`) are
returned as `MessagingCall` values instead of being performed. `IntentOf` reads
back what a call asks of the native side, and each call builder is proved to
be read back as its own intent. `Pixel.name()` is the input's `name` field, and
`SendPixel` states that it is sent unchanged.

`wrappers.dfy` holds the `Option` and `Result` types. `Result`'s `Err` stands
for a thrown exception.

## Model

| member | source | states |
|---|---|---|
| ElementRules.ActiveDomainRules | src/features/element-hiding.js:138-140 | a rule is active iff it belongs to the rule list of some entry whose domain matches the site |
| ElementRules.ActiveDomainRulesConcat | src/features/element-hiding.js:138-140 | matching entries contribute their rules in entry order (flattening distributes over concatenation of the entry list) |
| ElementRules.OverrideRules | src/features/element-hiding.js:142-144 | the override list holds exactly the active domain rules whose type is `override` |
| ElementRules.WithoutSelectors | src/features/element-hiding.js:150-152 | a rule survives the filter iff it was present and its selector is not removed |
| ElementRules.WithoutSelectorsTwice | src/features/element-hiding.js:149-153 | filtering once more by one override's selector equals filtering by the enlarged selector set, so the loop over overrides removes the union of their selectors |
| ElementRules.WithoutSelectorsConcat | src/features/element-hiding.js:146-153 | filtering the concatenation of domain and global rules filters each part separately |
| ElementRules.WithoutSelectorsIsSubsequence | src/features/element-hiding.js:150-152 | the filtered list is a subsequence of the input: relative order is kept |
| ElementRules.WithoutSelectorsCount | src/features/element-hiding.js:150-152 | every copy of a rule with a removed selector goes, and every copy of any other rule stays |
| ElementRules.WithoutNothing | src/features/element-hiding.js:146-153 | with no override selectors the filter returns its input unchanged |
| ElementRules.Resolved | src/features/element-hiding.js:146-153 | every resolved rule is a domain or global rule, and none has the selector of a domain override |
| ElementRules.ResolveRules | src/features/element-hiding.js:137-153 | the loop over override rules yields `Resolved` of the active domain rules and the global rules |
| ElementRules.ResolvedOrder | src/features/element-hiding.js:138-153 | the resolved list is the kept domain rules followed by the kept global rules, each a subsequence of its source list |
| ElementRules.ResolvedContents | src/features/element-hiding.js:142-153 | a rule is resolved iff it is a domain or global rule and no domain override shares its selector; override rules themselves are gone; kept rules keep their multiplicity |
| ElementRules.GlobalOverridesIgnored | src/features/element-hiding.js:142-146 | only domain rules act as overrides: without a domain override every domain and global rule is kept, whatever the global rules' types |
| DomForest.NoFramesWithContent | src/features/element-hiding.js:59-65 | true iff every iframe is hidden (carries the marker `hideNode` sets) or has src `about:blank` |
| DomForest.IsDomNodeEmpty | src/features/element-hiding.js:45-70 | false for `BODY`; otherwise true iff the text is empty or an ad label, every iframe is hidden under the current markers or blank, and there is no video or canvas |
| DomForest.EmptinessMonotone | src/features/element-hiding.js:40-67 | hiding more nodes never makes an empty node non-empty, since it only hides more iframes |
| DomForest.UnderHiddenIffHiddenAncestor | src/features/element-hiding.js:11 | `closest('.ddg-hidden')` holds iff the node itself or some node on its walk up to the root is hidden |
| DomForest.HideAt | src/features/element-hiding.js:40-43 | hiding marks the one node hidden and leaves every other node as it was; no other outcome changes anything |
| DomForest.CollapseTarget | src/features/element-hiding.js:6-38 | the node a collapse hides is a node of the page, and a collapse throws only at the document or for `closest-empty` |
| DomForest.CollapseTargetCases | src/features/element-hiding.js:7-37 | the document throws; an already hidden element or an unsupported type changes nothing; `hide` hides the element; `hide-empty` hides it iff empty; `closest-empty` from a non-empty start changes nothing |
| DomForest.ClosestEmptyHidesOutermost | src/features/element-hiding.js:26-33 | from a start with no hidden ancestor, `closest-empty` hides the last empty node of the walk, the child of the first non-empty ancestor |
| DomForest.ClosestEmptyReachesDocument | src/features/element-hiding.js:6-33 | when every node up to the root is empty the walk reaches the document and throws, unless the start has a hidden ancestor, when nothing changes |
| DomForest.ClosestEmptyTargetIsOutermost | src/features/element-hiding.js:6-33 | conversely, whatever `closest-empty` hides is the outermost empty node of the walk from a start with no hidden ancestor, and it throws only when every node up to the root is empty |
| DomForest.ClosestEmptyWalk | src/features/element-hiding.js:26-33 | the walk entered at any node with a previous element: a node it hides is the previous element (reached at a non-empty node) or the outermost empty node, always from a start outside every hidden subtree; it throws only after every node up to the root was empty |
| DomForest.CollapseTargetSafe | src/features/element-hiding.js:11-33 | the node a collapse hides is outside every hidden subtree, and is empty unless it is the element of a `hide` rule |
| DomForest.UnderHiddenMonotone | src/features/element-hiding.js:11 | hiding more nodes never uncovers a node that was inside a hidden subtree |
| DomForest.HideCovers | src/features/element-hiding.js:11-20 | after a `hide` collapse the element is hidden or inside a hidden subtree |
| DomForest.UnhideUndoesHide | src/features/element-hiding.js:110-119 | an element that a `hide` rule hid and that still has content once hidden is visible again after the unhiding pass |
| DomForest.HiddenIframeStaysHidden | src/features/element-hiding.js:110-119 | an iframe with no content but its own `src` that a `hide` rule hid counts as empty and is kept hidden by the unhiding pass |
| ElementHiding.HiddenAdEmptiesItsSlot | src/features/element-hiding.js:101-108 | `hide` on an ad iframe makes its slot empty, so a later `hide-empty` on the slot hides it in the same pass, and the unhiding pass keeps both hidden |
| ElementHiding.CollapseEachSafe | src/features/element-hiding.js:104-106 | collapsing one rule's matches never unhides a node; a node it hides is empty under the markers it leaves or, for `hide`, a match; unless it threw, every `hide` match ends covered |
| ElementHiding.HideAllSafe | src/features/element-hiding.js:101-108 | a whole pass never unhides a node; a node it hides is empty under the markers it leaves or matched by a `hide` rule; unless it threw, every element a `hide` rule matches ends hidden or inside a hidden subtree |
| ElementHiding.Page.HideNode | src/features/element-hiding.js:40-43 | the node becomes hidden and no other node changes |
| ElementHiding.Page.CollapseDomNode | src/features/element-hiding.js:6-38 | the new hidden markers are the old ones changed as `CollapseTarget` says, with emptiness decided under the old markers, and the method reports a throw exactly when `CollapseTarget` throws |
| ElementHiding.Page.HideAdNodes | src/features/element-hiding.js:101-108 | the new markers and the throw flag are those of `HideAll`, the rule-by-rule, match-by-match pass that decides each collapse under the markers as they stand and stops at the first throw; hence the three `HideAllSafe` properties |
| ElementHiding.Page.UnHideLoadedAds | src/features/element-hiding.js:110-119 | a node is hidden afterwards iff it was hidden and was empty under the markers before the pass, hidden iframes counting as empty; each check in document order sees exactly those markers |
| ElementHiding.Page.Init | src/features/element-hiding.js:126-153 | in a frame nothing happens; otherwise the ad labels are stored and the active rules are `Resolved` of the matching domain rules and the global rules |
| OverlayMessages.PixelParamsOf | src/features/duckplayer/overlay-messages.js:125-134 | success iff the name is one of the three known pixel names; `{}` for `overlay`, `{remember}` copied from the input for `play.use` and `play.do_not_use` |
| OverlayMessages.SendPixel | src/features/duckplayer/overlay-messages.js:43-48 | one notification under the pixel name with payload `{pixelName: name(), params: params()}`; nothing is sent when `params()` throws |
| OverlayMessages.SendPixelRoundTrip | src/features/duckplayer/overlay-messages.js:112-134 | every known pixel is sent, and the pixel is recovered unchanged from its payload and read back as that pixel's intent |
| OverlayMessages.AssertCustomEvent | src/features/duckplayer/overlay-messages.js:107-110 | passes iff the event has an object `detail` whose `kind` is a string, and then yields that kind and the data |
| OverlayMessages.SetUserValues | src/features/duckplayer/overlay-messages.js:29-31 | a request that is read back as storing exactly the given values |
| OverlayMessages.GetUserValues | src/features/duckplayer/overlay-messages.js:36-38 | a request that is read back as reading the values |
| OverlayMessages.OpenInDuckPlayerViaMessage | src/features/duckplayer/overlay-messages.js:53-55 | a notification that is read back as opening the player at the given href |
| OverlayMessages.OnUserValuesChanged | src/features/duckplayer/overlay-messages.js:61-63 | a subscription that is read back as watching user-value changes |
| OverlayMessages.HandleIncoming | src/features/duckplayer/overlay-messages.js:83-99 | an invalid event issues nothing; a valid one issues one `setUserValues(detail.data)` if its kind is the set name and one `getUserValues()` if it is the read name, and nothing else; when both are issued set comes first |
| OverlayMessages.Respond | src/features/duckplayer/overlay-messages.js:69-75 | the event goes out under the proxy-response name, passes `assertCustomEvent`, and delivers the push-data kind and the data unchanged |
| OverlayMessages.IncomingRouting | src/features/duckplayer/overlay-messages.js:83-99 | with distinct set/read names: the set kind issues exactly `setUserValues(detail.data)`, the read kind exactly `getUserValues()` with `{}`, anything else nothing |
| OverlayMessages.OnRequestSettled | src/features/duckplayer/overlay-messages.js:86-94 | a response is sent back iff the forwarded request succeeded |
| OverlayMessages.RespondPassesValidation | src/features/duckplayer/overlay-messages.js:69-75 | the event sent back carries the push-data kind and the updated data, and passes `assertCustomEvent` |

## Left out

- Real DOM access is not modelled. This covers `DOMParser`, `querySelectorAll`, `outerHTML`/`innerText`, `classList` and `insertAdjacentHTML`. The page is an abstract forest. `HideAdNodes` receives the nodes each rule's selector matches as a parameter, in document order.
- CollapseDomNode: the `!element` guard is not modelled. `parentNode` is null only above the document, and the walk throws at the document before it gets there.
- HideAdNodes: a selector that `querySelectorAll` rejects throws a SyntaxError that ends the pass in the source. The model receives the matches as given, so this case is not modelled.
- A throw from the hiding pass also leaves `applyRules` and, on a page that has already loaded, `init`, before the timers and listeners are set up. The model reports the throw as `HideAdNodes`' result. Timers and listeners are not modelled (see below).
- The DOM's parent links are assumed to point to earlier nodes (document order). This is how the model knows the walk up the parent chain ends.
- The `ddg-hidden` class and the `hidden` property are one marker per node. The source always sets and clears them together.
- Emptiness takes as given what the emptiness check sees: visible text already trimmed and lower-cased, the iframes, and whether there is video or canvas. Removal of metadata elements is not modelled. Locale-dependent case folding is not modelled.
- A page's own `hidden` attribute on an iframe is not modelled apart from the marker: an iframe counts as hidden iff it carries the marker.
- Apart from its iframes' markers, a node's content does not change when nodes are hidden. Ads loading later are a change to `Page.content` made between passes. The fortune.com ad simulation (`simulateAdLoad`) is not modelled.
- Timers and event wiring are not modelled: `applyRules` scheduling (immediately, after 250 ms, unhiding after 750 ms), the style tag, the `History.pushState` proxy, and the `popstate`/`DOMContentLoaded` listeners. Each pass is a separate method a caller runs in that order.
- `matchHostname` is a function parameter. `isBeingFramed` is a boolean parameter. `getFeatureSetting` is replaced by passing the `domains`, `rules` and `adLabelStrings` settings directly.
- The `console.log`/`console.warn`/`console.error` messages are not modelled.
- The messaging library is not part of this model. Its request correlation, notifications and subscriptions have no source here. Requests, notifications and subscriptions are returned as `MessagingCall` values.
- Promises, `window.dispatchEvent` and `CustomEvent` are not modelled. The settled outcome of a forwarded request is a parameter of `OnRequestSettled`. The dispatched event is an `OutgoingEvent` value.
- The message-name constants come from a constants file that is not part of this model. They are passed as a `MessageNames` record.
- IncomingRouting: proved only for distinct set and read names. `HandleIncoming` itself follows the source's two independent `if`s, which would issue both requests if the two names were equal.
- `serpProxy`'s registration of its two listeners is not modelled. Its subscription is `OnUserValuesChanged`, and each pushed value is forwarded by `Respond`.
- The Duck Player page's message class (`packages/special-pages/pages/duckplayer/src/js/messages.js`) is not modelled. It only forwards to the messaging library.
- The artifact size check (`unit-test/verify-artifacts.js`) is not modelled. It consists of file-system sizes and a floating-point limit.
- The Windows messaging example is not modelled. It is usage code bound to browser globals.

/**
 * The Duck Player overlay's messages to the native side: the pixel payloads,
 * the validation of events coming from the search page, and the routing of
 * those events to native requests. Calls into the messaging library are
 * returned as values instead of being performed.
 */
module OverlayMessages {
  import opened Wrappers

  /** The message-name constants the overlay uses; their values live in a
      constants file that is not part of this model. */
  datatype MessageNames = MessageNames(setValues: string, readValues: string, pixel: string,
                                       openPlayer: string, pushData: string, proxyResponse: string)

  /** The subscription name of user-value changes. */
  const UserValuesChanged: string := "onUserValuesChanged"

  /** The object a `Pixel` is built from: a name and, for the play pixels, `remember`. */
  datatype PixelInput = PixelInput(name: string, remember: Option<string>)

  /** The three pixels the overlay knows. */
  datatype KnownPixel = Overlay | PlayUse(remember: string) | PlayDoNotUse(remember: string)

  /** What `Pixel.params()` returns: `{}` or `{remember}`. */
  datatype PixelParams = NoParams | RememberParam(remember: Option<string>)

  /** A payload passed to the messaging library. */
  datatype Payload<D> =
    | Values(data: D)
    | EmptyObject
    | PixelEvent(pixelName: string, params: PixelParams)
    | OpenPlayer(href: string)

  /** One call into the messaging library. */
  datatype MessagingCall<D> =
    | Request(name: string, params: Payload<D>)
    | Notify(name: string, params: Payload<D>)
    | Subscribe(name: string)

  /** The `kind` of an event's detail: a string, or a value of another type. */
  datatype KindValue = StringKind(s: string) | NonStringKind

  /** An event's `detail`: absent, `null`/`undefined`, or an object with `kind` and `data`. */
  datatype Detail<D> = NoDetail | NullDetail | DetailObject(kind: KindValue, data: D)

  /** An event received from the search page. */
  datatype IncomingEvent<D> = IncomingEvent(detail: Detail<D>)

  /** An event the overlay dispatches to the search page: its name and its
      detail `{kind, data}`. */
  datatype OutgoingEvent<D> = OutgoingEvent(name: string, kind: string, data: D)

  /** The constructor input of each known pixel. */
  function PixelInputOf(k: KnownPixel): PixelInput
  {
    match k
    case Overlay => PixelInput("overlay", None)
    case PlayUse(r) => PixelInput("play.use", Some(r))
    case PlayDoNotUse(r) => PixelInput("play.do_not_use", Some(r))
  }

  /** `Pixel.params()`: `{}` for `overlay`, `{remember}` copied from the input for
      the two play pixels, and an error for any other name. */
  function PixelParamsOf(p: PixelInput): (r: Result<PixelParams>)
    ensures r.Ok? <==> exists k :: PixelInputOf(k).name == p.name
    ensures r.Ok? && p.name == "overlay" ==> r.value == NoParams
    ensures r.Ok? && p.name != "overlay" ==> r.value == RememberParam(p.remember)
  {
    if p.name == "overlay" then
      assert PixelInputOf(Overlay).name == p.name;
      Ok(NoParams)
    else if p.name == "play.use" || p.name == "play.do_not_use" then
      assert PixelInputOf(PlayUse("0")).name == "play.use";
      assert PixelInputOf(PlayDoNotUse("0")).name == "play.do_not_use";
      Ok(RememberParam(p.remember))
    else
      Err("unreachable")
  }

  /** `sendPixel`: one notification whose payload is `{pixelName: name(), params: params()}`;
      when `params()` throws, nothing is sent. */
  function SendPixel<D>(names: MessageNames, p: PixelInput): (r: Result<MessagingCall<D>>)
    ensures r.Ok? <==> PixelParamsOf(p).Ok?
    ensures r.Ok? ==> r.value == Notify(names.pixel, PixelEvent(p.name, PixelParamsOf(p).value))
  {
    match PixelParamsOf(p)
    case Ok(params) => Ok(Notify(names.pixel, PixelEvent(p.name, params)))
    case Err(msg) => Err(msg)
  }

  /** Reads a known pixel back from a pixel payload. */
  function PixelFromPayload<D>(payload: Payload<D>): Option<KnownPixel>
  {
    match payload
    case PixelEvent("overlay", NoParams) => Some(Overlay)
    case PixelEvent("play.use", RememberParam(Some(r))) => Some(PlayUse(r))
    case PixelEvent("play.do_not_use", RememberParam(Some(r))) => Some(PlayDoNotUse(r))
    case _ => None
  }

  /** Every known pixel is sent, under the pixel message name, with a payload
      from which the pixel is recovered unchanged. */
  lemma SendPixelRoundTrip<D>(names: MessageNames, k: KnownPixel)
    ensures SendPixel<D>(names, PixelInputOf(k)).Ok?
    ensures SendPixel<D>(names, PixelInputOf(k)).value.Notify?
    ensures SendPixel<D>(names, PixelInputOf(k)).value.name == names.pixel
    ensures PixelFromPayload(SendPixel<D>(names, PixelInputOf(k)).value.params) == Some(k)
    ensures IntentOf(names, SendPixel<D>(names, PixelInputOf(k)).value) == Some(SendPixelIntent(k))
  {
  }

  /** What a call asks of the native side, independently of its wire shape. */
  datatype Intent<D> =
    | StoreValues(values: D)
    | ReadValues
    | SendPixelIntent(pixel: KnownPixel)
    | OpenPlayerAt(href: string)
    | WatchValues

  /** Reads the intent back from a call: by the kind of call, its message name
      and the shape of its payload. */
  function IntentOf<D>(names: MessageNames, call: MessagingCall<D>): Option<Intent<D>>
  {
    match call
    case Request(n, Values(v)) => if n == names.setValues then Some(StoreValues(v)) else None
    case Request(n, EmptyObject) => if n == names.readValues then Some(ReadValues) else None
    case Notify(n, OpenPlayer(h)) => if n == names.openPlayer then Some(OpenPlayerAt(h)) else None
    case Notify(n, PixelEvent(_, _)) =>
      if n != names.pixel then None
      else (match PixelFromPayload(call.params)
            case Some(k) => Some(SendPixelIntent(k))
            case None => None)
    case Subscribe(n) => if n == UserValuesChanged then Some(WatchValues) else None
    case _ => None
  }

  /** `setUserValues(userValues)`: a request that stores the given values. */
  function SetUserValues<D>(names: MessageNames, userValues: D): (c: MessagingCall<D>)
    ensures c.Request? && IntentOf(names, c) == Some(StoreValues(userValues))
  {
    Request(names.setValues, Values(userValues))
  }

  /** `getUserValues()`: a request, with the empty object, that reads the values. */
  function GetUserValues<D>(names: MessageNames): (c: MessagingCall<D>)
    ensures c.Request? && IntentOf(names, c) == Some(ReadValues)
  {
    Request(names.readValues, EmptyObject)
  }

  /** `openInDuckPlayerViaMessage(params)`: a notification carrying the href. */
  function OpenInDuckPlayerViaMessage<D>(names: MessageNames, href: string): (c: MessagingCall<D>)
    ensures c.Notify? && IntentOf(names, c) == Some(OpenPlayerAt(href))
  {
    Notify(names.openPlayer, OpenPlayer(href))
  }

  /** `onUserValuesChanged(cb)`: a subscription to user-value changes. */
  function OnUserValuesChanged<D>(): (c: MessagingCall<D>)
    ensures c.Subscribe? && forall names: MessageNames :: IntentOf(names, c) == Some(WatchValues)
  {
    Subscribe(UserValuesChanged)
  }

  /** `assertCustomEvent`: the event must have a `detail` whose `kind` is a
      string; on success, that kind and the detail's data. A `null` detail
      makes reading `detail.kind` throw. */
  function AssertCustomEvent<D>(evt: IncomingEvent<D>): (r: Result<(string, D)>)
    ensures r.Ok? <==> evt.detail.DetailObject? && evt.detail.kind.StringKind?
    ensures r.Ok? ==> r.value == (evt.detail.kind.s, evt.detail.data)
  {
    match evt.detail
    case NoDetail => Err("none-custom event")
    case NullDetail => Err("TypeError: cannot read detail.kind")
    case DetailObject(NonStringKind, _) => Err("custom event requires detail.kind to be a string")
    case DetailObject(StringKind(kind), data) => Ok((kind, data))
  }

  /** The listener `serpProxy` installs for events from the search page: the
      calls it makes. Validation errors are caught and only logged. */
  function HandleIncoming<D>(names: MessageNames, evt: IncomingEvent<D>): (calls: seq<MessagingCall<D>>)
    ensures AssertCustomEvent(evt).Err? ==> calls == []
    ensures evt.detail.DetailObject? && evt.detail.kind == StringKind(names.setValues) ==>
            SetUserValues(names, evt.detail.data) in calls
    ensures evt.detail.DetailObject? && evt.detail.kind == StringKind(names.readValues) ==>
            GetUserValues(names) in calls
    ensures forall c :: c in calls ==>
            evt.detail.DetailObject? &&
            ((evt.detail.kind == StringKind(names.setValues) && c == SetUserValues(names, evt.detail.data)) ||
             (evt.detail.kind == StringKind(names.readValues) && c == GetUserValues(names)))
    ensures AssertCustomEvent(evt).Ok? ==>
            |calls| == (if evt.detail.kind == StringKind(names.setValues) then 1 else 0) +
                       (if evt.detail.kind == StringKind(names.readValues) then 1 else 0)
    ensures |calls| == 2 ==> calls == [SetUserValues(names, evt.detail.data), GetUserValues(names)]
  {
    match AssertCustomEvent(evt)
    case Err(_) => []
    case Ok((kind, data)) =>
      (if kind == names.setValues then [SetUserValues(names, data)] else []) +
      (if kind == names.readValues then [GetUserValues(names)] else [])
  }

  /** With distinct set and read names, a valid event of the set kind issues
      exactly `setUserValues(detail.data)`, one of the read kind exactly
      `getUserValues()`, and any other event, valid or not, issues nothing. */
  lemma IncomingRouting<D>(names: MessageNames, evt: IncomingEvent<D>)
    requires names.setValues != names.readValues
    ensures var calls := HandleIncoming(names, evt);
            |calls| <= 1 &&
            (evt.detail.DetailObject? && evt.detail.kind == StringKind(names.setValues) ==>
               calls == [Request(names.setValues, Values(evt.detail.data))]) &&
            (evt.detail.DetailObject? && evt.detail.kind == StringKind(names.readValues) ==>
               calls == [Request(names.readValues, EmptyObject)]) &&
            (!(evt.detail.DetailObject? && evt.detail.kind in {StringKind(names.setValues), StringKind(names.readValues)}) ==>
               calls == [])
  {
  }

  /** `respond(kind, data)` with the push-data kind: the event sent back to the
      search page, under the proxy-response name; it passes `assertCustomEvent`
      and delivers the data unchanged. */
  function Respond<D>(names: MessageNames, data: D): (o: OutgoingEvent<D>)
    ensures o.name == names.proxyResponse
    ensures AssertCustomEvent(Received(o)) == Ok((names.pushData, data))
  {
    OutgoingEvent(names.proxyResponse, names.pushData, data)
  }

  /** A dispatched event as the search page receives it. */
  function Received<D>(o: OutgoingEvent<D>): IncomingEvent<D>
  {
    IncomingEvent(DetailObject(StringKind(o.kind), o.data))
  }

  /** What `serpProxy` sends back once a forwarded request settles: the
      updated values on success, nothing on failure (it is only logged). */
  function OnRequestSettled<D>(names: MessageNames, outcome: Result<D>): (r: Option<OutgoingEvent<D>>)
    ensures r.Some? <==> outcome.Ok?
  {
    match outcome
    case Ok(updated) => Some(Respond(names, updated))
    case Err(_) => None
  }

  /** Everything the overlay sends back to the search page passes the same
      validation it applies to incoming events, and carries the data unchanged. */
  lemma RespondPassesValidation<D>(names: MessageNames, outcome: Result<D>)
    ensures outcome.Ok? ==>
            AssertCustomEvent(Received(OnRequestSettled(names, outcome).value)) == Ok((names.pushData, outcome.value))
  {
  }
}

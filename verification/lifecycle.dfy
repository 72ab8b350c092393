/**
 The plugin's stages in the order the host runs them for one request: the
 first stage on arrival, the second after authentication, the route handler,
 and the third before the response goes out. A reply from a stage ends the
 request there; `Continue` hands it on.
 */
module Lifecycle {
  import opened Wrappers
  import opened MimeMatch
  import opened Http
  import opened MsgPackPlugin

  /** The request half: the first stage, then the second; their log events in order. */
  function BeforeHandler(cfg: Config, codec: Codec, req: Request): (s: Step)
    requires Registered(cfg)
    ensures s.outcome == Continue ==> !s.request.decodeAsMsgPack
    ensures s.outcome.Reply? ==> s.outcome.reply == BadRequest(BadMessagePackData)
    ensures |s.events| <= 1
  {
    var first := OnRequest(cfg, req);
    var second := OnPostAuth(codec, first.request);
    Step(second.request, first.events + second.events, second.outcome)
  }

  /** How a request ends: with a reply from a stage, or with the handler's response rendered by the host. */
  datatype Final = Replied(reply: Reply) | Rendered(response: Response)

  /**
   One whole request. The third stage reads the Accept header of the request
   as it arrived; the first stage rewrites only Content-Type.
   */
  function Exchange(cfg: Config, codec: Codec, req: Request, handler: Request -> Response): (f: Final)
    requires Registered(cfg)
    ensures BeforeHandler(cfg, codec, req).outcome.Reply? ==> f == Replied(BeforeHandler(cfg, codec, req).outcome.reply)
    ensures BeforeHandler(cfg, codec, req).outcome == Continue ==> (f.Rendered? <==> !WantsMimeType(cfg, req.headers))
    ensures f.Rendered? ==> f.response == handler(BeforeHandler(cfg, codec, req).request)
    ensures BeforeHandler(cfg, codec, req).outcome == Continue && f.Replied? ==>
              && f.reply.EncodedReply?
              && f.reply.payload == codec.encode(handler(BeforeHandler(cfg, codec, req).request).source)
              && f.reply.statusCode == handler(BeforeHandler(cfg, codec, req).request).statusCode
    ensures BeforeHandler(cfg, codec, req).outcome == Continue && f.Replied? ==>
              Reply(f.reply) == OnPreResponse(cfg, codec, req.headers, handler(BeforeHandler(cfg, codec, req).request))
  {
    var before := BeforeHandler(cfg, codec, req);
    if before.outcome.Reply? then
      Replied(before.outcome.reply)
    else
      var response := handler(before.request);
      match OnPreResponse(cfg, codec, req.headers, response)
      case Continue => Rendered(response)
      case Reply(r) => Replied(r)
  }

  /** The request the handler sees after a MessagePack body decoded to `value`. */
  function Decoded(req: Request, value: Json): Request
  {
    req.(headers := req.headers[ContentTypeHeader := OctetStream], payload := ValuePayload(value), decodeAsMsgPack := false)
  }

  /**
   A fresh request whose Content-Type matches and whose body is the encoding
   of `value` reaches the handler carrying exactly `value`, with no log event.
   */
  lemma EncodedBodyReachesHandler(cfg: Config, codec: Codec, req: Request, value: Json)
    requires Registered(cfg) && RoundTripsOn(codec, value)
    requires !req.decodeAsMsgPack
    requires ContainsIgnoringCase(ExecText(req.headers, ContentTypeHeader), cfg.mimeType)
    requires req.payload == BufferPayload(codec.encode(value))
    ensures BeforeHandler(cfg, codec, req) == Step(Decoded(req, value), [], Continue)
  {
  }

  /**
   A flagged request whose body does not decode is answered 400 "Bad
   messagepack data" with one error event; the decode flag stays set. When
   the Accept header does not ask for the configured type, that 400 is how
   the request ends.
   */
  lemma CorruptBodyRejected(cfg: Config, codec: Codec, req: Request, handler: Request -> Response)
    requires Registered(cfg)
    requires ContainsIgnoringCase(ExecText(req.headers, ContentTypeHeader), cfg.mimeType)
    requires req.payload.BufferPayload? && codec.decode(req.payload.bytes).Failure?
    ensures BeforeHandler(cfg, codec, req).outcome == Reply(ErrorReply(400, "Bad Request", "Bad messagepack data"))
    ensures BeforeHandler(cfg, codec, req).events == [LogEvent(["error", "msgpack", "decode"], DecodeFailedMessage)]
    ensures BeforeHandler(cfg, codec, req).request.decodeAsMsgPack
    ensures !WantsMimeType(cfg, req.headers) ==>
              Exchange(cfg, codec, req, handler) == Replied(BadRequest(BadMessagePackData))
  {
  }

  /**
   A flagged request without a Buffer body (an empty POST, say) goes on to
   the handler with its payload as the host left it, a warning event logged
   and the flag cleared; rejecting it is left to the route's own validation.
   */
  lemma MissingBodyWarns(cfg: Config, codec: Codec, req: Request)
    requires Registered(cfg)
    requires ContainsIgnoringCase(ExecText(req.headers, ContentTypeHeader), cfg.mimeType)
    requires !req.payload.BufferPayload?
    ensures BeforeHandler(cfg, codec, req).outcome == Continue
    ensures BeforeHandler(cfg, codec, req).request.payload == req.payload
    ensures BeforeHandler(cfg, codec, req).events == [LogEvent(["warning", "msgpack", "decode"], NotABufferMessage)]
  {
  }

  /** A fresh request whose Content-Type does not match passes both request stages untouched and unlogged. */
  lemma OtherContentUntouched(cfg: Config, codec: Codec, req: Request)
    requires Registered(cfg)
    requires !req.decodeAsMsgPack
    requires !ContainsIgnoringCase(ExecText(req.headers, ContentTypeHeader), cfg.mimeType)
    ensures BeforeHandler(cfg, codec, req) == Step(req, [], Continue)
  {
  }

  /**
   MessagePack in, MessagePack out: with a round-tripping codec, a request
   whose Content-Type and Accept both match and whose body encodes `value`
   ends in an encoded reply that decodes to what the handler returned for
   `value`, with the handler's status code and headers and the configured
   Content-Type.
   */
  lemma MsgPackRoundTripExchange(cfg: Config, codec: Codec, req: Request, value: Json, handler: Request -> Response)
    requires Registered(cfg) && RoundTripsOn(codec, value) && RoundTripsOn(codec, handler(Decoded(req, value)).source)
    requires !req.decodeAsMsgPack
    requires ContainsIgnoringCase(ExecText(req.headers, ContentTypeHeader), cfg.mimeType)
    requires WantsMimeType(cfg, req.headers)
    requires req.payload == BufferPayload(codec.encode(value))
    ensures Exchange(cfg, codec, req, handler).Replied?
    ensures Exchange(cfg, codec, req, handler).reply.EncodedReply?
    ensures codec.decode(Exchange(cfg, codec, req, handler).reply.payload) == Success(handler(Decoded(req, value)).source)
    ensures Exchange(cfg, codec, req, handler).reply.statusCode == handler(Decoded(req, value)).statusCode
    ensures Exchange(cfg, codec, req, handler).reply.headers[ContentTypeHeader] == cfg.mimeType
    ensures forall k :: k in handler(Decoded(req, value)).headers && k != ContentTypeHeader ==>
                          Exchange(cfg, codec, req, handler).reply.headers[k] == handler(Decoded(req, value)).headers[k]
  {
  }

  /**
   MessagePack in, JSON out: without a matching Accept header the handler's
   response, computed from the decoded value, is left for the host to render.
   */
  lemma MsgPackInJsonOut(cfg: Config, codec: Codec, req: Request, value: Json, handler: Request -> Response)
    requires Registered(cfg) && RoundTripsOn(codec, value)
    requires !req.decodeAsMsgPack
    requires ContainsIgnoringCase(ExecText(req.headers, ContentTypeHeader), cfg.mimeType)
    requires !WantsMimeType(cfg, req.headers)
    requires req.payload == BufferPayload(codec.encode(value))
    ensures Exchange(cfg, codec, req, handler) == Rendered(handler(Decoded(req, value)))
  {
  }
}

/**
 The plugin: registration with its one option, and the three extension
 points it adds to the request lifecycle (on request, after authentication,
 before the response). Each extension point is a pure function of the
 registered configuration and the records it sees.
 */
module MsgPackPlugin {
  import opened Wrappers
  import opened MimeMatch
  import opened Http

  const DefaultMimeType: string := "application/x-msgpack"
  const OctetStream: string := "application/octet-stream"
  const ContentTypeHeader: string := "content-type"
  const AcceptHeader: string := "accept"

  const BadMessagePackData: string := "Bad messagepack data"
  const ErrorTags: seq<string> := ["error", "msgpack", "decode"]
  const WarningTags: seq<string> := ["warning", "msgpack", "decode"]
  const DecodeFailedMessage: string := "Failed to decode response payload"
  const NotABufferMessage: string := "Did not decode response because payload was not a Buffer"

  /** The plugin's options object; `mimeType` is its only key. */
  datatype PluginOptions = PluginOptions(mimeType: Option<string>)

  /** The configuration fixed at registration: the mime type, its pattern source and its compiled matcher. */
  datatype Config = Config(mimeType: string, pattern: string, matcher: seq<Atom>)

  /** The matcher is the one compiled from the configured mime type: the two never diverge. */
  predicate Registered(cfg: Config)
  {
    cfg.pattern == PatternSource(cfg.mimeType) && cfg.matcher == Compile(cfg.pattern)
  }

  /**
   Registration: a missing options object or a missing `mimeType` key gives
   the default mime type; a supplied string replaces it, and the matcher is
   compiled from whichever was chosen.
   */
  function Register(options: Option<PluginOptions>): (cfg: Config)
    ensures Registered(cfg)
    ensures options.None? ==> cfg.mimeType == DefaultMimeType
    ensures options.Some? && options.value.mimeType.None? ==> cfg.mimeType == DefaultMimeType
    ensures options.Some? && options.value.mimeType.Some? ==> cfg.mimeType == options.value.mimeType.value
  {
    var mime := if options.Some? && options.value.mimeType.Some? then options.value.mimeType.value else DefaultMimeType;
    Config(mime, PatternSource(mime), Compile(PatternSource(mime)))
  }

  /** A registered configuration's matcher accepts exactly the texts containing its mime type, ignoring case. */
  lemma RegisteredMatcher(cfg: Config, text: string)
    requires Registered(cfg)
    ensures Matches(cfg.matcher, text) <==> ContainsIgnoringCase(text, cfg.mimeType)
  {
    CompiledMatcherIsSubstringTest(cfg.mimeType, text);
  }

  /**
   The match is a substring test, not media-type parsing: the configured
   type with anything before or after it matches, parameters such as
   `; charset=utf-8`, other entries of an Accept list, or a longer type name
   such as `application/x-msgpack-other`.
   */
  lemma MatchesWithin(cfg: Config, before: string, after: string)
    requires Registered(cfg)
    ensures Matches(cfg.matcher, before + cfg.mimeType + after)
  {
    RegisteredMatcher(cfg, before + cfg.mimeType + after);
    ContainsWithin(before, cfg.mimeType, after);
  }

  /**
   The text the first stage's match sees for a header: its value, or, when
   the header is absent, the text "undefined" (what a JavaScript regular
   expression tests when handed an undefined value).
   */
  function ExecText(headers: Headers, name: string): string
  {
    if name in headers then headers[name] else "undefined"
  }

  /**
   First stage, on request: a request whose Content-Type matches is flagged
   for decoding and its Content-Type is disguised as an octet stream; any
   other request is left alone. It always continues and logs nothing.
   */
  function OnRequest(cfg: Config, req: Request): (s: Step)
    requires Registered(cfg)
    ensures s.outcome == Continue && s.events == []
    ensures ContainsIgnoringCase(ExecText(req.headers, ContentTypeHeader), cfg.mimeType) ==>
              && s.request.decodeAsMsgPack
              && s.request.headers == req.headers[ContentTypeHeader := OctetStream]
              && s.request.payload == req.payload
    ensures !ContainsIgnoringCase(ExecText(req.headers, ContentTypeHeader), cfg.mimeType) ==> s.request == req
  {
    var text := ExecText(req.headers, ContentTypeHeader);
    RegisteredMatcher(cfg, text);
    if Matches(cfg.matcher, text) then
      Step(req.(decodeAsMsgPack := true, headers := req.headers[ContentTypeHeader := OctetStream]), [], Continue)
    else
      Step(req, [], Continue)
  }

  /**
   Second stage, after authentication: only a flagged request is touched. A
   Buffer payload is decoded; on success the decoded value replaces it and
   the flag is dropped, on failure an error event is logged and the request
   is answered with 400 Bad Request, the flag left in place. A payload that
   is not a Buffer is kept, with a warning event, and the flag is dropped.
   */
  function OnPostAuth(codec: Codec, req: Request): (s: Step)
    ensures s.request.headers == req.headers
    ensures !req.decodeAsMsgPack ==> s == Step(req, [], Continue)
    ensures s.outcome == Continue ==> !s.request.decodeAsMsgPack
    ensures s.outcome.Reply? <==>
              req.decodeAsMsgPack && req.payload.BufferPayload? && codec.decode(req.payload.bytes).Failure?
    ensures s.outcome.Reply? ==>
              && s.outcome.reply == BadRequest(BadMessagePackData)
              && s.events == [LogEvent(ErrorTags, DecodeFailedMessage)]
              && s.request == req
    ensures req.decodeAsMsgPack && req.payload.BufferPayload? && codec.decode(req.payload.bytes).Success? ==>
              && s.request.payload == ValuePayload(codec.decode(req.payload.bytes).value)
              && s.events == []
    ensures req.decodeAsMsgPack && !req.payload.BufferPayload? ==>
              && s.outcome == Continue
              && s.request.payload == req.payload
              && s.events == [LogEvent(WarningTags, NotABufferMessage)]
  {
    if !req.decodeAsMsgPack then
      Step(req, [], Continue)
    else
      match req.payload
      case BufferPayload(bytes) =>
        (match codec.decode(bytes)
         case Success(value) =>
           Step(req.(payload := ValuePayload(value), decodeAsMsgPack := false), [], Continue)
         case Failure(_) =>
           Step(req, [LogEvent(ErrorTags, DecodeFailedMessage)], Reply(BadRequest(BadMessagePackData))))
      case _ =>
        Step(req.(decodeAsMsgPack := false), [LogEvent(WarningTags, NotABufferMessage)], Continue)
  }

  /** The client asked for the configured type: an Accept header that is present, non-empty and matches. */
  predicate WantsMimeType(cfg: Config, rawHeaders: Headers)
  {
    && AcceptHeader in rawHeaders
    && rawHeaders[AcceptHeader] != ""
    && ContainsIgnoringCase(rawHeaders[AcceptHeader], cfg.mimeType)
  }

  /**
   Third stage, before the response: when the raw request's Accept header
   asks for the configured type, the response is replaced by the encoded
   source, with its byte count, its status code and every header of the
   original, Content-Type then forced to the configured type. Otherwise the
   lifecycle continues with the response unchanged.
   */
  function OnPreResponse(cfg: Config, codec: Codec, rawHeaders: Headers, response: Response): (r: Outcome)
    requires Registered(cfg)
    ensures r.Reply? <==> WantsMimeType(cfg, rawHeaders)
    ensures r.Reply? ==>
              && r.reply.EncodedReply?
              && r.reply.payload == codec.encode(response.source)
              && r.reply.bytes == |r.reply.payload|
              && r.reply.statusCode == response.statusCode
              && r.reply.headers.Keys == response.headers.Keys + {ContentTypeHeader}
              && r.reply.headers[ContentTypeHeader] == cfg.mimeType
              && forall k :: k in response.headers && k != ContentTypeHeader ==>
                               r.reply.headers[k] == response.headers[k]
  {
    if AcceptHeader in rawHeaders && rawHeaders[AcceptHeader] != "" then
      var accept := rawHeaders[AcceptHeader];
      RegisteredMatcher(cfg, accept);
      if Matches(cfg.matcher, accept) then
        var payload := codec.encode(response.source);
        // every original header is copied onto the replacement, key for key
        var headers := map k | k in response.headers :: response.headers[k];
        Reply(EncodedReply(payload, |payload|, response.statusCode, headers[ContentTypeHeader := cfg.mimeType]))
      else
        Continue
    else
      Continue
  }

  /**
   Replaying the first stage on its own output changes nothing, whatever the
   configured type: a request it left alone is left alone again, and on a
   request it disguised, setting the flag and the octet-stream Content-Type
   again writes the values already there.
   */
  lemma OnRequestIdempotent(cfg: Config, req: Request)
    requires Registered(cfg)
    ensures OnRequest(cfg, OnRequest(cfg, req).request) == OnRequest(cfg, req)
  {
  }

  /**
   The default mime type does not occur in the octet-stream marker, so under
   it a disguised request is not matched a second time.
   */
  lemma DefaultIgnoresOctetStream()
    ensures !ContainsIgnoringCase(OctetStream, DefaultMimeType)
  {
    NotContained(OctetStream, DefaultMimeType, [12, 0, 0, 0]);
  }

  /**
   An absent Content-Type is matched as the text "undefined": with the
   default type such a request is left alone, but a configured type that
   occurs in "undefined" flags it.
   */
  lemma AbsentContentType(cfg: Config, req: Request)
    requires Registered(cfg)
    requires ContentTypeHeader !in req.headers
    ensures cfg.mimeType == DefaultMimeType ==> OnRequest(cfg, req).request == req
    ensures cfg.mimeType == "defined" ==> OnRequest(cfg, req).request.decodeAsMsgPack
  {
    assert ExecText(req.headers, ContentTypeHeader) == "undefined";
    ContainsWithin("un", "defined", "");
    assert "un" + "defined" + "" == "undefined";
  }

  /**
   A metacharacter in the configured type is matched literally: with
   `application/x.msgpack` configured, `application/x-msgpack` (which the
   dot read as pattern syntax would match) does not match, while a header
   carrying the configured text with parameters after it does.
   */
  lemma MetacharactersAreLiteral(cfg: Config)
    requires Registered(cfg) && cfg.mimeType == "application/x.msgpack"
    ensures !Matches(cfg.matcher, "application/x-msgpack")
    ensures Matches(cfg.matcher, "application/x.msgpack; charset=utf-8")
  {
    RegisteredMatcher(cfg, "application/x-msgpack");
    NotContained("application/x-msgpack", cfg.mimeType, [13]);
    MatchesWithin(cfg, "", "; charset=utf-8");
    assert "" + cfg.mimeType + "; charset=utf-8" == "application/x.msgpack; charset=utf-8";
  }

  /** After the second stage continues, running it again is a no-op: the flag is gone. */
  lemma OnPostAuthReplayIsNoOp(codec: Codec, req: Request)
    requires OnPostAuth(codec, req).outcome == Continue
    ensures OnPostAuth(codec, OnPostAuth(codec, req).request) == Step(OnPostAuth(codec, req).request, [], Continue)
  {
  }

  /** When the codec round-trips the handler's value, the transcoded body decodes back to it. */
  lemma TranscodedBodyDecodes(cfg: Config, codec: Codec, rawHeaders: Headers, response: Response)
    requires Registered(cfg) && RoundTripsOn(codec, response.source)
    requires WantsMimeType(cfg, rawHeaders)
    ensures OnPreResponse(cfg, codec, rawHeaders, response).Reply?
    ensures codec.decode(OnPreResponse(cfg, codec, rawHeaders, response).reply.payload) == Success(response.source)
  {
  }
}

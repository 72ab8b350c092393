/**
 The request and response records the plugin's three extension points see,
 the log events they emit, the result each point hands back to the host,
 and the external MessagePack codec as a pair of function values.
 */
module Http {
  import opened Wrappers

  newtype byte = b: int | 0 <= b < 256

  type Bytes = seq<byte>

  /** Header names (as the host stores them, lower-case) to values. */
  type Headers = map<string, string>

  /** The structured values a handler produces and a decoder returns. */
  datatype Json =
    | Null
    | Bool(b: bool)
    | Num(n: int)
    | Str(s: string)
    | Arr(items: seq<Json>)
    | Obj(fields: seq<(string, Json)>)

  /** What the host left as the request payload: nothing, a raw Buffer, or a parsed value. */
  datatype Payload = NoPayload | BufferPayload(bytes: Bytes) | ValuePayload(value: Json)

  /** A request: its headers, the decode flag set by the first stage, and its payload. */
  datatype Request = Request(headers: Headers, decodeAsMsgPack: bool, payload: Payload)

  /** The response the handler (or the host) produced, before the last stage. */
  datatype Response = Response(source: Json, statusCode: int, headers: Headers)

  /** A request log event: its tags and its message. */
  datatype LogEvent = LogEvent(tags: seq<string>, data: string)

  /** A response an extension point replies with in place of the host's. */
  datatype Reply =
    | ErrorReply(statusCode: int, error: string, message: string)
    | EncodedReply(payload: Bytes, bytes: nat, statusCode: int, headers: Headers)

  /** An extension point either lets the lifecycle continue or replies. */
  datatype Outcome = Continue | Reply(reply: Reply)

  /** What one extension point returns: the request as it leaves it, its log events, its outcome. */
  datatype Step = Step(request: Request, events: seq<LogEvent>, outcome: Outcome)

  /** The external MessagePack library: `encode` is total, `decode` can fail. */
  datatype Codec = Codec(encode: Json -> Bytes, decode: Bytes -> Result<Json, string>)

  /** Decoding the encoding of `v` gives `v` back: a per-value fact, stated only for the values a lemma needs. */
  predicate RoundTripsOn(codec: Codec, v: Json)
  {
    codec.decode(codec.encode(v)) == Success(v)
  }

  /** A Bad Request error with the given message. */
  function BadRequest(message: string): Reply
  {
    ErrorReply(400, "Bad Request", message)
  }
}

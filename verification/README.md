# hapi-msgpack, modelled in Dafny

hapi-msgpack is a hapi plugin. It lets clients send request bodies and
receive response bodies as MessagePack instead of JSON. It does this at three
extension points of each request's lifecycle:

- **onRequest**: a request whose `Content-Type` contains the configured mime
  type is flagged for decoding. Its `Content-Type` is rewritten to
  `application/octet-stream`, so that the host hands the body over as a raw
  Buffer instead of rejecting it.
- **onPostAuth**: a flagged request's Buffer payload is decoded into a value.
  A body that does not decode gets 400 "Bad messagepack data". A payload that
  is not a Buffer is only logged, with a warning.
- **onPreResponse**: when the incoming request's `Accept` header contains the
  mime type, the response is replaced by its MessagePack encoding. The status
  code and headers are kept, and `Content-Type` is forced to the mime type.

Matching is done by a regular expression. It is built from the mime type
after every metacharacter has been escaped, and it uses the case-insensitive
flag.

The model is pure and functional:

- `escape.dfy` (module `RegExpEscape`): the metacharacter escape as a
  function on `seq<char>`.
- `mime_match.dfy` (module `MimeMatch`): the compiled matcher. The pattern
  text `(<escaped>)` is parsed into atoms, literal characters or pattern
  syntax, and a match is a window of the header where every atom matches.
  The main theorem says this is exactly "the header contains the mime type as
  a substring, ignoring ASCII case". `FindLeftmost` is an executable search
  proved against it.
- `http.dfy` (module `Http`): immutable request, response and log records,
  the `Continue | Reply(...)` outcome, and the external MessagePack codec. The
  codec is a pair of function values: `encode` is total and `decode` returns
  a `Result`.
- `plugin.dfy` (module `MsgPackPlugin`): registration and the three stages.
  The configuration is an immutable value that carries its compiled matcher,
  and `Registered` states that the two agree.
- `lifecycle.dfy` (module `Lifecycle`): the stages composed in the host's
  order around a route handler, plus the request scenarios of the plugin's
  test suite.

Two details of the second stage are modelled as the code has them.

- The decode flag stays set on the 400 path: index.js:60 returns the reply
  before index.js:67 deletes the flag. `Lifecycle.CorruptBodyRejected`
  states this.
- Any Buffer, empty or not, goes to the decoder (index.js:55).

One quirk of the first stage is modelled as written. index.js:31 passes the
`Content-Type` value to `exec` without checking that the header is present.
JavaScript then tests the text `"undefined"`, so a configured type that occurs
in "undefined" (such as `defined`) flags requests that have no
`Content-Type`. `MsgPackPlugin.AbsentContentType` states both sides of this.

## Model

| member | source | states |
|---|---|---|
| RegExpEscape.Escape | index.js:18-20 | the escaped text is as long as the input plus the number of metacharacters in it |
| RegExpEscape.UnescapeEscape | index.js:18-20 | reading the escaped text back (a backslash followed by a character stands for that character) gives exactly the input |
| RegExpEscape.EscapeInPlace | index.js:18-20 | every input character appears in its own place between the escapes of what precedes and what follows it, either alone or, for a regular-expression metacharacter, after exactly one backslash |
| RegExpEscape.EscapeAppend | index.js:19 | the global replace acts character by character: escaping a concatenation gives the concatenation of the escapes |
| RegExpEscape.EscapeUnchangedIff | index.js:19 | the escape leaves a text unchanged if and only if the text has no metacharacter |
| MimeMatch.ParseAtoms | index.js:118 | reading a pattern body gives at most one atom per character; what the parse of an escaped type means is stated by MimeMatch.ParseEscape |
| MimeMatch.ParseEscape | index.js:118 | the escaped mime type parses to that mime type read literally, with no pattern syntax left |
| MimeMatch.CompilePattern | index.js:118 | the pattern `(<escaped mime>)` compiles to the mime type read literally |
| MimeMatch.LiteralMatches | index.js:118 | a literal pattern with the case-insensitive flag matches a text if and only if the text contains it, ignoring case |
| MimeMatch.CompiledMatcherIsSubstringTest | index.js:118 | the matcher built from any mime type matches a header if and only if the header contains the mime type as a substring, ignoring case |
| MimeMatch.ContainsIgnoresCase | index.js:118 | two headers that are equal up to letter case match exactly the same targets |
| MimeMatch.ContainsWithin | index.js:118 | a header with the target anywhere inside it, with any text before and after, matches |
| MimeMatch.FindLeftmost | index.js:31 | the search over the header finds a match if and only if the pattern matches, and the position it returns is a match with no match before it |
| MsgPackPlugin.Register | index.js:112-118 | with no options, or no `mimeType` key, the type is `application/x-msgpack`; a supplied string replaces it; the matcher is always the one compiled from the chosen type |
| MsgPackPlugin.RegisteredMatcher | index.js:117-118 | a registered configuration matches a text if and only if the text contains the configured type, ignoring case |
| MsgPackPlugin.MatchesWithin | index.js:118 | the configured type followed by parameters, inside an Accept list, or as the prefix of a longer type name still matches |
| MsgPackPlugin.OnRequest | index.js:28-41 | always continues and logs nothing; when the Content-Type contains the type, the flag is set and Content-Type becomes exactly `application/octet-stream` with the payload kept; otherwise the request is unchanged |
| MsgPackPlugin.OnRequestIdempotent | index.js:31-37 | for every configured type, running the first stage again on its own output changes nothing: setting the flag and the octet-stream Content-Type again rewrites the values already there |
| MsgPackPlugin.DefaultIgnoresOctetStream | index.js:10 | the default type does not occur in `application/octet-stream`, so under it a disguised request is not matched a second time |
| MsgPackPlugin.AbsentContentType | index.js:31 | a request with no Content-Type is matched as the text "undefined": it is untouched under the default type and flagged under the type `defined` |
| MsgPackPlugin.MetacharactersAreLiteral | index.js:18-20 | with `application/x.msgpack` configured, the dot is literal: `application/x-msgpack` does not match, `application/x.msgpack; charset=utf-8` does |
| MsgPackPlugin.OnPostAuth | index.js:49-71 | headers never change; an unflagged request continues unchanged with no log; a decodable Buffer becomes the decoded value with no log; a non-Buffer payload is kept with one warning event tagged `warning, msgpack, decode`; the stage replies (400 "Bad messagepack data", one error event tagged `error, msgpack, decode`, request and flag unchanged) if and only if the request is flagged and its Buffer fails to decode; whenever it continues, the flag is clear |
| MsgPackPlugin.OnPostAuthReplayIsNoOp | index.js:52-67 | after the second stage continues, running it again changes nothing and logs nothing |
| MsgPackPlugin.OnPreResponse | index.js:79-103 | replies if and only if the raw Accept header is present, non-empty and contains the type; the reply body is the encoding of the response source, its byte count is the body's length, and its status code is the original one; every original header is kept, and Content-Type is the configured type even if the original set one |
| MsgPackPlugin.TranscodedBodyDecodes | index.js:85-86 | when the codec round-trips the handler's source value, the transcoded body decodes back to that value |
| Lifecycle.BeforeHandler | index.js:121-127 | onRequest then onPostAuth: when the request reaches the handler the flag is clear; the only reply is 400 "Bad messagepack data"; at most one log event |
| Lifecycle.Exchange | index.js:121-130 | a reply from the request stages ends the exchange as that reply; otherwise the handler's response for the request the stages produced is left to the host if and only if the Accept header does not ask for the configured type, and else is replaced by exactly the third stage's reply for it: its encoding, the byte count, its status code, its headers and the configured Content-Type |
| Lifecycle.EncodedBodyReachesHandler | test/plugin-test.js:182-203 | a fresh matching request whose body encodes a value the codec round-trips reaches the handler carrying exactly that value, with Content-Type disguised, flag clear and no log event |
| Lifecycle.CorruptBodyRejected | test/plugin-test.js:231-263 | a matching request with a body that fails to decode is answered 400 "Bad messagepack data" by the request stages, with one error event and the flag still set; when its Accept header does not ask for the configured type, that 400 ends the exchange whatever the route handler is |
| Lifecycle.MissingBodyWarns | test/plugin-test.js:265-296 | a matching request without a Buffer body continues with its payload unchanged and one warning event |
| Lifecycle.OtherContentUntouched | test/plugin-test.js:160-180 | a fresh request whose Content-Type does not match passes both request stages unchanged and unlogged |
| Lifecycle.MsgPackRoundTripExchange | test/plugin-test.js:205-229 | MessagePack in and out: when the codec round-trips the request value and the handler's output, the reply decodes to the handler's output for the decoded value; status code and handler headers are kept and Content-Type is the configured type |
| Lifecycle.MsgPackInJsonOut | test/plugin-test.js:182-203 | MessagePack in, JSON out: when the codec round-trips the request value and the Accept header does not ask for the configured type, the handler's response for the decoded value is rendered by the host |

## Left out

- MessagePack encoding and decoding (index.js:3, 57, 85): `msgpack-lite` is an external library. The codec is a parameter. No round-trip law is assumed for the codec as a whole: a lemma that needs decoding to undo encoding takes that fact as a precondition for the particular values it is about (`RoundTripsOn(codec, v)`).
- Option validation (index.js:115-116): Joi's rejection of non-string or empty `mimeType` values and the failing `Hoek.assert` are not modelled. The option is a string or missing. An empty type would match every header.
- Case folding: the `i` flag's Unicode case folding is modelled as ASCII lower-casing.
- MimeMatch.Matches: pattern-syntax atoms are given no matching power. Only pattern texts that were not produced by the escape contain them.
- Host plumbing: `server.ext` registration (index.js:121-130) appears only as the stage order in `Lifecycle`. `reply.continue()` and the reply interface appear only as `Continue`/`Reply`. `.encoding('hex')` (index.js:88) and `register.attributes` (index.js:135-138) are not modelled.
- MsgPackPlugin.OnPreResponse: the byte count of `.bytes()` is kept as a field of the reply. The host's storage of it as a `content-length` header, which a copied original header of that name could overwrite, is not modelled.
- Header names are used as exact map keys (`content-type`, `accept`). The host's lower-casing of header names is not modelled, and neither is header order.
- Lifecycle.Exchange: a stage-2 error reply ends the exchange directly. The host's error rendering, and the third stage running on a Boom error response, are not modelled.
- CorruptBodyRejected: promises the 400 ending only when the Accept header does not ask for the configured type. With a matching Accept the third stage (index.js:82-95) runs on the Boom error response, whose `source`, `statusCode` and `headers` are not modelled.
- Configuration is fixed per registration. The code keeps the mime type and matcher in module globals (index.js:10-11), and every `register` call overwrites them (index.js:117-118). A second registration in the same process therefore changes the type and matcher used by an earlier server's stages, including the forced Content-Type (index.js:98). The model does not capture that sharing.
- Boom errors are modelled only as status 400, error "Bad Request" and the message text.
- Logging: events are returned as a list. The `request.log` emitter and the test's `request` event listener are not modelled.
- Json numbers are integers; floating point is not modelled.
- Server start/stop and HTTP transport are not modelled.
- Body parsing by the host between the first and second stages is not modelled. The request's payload stands for what the host hands the second stage: a Buffer for a disguised request only because its Content-Type is then `application/octet-stream`. `Lifecycle.BeforeHandler` passes the payload from the first stage to the second unchanged.

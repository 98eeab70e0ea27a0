/** The shapes the HTTP handlers exchange with their runtime: the incoming
    request, the application settings, the outbound calls' answers and the
    reply the handler assigns to `context.res`. */
module Http {
  import opened JsStrings
  import opened Json
  import opened Maybe

  /** Query-string parameters; a missing one reads as `undefined`. */
  type Query = map<String, String>

  /** Application settings (`process.env`). */
  type Env = map<String, String>

  /** `req.body`: absent, a raw `Buffer`, or a value parsed from a JSON or
      text request. */
  datatype Body = NoBody | Bytes(data: seq<bv8>) | Parsed(value: Json)

  datatype Request = Request(query: Query, headers: map<String, String>, body: Body)

  /** `req.query?.key` */
  function QueryParam(q: Query, key: String): (r: Json)
    ensures key in q ==> r == Str(q[key])
    ensures key !in q ==> r == Undefined
  {
    if key in q then Str(q[key]) else Undefined
  }

  /** Whether `req.body` is truthy; a `Buffer` is an object, so always. */
  predicate BodyTruthy(b: Body) {
    match b
    case NoBody => false
    case Bytes(_) => true
    case Parsed(v) => Truthy(v)
  }

  /** `req.body?.key`: a `Buffer` has none of the keys the handlers read. */
  function BodyField(b: Body, key: String): (r: Json)
    ensures !b.Parsed? ==> r == Undefined
    ensures b.Parsed? ==> r == Get(b.value, key)
  {
    match b
    case Parsed(v) => Get(v, key)
    case _ => Undefined
  }

  /** `process.env[name] || fallback`: an unset or empty setting takes the
      fallback. */
  function EnvOr(env: Env, name: String, fallback: String): (r: String)
    ensures name in env && env[name] != [] ==> r == env[name]
    ensures !(name in env && env[name] != []) ==> r == fallback
  {
    if name in env && env[name] != [] then env[name] else fallback
  }

  /** What `fetch` gave back: an answer (status, body as text, the result of
      `JSON.parse` on that text when it parses, body as bytes), an answer
      whose body could not be read, or a rejected promise. */
  datatype Exchange =
    | Answer(status: int, text: String, json: Option<Json>, bytes: seq<bv8>)
    | BodyLost(status: int)
    | NetworkError

  /** `Response.ok` */
  predicate IsOk(status: int) {
    200 <= status <= 299
  }

  /** `try { data = JSON.parse(text) } catch { data = { raw: text } }` */
  function ParsedData(text: String, json: Option<Json>): (data: Json)
    ensures json.Some? ==> data == json.value
    ensures json.None? ==> data == Obj(map["raw" := Str(text)])
  {
    match json
    case Some(v) => v
    case None => Obj(map["raw" := Str(text)])
  }

  /** What the handler leaves in `context.res`. */
  datatype Reply =
      /** A JSON body with the given status. */
    | JsonReply(status: int, body: Json)
      /** Binary audio with its `Content-Type`. */
    | AudioReply(status: int, contentType: String, audio: seq<bv8>)
      /** The catch-all handler: status 500 and `{ error, detail: String(err) }`;
          the text of the caught error is not modelled. */
    | Crash(error: String)
      /** `context.res` was never assigned. */
    | NoReply

  /** A handler stage: go on with a value, or stop with a reply. */
  datatype Step<+T> = Proceed(value: T) | Stop(reply: Reply)

  /** `{ error, detail }` */
  function ErrorBody(error: String, detail: String): (r: Json)
    ensures Get(r, "error") == Str(error) && Get(r, "detail") == Str(detail)
  {
    Pair("error", Str(error), "detail", Str(detail))
  }

  /** The `error` code of a reply that carries one. */
  function ErrorCode(r: Reply): Option<String> {
    match r
    case JsonReply(_, body) => if Get(body, "error").Str? then Some(Get(body, "error").s) else None
    case Crash(e) => Some(e)
    case _ => None
  }

  /** The status a reply sends; the runtime's default for an unassigned
      reply is not modelled. */
  function StatusOf(r: Reply): Option<int> {
    match r
    case JsonReply(s, _) => Some(s)
    case AudioReply(s, _, _) => Some(s)
    case Crash(_) => Some(500)
    case NoReply => None
  }
}

/** The translation handler: the endpoint setting, the `to` and `text`
    parameters, the request payload, and the normalisation of the
    translator's answer. */
module Translate {
  import opened JsStrings
  import opened Maybe
  import opened Json
  import opened Http

  /** `s.replace(/\/$/, "")`: at most one trailing `/` is removed. */
  function StripTrailingSlash(s: String): (r: String)
    ensures r == s || r + "/" == s
    ensures |r| > 0 ==> r[|r| - 1] != '/' || r + "/" == s
    ensures r == [] <==> s == [] || s == "/"
  {
    if |s| > 0 && s[|s| - 1] == '/' then s[..|s| - 1] else s
  }

  /** Only one slash goes: a doubled slash leaves one behind. */
  lemma StripOnlyOne(s: String)
    ensures StripTrailingSlash(s + "//") == s + "/"
    ensures StripTrailingSlash(s + "/") == s
  {
    assert (s + "//")[..|s| + 1] == s + "/";
    assert (s + "/")[..|s|] == s;
  }

  /** A setting without a trailing slash is kept as it is, and the same
      setting written with one trailing slash strips to it. */
  lemma StripKeepsBareEndpoint(s: String)
    requires s == [] || s[|s| - 1] != '/'
    ensures StripTrailingSlash(s) == s && StripTrailingSlash(s + "/") == s
  {
    assert (s + "/")[..|s|] == s;
  }

  /** `(req.body?.to || req.query?.to || "en").trim()`: a truthy value that is
      not a string has no `trim` and throws. */
  function TargetLanguage(req: Request): (r: Completion<String>)
    ensures !Truthy(BodyField(req.body, "to")) && !Truthy(QueryParam(req.query, "to")) ==> r == Returns("en")
    ensures !Truthy(BodyField(req.body, "to")) && Truthy(QueryParam(req.query, "to")) ==> r == Returns(Trim(req.query["to"]))
    ensures r.Throws? <==> Truthy(BodyField(req.body, "to")) && !BodyField(req.body, "to").Str?
    ensures BodyField(req.body, "to").Str? && Truthy(BodyField(req.body, "to")) ==> r == Returns(Trim(BodyField(req.body, "to").s))
  {
    var v := Or(Or(BodyField(req.body, "to"), QueryParam(req.query, "to")), Str("en"));
    TrimNoSpaceEnds("en");
    if v.Str? then Returns(Trim(v.s)) else Throws
  }

  /** `(req.body?.text || req.query?.text || "").toString()`: only a body
      value can fail to coerce. */
  function InputText(req: Request): (r: Completion<String>)
    ensures r.Throws? <==> ToStrThrows(BodyField(req.body, "text"))
    ensures Truthy(BodyField(req.body, "text")) && r.Returns? ==> r.value == ToStr(BodyField(req.body, "text"))
    ensures !Truthy(BodyField(req.body, "text")) && Truthy(QueryParam(req.query, "text")) ==> r == Returns(req.query["text"])
    ensures !Truthy(BodyField(req.body, "text")) && !Truthy(QueryParam(req.query, "text")) ==> r == Returns([])
  {
    Coerce(Or(Or(BodyField(req.body, "text"), QueryParam(req.query, "text")), Str("")))
  }

  /** `[{ text }]` */
  function Payload(text: String): (r: Json)
    ensures r.Arr? && |r.items| == 1
    ensures Get(First(r), "text") == Str(text) && First(r).fields.Keys == {"text"}
  {
    Arr([Obj(map["text" := Str(text)])])
  }

  /** What is posted to the translator: the stripped endpoint, the target
      language, the bearer token and the payload. */
  datatype TranslateCall = TranslateCall(endpoint: String, to: String, token: String, payload: Json)

  /** Lines 30-57 up to the translator call: a missing endpoint is reported
      first, then a `to` that cannot be trimmed or a text that cannot be
      coerced, then a missing text, and only then is the token requested
      (`None` when `getBearerToken` throws). */
  function TranslateRequest(env: Env, req: Request, token: Option<String>): (r: Step<TranslateCall>)
    ensures StripTrailingSlash(EnvOr(env, "TRANSLATOR_ENDPOINT", "")) == [] ==>
      r == Stop(JsonReply(500, ErrorBody("config", "Missing TRANSLATOR_ENDPOINT")))
    ensures StripTrailingSlash(EnvOr(env, "TRANSLATOR_ENDPOINT", "")) != [] && (TargetLanguage(req).Throws? || InputText(req).Throws?) ==>
      r == Stop(Crash("translate_failed"))
    ensures StripTrailingSlash(EnvOr(env, "TRANSLATOR_ENDPOINT", "")) != [] && TargetLanguage(req).Returns? && InputText(req) == Returns([]) ==>
      r == Stop(JsonReply(400, ErrorBody("no_text", "Provide { text, to }")))
    ensures r.Proceed? <==>
      StripTrailingSlash(EnvOr(env, "TRANSLATOR_ENDPOINT", "")) != [] && TargetLanguage(req).Returns? && InputText(req).Returns? && InputText(req).value != [] && token.Some?
    ensures r.Proceed? ==>
      r.value == TranslateCall(StripTrailingSlash(EnvOr(env, "TRANSLATOR_ENDPOINT", "")), TargetLanguage(req).value, token.value, Payload(InputText(req).value))
  {
    var endpoint := StripTrailingSlash(EnvOr(env, "TRANSLATOR_ENDPOINT", ""));
    if endpoint == [] then Stop(JsonReply(500, ErrorBody("config", "Missing TRANSLATOR_ENDPOINT")))
    else
      match (TargetLanguage(req), InputText(req))
      case (Returns(to), Returns(text)) =>
        if text == [] then Stop(JsonReply(400, ErrorBody("no_text", "Provide { text, to }")))
        else
          (match token
           case None => Stop(Crash("translate_failed"))
           case Some(t) => Proceed(TranslateCall(endpoint, to, t, Payload(text))))
      case _ => Stop(Crash("translate_failed"))
  }

  /** Lines 63-66: `data[0].translations[0].text` when `data` is an array and
      that is truthy, else `data.translatedText` if truthy, else `null`;
      reading a field of a `null` answer throws. */
  function TranslatedTextOf(data: Json): (r: Completion<Json>)
    ensures r.Throws? <==> IsNullish(data)
    ensures data.Arr? && Truthy(Get(First(Get(First(data), "translations")), "text")) ==>
      r == Returns(Get(First(Get(First(data), "translations")), "text"))
    ensures r.Returns? && !(data.Arr? && Truthy(Get(First(Get(First(data), "translations")), "text"))) && Truthy(Get(data, "translatedText")) ==>
      r.value == Get(data, "translatedText")
    ensures r.Returns? && !(data.Arr? && Truthy(Get(First(Get(First(data), "translations")), "text"))) && !Truthy(Get(data, "translatedText")) ==>
      r.value == Null
    ensures r.Returns? ==> Truthy(r.value) || r.value == Null
  {
    var nested := Get(First(Get(First(data), "translations")), "text");
    if data.Arr? && Truthy(nested) then Returns(nested)
    else if IsNullish(data) then Throws
    else Returns(Or(Get(data, "translatedText"), Null))
  }

  /** The translator's usual answer yields its first translation. */
  lemma FirstTranslationWins(text: String, rest: seq<Json>, more: seq<Json>)
    requires text != []
    ensures TranslatedTextOf(Arr([Obj(map["translations" := Arr([Obj(map["text" := Str(text)])] + rest)])] + more)) == Returns(Str(text))
  {
    var inner := Arr([Obj(map["text" := Str(text)])] + rest);
    assert First(inner) == Obj(map["text" := Str(text)]);
    var data := Arr([Obj(map["translations" := inner])] + more);
    assert First(data) == Obj(map["translations" := inner]);
  }

  /** `translatedText != null ? { translatedText, raw: data } : data` */
  function ShapeBody(translated: Json, data: Json): (r: Json)
    ensures translated != Null && translated != Undefined ==>
      r.Obj? && r.fields.Keys == {"translatedText", "raw"} && Get(r, "translatedText") == translated && Get(r, "raw") == data
    ensures translated == Null || translated == Undefined ==> r == data
  {
    if translated != Null && translated != Undefined then Pair("translatedText", translated, "raw", data) else data
  }

  /** Lines 59-71: the reply mirrors the translator's status; an answer whose
      body cannot be read, or that parses to `null`, ends in the generic
      failure. */
  function TranslateReply(answer: Exchange): (r: Reply)
    ensures !answer.Answer? ==> r == Crash("translate_failed")
    ensures answer.Answer? && IsNullish(ParsedData(answer.text, answer.json)) ==> r == Crash("translate_failed")
    ensures answer.Answer? && !IsNullish(ParsedData(answer.text, answer.json)) ==>
      r.JsonReply? && r.status == answer.status
  {
    match answer
    case Answer(status, text, json, _) =>
      var data := ParsedData(text, json);
      (match TranslatedTextOf(data)
       case Throws => Crash("translate_failed")
       case Returns(t) => JsonReply(status, ShapeBody(t, data)))
    case BodyLost(_) => Crash("translate_failed")
    case NetworkError => Crash("translate_failed")
  }

  /** A translated answer carries the raw data beside the text, and an
      answer without one is passed on unchanged. */
  lemma ReplyKeepsRawData(status: int, text: String, data: Json, bytes: seq<bv8>)
    requires !IsNullish(data)
    ensures var r := TranslateReply(Answer(status, text, Some(data), bytes));
      var t := TranslatedTextOf(data).value;
      r.JsonReply? && r.status == status &&
      (if Truthy(t) then r.body.Obj? && r.body.fields.Keys == {"translatedText", "raw"} && Get(r.body, "raw") == data && Get(r.body, "translatedText") == t
       else r.body == data)
  {
  }

  /** The whole handler. */
  function TranslateHandler(env: Env, req: Request, token: Option<String>, answer: Exchange): Reply {
    match TranslateRequest(env, req, token)
    case Stop(reply) => reply
    case Proceed(_) => TranslateReply(answer)
  }

  /** A non-string `to` fails the request even when the text is missing. */
  lemma TargetCheckedBeforeText(env: Env, q: Query, token: Option<String>, answer: Exchange)
    requires StripTrailingSlash(EnvOr(env, "TRANSLATOR_ENDPOINT", "")) != []
    ensures TranslateHandler(env, Request(q, map[], Parsed(Obj(map["to" := Num(1)]))), token, answer) == Crash("translate_failed")
  {
    NumericTargetThrows(q);
  }

  lemma NumericTargetThrows(q: Query)
    ensures TargetLanguage(Request(q, map[], Parsed(Obj(map["to" := Num(1)])))).Throws?
  {
    var body := Parsed(Obj(map["to" := Num(1)]));
    assert BodyField(body, "to") == Num(1);
    assert Truthy(BodyField(body, "to")) && !BodyField(body, "to").Str?;
  }

  /** An endpoint of a lone `/` counts as missing. */
  lemma SlashEndpointIsMissing(env: Env, req: Request, token: Option<String>, answer: Exchange)
    requires "TRANSLATOR_ENDPOINT" in env && env["TRANSLATOR_ENDPOINT"] == "/"
    ensures TranslateHandler(env, req, token, answer) == JsonReply(500, ErrorBody("config", "Missing TRANSLATOR_ENDPOINT"))
  {
  }

  /** A text object with its own `toString` has no callable `toString`, so
      the request fails before the token is requested. */
  lemma UncoercibleTextFails(env: Env, q: Query, v: Json, token: Option<String>, answer: Exchange)
    requires StripTrailingSlash(EnvOr(env, "TRANSLATOR_ENDPOINT", "")) != []
    ensures TranslateHandler(env, Request(q, map[], Parsed(Obj(map["text" := Obj(map["toString" := v])]))), token, answer) == Crash("translate_failed")
  {
    var body := Parsed(Obj(map["text" := Obj(map["toString" := v])]));
    assert BodyField(body, "text") == Obj(map["toString" := v]);
    assert BodyField(body, "to") == Undefined;
  }
}

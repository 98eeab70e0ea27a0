/** The identity-authenticated text-to-speech handler: `buildSsml`, the
    region, text and voice inputs, and the reply made of the speech
    service's answer. */
module TourTts {
  import opened JsStrings
  import opened Maybe
  import opened Json
  import opened Http
  import opened XmlEscape

  const DefaultVoice: String := "en-US-JennyNeural"
  const DefaultRegion: String := "eastus"

  const TourSsmlHead: String := "<?xml version=\"1.0\" encoding=\"UTF-8\"?>\n<speak version=\"1.0\" xml:lang=\"en-US\"><voice name=\""
  const TourSsmlTail: String := "</voice></speak>"

  /** `buildSsml(text, voice)`: `&`, `<` and `>` of the text are escaped,
      quotes are not; an empty voice takes the default. */
  function BuildSsml(text: String, voice: String): (r: String)
    ensures StartsWith(r, TourSsmlHead) && EndsWith(r, TourSsmlTail)
    ensures OccursAt(r, (if voice == [] then DefaultVoice else voice) + "\">", |TourSsmlHead|)
  {
    var safe := EscapeMarkup(text);
    var v := if voice == [] then DefaultVoice else voice;
    var r := TourSsmlHead + v + "\">" + safe + TourSsmlTail;
    assert r[..|TourSsmlHead|] == TourSsmlHead;
    assert r[|r| - |TourSsmlTail|..] == TourSsmlTail;
    assert r[|TourSsmlHead|..|TourSsmlHead| + |v + "\">"|] == v + "\">";
    r
  }

  /** The text segment of the document decodes back to the text, and holds
      no `<` or `>`. */
  lemma BuildSsmlTextSegment(text: String, voice: String)
    ensures var v := if voice == [] then DefaultVoice else voice;
      var doc := BuildSsml(text, voice);
      var seg := doc[|TourSsmlHead| + |v| + 2..|doc| - |TourSsmlTail|];
      Unescape(seg) == text && '<' !in seg && '>' !in seg
  {
    var v := if voice == [] then DefaultVoice else voice;
    var doc := BuildSsml(text, voice);
    assert doc == (TourSsmlHead + v + "\">") + EscapeMarkup(text) + TourSsmlTail;
    assert doc[|TourSsmlHead| + |v| + 2..|doc| - |TourSsmlTail|] == EscapeMarkup(text);
    UnescapeEscapeMarkup(text);
  }

  /** Unlike `escapeXml`, quotes in the text stay as they are. */
  lemma QuotesLeftAlone()
    ensures EscapeMarkup("\"'") == "\"'"
  {
  }

  // ---------------------------------------------------------------------------
  // The handler
  // ---------------------------------------------------------------------------

  /** `(req.body?.[name] || req.query?.[name] || fallback).toString()`:
      only a body value can fail to coerce. */
  function InputText(req: Request, name: String, fallback: String): (r: Completion<String>)
    ensures r.Throws? <==> ToStrThrows(BodyField(req.body, name))
    ensures Truthy(BodyField(req.body, name)) && r.Returns? ==> r.value == ToStr(BodyField(req.body, name))
    ensures !Truthy(BodyField(req.body, name)) && Truthy(QueryParam(req.query, name)) ==> r == Returns(req.query[name])
    ensures !Truthy(BodyField(req.body, name)) && !Truthy(QueryParam(req.query, name)) ==> r == Returns(fallback)
  {
    Coerce(Or(Or(BodyField(req.body, name), QueryParam(req.query, name)), Str(fallback)))
  }

  /** `(process.env.SPEECH_REGION || "eastus").trim()` */
  function Region(env: Env): (r: String)
    ensures !("SPEECH_REGION" in env && env["SPEECH_REGION"] != []) ==> r == DefaultRegion
    ensures "SPEECH_REGION" in env && env["SPEECH_REGION"] != [] ==> r == Trim(env["SPEECH_REGION"])
  {
    assert Trim(DefaultRegion) == DefaultRegion by { TrimNoSpaceEnds(DefaultRegion); }
    Trim(EnvOr(env, "SPEECH_REGION", DefaultRegion))
  }

  /** What is posted to the speech service. */
  datatype TourCall = TourCall(region: String, token: String, ssml: String)

  /** Lines 35-58 up to the service call: the text and the voice are
      both coerced first, and either failing ends in the catch-all reply;
      then an empty text is refused before any token is requested (`token`
      is `None` when `getBearerToken` throws). */
  function TourRequest(env: Env, req: Request, token: Option<String>): (r: Step<TourCall>)
    ensures InputText(req, "text", "").Throws? || InputText(req, "voice", DefaultVoice).Throws? ==> r == Stop(Crash("tts_failed"))
    ensures InputText(req, "text", "") == Returns([]) && InputText(req, "voice", DefaultVoice).Returns? ==>
      r == Stop(JsonReply(400, ErrorBody("no_text", "Provide { text, voice? }")))
    ensures InputText(req, "text", "").Returns? && InputText(req, "text", "").value != [] && token.None? ==> r == Stop(Crash("tts_failed"))
    ensures r.Proceed? <==>
      InputText(req, "text", "").Returns? && InputText(req, "text", "").value != [] && InputText(req, "voice", DefaultVoice).Returns? && token.Some?
    ensures r.Proceed? ==>
      r.value == TourCall(Region(env), token.value, BuildSsml(InputText(req, "text", "").value, InputText(req, "voice", DefaultVoice).value))
  {
    var region := Region(env);
    match (InputText(req, "text", ""), InputText(req, "voice", DefaultVoice))
    case (Returns(text), Returns(voice)) =>
      if text == [] then Stop(JsonReply(400, ErrorBody("no_text", "Provide { text, voice? }")))
      else
        (match token
         case None => Stop(Crash("tts_failed"))
         case Some(t) => Proceed(TourCall(region, t, BuildSsml(text, voice))))
    case _ => Stop(Crash("tts_failed"))
  }

  /** Lines 48-84 after the token: audio on success; a failed status with a
      readable body leaves the reply unassigned, because the body read does
      not fail and the handler only replies when the status is ok; a body
      that cannot be read sends the catch handler to `resp.text()` on a
      body already being read, which throws into the generic failure. */
  function TourReply(answer: Exchange): (r: Reply)
    ensures answer.Answer? && IsOk(answer.status) ==> r == AudioReply(200, "audio/mpeg", answer.bytes)
    ensures answer.Answer? && !IsOk(answer.status) ==> r == NoReply
    ensures !answer.Answer? ==> r == Crash("tts_failed")
  {
    match answer
    case NetworkError => Crash("tts_failed")
    case BodyLost(_) => Crash("tts_failed")
    case Answer(status, _, _, bytes) => if IsOk(status) then AudioReply(200, "audio/mpeg", bytes) else NoReply
  }

  /** The whole handler. */
  function TourHandler(env: Env, req: Request, token: Option<String>, answer: Exchange): Reply {
    match TourRequest(env, req, token)
    case Stop(reply) => reply
    case Proceed(_) => TourReply(answer)
  }

  /** A request without text, and with a voice that coerces, is answered
      400 whatever the token and the service would have done. */
  lemma NoTextBeforeToken(env: Env, req: Request, token: Option<String>, answer: Exchange)
    requires !Truthy(BodyField(req.body, "text")) && !Truthy(QueryParam(req.query, "text"))
    requires !ToStrThrows(BodyField(req.body, "voice"))
    ensures TourHandler(env, req, token, answer) == JsonReply(400, ErrorBody("no_text", "Provide { text, voice? }"))
  {
  }

  /** A text that is a truthy non-string coerces to its string form, which
      may be empty: `{ text: [] }` is refused like a missing text. */
  lemma EmptyArrayTextRefused(env: Env, q: Query, fields: map<String, Json>, token: Option<String>, answer: Exchange)
    requires "text" in fields && fields["text"] == Arr([])
    requires "voice" !in fields || !ToStrThrows(fields["voice"])
    ensures TourHandler(env, Request(q, map[], Parsed(Obj(fields))), token, answer) == JsonReply(400, ErrorBody("no_text", "Provide { text, voice? }"))
  {
    EmptyArraysCoerceToEmpty();
  }

  /** The voice is coerced before the text is checked: a voice object with
      its own `toString` fails the request even when the text is missing. */
  lemma VoiceCoercedBeforeTextCheck(env: Env, q: Query, v: Json, token: Option<String>, answer: Exchange)
    requires "text" !in q
    ensures TourHandler(env, Request(q, map[], Parsed(Obj(map["voice" := Obj(map["toString" := v])]))), token, answer) == Crash("tts_failed")
  {
    var body := Parsed(Obj(map["voice" := Obj(map["toString" := v])]));
    assert BodyField(body, "voice") == Obj(map["toString" := v]);
  }
}

/** The key-authenticated text-to-speech handler: settings check, the
    text, voice and format parameters, the SSML document it posts and the
    reply it makes of the speech service's answer. */
module SpeechTts {
  import opened JsStrings
  import opened Maybe
  import opened Json
  import opened Http
  import opened Seqs
  import opened XmlEscape

  const DefaultVoice: String := "en-US-JennyNeural"
  const DefaultFormat: String := "audio-24khz-160kbitrate-mono-mp3"

  // ---------------------------------------------------------------------------
  // Parameters
  // ---------------------------------------------------------------------------

  /** `(req.body && (req.body.text || req.body.ssmlText)) || req.query?.text || ""` */
  function TextParam(req: Request): (r: Json)
    ensures Truthy(BodyField(req.body, "text")) ==> r == BodyField(req.body, "text")
    ensures !Truthy(BodyField(req.body, "text")) && Truthy(BodyField(req.body, "ssmlText")) ==> r == BodyField(req.body, "ssmlText")
    ensures !Truthy(BodyField(req.body, "text")) && !Truthy(BodyField(req.body, "ssmlText")) ==> r == Or(QueryParam(req.query, "text"), Str(""))
  {
    var fromBody := if BodyTruthy(req.body) then Or(BodyField(req.body, "text"), BodyField(req.body, "ssmlText")) else Undefined;
    Or(fromBody, Or(QueryParam(req.query, "text"), Str("")))
  }

  /** `(req.body && req.body[name]) || req.query?.[name] || fallback`: the
      body wins over the query, and a missing or empty value takes the
      fallback. */
  function BodyThenQuery(req: Request, name: String, fallback: String): (r: Json)
    ensures Truthy(BodyField(req.body, name)) ==> r == BodyField(req.body, name)
    ensures !Truthy(BodyField(req.body, name)) && Truthy(QueryParam(req.query, name)) ==> r == QueryParam(req.query, name)
    ensures !Truthy(BodyField(req.body, name)) && !Truthy(QueryParam(req.query, name)) ==> r == Str(fallback)
  {
    var fromBody := if BodyTruthy(req.body) then BodyField(req.body, name) else Undefined;
    Or(fromBody, Or(QueryParam(req.query, name), Str(fallback)))
  }

  /** A request with neither voice nor format gets the documented defaults. */
  lemma DefaultsApply(req: Request)
    requires !Truthy(BodyField(req.body, "voice")) && !Truthy(QueryParam(req.query, "voice"))
    requires !Truthy(BodyField(req.body, "format")) && !Truthy(QueryParam(req.query, "format"))
    ensures ToStr(BodyThenQuery(req, "voice", DefaultVoice)) == "en-US-JennyNeural"
    ensures ToStr(BodyThenQuery(req, "format", DefaultFormat)) == "audio-24khz-160kbitrate-mono-mp3"
  {
  }

  // ---------------------------------------------------------------------------
  // The SSML document
  // ---------------------------------------------------------------------------

  const SsmlHead: String := "<?xml version=\"1.0\" encoding=\"utf-8\"?>\n<speak version=\"1.0\" xml:lang=\"en-US\">\n  <voice name=\""
  const SsmlMid: String := "\">"
  const SsmlTail: String := "</voice>\n</speak>"

  /** The template of lines 48-51: the voice goes into the `name` attribute
      as it is, only the text is escaped. */
  function Ssml(voice: String, text: String): (r: String)
    ensures StartsWith(r, SsmlHead) && EndsWith(r, SsmlTail)
    ensures OccursAt(r, voice + SsmlMid, |SsmlHead|)
  {
    var r := SsmlHead + (voice + SsmlMid + EscapeXml(text)) + SsmlTail;
    assert r[..|SsmlHead|] == SsmlHead;
    assert r[|r| - |SsmlTail|..] == SsmlTail;
    assert r[|SsmlHead|..|SsmlHead| + |voice + SsmlMid|] == voice + SsmlMid;
    r
  }

  /** Reads the voice and the decoded text back out of a document of the
      template's shape. */
  function ParseSsml(doc: String): Option<(String, String)> {
    if !(|SsmlHead| + |SsmlTail| <= |doc| && StartsWith(doc, SsmlHead) && EndsWith(doc, SsmlTail)) then None
    else
      var mid := doc[|SsmlHead|..|doc| - |SsmlTail|];
      var k := IndexOf(mid, '"');
      if k + 2 <= |mid| && mid[k..k + 2] == SsmlMid then Some((mid[..k], Unescape(mid[k + 2..])))
      else None
  }

  /** For a voice name without a double quote, the document determines the
      voice and the text exactly. */
  lemma SsmlRoundTrip(voice: String, text: String)
    requires '"' !in voice
    ensures ParseSsml(Ssml(voice, text)) == Some((voice, text))
  {
    SsmlMiddle(voice, text);
    MiddleSplitsAtQuote(voice, EscapeXml(text));
    UnescapeEscapeXml(text);
  }

  /** Between the fixed head and tail lies the voice, the middle piece and
      the escaped text. */
  lemma SsmlMiddle(voice: String, text: String)
    ensures var doc := Ssml(voice, text);
      |SsmlHead| + |SsmlTail| <= |doc| && doc[|SsmlHead|..|doc| - |SsmlTail|] == voice + SsmlMid + EscapeXml(text)
  {
    Seqs.MiddleOf(SsmlHead, voice + SsmlMid + EscapeXml(text), SsmlTail);
  }

  /** The first `"` of the middle ends a voice name that has none. */
  lemma MiddleSplitsAtQuote(voice: String, esc: String)
    requires '"' !in voice
    ensures var mid := voice + SsmlMid + esc;
      var k := IndexOf(mid, '"');
      k == |voice| && k + 2 <= |mid| && mid[k..k + 2] == SsmlMid && mid[..k] == voice && mid[k + 2..] == esc
  {
    var mid := voice + SsmlMid + esc;
    var k := IndexOf(mid, '"');
    assert mid[|voice|] == '"';
    assert k <= |voice|;
    assert forall i :: 0 <= i < |voice| ==> mid[i] == voice[i];
    assert mid[|voice|..|voice| + 2] == SsmlMid;
    assert mid[..|voice|] == voice;
    assert mid[|voice| + 2..] == esc;
  }

  /** Markup in the text never reaches the document unescaped. */
  lemma SsmlTextEscaped(voice: String, text: String)
    ensures var doc := Ssml(voice, text);
      doc[|SsmlHead| + |voice| + |SsmlMid|..|doc| - |SsmlTail|] == EscapeXml(text)
  {
    var doc := Ssml(voice, text);
    var esc := EscapeXml(text);
    Seqs.ConcatAssoc(SsmlHead, voice + SsmlMid + esc, SsmlTail);
    assert doc == SsmlHead + (voice + SsmlMid) + esc + SsmlTail;
    Seqs.MiddleOf(SsmlHead + (voice + SsmlMid), esc, SsmlTail);
  }

  // ---------------------------------------------------------------------------
  // Output format to content type
  // ---------------------------------------------------------------------------

  /** `/pcm|riff/i` first, then `/ogg/i`, else MP3. */
  function ContentTypeFor(format: String): (r: String)
    ensures r == "audio/wav" || r == "audio/ogg" || r == "audio/mpeg"
    ensures r == "audio/wav" <==> ContainsFolded(format, "pcm") || ContainsFolded(format, "riff")
    ensures r == "audio/ogg" <==> !ContainsFolded(format, "pcm") && !ContainsFolded(format, "riff") && ContainsFolded(format, "ogg")
  {
    if ContainsFolded(format, "pcm") || ContainsFolded(format, "riff") then "audio/wav"
    else if ContainsFolded(format, "ogg") then "audio/ogg"
    else "audio/mpeg"
  }

  /** The type depends on the format only up to ASCII case: lower-casing the
      format first changes nothing. */
  lemma ContentTypeIgnoresCase(format: String)
    ensures ContentTypeFor(Lower(format)) == ContentTypeFor(format)
  {
    LowerOfLowercase(Lower(format));
  }

  /** The default format is MP3. */
  lemma DefaultFormatIsMpeg()
    ensures ContentTypeFor(DefaultFormat) == "audio/mpeg"
  {
    DefaultFormatMatchesNone();
  }

  lemma DefaultFormatMatchesNone()
    ensures !ContainsFolded(DefaultFormat, "pcm")
    ensures !ContainsFolded(DefaultFormat, "riff")
    ensures !ContainsFolded(DefaultFormat, "ogg")
  {
    DefaultFormatLacksPcm();
    DefaultFormatLacksRiff();
    DefaultFormatLacksOgg();
  }

  lemma DefaultFormatLacksPcm()
    ensures !ContainsFolded(DefaultFormat, "pcm")
  {
    assert 'c' !in DefaultFormat && 'C' !in DefaultFormat;
    NotFoldedWithout(DefaultFormat, "pcm", 'c');
  }

  lemma DefaultFormatLacksRiff()
    ensures !ContainsFolded(DefaultFormat, "riff")
  {
    assert 'f' !in DefaultFormat && 'F' !in DefaultFormat;
    NotFoldedWithout(DefaultFormat, "riff", 'f');
  }

  lemma DefaultFormatLacksOgg()
    ensures !ContainsFolded(DefaultFormat, "ogg")
  {
    assert 'g' !in DefaultFormat && 'G' !in DefaultFormat;
    NotFoldedWithout(DefaultFormat, "ogg", 'g');
  }

  /** A RIFF format is WAV, in any case. */
  lemma RiffFormatIsWav()
    ensures ContentTypeFor("RIFF-24khz-16bit-mono-pcm") == "audio/wav"
  {
    var w := Lower("RIFF-24khz-16bit-mono-pcm");
    assert OccursAt(w, "riff", 0) by { assert w[0..4] == "riff"; }
  }

  /** An Ogg format is Ogg. */
  lemma OggFormatIsOgg()
    ensures ContentTypeFor("ogg-24khz-16bit-mono-opus") == "audio/ogg"
  {
    OggFormatLacksPcm();
    OggFormatLacksRiff();
    var o := Lower("ogg-24khz-16bit-mono-opus");
    assert OccursAt(o, "ogg", 0) by { assert o[0..3] == "ogg"; }
  }

  lemma OggFormatLacksPcm()
    ensures !ContainsFolded("ogg-24khz-16bit-mono-opus", "pcm")
  {
    assert 'c' !in "ogg-24khz-16bit-mono-opus" && 'C' !in "ogg-24khz-16bit-mono-opus";
    NotFoldedWithout("ogg-24khz-16bit-mono-opus", "pcm", 'c');
  }

  lemma OggFormatLacksRiff()
    ensures !ContainsFolded("ogg-24khz-16bit-mono-opus", "riff")
  {
    assert 'r' !in "ogg-24khz-16bit-mono-opus" && 'R' !in "ogg-24khz-16bit-mono-opus";
    NotFoldedWithout("ogg-24khz-16bit-mono-opus", "riff", 'r');
  }

  // ---------------------------------------------------------------------------
  // The handler
  // ---------------------------------------------------------------------------

  /** What is posted to the speech service. */
  datatype SpeechCall = SpeechCall(region: String, key: String, format: String, ssml: String)

  /** Whether the settings the handler needs are present. */
  predicate Configured(env: Env) {
    Trim(EnvOr(env, "SPEECH_REGION", "")) != [] && Trim(EnvOr(env, "SPEECH_KEY", "")) != []
  }

  /** Whether one of the coercions of lines 48-64 throws: the voice in the
      template, the text in `escapeXml`, or the format as a header value. */
  predicate CoercionFails(req: Request) {
    || ToStrThrows(BodyThenQuery(req, "voice", DefaultVoice))
    || ToStrThrows(TextParam(req))
    || ToStrThrows(BodyThenQuery(req, "format", DefaultFormat))
  }

  /** Lines 8-64 up to the service call: the settings are checked first,
      then the text; `String(x)` of the voice, text and format is what the
      template, `escapeXml` and the header see, and a value that cannot be
      coerced ends in the catch-all reply. */
  function SpeechRequest(env: Env, req: Request): (r: Step<SpeechCall>)
    ensures !Configured(env) ==> r == Stop(JsonReply(500, ErrorBody("config", "Missing SPEECH_REGION or SPEECH_KEY")))
    ensures Configured(env) && !Truthy(TextParam(req)) ==>
      r == Stop(JsonReply(400, ErrorBody("no_text", "Provide text in body { text } or ?text=")))
    ensures Configured(env) && Truthy(TextParam(req)) && CoercionFails(req) ==> r == Stop(Crash("tts_exception"))
    ensures r.Proceed? <==> Configured(env) && Truthy(TextParam(req)) && !CoercionFails(req)
    ensures r.Proceed? ==> r.value == SpeechCall(Trim(EnvOr(env, "SPEECH_REGION", "")), Trim(EnvOr(env, "SPEECH_KEY", "")),
      ToStr(BodyThenQuery(req, "format", DefaultFormat)), Ssml(ToStr(BodyThenQuery(req, "voice", DefaultVoice)), ToStr(TextParam(req))))
  {
    var region := Trim(EnvOr(env, "SPEECH_REGION", ""));
    var key := Trim(EnvOr(env, "SPEECH_KEY", ""));
    if region == [] || key == [] then
      Stop(JsonReply(500, ErrorBody("config", "Missing SPEECH_REGION or SPEECH_KEY")))
    else
      var text := TextParam(req);
      if !Truthy(text) then
        Stop(JsonReply(400, ErrorBody("no_text", "Provide text in body { text } or ?text=")))
      else
        match (Coerce(BodyThenQuery(req, "voice", DefaultVoice)), Coerce(text), Coerce(BodyThenQuery(req, "format", DefaultFormat)))
        case (Returns(voice), Returns(t), Returns(format)) => Proceed(SpeechCall(region, key, format, Ssml(voice, t)))
        case _ => Stop(Crash("tts_exception"))
  }

  /** Lines 66-103: a failed status becomes a JSON error that mirrors it,
      audio is sent with the type its format implies, and a rejected call
      or unreadable audio body is the generic failure. */
  function SpeechReply(call: SpeechCall, answer: Exchange): (r: Reply)
    ensures answer.NetworkError? ==> r == Crash("tts_exception")
    ensures answer.Answer? && IsOk(answer.status) ==> r == AudioReply(200, ContentTypeFor(call.format), answer.bytes)
    ensures !answer.NetworkError? && !IsOk(answer.status) ==>
      r.JsonReply? && r.status == answer.status && ErrorCode(r) == Some("tts_failed")
      && Get(r.body, "status") == Num(answer.status)
      && Get(r.body, "detail") == Str(if answer.Answer? then answer.text else "")
    ensures answer.BodyLost? && IsOk(answer.status) ==> r == Crash("tts_exception")
  {
    match answer
    case NetworkError => Crash("tts_exception")
    case BodyLost(status) =>
      if IsOk(status) then Crash("tts_exception") else FailedReply(status, "")
    case Answer(status, text, _, bytes) =>
      if IsOk(status) then AudioReply(200, ContentTypeFor(call.format), bytes) else FailedReply(status, text)
  }

  /** `{ error: "tts_failed", status, detail }` with the service's status. */
  function FailedReply(status: int, detail: String): (r: Reply)
    ensures r.JsonReply? && r.status == status && ErrorCode(r) == Some("tts_failed")
    ensures Get(r.body, "status") == Num(status) && Get(r.body, "detail") == Str(detail)
  {
    JsonReply(status, Obj(map["error" := Str("tts_failed"), "status" := Num(status), "detail" := Str(detail)]))
  }

  /** The whole handler. */
  function SpeechHandler(env: Env, req: Request, answer: Exchange): Reply {
    match SpeechRequest(env, req)
    case Stop(reply) => reply
    case Proceed(call) => SpeechReply(call, answer)
  }

  /** A missing text is reported before the service is called, whatever
      it would have answered. */
  lemma NoTextBeforeCall(env: Env, req: Request, answer: Exchange)
    requires Trim(EnvOr(env, "SPEECH_REGION", "")) != [] && Trim(EnvOr(env, "SPEECH_KEY", "")) != []
    requires !Truthy(TextParam(req))
    ensures SpeechHandler(env, req, answer) == JsonReply(400, ErrorBody("no_text", "Provide text in body { text } or ?text="))
  {
  }

  /** Missing settings are reported before a missing text. */
  lemma ConfigCheckedFirst(env: Env, req: Request, answer: Exchange)
    requires Trim(EnvOr(env, "SPEECH_REGION", "")) == []
    ensures ErrorCode(SpeechHandler(env, req, answer)) == Some("config")
    ensures StatusOf(SpeechHandler(env, req, answer)) == Some(500)
  {
  }

  /** A text object with its own `toString` cannot be escaped: the request
      fails before the service is called, whatever it would have answered. */
  lemma UncoercibleTextFails(env: Env, q: Query, v: Json, answer: Exchange)
    requires Configured(env)
    ensures SpeechHandler(env, Request(q, map[], Parsed(Obj(map["text" := Obj(map["toString" := v])]))), answer) == Crash("tts_exception")
  {
    var body := Parsed(Obj(map["text" := Obj(map["toString" := v])]));
    var req := Request(q, map[], body);
    assert BodyField(body, "text") == Obj(map["toString" := v]);
    assert TextParam(req) == Obj(map["toString" := v]);
    assert Truthy(TextParam(req)) && CoercionFails(req);
    assert SpeechRequest(env, req) == Stop(Crash("tts_exception"));
  }
}

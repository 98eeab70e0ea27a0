/** The speech-to-text handler: audio MIME guessing from a URL suffix, the
    choice between a posted audio body and an audio URL, the order of its
    checks, and the normalisation of the recogniser's answer. */
module Transcribe {
  import opened JsStrings
  import opened Maybe
  import opened Json
  import opened Http

  const DefaultAudioType: String := "audio/wav"

  // ---------------------------------------------------------------------------
  // pickAudioContentType
  // ---------------------------------------------------------------------------

  /** The suffixes recognised, each with its type, in the order tested. */
  const AudioSuffixes: seq<(String, String)> := [
    (".wav", "audio/wav"),
    (".mp3", "audio/mpeg"),
    (".ogg", "audio/ogg"),
    (".oga", "audio/ogg"),
    (".m4a", "audio/mp4"),
    (".flac", "audio/flac")
  ]

  /** `pickAudioContentType(url, fallback)`: the type of the first suffix the
      lower-cased URL ends with, else the fallback; an empty URL gets the
      fallback. */
  function PickAudioContentType(url: String, fallback: String): (r: String)
    ensures url == [] ==> r == fallback
    ensures r == fallback || exists k :: 0 <= k < |AudioSuffixes| && r == AudioSuffixes[k].1
    ensures (forall k :: 0 <= k < |AudioSuffixes| ==> !EndsWith(Lower(url), AudioSuffixes[k].0)) ==> r == fallback
  {
    if url == [] then fallback else TypeOfLowered(Lower(url), AudioSuffixes, fallback)
  }

  /** The suffix tests on an already lower-cased URL, in table order. */
  function TypeOfLowered(u: String, table: seq<(String, String)>, fallback: String): (r: String)
    ensures r == fallback || exists k :: 0 <= k < |table| && r == table[k].1
    ensures (forall k :: 0 <= k < |table| ==> !EndsWith(u, table[k].0)) ==> r == fallback
  {
    if table == [] then fallback
    else if EndsWith(u, table[0].0) then table[0].1
    else
      var r := TypeOfLowered(u, table[1..], fallback);
      assert r != fallback ==> exists k :: 0 <= k < |table| && r == table[k].1 by {
        if r != fallback {
          var k :| 0 <= k < |table[1..]| && r == table[1..][k].1;
          assert r == table[k + 1].1;
        }
      }
      r
  }

  /** The first matching entry decides. */
  lemma {:induction false} FirstMatchDecides(u: String, table: seq<(String, String)>, fallback: String, k: nat)
    requires k < |table| && EndsWith(u, table[k].0)
    requires forall j :: 0 <= j < k ==> !EndsWith(u, table[j].0)
    ensures TypeOfLowered(u, table, fallback) == table[k].1
    decreases k
  {
    if k > 0 {
      assert !EndsWith(u, table[0].0);
      FirstMatchDecides(u, table[1..], fallback, k - 1);
    }
  }

  /** Two suffixes a string ends with agree on their last two characters. */
  lemma SameLastTwo(u: String, a: String, b: String)
    requires |a| >= 2 && |b| >= 2 && EndsWith(u, a) && EndsWith(u, b)
    ensures a[|a| - 1] == b[|b| - 1] && a[|a| - 2] == b[|b| - 2]
  {
    assert a[|a| - 1] == u[|u| - 1] == b[|b| - 1];
    assert a[|a| - 2] == u[|u| - 2] == b[|b| - 2];
  }

  /** The last two characters tell the suffixes apart. */
  function SuffixKey(i: nat): (char, char)
    requires i < |AudioSuffixes|
  {
    var e := AudioSuffixes[i].0;
    (e[|e| - 2], e[|e| - 1])
  }

  lemma SuffixKeysDistinct()
    ensures forall i, j :: 0 <= i < j < |AudioSuffixes| ==> SuffixKey(i) != SuffixKey(j)
  {
    assert SuffixKey(0) == ('a', 'v') && SuffixKey(1) == ('p', '3') && SuffixKey(2) == ('g', 'g');
    assert SuffixKey(3) == ('g', 'a') && SuffixKey(4) == ('4', 'a') && SuffixKey(5) == ('a', 'c');
  }

  /** A string ends with at most one of the suffixes. */
  lemma SuffixesExclusive(u: String, i: nat, j: nat)
    requires i < |AudioSuffixes| && j < |AudioSuffixes|
    requires EndsWith(u, AudioSuffixes[i].0) && EndsWith(u, AudioSuffixes[j].0)
    ensures i == j
  {
    SameLastTwo(u, AudioSuffixes[i].0, AudioSuffixes[j].0);
    assert SuffixKey(i) == SuffixKey(j);
    SuffixKeysDistinct();
  }

  /** A URL ending in any case with a listed suffix gets that suffix's type. */
  lemma {:induction false} PickFollowsTable(url: String, fallback: String, k: nat)
    requires k < |AudioSuffixes| && EndsWith(Lower(url), AudioSuffixes[k].0)
    ensures PickAudioContentType(url, fallback) == AudioSuffixes[k].1
  {
    assert url != [];
    LoweredFollowsTable(Lower(url), fallback, k);
  }

  lemma LoweredFollowsTable(u: String, fallback: String, k: nat)
    requires k < |AudioSuffixes| && EndsWith(u, AudioSuffixes[k].0)
    ensures TypeOfLowered(u, AudioSuffixes, fallback) == AudioSuffixes[k].1
  {
    forall j | 0 <= j < k ensures !EndsWith(u, AudioSuffixes[j].0) {
      if EndsWith(u, AudioSuffixes[j].0) {
        SuffixesExclusive(u, j, k);
      }
    }
    FirstMatchDecides(u, AudioSuffixes, fallback, k);
  }

  /** Upper-case extensions count; a query string after the extension
      hides it. */
  lemma PickExamples()
    ensures PickAudioContentType("clip.MP3", DefaultAudioType) == "audio/mpeg"
    ensures PickAudioContentType("clip.mp3?dl=1", DefaultAudioType) == "audio/wav"
  {
    UpperCaseSuffixFolds();
    QuerySuffixFallsBack();
  }

  lemma UpperCaseSuffixFolds()
    ensures PickAudioContentType("clip.MP3", DefaultAudioType) == "audio/mpeg"
  {
    var u := Lower("clip.MP3");
    assert u[|u| - 4..] == ".mp3";
  }

  lemma QuerySuffixFallsBack()
    ensures PickAudioContentType("clip.mp3?dl=1", DefaultAudioType) == "audio/wav"
  {
    var v := Lower("clip.mp3?dl=1");
    assert v[|v| - 1] == '1';
  }

  // ---------------------------------------------------------------------------
  // Settings, token and parameters
  // ---------------------------------------------------------------------------

  /** `(req.query?.[name] || fallback).trim()` */
  function QueryTrimmed(q: Query, name: String, fallback: String): (r: String)
    ensures name in q && q[name] != [] ==> r == Trim(q[name])
    ensures !(name in q && q[name] != []) ==> r == Trim(fallback)
  {
    Trim(if name in q && q[name] != [] then q[name] else fallback)
  }

  /** Region, key, `language` (default `en-US`) and `profanity` (default
      `masked`). */
  datatype Settings = Settings(region: String, key: String, language: String, profanity: String)

  /** Lines 27-35: missing settings stop the handler before anything else. */
  function ReadSettings(env: Env, q: Query): (r: Step<Settings>)
    ensures r.Stop? <==> Trim(EnvOr(env, "SPEECH_REGION", "")) == [] || Trim(EnvOr(env, "SPEECH_KEY", "")) == []
    ensures r.Stop? ==> r.reply == JsonReply(500, ErrorBody("config", "Missing SPEECH_REGION or SPEECH_KEY"))
    ensures r.Proceed? ==> r.value.language == QueryTrimmed(q, "language", "en-US")
    ensures r.Proceed? ==> r.value.profanity == QueryTrimmed(q, "profanity", "masked")
  {
    var region := Trim(EnvOr(env, "SPEECH_REGION", ""));
    var key := Trim(EnvOr(env, "SPEECH_KEY", ""));
    if region == [] || key == [] then Stop(JsonReply(500, ErrorBody("config", "Missing SPEECH_REGION or SPEECH_KEY")))
    else
      Proceed(Settings(region, key, QueryTrimmed(q, "language", "en-US"), QueryTrimmed(q, "profanity", "masked")))
  }

  /** Without the query parameters the recognition runs in `en-US` with
      masked profanity. */
  lemma SettingsDefaults(env: Env, q: Query)
    requires ReadSettings(env, q).Proceed?
    ensures !("language" in q && q["language"] != []) ==> ReadSettings(env, q).value.language == "en-US"
    ensures !("profanity" in q && q["profanity"] != []) ==> ReadSettings(env, q).value.profanity == "masked"
  {
    LanguageDefault(q);
    ProfanityDefault(q);
  }

  lemma LanguageDefault(q: Query)
    ensures !("language" in q && q["language"] != []) ==> QueryTrimmed(q, "language", "en-US") == "en-US"
  {
    assert "en-US"[0] == 'e' && "en-US"[4] == 'S';
    TrimNoSpaceEnds("en-US");
  }

  lemma ProfanityDefault(q: Query)
    ensures !("profanity" in q && q["profanity"] != []) ==> QueryTrimmed(q, "profanity", "masked") == "masked"
  {
    assert "masked"[0] == 'm' && "masked"[5] == 'd';
    TrimNoSpaceEnds("masked");
  }

  /** Lines 38-48: the token is the body of a successful answer; a failed
      status is a 502, and an answer that cannot be read is the generic
      failure. */
  function IssueToken(answer: Exchange): (r: Step<String>)
    ensures answer.Answer? && IsOk(answer.status) ==> r == Proceed(answer.text)
    ensures answer.Answer? && !IsOk(answer.status) ==> r == Stop(JsonReply(502, ErrorBody("token_failed", answer.text)))
    ensures !answer.Answer? ==> r == Stop(Crash("transcribe_failed"))
  {
    match answer
    case Answer(status, text, _, _) =>
      if IsOk(status) then Proceed(text) else Stop(JsonReply(502, ErrorBody("token_failed", text)))
    case BodyLost(_) => Stop(Crash("transcribe_failed"))
    case NetworkError => Stop(Crash("transcribe_failed"))
  }

  // ---------------------------------------------------------------------------
  // Audio source
  // ---------------------------------------------------------------------------

  /** The audio to recognise and its `Content-Type`. */
  datatype Audio = Audio(contentType: String, bytes: seq<bv8>)

  /** `req.body && Buffer.isBuffer(req.body) && req.headers["content-type"]?.startsWith("audio/")` */
  predicate PostedAudio(req: Request) {
    req.body.Bytes? && "content-type" in req.headers && StartsWith(req.headers["content-type"], "audio/")
  }

  /** `GET ${audioUrl} -> ${status} ${errTxt}` */
  function FetchFailure(url: String, status: int, text: String): String {
    "GET " + url + " -> " + IntToDecimal(status) + " " + text
  }

  /** The audio fetch was rejected, or its ok answer's body could not be
      read: both throw into the catch-all reply. */
  predicate AudioLost(answer: Exchange) {
    answer.NetworkError? || (answer.BodyLost? && IsOk(answer.status))
  }

  /** Lines 59-76: posted audio bytes with an `audio/` type are used as
      they are; otherwise `?audioUrl=` is fetched and typed by its suffix;
      otherwise the request is refused. */
  function SelectAudio(req: Request, audioAnswer: Exchange): (r: Step<Audio>)
    ensures PostedAudio(req) ==> r == Proceed(Audio(req.headers["content-type"], req.body.data))
    ensures !PostedAudio(req) && !("audioUrl" in req.query && req.query["audioUrl"] != []) ==>
      r == Stop(JsonReply(400, ErrorBody("no_audio", "Provide ?audioUrl= or POST audio/* bytes")))
    ensures !PostedAudio(req) && "audioUrl" in req.query && req.query["audioUrl"] != [] && audioAnswer.Answer? && IsOk(audioAnswer.status) ==>
      r == Proceed(Audio(PickAudioContentType(req.query["audioUrl"], DefaultAudioType), audioAnswer.bytes))
    ensures !PostedAudio(req) && "audioUrl" in req.query && req.query["audioUrl"] != [] && !audioAnswer.NetworkError? && !IsOk(audioAnswer.status) ==>
      r == Stop(JsonReply(400, ErrorBody("fetch_audio_failed",
        FetchFailure(req.query["audioUrl"], audioAnswer.status, if audioAnswer.Answer? then audioAnswer.text else ""))))
    ensures !PostedAudio(req) && "audioUrl" in req.query && req.query["audioUrl"] != [] && AudioLost(audioAnswer) ==>
      r == Stop(Crash("transcribe_failed"))
    ensures r.Stop? && r.reply.Crash? ==> !PostedAudio(req) && AudioLost(audioAnswer)
  {
    if PostedAudio(req) then Proceed(Audio(req.headers["content-type"], req.body.data))
    else if "audioUrl" in req.query && req.query["audioUrl"] != [] then
      var url := req.query["audioUrl"];
      var contentType := PickAudioContentType(url, DefaultAudioType);
      match audioAnswer
      case NetworkError => Stop(Crash("transcribe_failed"))
      case BodyLost(status) =>
        if IsOk(status) then Stop(Crash("transcribe_failed"))
        else Stop(JsonReply(400, ErrorBody("fetch_audio_failed", FetchFailure(url, status, ""))))
      case Answer(status, text, _, bytes) =>
        if IsOk(status) then Proceed(Audio(contentType, bytes))
        else Stop(JsonReply(400, ErrorBody("fetch_audio_failed", FetchFailure(url, status, text))))
    else Stop(JsonReply(400, ErrorBody("no_audio", "Provide ?audioUrl= or POST audio/* bytes")))
  }

  // ---------------------------------------------------------------------------
  // The recogniser's answer
  // ---------------------------------------------------------------------------

  /** `Array.isArray(data.NBest) && data.NBest[0]?.Display` is truthy. */
  predicate NBestUsable(data: Json) {
    Get(data, "NBest").Arr? && Truthy(Get(First(Get(data, "NBest")), "Display"))
  }

  /** Lines 97-104: `DisplayText`, else `NBest[0].Display` when `NBest` is
      an array, else `text`, each only if truthy, else `null`; reading a
      field of a `null` answer throws. */
  function TranscriptOf(data: Json): (r: Completion<Json>)
    ensures r.Throws? <==> IsNullish(data)
    ensures r.Returns? && Truthy(Get(data, "DisplayText")) ==> r.value == Get(data, "DisplayText")
    ensures r.Returns? && !Truthy(Get(data, "DisplayText")) && NBestUsable(data) ==> r.value == Get(First(Get(data, "NBest")), "Display")
    ensures r.Returns? && !Truthy(Get(data, "DisplayText")) && !NBestUsable(data) && Truthy(Get(data, "text")) ==>
      r.value == Get(data, "text")
    ensures r.Returns? && !Truthy(Get(data, "DisplayText")) && !NBestUsable(data) && !Truthy(Get(data, "text")) ==>
      r.value == Null
    ensures r.Returns? && !Truthy(r.value) ==> r.value == Null
    ensures r.Returns? && r.value != Null ==>
      r.value == Get(data, "DisplayText") || r.value == Get(data, "text") || (Get(data, "NBest").Arr? && r.value == Get(First(Get(data, "NBest")), "Display"))
  {
    if IsNullish(data) then Throws
    else
      var nbest := Get(data, "NBest");
      if Truthy(Get(data, "DisplayText")) then Returns(Get(data, "DisplayText"))
      else if nbest.Arr? && Truthy(Get(First(nbest), "Display")) then Returns(Get(First(nbest), "Display"))
      else if Truthy(Get(data, "text")) then Returns(Get(data, "text"))
      else Returns(Null)
  }

  /** An `NBest` that is not an array is ignored, even when it is an object
      with a `"0"` entry. */
  lemma NBestMustBeArray(entry: Json, text: Json)
    requires Truthy(text)
    ensures TranscriptOf(Obj(map["NBest" := Obj(map["0" := Obj(map["Display" := Str("x")])]), "text" := text])) == Returns(text)
  {
  }

  /** `transcript ? { transcript, raw: data } : data` */
  function ShapeBody(transcript: Json, data: Json): (r: Json)
    ensures Truthy(transcript) ==> Get(r, "transcript") == transcript && Get(r, "raw") == data
    ensures !Truthy(transcript) ==> r == data
  {
    if Truthy(transcript) then Pair("transcript", transcript, "raw", data) else data
  }

  /** Lines 89-110: the reply mirrors the recogniser's status and carries the
      normalised body. */
  function SttReply(answer: Exchange): (r: Reply)
    ensures !answer.Answer? ==> r == Crash("transcribe_failed")
    ensures answer.Answer? && IsNullish(ParsedData(answer.text, answer.json)) ==> r == Crash("transcribe_failed")
    ensures answer.Answer? && !IsNullish(ParsedData(answer.text, answer.json)) ==>
      r.JsonReply? && r.status == answer.status
  {
    match answer
    case Answer(status, text, json, _) =>
      var data := ParsedData(text, json);
      (match TranscriptOf(data)
       case Throws => Crash("transcribe_failed")
       case Returns(t) => JsonReply(status, ShapeBody(t, data)))
    case BodyLost(_) => Crash("transcribe_failed")
    case NetworkError => Crash("transcribe_failed")
  }

  /** An unparsable answer has no transcript and is passed on as
      `{ raw: text }`. */
  lemma UnparsableAnswerPassedRaw(status: int, text: String, bytes: seq<bv8>)
    ensures SttReply(Answer(status, text, None, bytes)) == JsonReply(status, Obj(map["raw" := Str(text)]))
  {
  }

  /** A parsed answer with a transcript is sent as `{ transcript, raw }`
      with the answer beside it, and one without is passed on unchanged,
      under the recogniser's status either way. */
  lemma ReplyKeepsRawData(status: int, text: String, data: Json, bytes: seq<bv8>)
    requires !IsNullish(data)
    ensures var r := SttReply(Answer(status, text, Some(data), bytes));
      var t := TranscriptOf(data).value;
      r.JsonReply? && r.status == status &&
      (if Truthy(t) then Get(r.body, "transcript") == t && Get(r.body, "raw") == data && r.body.fields.Keys == {"transcript", "raw"}
       else r.body == data)
  {
  }

  /** The older answer shape: its `DisplayText` becomes the transcript. */
  lemma DisplayTextAnswer(status: int, text: String, shown: String, bytes: seq<bv8>)
    requires shown != []
    ensures var data := Obj(map["DisplayText" := Str(shown)]);
      SttReply(Answer(status, text, Some(data), bytes)) == JsonReply(status, Obj(map["transcript" := Str(shown), "raw" := data]))
  {
  }

  /** An answer with no usable field, such as a bare recognition status, is
      passed on unchanged. */
  lemma NoTranscriptPassedOn(status: int, text: String, recognition: String, bytes: seq<bv8>)
    ensures var data := Obj(map["RecognitionStatus" := Str(recognition)]);
      SttReply(Answer(status, text, Some(data), bytes)) == JsonReply(status, data)
  {
  }

  // ---------------------------------------------------------------------------
  // The handler
  // ---------------------------------------------------------------------------

  /** The whole handler: settings, then the token, then the audio, then the
      recogniser. */
  function TranscribeHandler(env: Env, req: Request, tokenAnswer: Exchange, audioAnswer: Exchange, sttAnswer: Exchange): Reply {
    match ReadSettings(env, req.query)
    case Stop(reply) => reply
    case Proceed(_) =>
      match IssueToken(tokenAnswer)
      case Stop(reply) => reply
      case Proceed(_) =>
        match SelectAudio(req, audioAnswer)
        case Stop(reply) => reply
        case Proceed(_) => SttReply(sttAnswer)
  }

  /** The token is requested before the audio is looked at: a request with
      no audio still reports a failed token first. */
  lemma TokenBeforeAudio(env: Env, req: Request, status: int, text: String, json: Option<Json>, bytes: seq<bv8>, audioAnswer: Exchange, sttAnswer: Exchange)
    requires ReadSettings(env, req.query).Proceed?
    requires !IsOk(status)
    ensures TranscribeHandler(env, req, Answer(status, text, json, bytes), audioAnswer, sttAnswer) == JsonReply(502, ErrorBody("token_failed", text))
  {
  }

  /** With settings, token and audio in hand, the reply's status is the
      recogniser's. */
  lemma StatusMirrorsRecogniser(env: Env, req: Request, tokenAnswer: Exchange, audioAnswer: Exchange, status: int, text: String, json: Option<Json>, bytes: seq<bv8>)
    requires ReadSettings(env, req.query).Proceed? && IssueToken(tokenAnswer).Proceed? && SelectAudio(req, audioAnswer).Proceed?
    requires !IsNullish(ParsedData(text, json))
    ensures StatusOf(TranscribeHandler(env, req, tokenAnswer, audioAnswer, Answer(status, text, json, bytes))) == Some(status)
  {
  }
}

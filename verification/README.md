# Sight-and-sound tour: a Dafny model of the request-shaping core

The system is a set of Azure Functions HTTP handlers with a browser front end.
The handlers take image URLs or bytes, text and audio from the browser. They
forward these to the Vision, Translator and Speech services and reshape the
answers. The only real logic is the **best-image resolver** of the analyze
handler. Given a page URL that does not look like an image, it:

- extracts candidate image URLs from the page (`<img src>`, `srcset`,
  `og:image` / `twitter:image`);
- makes them absolute and drops junk and duplicates;
- probes an extension-first subset of at most twelve;
- scores each probed URL with a fixed additive heuristic;
- picks the highest-scoring viable one, with a last-resort fallback.

Around it sit small decision functions in the other handlers:

- XML escaping for the SSML document (the five predefined entities of section
  4.6 of XML 1.0);
- the audio MIME type guessed from a URL suffix;
- the audio type implied by a speech output format;
- the defaults and precedence of request parameters, and the order of the
  handlers' checks;
- the reshaping of the recogniser's and translator's answers into
  `{ transcript, raw }` and `{ translatedText, raw }`;
- the browser's choice between caption and recognised text.

The model is functional. Strings are `seq<char>` and JSON values are a small
datatype with JavaScript truthiness and `?.` reads. Every outbound call is a
parameter: the page's attribute values, a probe function, a URL parser and
the services' answers.

| module | file | models |
|---|---|---|
| `Maybe` | maybe.dfy | `Option`, and `Completion` (a value, or a thrown error) |
| `JsStrings` | js_strings.dfy | `toLowerCase` (ASCII), `trim`, `split`, `/\s+/` tokens, `startsWith`/`endsWith`, decimal rendering |
| `Seqs` | seqs.dfy | `filter`, `Set` insertion-order de-duplication, `indexOf`, `slice` |
| `Json` | json.dfy | JSON values, truthiness, `\|\|`, `?.`, `String(x)` and when it throws |
| `Http` | http.dfy | requests, settings, outbound answers, the reply in `context.res` |
| `ImageUrls` | image_urls.dfy | `isImgExt`, `absolutize`, the srcset split, `extractImageUrls` |
| `Scoring` | scoring.dfy | `scoreCandidate` |
| `Resolver` | resolver.dfy | `resolveBestImageFromPage`, the handler's page-versus-image decision |
| `XmlEscape` | xml_escape.dfy | `escapeXml`, the three-entity escape of `buildSsml`, and a decoder |
| `SpeechTts` | speech_tts.dfy | the key-authenticated TTS handler |
| `TourTts` | tour_tts.dfy | the identity-authenticated TTS handler and `buildSsml` |
| `Transcribe` | transcribe.dfy | `pickAudioContentType` and the speech-to-text handler |
| `Translate` | translate.dfy | the translation handler |
| `Caption` | caption.dfy | `extractText` of the browser script |

Regular expressions with the `i` flag and no `u` flag fold case only for
ASCII letters, and `toLowerCase` followed by an ASCII suffix test behaves the
same way. So case folding is modelled as ASCII lower-casing, which is exact
for every test the code makes.

## Model

| member | source | states |
|---|---|---|
| ImageUrls.IsImgExtIff | sight-sound-tour/api/analyze/index.js:5 | `isImgExt(u)` holds exactly when some prefix of `u` ends, in any case, in `.` plus one of jpg, jpeg, png, webp, gif, bmp, tif, tiff, and that prefix is the whole URL or is followed by `?` |
| ImageUrls.ImageExtensionCaseAndQuery | sight-sound-tour/api/analyze/index.js:5 | an upper-case extension followed by a query string (`a.JPG?w=1`) counts |
| ImageUrls.LongerExtensionRejected | sight-sound-tour/api/analyze/index.js:5 | a longer extension (`c.jpgx`) does not count |
| ImageUrls.Absolutize | sight-sound-tour/api/analyze/index.js:8-15 | empty input gives null; `//x` gives `https://x`; an input starting (case-sensitively) with `http://` or `https://` is kept; anything else is whatever the URL parser gives, and a parser failure is null rather than an exception |
| ImageUrls.AbsolutizeIdempotent | sight-sound-tour/api/analyze/index.js:8-15 | an input starting with `//`, `http://` or `https://` absolutises to an http(s) URL that absolutises to itself |
| ImageUrls.FirstToken | sight-sound-tour/api/analyze/index.js:32 | the first token of a trimmed srcset piece contains no whitespace |
| ImageUrls.FirstTokenWithin | sight-sound-tour/api/analyze/index.js:32 | the first token holds no character that the piece lacks |
| ImageUrls.SrcsetUrls | sight-sound-tour/api/analyze/index.js:32 | every URL taken from a srcset is non-empty and contains neither a comma nor whitespace |
| ImageUrls.SrcsetRoundTrip | sight-sound-tour/api/analyze/index.js:32 | splitting a srcset written from well-formed candidates (padding, URL, optional descriptor) gives exactly their URLs, in order |
| ImageUrls.AbsolutizeAll | sight-sound-tour/api/analyze/index.js:24-27 | a URL is added exactly when absolutising some captured value gives it, non-empty |
| ImageUrls.KeepCandidates | sight-sound-tour/api/analyze/index.js:47-50 | the spread and filtered `Set` has no duplicates, holds exactly the non-junk hits, and lists them in order of first hit |
| ImageUrls.ExtractImageUrls | sight-sound-tour/api/analyze/index.js:18-51 | the candidates have no duplicates and are non-empty; a URL is a candidate iff it is a src, srcset or meta hit and not junk; they come in first-seen order |
| ImageUrls.CandidatesAreNotJunk | sight-sound-tour/api/analyze/index.js:47-50 | no candidate starts with `data:` or contains, in any case, sprite, icon, logo, favicon, transparent, 1x1 or pixel |
| ImageUrls.ImgSrcIsCandidate | sight-sound-tour/api/analyze/index.js:21-27 | every `<img src>` that absolutises to a non-junk URL is a candidate |
| ImageUrls.SrcHitsComeFirst | sight-sound-tour/api/analyze/index.js:19-50 | a candidate found through `<img src>` precedes every candidate first found in a srcset or meta tag |
| Scoring.NoLargeTokenWithout | sight-sound-tour/api/analyze/index.js:74 | a URL lacking `l`, `r`, `1` and `2` in lower case has no large-image token |
| Scoring.ThumbnailAnywhere | sight-sound-tour/api/analyze/index.js:75 | by the alternation's precedence, `thumbnail` matches inside any word |
| Scoring.SmallAnywhere | sight-sound-tour/api/analyze/index.js:75 | `small`, in any case, matches inside any word |
| Scoring.ThumbPatternExamples | sight-sound-tour/api/analyze/index.js:75 | `sm` needs only a delimiter after it (`prism.jpg` is penalised), and `thumb` needs one before it (`a-thumb` matches, `athumb` does not) |
| Scoring.NoThumbTokenWithoutM | sight-sound-tour/api/analyze/index.js:75 | a URL with no `m` in lower case matches no thumbnail alternative |
| Scoring.TypeScore | sight-sound-tour/api/analyze/index.js:78-79 | +400 iff the type contains `image/`, −100 iff the type is non-empty without it, 0 iff the type is empty |
| Scoring.LengthBonus | sight-sound-tour/api/analyze/index.js:82 | 0 for a non-positive length and never above 600; otherwise the largest integer `b` up to 600 with `10^b <= (len+1)^120`, so `b <= 120·log10(len+1) < b+1` below the cap |
| Scoring.LengthBonusMonotone | sight-sound-tour/api/analyze/index.js:82 | a longer body never earns a smaller bonus |
| Scoring.UrlScore | sight-sound-tour/api/analyze/index.js:73-75 | the URL terms lie in [−300, 750], and are at least 500 for an extension URL with no thumbnail pattern |
| Scoring.Score | sight-sound-tour/api/analyze/index.js:70-85 | the score minus the length bonus lies in [−400, 1150] and the score in [−400, 1750]; with no length it is the URL terms plus the type term |
| Scoring.FailedProbeAddsNothing | sight-sound-tour/api/analyze/index.js:63-82 | the record of a failed probe `{ ok: false, len: 0, type: "" }` adds nothing to the URL terms |
| Scoring.PhotoUrlScore | sight-sound-tour/api/analyze/index.js:73-75 | `photo-1920.jpg` earns 750 from its URL |
| Scoring.ThumbUrlScore | sight-sound-tour/api/analyze/index.js:73-75 | `thumb.jpg` earns 200 from its URL |
| Scoring.LargePhotoBeatsThumbnail | sight-sound-tour/api/analyze/index.js:70-85 | a reachable 1920-wide JPEG outscores a reachable thumbnail JPEG whose body is no longer |
| Seqs.Filter | sight-sound-tour/api/analyze/index.js:47 | the filter keeps exactly the elements that pass, and no more than there were |
| Seqs.FilterSplitsMultiset | sight-sound-tour/api/analyze/index.js:99 | filtering by a predicate and by its negation together keep every element exactly once |
| Seqs.Dedup | sight-sound-tour/api/analyze/index.js:19-47 | the `Set` holds each hit exactly once |
| Seqs.DedupFirstSeenOrder | sight-sound-tour/api/analyze/index.js:19-47 | the `Set` lists its elements in the order of their first insertion |
| Seqs.FilterKeepsOrder | sight-sound-tour/api/analyze/index.js:47 | filtering keeps the survivors' relative order |
| Seqs.FilterIsSubsequence | sight-sound-tour/api/analyze/index.js:107 | what a filter keeps is a subsequence of its input, in the input's order |
| Seqs.FilterNoDuplicates | sight-sound-tour/api/analyze/index.js:47 | filtering a duplicate-free list leaves it duplicate-free |
| Seqs.Take | sight-sound-tour/api/analyze/index.js:99 | `slice(0, n)` keeps the first min(n, length) elements |
| Resolver.ExtFirst | sight-sound-tour/api/analyze/index.js:99 | the reordering is a permutation of the candidates in which every extension URL precedes every other URL |
| Resolver.ExtFirstStable | sight-sound-tour/api/analyze/index.js:99 | the sort is stable: each group keeps its original order |
| Resolver.ExtFirstWithoutExtensions | sight-sound-tour/api/analyze/index.js:99 | without extension URLs the order is unchanged |
| Resolver.Hinted | sight-sound-tour/api/analyze/index.js:99 | the probed list has min(12, n) entries, is a prefix of the reordering, holds only candidates, and keeps extension URLs first |
| Resolver.ProbeAll | sight-sound-tour/api/analyze/index.js:101-104 | one scored record per probed URL, in the same order |
| Resolver.ViableOf | sight-sound-tour/api/analyze/index.js:107 | a record is kept iff it is one of the probed records and was probed `ok` or has an image extension; the kept records are a subsequence of the probe list, so probe order is kept; each names a candidate |
| Resolver.Insert | sight-sound-tour/api/analyze/index.js:112 | inserting adds exactly one element and loses none |
| Resolver.InsertKeepsDescending | sight-sound-tour/api/analyze/index.js:112 | inserting into a list sorted by descending score keeps it sorted |
| Resolver.SortByScore | sight-sound-tour/api/analyze/index.js:112 | the sort is a permutation ordered by descending score |
| Resolver.FirstMaxIndex | sight-sound-tour/api/analyze/index.js:112-113 | the index of a maximal score with every earlier score strictly smaller |
| Resolver.SortHeadIsFirstMax | sight-sound-tour/api/analyze/index.js:112-113 | the head of the sorted list is the earliest record of maximal score |
| Resolver.ResolveBestImage | sight-sound-tour/api/analyze/index.js:88-116 | it throws iff the page fetch fails; it is null iff the page has no candidates; otherwise it is a non-empty URL from the candidate list |
| Resolver.FallbackIsFirstExtracted | sight-sound-tour/api/analyze/index.js:106-110 | with no viable record the answer is the first URL extracted from the page |
| Resolver.WinnerIsFirstMax | sight-sound-tour/api/analyze/index.js:112-115 | otherwise the answer is the earliest viable record, in probe order, whose score none exceeds |
| Resolver.ImageUrlParam | sight-sound-tour/api/analyze/index.js:131 | a truthy query `imageUrl` wins; otherwise a truthy body `imageUrl` is used; with neither it is null |
| Resolver.AnalyzeTarget | sight-sound-tour/api/analyze/index.js:134-140 | it throws iff the input is truthy and cannot be coerced to a string; otherwise a falsy input or one that already looks like an image is kept, a resolved page URL is replaced by the resolution, and a null or thrown resolution keeps the input |
| Resolver.AnalyzeTargetIsInputOrCandidate | sight-sound-tour/api/analyze/index.js:134-140 | when the decision does not throw, the analysed URL is the input or one of the page's candidates |
| Resolver.StringTargetNeverThrows | sight-sound-tour/api/analyze/index.js:134-140 | a string address never makes the decision throw: a failed page resolution is caught and keeps the input |
| XmlEscape.ReplaceChar | tts/index.js:112-116 | a global replace leaves a string without the character unchanged, and a replacement without the character removes it |
| XmlEscape.EscapeXmlPerChar | tts/index.js:110-117 | the five chained replaces, `&` first, equal escaping each character on its own |
| XmlEscape.EscapeXmlRemovesMarkup | tts/index.js:110-117 | the escaped text contains no `<`, `>`, `"` or `'` |
| XmlEscape.EscapeXmlPlain | tts/index.js:110-117 | a text with none of the five characters is returned unchanged |
| XmlEscape.EscapeXmlAmpersands | tts/index.js:112-116 | every `&` in the escaped text begins one of the five entities |
| XmlEscape.UnescapeEscapeXml | tts/index.js:110-117 | decoding the five entities recovers the text exactly |
| XmlEscape.AmpersandMustComeFirst | tts/index.js:112-113 | replacing `&` after `<` would double-escape: `<` would become `&amp;lt;` |
| XmlEscape.EscapeMarkup | sight-sound-tour/api/tts/index.js:25 | the escaped text has no `<` or `>`, keeps quotes exactly when the text has them, and a text without `&`, `<`, `>` is unchanged |
| XmlEscape.UnescapeEscapeMarkup | sight-sound-tour/api/tts/index.js:25 | decoding recovers the text exactly |
| SpeechTts.TextParam | tts/index.js:20-23 | `body.text`, else `body.ssmlText`, else `query.text`, else the empty string |
| SpeechTts.BodyThenQuery | tts/index.js:33-45 | the body's value wins over the query's, and a falsy pair takes the fallback |
| SpeechTts.DefaultsApply | tts/index.js:33-45 | without parameters the voice is `en-US-JennyNeural` and the format `audio-24khz-160kbitrate-mono-mp3` |
| SpeechTts.Ssml | tts/index.js:48-51 | the document starts with the fixed head, ends with the fixed tail, and has the voice verbatim in the `name` attribute |
| SpeechTts.SsmlRoundTrip | tts/index.js:48-51 | for a voice without `"`, reading the document back gives the voice and the text exactly |
| SpeechTts.SsmlTextEscaped | tts/index.js:48-51 | the element content is exactly the escaped text |
| SpeechTts.ContentTypeFor | tts/index.js:81-84 | always one of three types; WAV iff the format matches `pcm` or `riff` in any case; Ogg iff it matches neither but matches `ogg` |
| SpeechTts.ContentTypeIgnoresCase | tts/index.js:81-84 | both tests carry the `i` flag: lower-casing the format first gives the same type |
| SpeechTts.DefaultFormatIsMpeg | tts/index.js:81-84 | the default format maps to `audio/mpeg` |
| SpeechTts.RiffFormatIsWav | tts/index.js:81-84 | an upper-case RIFF format is WAV |
| SpeechTts.OggFormatIsOgg | tts/index.js:81-84 | an Ogg Opus format is Ogg |
| SpeechTts.SpeechRequest | tts/index.js:8-64 | missing settings give 500 `config`; then a falsy text gives 400 `no_text`; then a voice, text or format that cannot be coerced is `tts_exception`; the call is made iff none of these happens, and carries the trimmed region and key, the format and the document built from the voice and the text |
| SpeechTts.SpeechReply | tts/index.js:66-103 | ok audio is sent with the format's type; a failed status is a JSON `tts_failed` with that status and the error text, or `""` when it cannot be read; a rejected call is `tts_exception` |
| SpeechTts.FailedReply | tts/index.js:69-73 | the error reply mirrors the service's status and carries `status` and `detail` |
| SpeechTts.NoTextBeforeCall | tts/index.js:20-31 | a missing text is refused whatever the service would answer |
| SpeechTts.ConfigCheckedFirst | tts/index.js:8-17 | a missing region is reported as 500 `config` before anything else |
| SpeechTts.UncoercibleTextFails | tts/index.js:48-51 | a text object with its own `toString` makes the request fail with `tts_exception` whatever the service would answer |
| TourTts.BuildSsml | sight-sound-tour/api/tts/index.js:24-29 | the document has the fixed head and tail, and an empty voice becomes `en-US-JennyNeural` |
| TourTts.BuildSsmlTextSegment | sight-sound-tour/api/tts/index.js:24-29 | the text segment has no `<` or `>` and decodes back to the text |
| TourTts.QuotesLeftAlone | sight-sound-tour/api/tts/index.js:25 | quotes and apostrophes are not escaped |
| TourTts.InputText | sight-sound-tour/api/tts/index.js:36-37 | body, then query, then the fallback, coerced to a string; it throws iff the body's value cannot be coerced |
| TourTts.Region | sight-sound-tour/api/tts/index.js:35 | the trimmed setting, or `eastus` when it is unset or empty |
| TourTts.TourRequest | sight-sound-tour/api/tts/index.js:35-46 | a text or voice that cannot be coerced is `tts_failed`; then an empty text is 400 `no_text` before any token is requested; then a failed token is `tts_failed`; the call is made iff none of these happens, and carries the region, the token and `buildSsml(text, voice)` |
| TourTts.TourReply | sight-sound-tour/api/tts/index.js:60-84 | ok audio is sent as `audio/mpeg`; a failed status with a readable body leaves the reply unassigned; an unreadable body or a rejected call is `tts_failed` |
| TourTts.NoTextBeforeToken | sight-sound-tour/api/tts/index.js:39-44 | a request without text, and with a voice that coerces, is refused whatever the token and the service do |
| TourTts.EmptyArrayTextRefused | sight-sound-tour/api/tts/index.js:36-42 | a text of `[]` coerces to the empty string and is refused |
| TourTts.VoiceCoercedBeforeTextCheck | sight-sound-tour/api/tts/index.js:36-42 | a voice object with its own `toString` fails the request with `tts_failed` even when the text is missing |
| Transcribe.PickAudioContentType | transcribe/index.js:11-20 | an empty URL gets the fallback; the result is the fallback or a type from the table; a URL ending in no listed suffix gets the fallback |
| Transcribe.PickFollowsTable | transcribe/index.js:13-18 | a URL ending, in any case, in `.wav`, `.mp3`, `.ogg`, `.oga`, `.m4a` or `.flac` gets that suffix's type |
| Transcribe.SuffixesExclusive | transcribe/index.js:13-18 | no URL ends in two of the suffixes, so the order of the tests never matters |
| Transcribe.PickExamples | transcribe/index.js:11-20 | `clip.MP3` is `audio/mpeg`; `clip.mp3?dl=1` falls back to `audio/wav` |
| Transcribe.ReadSettings | transcribe/index.js:27-35 | the handler stops iff the trimmed region or key is empty, with 500 `config`; otherwise it reads the trimmed `language` and `profanity` |
| Transcribe.SettingsDefaults | transcribe/index.js:34-35 | without the parameters the language is `en-US` and profanity `masked` |
| Transcribe.IssueToken | transcribe/index.js:37-48 | the token is the body of an ok answer; a failed status is 502 `token_failed` with the body text |
| Transcribe.SelectAudio | transcribe/index.js:59-76 | posted bytes with an `audio/` type are used with that type; else `audioUrl` is fetched and typed by suffix, a failed status being 400 `fetch_audio_failed`, and a rejected fetch or an unreadable ok body being the generic failure, which happens only then; else 400 `no_audio` |
| Transcribe.TranscriptOf | transcribe/index.js:97-104 | a truthy `DisplayText`, else a truthy `NBest[0].Display` only when `NBest` is an array, else a truthy `text`, else null; a null answer throws |
| Transcribe.NBestMustBeArray | transcribe/index.js:100 | an `NBest` object that is not an array is skipped |
| Transcribe.ShapeBody | transcribe/index.js:109 | `{ transcript, raw }` iff the transcript is truthy, otherwise the data unchanged |
| Transcribe.SttReply | transcribe/index.js:89-110 | the reply's status is the recogniser's; an unreadable or null answer is the generic failure |
| Transcribe.ReplyKeepsRawData | transcribe/index.js:106-110 | a parsed answer with a truthy transcript is sent as exactly `{ transcript, raw }` with the answer as `raw`; otherwise the answer is passed on unchanged; the status is the recogniser's |
| Transcribe.DisplayTextAnswer | transcribe/index.js:98-99 | an answer with a `DisplayText` is sent as `{ transcript, raw }` |
| Transcribe.NoTranscriptPassedOn | transcribe/index.js:97-110 | an answer with none of the three fields is passed on unchanged |
| Transcribe.UnparsableAnswerPassedRaw | transcribe/index.js:94-110 | an answer that does not parse is passed on as `{ raw: text }` |
| Transcribe.TokenBeforeAudio | transcribe/index.js:37-76 | a failed token is reported even when the request has no audio |
| Transcribe.StatusMirrorsRecogniser | transcribe/index.js:106-110 | with settings, token and audio in hand, the status is the recogniser's |
| Translate.StripTrailingSlash | sight-sound-tour/api/translate/index.js:30 | at most one trailing `/` goes; the result is empty iff the setting is empty or a lone `/` |
| Translate.StripKeepsBareEndpoint | sight-sound-tour/api/translate/index.js:30 | an endpoint without a trailing slash is kept, and the same endpoint written with one trailing slash strips to it |
| Translate.StripOnlyOne | sight-sound-tour/api/translate/index.js:30 | a doubled slash keeps one |
| Translate.TargetLanguage | sight-sound-tour/api/translate/index.js:36 | body, then query, then `en`, trimmed; a truthy non-string value throws |
| Translate.InputText | sight-sound-tour/api/translate/index.js:37 | body, then query, then the empty string, coerced to a string; it throws iff the body's value cannot be coerced |
| Translate.Payload | sight-sound-tour/api/translate/index.js:47 | a one-element list whose only object has just the `text` key |
| Translate.TranslateRequest | sight-sound-tour/api/translate/index.js:30-47 | an empty endpoint is 500 `config` first; then a `to` that cannot be trimmed or a text that cannot be coerced fails; then an empty text is 400 `no_text`; the call is made iff all pass and there is a token, and carries the endpoint, the target, the token and `[{ text }]` |
| Translate.TranslatedTextOf | sight-sound-tour/api/translate/index.js:63-66 | `data[0].translations[0].text` when data is an array and that is truthy, else a truthy `data.translatedText`, else exactly null; a null answer throws |
| Translate.FirstTranslationWins | sight-sound-tour/api/translate/index.js:63-66 | the translator's usual answer gives its first translation |
| Translate.ShapeBody | sight-sound-tour/api/translate/index.js:70 | an object with exactly the keys `translatedText` and `raw`, holding the text and the data, iff the text is non-null; otherwise the data unchanged |
| Translate.TranslateReply | sight-sound-tour/api/translate/index.js:59-71 | the status mirrors the translator's; an unreadable or null answer is the generic failure |
| Translate.ReplyKeepsRawData | sight-sound-tour/api/translate/index.js:68-71 | the reply keeps the translator's status; a translated answer is exactly `{ translatedText, raw }` with the raw data beside the text; otherwise the data is passed on unchanged |
| Translate.TargetCheckedBeforeText | sight-sound-tour/api/translate/index.js:36-41 | a numeric `to` fails the request even when the text is missing |
| Translate.SlashEndpointIsMissing | sight-sound-tour/api/translate/index.js:30-34 | an endpoint of a lone `/` counts as missing |
| Translate.UncoercibleTextFails | sight-sound-tour/api/translate/index.js:37-43 | a text object with its own `toString` fails the request with `translate_failed` before the token is requested |
| Json.Coerce | sight-sound-tour/api/translate/index.js:37 | `String(x)`, and `x.toString()` on a value that is not null or undefined, throw iff `ToStrThrows` holds and give `ToStr` otherwise; only a truthy object or array throws, a string gives itself, and any other truthy value but an array gives a non-empty string |
| Json.ToStrThrowsExamples | sight-sound-tour/api/translate/index.js:37 | an object with its own `toString`, also inside an array, throws; an object without one coerces to `[object Object]` |
| Caption.CaptionOf | sight-sound-tour/web/app.js:30 | `captionResult.text`, else `caption.text`, else `""` |
| Caption.RawOcrOf | sight-sound-tour/web/app.js:31 | `readResult.content`, else `ocrResult.text`, else `""` |
| Caption.ExtractText | sight-sound-tour/web/app.js:29-33 | it throws iff the recognised-text value is not a string; otherwise the result is a truthy caption, else the trimmed recognised text |
| Caption.ResultIsCaptionOrTrimmedOcr | sight-sound-tour/web/app.js:29-33 | the result is the caption or the trimmed recognised text, which has no surrounding whitespace |
| Caption.NoTextGivesEmpty | sight-sound-tour/web/app.js:32 | with neither caption nor text the result is `""` |
| Caption.CaptionNotTrimmed | sight-sound-tour/web/app.js:30-32 | a caption is returned as it is, surrounding spaces included |

## Left out

- Network I/O is not modelled: the page fetch, the `HEAD` probes with their 3000 ms abort, the Vision, Speech and Translator calls, and the token requests. Each result is a parameter. The page is a `PageFetch` value, a probe is a function from URL to `ProbeInfo`, and a service answer is an `Exchange`.
- How a probe reads `content-length` (`Number(...) || 0`) and lower-cases `content-type` belongs to the probe function, so it is not modelled. Every probe record is accepted as it is.
- The `Promise.all` fan-out is not modelled. Results are combined only after every probe settles, so order and timing add nothing.
- Regular-expression scanning of raw HTML for `<img>` and `<meta>` tags is not modelled. A page is given as its `src`, `srcset` and meta `content` values in document order. The character classes that limit what those regexes capture are not modelled either.
- `new URL(maybe, base).toString()` is a parameter (`UrlParser`): the WHATWG URL parser is too large to model.
- `getBearerToken` (managed-identity token acquisition) and sight-sound-tour/api/shared/clients.js are foreign calls, so they are not modelled. The token is an `Option`, and `None` means the call threw.
- Scoring.LengthBonus: models `Math.min(600, Math.log10(len + 1) * 120)` rounded down to an integer, because floating point is not modelled. A modelled score can be up to one point below the source's, since the bonus's fractional part is dropped. Rounding down also creates ties the source does not have, so the chosen image can differ from the source's. Lengths 200 and 201 both get 276, where the source gives about 276.38 and 276.64. Lengths 1000 and 1001 both get 360. Take two viable candidates that differ only in length, with the 200-byte one probed first: the model picks it (the earliest of equal scores), while the source picks the 201-byte one. Resolver.WinnerIsFirstMax is stated for the modelled scores.
- JSON numbers are integers only. Response headers other than `content-type` are not modelled. URL encoding (`encodeURIComponent`) of the outbound URLs is not modelled, and neither are the region-specific service host names.
- Logging, timing (`Date.now`) and the text of a caught error (`String(err)`) are not modelled. A caught error is `Crash(code)`, a 500 reply.
- The analyze handler's configuration check is not modelled (lines 122-127: a 500 `config` reply when `VISION_ENDPOINT`, with one trailing slash stripped, or `VISION_KEY` is falsy). It is the same check `Translate.TranslateRequest` states for its own endpoint.
- The analyze handler after the target URL is chosen is not modelled (lines 142-175: the no-image check, the features parameter and the Vision call). It forwards its input with no decision worth stating.
- SpeechTts.SpeechRequest, TourTts.TourRequest, Transcribe.SelectAudio and Translate.TranslateRequest stop at the outbound call. The whole handlers (`SpeechHandler`, `TourHandler`, `TranscribeHandler`, `TranslateHandler`) are plain compositions and carry no contract of their own. Their properties are the lemmas in the table.
- analyze/index.js and api/chat/index.js (pass-through proxies), server.js, app.py and templates/app.js (UI code) are not part of this model.
- The camera-frame scaling of sight-sound-tour/web/app.js (floating point and `Math.round`) is not modelled.

## Where the code and the written description differ

The model follows the code.

- A page fetch with a non-success status is not a failure. `fetch(...).then(r => r.text())` reads the body of any status, and its images are used. Only a rejected fetch or body read makes the resolver throw, and the handler then keeps the input URL.
- A `HEAD` probe with a non-success status still reports the length and type of its headers. Only a rejected or aborted probe reports `{ ok: false, len: 0, type: "" }`.
- In the identity-authenticated TTS handler, a failed status whose body can still be read leaves `context.res` unassigned (`NoReply`). The comment intends to pass the service's JSON body on. But `arrayBuffer()` succeeds on an error body, so the `catch` that would do so never runs.

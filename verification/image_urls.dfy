/** Candidate image URLs of a web page: the image-extension test, URL
    absolutisation, `srcset` splitting, and the de-duplicating junk filter
    of `extractImageUrls`. */
module ImageUrls {
  import opened JsStrings
  import opened Maybe
  import opened Seqs

  // ---------------------------------------------------------------------------
  // The image-extension test
  // ---------------------------------------------------------------------------

  /** The alternatives of `jpg|jpeg|png|webp|gif|bmp|tiff?`. */
  const ImageExtensions: seq<String> := ["jpg", "jpeg", "png", "webp", "gif", "bmp", "tif", "tiff"]

  /** In the lower-cased URL `l`, the extension `e` starts at index `i + 1`
      and ends the string or is followed by `?`. */
  predicate ExtensionMatch(l: String, i: int, e: String) {
    OccursAt(l, e, i + 1) && (i + 1 + |e| == |l| || l[i + 1 + |e|] == '?')
  }

  /** In the lower-cased URL `l`, a `.` at index `i` starts an image
      extension. */
  predicate ExtensionAt(l: String, i: int) {
    && 0 <= i < |l|
    && l[i] == '.'
    && exists e | e in ImageExtensions :: ExtensionMatch(l, i, e)
  }

  /** `isImgExt(u)`: the URL matches `/\.(jpg|jpeg|png|webp|gif|bmp|tiff?)($|\?)/i`
      somewhere. */
  predicate IsImgExt(u: String) {
    exists i | 0 <= i < |u| :: ExtensionAt(Lower(u), i)
  }

  /** A string that ends, case-insensitively, in `.` and an image extension. */
  ghost predicate EndsWithImageExtension(p: String) {
    exists e | e in ImageExtensions :: EndsWith(Lower(p), "." + e)
  }

  /** The URL has a prefix ending in an image extension, and that prefix is
      the whole URL or is followed by `?`. */
  ghost predicate ExtensionBeforeQueryOrEnd(u: String) {
    exists j | 0 <= j <= |u| :: (j == |u| || u[j] == '?') && EndsWithImageExtension(u[..j])
  }

  lemma LowerPrefix(u: String, j: nat)
    requires j <= |u|
    ensures Lower(u[..j]) == Lower(u)[..j]
  {
  }

  lemma ExtensionMatchEndsPrefix(u: String, i: int, e: String)
    requires 0 <= i < |u| && Lower(u)[i] == '.' && ExtensionMatch(Lower(u), i, e)
    ensures i + 1 + |e| <= |u|
    ensures EndsWith(Lower(u[..i + 1 + |e|]), "." + e)
    ensures i + 1 + |e| == |u| || u[i + 1 + |e|] == '?'
  {
    var l := Lower(u);
    var j := i + 1 + |e|;
    LowerPrefix(u, j);
    assert l[i..j] == [l[i]] + l[i + 1..j];
    assert Lower(u[..j])[j - |"." + e|..] == l[i..j];
    if j < |u| {
      assert l[j] == LowerChar(u[j]);
    }
  }

  lemma PrefixEndsInExtension(u: String, j: int, e: String)
    requires 0 <= j <= |u| && (j == |u| || u[j] == '?')
    requires e in ImageExtensions && EndsWith(Lower(u[..j]), "." + e)
    ensures 0 <= j - |e| - 1 && ExtensionAt(Lower(u), j - |e| - 1)
  {
    var l := Lower(u);
    LowerPrefix(u, j);
    var i := j - |e| - 1;
    assert l[i..j] == "." + e;
    assert l[i] == ("." + e)[0];
    assert l[i + 1..j] == e;
    assert j < |l| ==> l[j] == LowerChar(u[j]);
    assert ExtensionMatch(l, i, e);
  }

  /** `isImgExt` holds exactly when some prefix ending at the end of the URL
      or just before a `?` ends in an image extension. */
  lemma IsImgExtIff(u: String)
    ensures IsImgExt(u) <==> ExtensionBeforeQueryOrEnd(u)
  {
    if IsImgExt(u) {
      ImgExtHasPrefix(u);
    }
    if ExtensionBeforeQueryOrEnd(u) {
      PrefixGivesImgExt(u);
    }
  }

  lemma ImgExtHasPrefix(u: String)
    requires IsImgExt(u)
    ensures ExtensionBeforeQueryOrEnd(u)
  {
    var l := Lower(u);
    var i :| 0 <= i < |u| && ExtensionAt(l, i);
    var e :| e in ImageExtensions && ExtensionMatch(l, i, e);
    MatchGivesPrefix(u, i, e);
  }

  lemma MatchGivesPrefix(u: String, i: int, e: String)
    requires 0 <= i < |u| && Lower(u)[i] == '.'
    requires e in ImageExtensions && ExtensionMatch(Lower(u), i, e)
    ensures ExtensionBeforeQueryOrEnd(u)
  {
    ExtensionMatchEndsPrefix(u, i, e);
    PrefixWitness(u, i + 1 + |e|, e);
  }

  lemma PrefixWitness(u: String, j: int, e: String)
    requires 0 <= j <= |u| && (j == |u| || u[j] == '?')
    requires e in ImageExtensions && EndsWith(Lower(u[..j]), "." + e)
    ensures ExtensionBeforeQueryOrEnd(u)
  {
    assert EndsWithImageExtension(u[..j]);
  }

  lemma PrefixGivesImgExt(u: String)
    requires ExtensionBeforeQueryOrEnd(u)
    ensures IsImgExt(u)
  {
    var j :| 0 <= j <= |u| && (j == |u| || u[j] == '?') && EndsWithImageExtension(u[..j]);
    var e :| e in ImageExtensions && EndsWith(Lower(u[..j]), "." + e);
    PrefixEndsInExtension(u, j, e);
  }

  /** Upper case and a query string still count. */
  lemma ImageExtensionCaseAndQuery()
    ensures IsImgExt("a.JPG?w=1")
  {
    var l := Lower("a.JPG?w=1");
    assert l[1] == '.' && l[2..5] == "jpg" && l[5] == '?';
    assert ExtensionMatch(l, 1, "jpg");
    assert ExtensionAt(l, 1);
  }

  /** A longer extension does not count. */
  lemma LongerExtensionRejected()
    ensures !IsImgExt("c.jpgx")
  {
    var l := Lower("c.jpgx");
    assert l == "c.jpgx";
    assert l[5] == 'x' && l[2..6] == "jpgx";
    forall e | e in ImageExtensions ensures !ExtensionMatch(l, 1, e) {
      assert |e| == 3 || |e| == 4;
      assert e != "jpgx";
    }
    forall i | 0 <= i < |l| && l[i] == '.' ensures !ExtensionAt(l, i) {
      assert i == 1;
    }
  }

  // ---------------------------------------------------------------------------
  // Absolutisation
  // ---------------------------------------------------------------------------

  /** `new URL(maybe, base).toString()` of the URL Standard: the serialised
      URL, or `None` where the constructor throws. */
  type UrlParser = (String, String) -> Option<String>

  predicate IsHttpUrl(u: String) {
    StartsWith(u, "http://") || StartsWith(u, "https://")
  }

  /** `absolutize(base, maybe)`: empty input gives `null`, a
      protocol-relative URL gets `https:`, an `http`/`https` URL (prefix
      matched case-sensitively) is kept, and anything else is resolved against
      the base, a failure giving `null` rather than an exception. */
  function Absolutize(base: String, maybe: String, parse: UrlParser): (r: Option<String>)
    ensures maybe == [] ==> r == None
    ensures maybe != [] && StartsWith(maybe, "//") ==> r == Some("https:" + maybe)
    ensures maybe != [] && !StartsWith(maybe, "//") && IsHttpUrl(maybe) ==> r == Some(maybe)
    ensures maybe != [] && !StartsWith(maybe, "//") && !IsHttpUrl(maybe) ==> r == parse(maybe, base)
  {
    if maybe == [] then None
    else if StartsWith(maybe, "//") then Some("https:" + maybe)
    else if IsHttpUrl(maybe) then Some(maybe)
    else parse(maybe, base)
  }

  /** An input the fixed rules handle, one starting with `//`, `http://` or
      `https://`, absolutises, without the URL parser, to an `http(s)` URL,
      and absolutising that URL again changes nothing. */
  lemma AbsolutizeIdempotent(base: String, maybe: String, parse: UrlParser)
    requires maybe != [] && (StartsWith(maybe, "//") || IsHttpUrl(maybe))
    ensures Absolutize(base, maybe, parse).Some?
    ensures IsHttpUrl(Absolutize(base, maybe, parse).value)
    ensures var u := Absolutize(base, maybe, parse).value;
            Absolutize(base, u, parse) == Some(u)
  {
    var u := Absolutize(base, maybe, parse).value;
    if StartsWith(maybe, "//") {
      assert u == "https:" + maybe;
      assert u[0] == 'h';
      assert u[..2] != "//";
    } else {
      assert IsHttpUrl(maybe) && u == maybe;
      assert u[..2] != "//" by {
        assert u[0] == 'h';
      }
    }
  }

  // ---------------------------------------------------------------------------
  // srcset
  // ---------------------------------------------------------------------------

  /** `s.trim().split(/\s+/)[0]` */
  function FirstToken(s: String): (r: String)
    ensures forall i :: 0 <= i < |r| ==> !IsSpace(r[i])
  {
    TakeToken(Trim(s))
  }

  /** The first token holds only characters of the string it came from. */
  lemma FirstTokenWithin(s: String, c: char)
    requires c !in s
    ensures c !in FirstToken(s)
  {
    var t := Trim(s);
    var i :| OccursAt(s, t, i) && AllSpaces(s[..i]) && AllSpaces(s[i + |t|..]);
    var r := TakeToken(t);
    forall k | 0 <= k < |r| ensures r[k] != c {
      assert r[k] == t[k] == s[i + k];
    }
  }

  predicate NonEmpty(s: String) {
    s != []
  }

  /** `value.split(",").map(s => s.trim().split(/\s+/)[0]).filter(Boolean)`:
      the URL of every comma-separated candidate, in order. */
  function SrcsetUrls(value: String): (r: seq<String>)
    ensures forall k :: 0 <= k < |r| ==> r[k] != [] && ',' !in r[k]
    ensures forall k :: 0 <= k < |r| ==> forall i :: 0 <= i < |r[k]| ==> !IsSpace(r[k][i])
  {
    var parts := Split(value, ',');
    var tokens := FirstTokens(parts);
    assert forall k :: 0 <= k < |tokens| ==> ',' !in tokens[k] by {
      forall k | 0 <= k < |tokens| ensures ',' !in tokens[k] {
        FirstTokenWithin(parts[k], ',');
      }
    }
    Filter(tokens, NonEmpty)
  }

  /** The first token of each piece. */
  function FirstTokens(parts: seq<String>): (r: seq<String>)
    ensures |r| == |parts| && forall k :: 0 <= k < |parts| ==> r[k] == FirstToken(parts[k])
  {
    seq(|parts|, k requires 0 <= k < |parts| => FirstToken(parts[k]))
  }

  /** One srcset candidate as written: optional leading whitespace, the URL,
      and an optional descriptor such as `2x` or `640w`. */
  datatype SrcsetEntry = SrcsetEntry(pad: String, url: String, descriptor: String)

  ghost predicate WellFormedEntry(e: SrcsetEntry) {
    && AllSpaces(e.pad)
    && e.url != []
    && (forall i :: 0 <= i < |e.url| ==> !IsSpace(e.url[i]))
    && ',' !in e.pad && ',' !in e.url && ',' !in e.descriptor
  }

  function RenderEntry(e: SrcsetEntry): String {
    e.pad + e.url + (if e.descriptor == [] then [] else " " + e.descriptor)
  }

  /** The attribute value for a list of candidates, joined with commas. */
  function RenderSrcset(entries: seq<SrcsetEntry>): String {
    Join(RenderEntries(entries), ',')
  }

  function RenderEntries(entries: seq<SrcsetEntry>): (r: seq<String>)
    ensures |r| == |entries| && forall k :: 0 <= k < |entries| ==> r[k] == RenderEntry(entries[k])
  {
    seq(|entries|, k requires 0 <= k < |entries| => RenderEntry(entries[k]))
  }

  /** A well-formed entry is written without a comma. */
  lemma RenderEntryAvoidsComma(e: SrcsetEntry)
    requires WellFormedEntry(e)
    ensures ',' !in RenderEntry(e)
  {
    var rest := if e.descriptor == [] then [] else " " + e.descriptor;
    assert ',' !in rest;
    assert RenderEntry(e) == e.pad + e.url + rest;
  }

  lemma FirstTokenOfEntry(e: SrcsetEntry)
    requires WellFormedEntry(e)
    ensures FirstToken(RenderEntry(e)) == e.url
  {
    var rest := if e.descriptor == [] then [] else " " + e.descriptor;
    var s := RenderEntry(e);
    assert s == e.pad + (e.url + rest);
    LeadingSpacesOfPadded(e.pad, e.url + rest);
    TakeTokenOfTrim(s);
    assert s[|e.pad|..] == e.url + rest;
    TakeTokenOfWord(e.url, rest);
  }

  /** Splitting a rendered srcset recovers exactly the candidate URLs, in
      order: the split is the inverse of writing the attribute. */
  lemma SrcsetRoundTrip(entries: seq<SrcsetEntry>)
    requires |entries| >= 1
    requires forall k :: 0 <= k < |entries| ==> WellFormedEntry(entries[k])
    ensures SrcsetUrls(RenderSrcset(entries)) == seq(|entries|, k requires 0 <= k < |entries| => entries[k].url)
  {
    var pieces := RenderEntries(entries);
    forall k | 0 <= k < |pieces| ensures ',' !in pieces[k] {
      RenderEntryAvoidsComma(entries[k]);
    }
    SplitJoin(pieces, ',');
    var tokens := FirstTokens(pieces);
    var urls := seq(|entries|, k requires 0 <= k < |entries| => entries[k].url);
    assert tokens == urls by {
      forall k | 0 <= k < |entries| ensures tokens[k] == urls[k] {
        FirstTokenOfEntry(entries[k]);
      }
    }
    FilterAll(urls, NonEmpty);
  }

  // ---------------------------------------------------------------------------
  // Extraction
  // ---------------------------------------------------------------------------

  /** The attribute values the three scans of a page capture, each in
      document order: `<img src>`, `<img srcset>`, and the `content` of
      `og:image` / `twitter:image` meta tags. */
  datatype PageImages = PageImages(srcs: seq<String>, srcsets: seq<String>, metas: seq<String>)

  /** Absolutise each value and keep the truthy results (`if (u) out.add(u)`). */
  function AbsolutizeAll(base: String, values: seq<String>, parse: UrlParser): (r: seq<String>)
    ensures forall k :: 0 <= k < |r| ==> r[k] != []
    ensures forall u :: u in r <==> exists v :: v in values && Absolutize(base, v, parse) == Some(u) && u != []
  {
    if |values| == 0 then []
    else
      var head := match Absolutize(base, values[0], parse)
        case Some(u) => if u != [] then [u] else []
        case None => [];
      var rest := AbsolutizeAll(base, values[1..], parse);
      assert forall v :: v in values <==> v == values[0] || v in values[1..];
      head + rest
  }

  function Concat(ss: seq<seq<String>>): seq<String> {
    if |ss| == 0 then [] else ss[0] + Concat(ss[1..])
  }

  /** Every URL in every srcset value, in document order. */
  function AllSrcsetUrls(srcsets: seq<String>): seq<String> {
    Concat(seq(|srcsets|, k requires 0 <= k < |srcsets| => SrcsetUrls(srcsets[k])))
  }

  /** Everything added to the `Set`, in the order it was added: `src` hits,
      then `srcset` hits, then meta hits. */
  function Hits(page: PageImages, base: String, parse: UrlParser): seq<String> {
    AbsolutizeAll(base, page.srcs, parse)
      + AbsolutizeAll(base, AllSrcsetUrls(page.srcsets), parse)
      + AbsolutizeAll(base, page.metas, parse)
  }

  /** The case-insensitive alternatives of `/sprite|icon|logo|favicon|transparent|1x1|pixel/i`. */
  const JunkWords: seq<String> := ["sprite", "icon", "logo", "favicon", "transparent", "1x1", "pixel"]

  /** A data URI (prefix matched case-sensitively) or a URL naming a sprite,
      icon, logo, tracking pixel or the like. */
  predicate IsJunk(u: String) {
    StartsWith(u, "data:") || exists w | w in JunkWords :: ContainsFolded(u, w)
  }

  predicate NotJunk(u: String) {
    !IsJunk(u)
  }

  /** The `Set` of hits spread into an array and filtered for junk. */
  function KeepCandidates(hits: seq<String>): (r: seq<String>)
    ensures NoDuplicates(r)
    ensures forall u :: u in r <==> u in hits && NotJunk(u)
    ensures OrderedBy(r, u => IndexOf(hits, u))
  {
    var d := Dedup(hits);
    FilterNoDuplicates(d, NotJunk);
    DedupFirstSeenOrder(hits);
    FilterKeepsOrder(d, NotJunk, u => IndexOf(hits, u));
    Filter(d, NotJunk)
  }

  /** `extractImageUrls(html, baseUrl)`: every hit that is not junk, once,
      in the order it was first found. */
  function ExtractImageUrls(page: PageImages, base: String, parse: UrlParser): (r: seq<String>)
    ensures NoDuplicates(r)
    ensures forall u :: u in r <==> u in Hits(page, base, parse) && NotJunk(u)
    ensures forall k :: 0 <= k < |r| ==> r[k] != []
    ensures OrderedBy(r, u => IndexOf(Hits(page, base, parse), u))
  {
    HitsNonEmpty(page, base, parse);
    KeepCandidates(Hits(page, base, parse))
  }

  lemma HitsNonEmpty(page: PageImages, base: String, parse: UrlParser)
    ensures forall u :: u in Hits(page, base, parse) ==> u != []
  {
    var a := AbsolutizeAll(base, page.srcs, parse);
    var b := AbsolutizeAll(base, AllSrcsetUrls(page.srcsets), parse);
    var c := AbsolutizeAll(base, page.metas, parse);
    forall u | u in a + b + c ensures u != [] {
      assert u in a || u in b || u in c;
    }
  }

  /** No candidate is a data URI or names one of the junk words. */
  lemma CandidatesAreNotJunk(page: PageImages, base: String, parse: UrlParser, u: String)
    requires u in ExtractImageUrls(page, base, parse)
    ensures !StartsWith(u, "data:")
    ensures forall w :: w in JunkWords ==> !ContainsFolded(u, w)
  {
  }

  /** Any usable `<img src>` on the page is among the candidates. */
  lemma ImgSrcIsCandidate(page: PageImages, base: String, parse: UrlParser, src: String)
    requires src in page.srcs
    requires Absolutize(base, src, parse).Some?
    requires var u := Absolutize(base, src, parse).value; u != [] && !IsJunk(u)
    ensures Absolutize(base, src, parse).value in ExtractImageUrls(page, base, parse)
  {
  }

  /** A URL found through an `<img src>` comes before any URL first found in a
      `srcset` or meta tag. */
  lemma SrcHitsComeFirst(page: PageImages, base: String, parse: UrlParser, u: String, v: String)
    requires u in ExtractImageUrls(page, base, parse) && v in ExtractImageUrls(page, base, parse)
    requires u in AbsolutizeAll(base, page.srcs, parse)
    requires v !in AbsolutizeAll(base, page.srcs, parse)
    ensures IndexOf(ExtractImageUrls(page, base, parse), u) < IndexOf(ExtractImageUrls(page, base, parse), v)
  {
    var hits := Hits(page, base, parse);
    var a := AbsolutizeAll(base, page.srcs, parse);
    var r := ExtractImageUrls(page, base, parse);
    assert IndexOf(hits, u) < |a| by {
      var k := IndexOf(a, u);
      assert hits[k] == u;
    }
    assert IndexOf(hits, v) >= |a| by {
      forall k | 0 <= k < |a| ensures hits[k] != v {
        assert hits[k] == a[k];
      }
    }
    var i := IndexOf(r, u);
    var j := IndexOf(r, v);
    assert r[i] == u && r[j] == v;
  }
}

/** `resolveBestImageFromPage` and the handler's page-versus-image decision:
    given a page URL that does not look like an image, pick the candidate
    image on that page with the best probe score. */
module Resolver {
  import opened JsStrings
  import opened Maybe
  import opened Json
  import opened Seqs
  import opened ImageUrls
  import opened Scoring
  import Http

  /** What fetching the page produced: the image-bearing attribute values of
      its HTML in document order (whatever the response status), or a
      rejected `fetch` or body read. */
  datatype PageFetch = Fetched(images: PageImages) | FetchFailed

  /** `headInfo(url)`: the probe result for each URL. */
  type Prober = String -> ProbeInfo

  /** The number of candidates probed. */
  const MaxProbes: nat := 12

  // ---------------------------------------------------------------------------
  // Extension-first ordering and the probe cut
  // ---------------------------------------------------------------------------

  predicate LacksExt(u: String) {
    !IsImgExt(u)
  }

  /** `candidates.sort((a, b) => Number(isImgExt(b)) - Number(isImgExt(a)))`
      with a stable sort: URLs with an image extension first, each group in
      its original order. */
  function ExtFirst(c: seq<String>): (r: seq<String>)
    ensures |r| == |c|
    ensures multiset(r) == multiset(c)
    ensures PartitionedBy(r, IsImgExt)
  {
    var a := Filter(c, IsImgExt);
    var b := Filter(c, LacksExt);
    FilterSplitsMultiset(c, IsImgExt, LacksExt);
    assert |a + b| == |multiset(a + b)| == |multiset(c)| == |c|;
    forall i | 0 <= i < |a + b| ensures IsImgExt((a + b)[i]) <==> i < |a| {
      if i < |a| {
        assert (a + b)[i] == a[i];
      } else {
        assert (a + b)[i] == b[i - |a|];
        assert LacksExt(b[i - |a|]);
      }
    }
    a + b
  }

  /** The reordering is stable: it keeps the order of the extension URLs
      among themselves and of the others among themselves. */
  lemma ExtFirstStable(c: seq<String>)
    ensures Filter(ExtFirst(c), IsImgExt) == Filter(c, IsImgExt)
    ensures Filter(ExtFirst(c), LacksExt) == Filter(c, LacksExt)
  {
    var a := Filter(c, IsImgExt);
    var b := Filter(c, LacksExt);
    FilterConcat(a, b, IsImgExt);
    FilterConcat(a, b, LacksExt);
    FilterAll(a, IsImgExt);
    FilterNone(b, IsImgExt);
    FilterNone(a, LacksExt);
    FilterAll(b, LacksExt);
  }

  /** Without extension URLs the reordering changes nothing. */
  lemma ExtFirstWithoutExtensions(c: seq<String>)
    requires forall i :: 0 <= i < |c| ==> !IsImgExt(c[i])
    ensures ExtFirst(c) == c
  {
    FilterNone(c, IsImgExt);
    FilterAll(c, LacksExt);
  }

  /** `.slice(0, 12)` of the reordered candidates: the URLs that are
      probed. */
  function Hinted(c: seq<String>): (r: seq<String>)
    ensures |r| == if |c| < MaxProbes then |c| else MaxProbes
    ensures forall i :: 0 <= i < |r| ==> r[i] == ExtFirst(c)[i]
    ensures forall u :: u in r ==> u in c
    ensures PartitionedBy(r, IsImgExt)
  {
    var e := ExtFirst(c);
    var r := Take(e, MaxProbes);
    assert forall u :: u in r ==> u in multiset(e);
    r
  }

  // ---------------------------------------------------------------------------
  // Probing and the winner
  // ---------------------------------------------------------------------------

  /** `{ url, info, score }` */
  datatype Probed = Probed(url: String, info: ProbeInfo, score: int)

  function ProbeOne(u: String, probe: Prober): Probed {
    Probed(u, probe(u), Score(u, probe(u)))
  }

  /** `hinted.map(u => ({ url: u, info, score: scoreCandidate(u, info) }))` */
  function ProbeAll(hinted: seq<String>, probe: Prober): (r: seq<Probed>)
    ensures |r| == |hinted|
    ensures forall i :: 0 <= i < |r| ==> r[i] == ProbeOne(hinted[i], probe)
  {
    seq(|hinted|, i requires 0 <= i < |hinted| => ProbeOne(hinted[i], probe))
  }

  /** `x.info.ok || isImgExt(x.url)` */
  predicate IsViable(x: Probed) {
    x.info.ok || IsImgExt(x.url)
  }

  ghost predicate ScoreDescending(s: seq<Probed>) {
    forall i, j :: 0 <= i < j < |s| ==> s[i].score >= s[j].score
  }

  /** Inserts `x` in front of the first element scoring no more than it. */
  function Insert(x: Probed, t: seq<Probed>): (r: seq<Probed>)
    ensures |r| == |t| + 1
    ensures multiset(r) == multiset(t) + multiset{x}
    ensures forall y :: y in r <==> y == x || y in t
  {
    if |t| == 0 || x.score >= t[0].score then [x] + t
    else
      assert t == [t[0]] + t[1..];
      [t[0]] + Insert(x, t[1..])
  }

  /** Inserting into a list sorted by descending score keeps it sorted. */
  lemma {:induction false} InsertKeepsDescending(x: Probed, t: seq<Probed>)
    requires ScoreDescending(t)
    ensures ScoreDescending(Insert(x, t))
    decreases |t|
  {
    if |t| > 0 && x.score < t[0].score {
      var rest := Insert(x, t[1..]);
      assert ScoreDescending(t[1..]) by {
        forall i, j | 0 <= i < j < |t[1..]| ensures t[1..][i].score >= t[1..][j].score {
          assert t[1..][i] == t[i + 1] && t[1..][j] == t[j + 1];
        }
      }
      InsertKeepsDescending(x, t[1..]);
      forall k | 0 <= k < |rest| ensures rest[k].score <= t[0].score {
        assert rest[k] in rest;
        if rest[k] != x {
          var m :| 0 <= m < |t[1..]| && t[1..][m] == rest[k];
          assert t[m + 1] == rest[k];
        }
      }
      var r := [t[0]] + rest;
      forall i, j | 0 <= i < j < |r| ensures r[i].score >= r[j].score {
        assert r[j] == rest[j - 1];
        if i > 0 {
          assert r[i] == rest[i - 1];
        }
      }
    }
  }

  /** `viable.sort((a, b) => b.score - a.score)`: a stable sort by
      descending score, built by inserting each element in front of the
      sorted rest. */
  function SortByScore(s: seq<Probed>): (r: seq<Probed>)
    ensures |r| == |s|
    ensures multiset(r) == multiset(s)
    ensures ScoreDescending(r)
  {
    if |s| == 0 then []
    else
      assert s == [s[0]] + s[1..];
      var rest := SortByScore(s[1..]);
      InsertKeepsDescending(s[0], rest);
      Insert(s[0], rest)
  }

  /** The index of the first element of maximal score. */
  function FirstMaxIndex(s: seq<Probed>): (k: nat)
    requires |s| > 0
    ensures k < |s|
    ensures forall i :: 0 <= i < |s| ==> s[i].score <= s[k].score
    ensures forall i :: 0 <= i < k ==> s[i].score < s[k].score
  {
    if |s| == 1 then 0
    else
      var m := 1 + FirstMaxIndex(s[1..]);
      assert forall i :: 1 <= i < |s| ==> s[i] == s[1..][i - 1];
      if s[0].score >= s[m].score then 0 else m
  }

  /** The head of the sorted list is the earliest element of maximal score:
      among equal scores the sort keeps probe order. */
  lemma {:induction false} SortHeadIsFirstMax(s: seq<Probed>)
    requires |s| > 0
    ensures SortByScore(s)[0] == s[FirstMaxIndex(s)]
    decreases |s|
  {
    if |s| > 1 {
      SortHeadIsFirstMax(s[1..]);
      assert s[1 + FirstMaxIndex(s[1..])] == s[1..][FirstMaxIndex(s[1..])];
    }
  }

  // ---------------------------------------------------------------------------
  // resolveBestImageFromPage
  // ---------------------------------------------------------------------------

  /** The outcome of `resolveBestImageFromPage`. */
  datatype Resolution = Resolved(url: String) | Unresolved | ResolveThrew

  /** The candidates extracted from a fetched page. */
  function Candidates(pageUrl: String, page: PageImages, parse: UrlParser): seq<String> {
    ExtractImageUrls(page, pageUrl, parse)
  }

  /** The probed, scored records of the hinted candidates that are viable:
      every viable record and nothing else, in probe order. */
  function ViableOf(c: seq<String>, probe: Prober): (v: seq<Probed>)
    ensures forall x :: x in v <==> x in ProbeAll(Hinted(c), probe) && IsViable(x)
    ensures Subsequence(v, ProbeAll(Hinted(c), probe))
    ensures forall x :: x in v ==> x.url in c
  {
    var probed := ProbeAll(Hinted(c), probe);
    var v := Filter(probed, IsViable);
    FilterIsSubsequence(probed, IsViable);
    assert forall x :: x in v ==> x.url in Hinted(c);
    v
  }

  /** `resolveBestImageFromPage(context, pageUrl)` */
  function ResolveBestImage(pageUrl: String, fetch: PageFetch, parse: UrlParser, probe: Prober): (r: Resolution)
    ensures r.ResolveThrew? <==> fetch.FetchFailed?
    ensures r.Unresolved? <==> fetch.Fetched? && Candidates(pageUrl, fetch.images, parse) == []
    ensures r.Resolved? ==> r.url in Candidates(pageUrl, fetch.images, parse) && r.url != []
  {
    match fetch
    case FetchFailed => ResolveThrew
    case Fetched(page) =>
      var c := Candidates(pageUrl, page, parse);
      if |c| == 0 then Unresolved
      else
        var viable := ViableOf(c, probe);
        if |viable| == 0 then
          assert ExtFirst(c)[0] in multiset(c);
          Resolved(ExtFirst(c)[0])
        else
          var w := SortByScore(viable)[0];
          assert w in multiset(viable);
          Resolved(w.url)
  }

  /** When no probed candidate is viable, the answer is the first URL
      extracted from the page: the first candidate probed has no image
      extension, so no candidate has one and the reordering kept the
      extraction order. */
  lemma FallbackIsFirstExtracted(pageUrl: String, page: PageImages, parse: UrlParser, probe: Prober)
    requires Candidates(pageUrl, page, parse) != []
    requires ViableOf(Candidates(pageUrl, page, parse), probe) == []
    ensures ResolveBestImage(pageUrl, Fetched(page), parse, probe) == Resolved(Candidates(pageUrl, page, parse)[0])
  {
    var c := Candidates(pageUrl, page, parse);
    var h := Hinted(c);
    var probed := ProbeAll(h, probe);
    assert probed[0] in probed;
    assert !IsViable(probed[0]);
    assert !IsImgExt(ExtFirst(c)[0]);
    forall i | 0 <= i < |c| ensures !IsImgExt(c[i]) {
      assert c[i] in multiset(ExtFirst(c));
      var j :| 0 <= j < |ExtFirst(c)| && ExtFirst(c)[j] == c[i];
    }
    ExtFirstWithoutExtensions(c);
  }

  /** Otherwise the answer is the URL of the earliest viable record, in
      probe order, whose score no viable record exceeds. */
  lemma WinnerIsFirstMax(pageUrl: String, page: PageImages, parse: UrlParser, probe: Prober)
    requires ViableOf(Candidates(pageUrl, page, parse), probe) != []
    ensures var v := ViableOf(Candidates(pageUrl, page, parse), probe);
      ResolveBestImage(pageUrl, Fetched(page), parse, probe) == Resolved(v[FirstMaxIndex(v)].url)
  {
    var v := ViableOf(Candidates(pageUrl, page, parse), probe);
    assert v[0] in v;
    SortHeadIsFirstMax(v);
  }

  // ---------------------------------------------------------------------------
  // The handler's decision
  // ---------------------------------------------------------------------------

  /** `req.query?.imageUrl || req.body?.imageUrl || null` */
  function ImageUrlParam(req: Http.Request): (r: Json)
    ensures Truthy(r) ==> r == Http.QueryParam(req.query, "imageUrl") || r == Http.BodyField(req.body, "imageUrl")
    ensures !Truthy(r) ==> r == Null
    ensures Truthy(Http.QueryParam(req.query, "imageUrl")) ==> r == Http.QueryParam(req.query, "imageUrl")
    ensures !Truthy(Http.QueryParam(req.query, "imageUrl")) && Truthy(Http.BodyField(req.body, "imageUrl")) ==>
      r == Http.BodyField(req.body, "imageUrl")
  {
    Or(Or(Http.QueryParam(req.query, "imageUrl"), Http.BodyField(req.body, "imageUrl")), Null)
  }

  /** The value `imageUrl` holds after lines 134-140: a truthy value that
      does not look like an image is replaced by the URL resolved from the
      page it names (`String(imageUrl)` is what the regex test, `fetch` and
      `new URL` see); a null resolution or a thrown resolution keeps it. A
      truthy value that cannot be coerced throws already in the regex test,
      outside the inner `try`. */
  function AnalyzeTarget(imageUrl: Json, fetch: PageFetch, parse: UrlParser, probe: Prober): (r: Completion<Json>)
    ensures r.Throws? <==> Truthy(imageUrl) && ToStrThrows(imageUrl)
    ensures r.Returns? && (!Truthy(imageUrl) || IsImgExt(ToStr(imageUrl))) ==> r.value == imageUrl
    ensures r.Returns? && r.value != imageUrl ==> r.value.Str? && ResolveBestImage(ToStr(imageUrl), fetch, parse, probe) == Resolved(r.value.s)
    ensures r.Returns? && Truthy(imageUrl) && !IsImgExt(ToStr(imageUrl)) && ResolveBestImage(ToStr(imageUrl), fetch, parse, probe).Resolved? ==>
      r.value == Str(ResolveBestImage(ToStr(imageUrl), fetch, parse, probe).url)
  {
    if !Truthy(imageUrl) then Returns(imageUrl)
    else
      match Coerce(imageUrl)
      case Throws => Throws
      case Returns(u) =>
        if IsImgExt(u) then Returns(imageUrl)
        else
          match ResolveBestImage(u, fetch, parse, probe)
          case Resolved(best) => Returns(Str(best))
          case _ => Returns(imageUrl)
  }

  /** A resolved image URL is one of the page's candidates, and a URL that
      already looks like an image is analysed as given. */
  lemma AnalyzeTargetIsInputOrCandidate(imageUrl: Json, page: PageImages, parse: UrlParser, probe: Prober)
    ensures var r := AnalyzeTarget(imageUrl, Fetched(page), parse, probe);
      r.Returns? ==> r.value == imageUrl || (r.value.Str? && r.value.s in Candidates(ToStr(imageUrl), page, parse))
  {
  }

  /** A page address given as a string never makes the decision throw. */
  lemma StringTargetNeverThrows(u: String, fetch: PageFetch, parse: UrlParser, probe: Prober)
    ensures AnalyzeTarget(Str(u), fetch, parse, probe).Returns?
  {
  }
}

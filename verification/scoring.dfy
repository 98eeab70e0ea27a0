/** The additive score `scoreCandidate(u, info)` gives a probed candidate
    URL: URL-shape signals, the probed content type and a logarithmic
    content-length bonus. */
module Scoring {
  import opened JsStrings
  import opened ImageUrls

  /** What a `HEAD` probe reports: `response.ok`, the `content-length`
      (0 when missing or unparsable) and the lower-cased `content-type`
      (empty when missing). */
  datatype ProbeInfo = ProbeInfo(ok: bool, len: int, contentType: String)

  /** The record a probe that timed out or failed reports. */
  const FailedProbe: ProbeInfo := ProbeInfo(false, 0, "")

  // ---------------------------------------------------------------------------
  // Word boundaries
  // ---------------------------------------------------------------------------

  /** `\w` of a regular expression without the `u` flag. */
  predicate IsWordChar(c: char) {
    ('a' <= c <= 'z') || ('A' <= c <= 'Z') || ('0' <= c <= '9') || c == '_'
  }

  /** `\b` at position `p` of `s`: a word character on exactly one side. */
  predicate AtBoundary(s: String, p: int) {
    (0 < p <= |s| && IsWordChar(s[p - 1])) != (0 <= p < |s| && IsWordChar(s[p]))
  }

  // ---------------------------------------------------------------------------
  // The "large" pattern: /(\b|_)(large|xlarge|xl|1920|1080|1200|2048|hires|original)(\b|_)/i
  // ---------------------------------------------------------------------------

  const LargeTokens: seq<String> := ["large", "xlarge", "xl", "1920", "1080", "1200", "2048", "hires", "original"]

  /** Token `t` at index `k` of the lower-cased `l`, with a boundary or `_`
      on each side. */
  predicate LargeAt(l: String, k: int, t: String) {
    && OccursAt(l, t, k)
    && (AtBoundary(l, k) || (k > 0 && l[k - 1] == '_'))
    && (AtBoundary(l, k + |t|) || (k + |t| < |l| && l[k + |t|] == '_'))
  }

  predicate HasLargeToken(u: String) {
    exists k, t | 0 <= k <= |u| && t in LargeTokens :: LargeAt(Lower(u), k, t)
  }

  // ---------------------------------------------------------------------------
  // The "thumb" pattern: /(\b|[_\-])thumb|thumbnail|small|sm(\b|[_\-])/i
  // The alternation binds loosest, so the four alternatives are
  // `(\b|[_\-])thumb`, `thumbnail`, `small` and `sm(\b|[_\-])`.
  // ---------------------------------------------------------------------------

  predicate IsDash(c: char) {
    c == '_' || c == '-'
  }

  /** `thumb` at `k` with a boundary, `_` or `-` before it. */
  predicate ThumbAt(l: String, k: int) {
    OccursAt(l, "thumb", k) && (AtBoundary(l, k) || (k > 0 && IsDash(l[k - 1])))
  }

  /** `sm` at `k` with a boundary, `_` or `-` after it. */
  predicate SmAt(l: String, k: int) {
    OccursAt(l, "sm", k) && (AtBoundary(l, k + 2) || (k + 2 < |l| && IsDash(l[k + 2])))
  }

  predicate HasThumbToken(u: String) {
    var l := Lower(u);
    || (exists k | 0 <= k <= |l| :: ThumbAt(l, k))
    || Contains(l, "thumbnail")
    || Contains(l, "small")
    || (exists k | 0 <= k <= |l| :: SmAt(l, k))
  }

  lemma OccursAtConcat(a: String, p: String, b: String)
    ensures OccursAt(a + p + b, p, |a|)
  {
    assert (a + p + b)[|a|..|a| + |p|] == p;
  }

  lemma LowerOfConcat(a: String, b: String)
    ensures Lower(a + b) == Lower(a) + Lower(b)
  {
  }

  /** Because of the precedence, `thumbnail` is penalised wherever it
      appears, even inside a longer word. */
  lemma ThumbnailAnywhere(a: String, b: String)
    ensures HasThumbToken(a + "thumbnail" + b)
  {
    LowerOfConcat(a + "thumbnail", b);
    LowerOfConcat(a, "thumbnail");
    assert Lower("thumbnail") == "thumbnail";
    OccursAtConcat(Lower(a), "thumbnail", Lower(b));
  }

  /** Likewise `small`, in any case. */
  lemma SmallAnywhere(a: String, b: String)
    ensures HasThumbToken(a + "SMALL" + b)
  {
    LowerOfConcat(a + "SMALL", b);
    LowerOfConcat(a, "SMALL");
    assert Lower("SMALL") == "small";
    OccursAtConcat(Lower(a), "small", Lower(b));
  }

  /** `sm` only needs a delimiter after it, so a word merely ending in `sm`
      is penalised, while `thumb` glued to a preceding letter is not. */
  lemma ThumbPatternExamples()
    ensures HasThumbToken("prism.jpg")
    ensures HasThumbToken("a-thumb")
    ensures !HasThumbToken("athumb")
  {
    var l1 := Lower("prism.jpg");
    assert l1[3..5] == "sm" && l1[5] == '.';
    assert SmAt(l1, 3);
    var l2 := Lower("a-thumb");
    assert l2 == "a-thumb";
    assert l2[2..7] == "thumb" && l2[1] == '-';
    assert ThumbAt(l2, 2);
    var l3 := Lower("athumb");
    assert l3 == "athumb";
    forall k | 0 <= k <= |l3| ensures !ThumbAt(l3, k) && !SmAt(l3, k) {
      assert !OccursAt(l3, "sm", k) by { assert 's' !in l3; AbsentChar(l3, "sm", k, 's'); }
      if k == 1 {
        assert IsWordChar(l3[0]) && IsWordChar(l3[1]);
      } else {
        assert !OccursAt(l3, "thumb", k);
      }
    }
    assert 's' !in l3;
    forall i | 0 <= i <= |l3| ensures !OccursAt(l3, "small", i) && !OccursAt(l3, "thumbnail", i) {
      AbsentChar(l3, "small", i, 's');
    }
  }

  // ---------------------------------------------------------------------------
  // The content-length bonus
  // ---------------------------------------------------------------------------

  function Pow(b: nat, e: nat): nat {
    if e == 0 then 1 else b * Pow(b, e - 1)
  }

  lemma {:induction false} PowPositive(b: nat, e: nat)
    requires b >= 1
    ensures Pow(b, e) >= 1
  {
    if e > 0 {
      PowPositive(b, e - 1);
    }
  }

  lemma {:induction false} PowMonotoneBase(a: nat, b: nat, e: nat)
    requires 1 <= a <= b
    ensures Pow(a, e) <= Pow(b, e)
  {
    if e > 0 {
      var p, q := Pow(a, e - 1), Pow(b, e - 1);
      PowMonotoneBase(a, b, e - 1);
      MulMonotone(a, b, p);
      MulMonotone(p, q, b);
    }
  }

  lemma MulMonotone(x: nat, y: nat, z: nat)
    requires x <= y
    ensures x * z <= y * z
  {
  }

  lemma {:induction false} PowMonotoneExp(x: nat, y: nat)
    requires x <= y
    ensures Pow(10, x) <= Pow(10, y)
    decreases y
  {
    if x < y {
      PowMonotoneExp(x, y - 1);
      PowPositive(10, y - 1);
    }
  }

  /** The largest `r <= k` with `10^r <= p`. */
  function LargestPowerBelow(p: nat, k: nat): (r: nat)
    requires p >= 1
    ensures r <= k && Pow(10, r) <= p
    ensures r < k ==> p < Pow(10, r + 1)
  {
    if Pow(10, k) <= p then k else LargestPowerBelow(p, k - 1)
  }

  /** `Math.min(600, Math.log10(len + 1) * 120)` when `len > 0`, and 0
      otherwise, rounded down to an integer: the largest `b <= 600` with
      `10^b <= (len + 1)^120`, so that `b <= 120 * log10(len + 1) < b + 1`
      below the cap. */
  function LengthBonus(len: int): (b: int)
    ensures 0 <= b <= 600
    ensures len <= 0 ==> b == 0
    ensures len > 0 ==> Pow(10, b) <= Pow(len + 1, 120)
    ensures len > 0 && b < 600 ==> Pow(len + 1, 120) < Pow(10, b + 1)
  {
    if len <= 0 then 0
    else
      PowPositive(len + 1, 120);
      LargestPowerBelow(Pow(len + 1, 120), 600)
  }

  /** A longer body never earns a smaller bonus. */
  lemma LengthBonusMonotone(a: int, b: int)
    requires a <= b
    ensures LengthBonus(a) <= LengthBonus(b)
  {
    if a > 0 && LengthBonus(b) < 600 {
      PowMonotoneBase(a + 1, b + 1, 120);
      var x := LengthBonus(a);
      var y := LengthBonus(b);
      assert Pow(10, x) < Pow(10, y + 1);
      if y + 1 <= x {
        PowMonotoneExp(y + 1, x);
      }
    }
  }

  // ---------------------------------------------------------------------------
  // The score
  // ---------------------------------------------------------------------------

  /** The terms that depend on the URL alone. */
  function UrlScore(u: String): (s: int)
    ensures -300 <= s <= 750
    ensures IsImgExt(u) && !HasThumbToken(u) ==> s >= 500
  {
    (if IsImgExt(u) then 500 else 0)
      + (if HasLargeToken(u) then 250 else 0)
      - (if HasThumbToken(u) then 300 else 0)
  }

  /** `+400` when the type contains `image/`, `-100` for any other
      non-empty type, nothing for an unknown type. */
  function TypeScore(contentType: String): (s: int)
    ensures s == 400 <==> Contains(contentType, "image/")
    ensures s == -100 <==> contentType != [] && !Contains(contentType, "image/")
    ensures s == 0 <==> contentType == []
  {
    if Contains(contentType, "image/") then 400
    else if contentType != [] then -100
    else 0
  }

  /** `scoreCandidate(u, info)`: apart from the length bonus the score lies
      in [-400, 1150]; the bonus adds between 0 and 600. */
  function Score(u: String, info: ProbeInfo): (s: int)
    ensures -400 <= s - LengthBonus(info.len) <= 1150
    ensures -400 <= s <= 1750
    ensures info.len <= 0 ==> s == UrlScore(u) + TypeScore(info.contentType)
  {
    UrlScore(u) + TypeScore(info.contentType) + LengthBonus(info.len)
  }

  /** A failed probe adds nothing to the URL terms. */
  lemma FailedProbeAddsNothing(u: String)
    ensures Score(u, FailedProbe) == UrlScore(u)
  {
    assert TypeScore(FailedProbe.contentType) == 0;
  }

  /** Every thumbnail alternative contains an `m`. */
  lemma NoThumbTokenWithoutM(u: String)
    requires 'm' !in Lower(u)
    ensures !HasThumbToken(u)
  {
    var l := Lower(u);
    forall k | 0 <= k <= |l| ensures !ThumbAt(l, k) && !SmAt(l, k)
      && !OccursAt(l, "thumbnail", k) && !OccursAt(l, "small", k)
    {
      AbsentChar(l, "thumb", k, 'm');
      AbsentChar(l, "sm", k, 'm');
      AbsentChar(l, "thumbnail", k, 'm');
      AbsentChar(l, "small", k, 'm');
    }
  }

  /** Every large token contains an `l`, an `r`, a `1` or a `2`. */
  lemma NoLargeTokenWithout(u: String)
    requires 'l' !in Lower(u) && 'r' !in Lower(u) && '1' !in Lower(u) && '2' !in Lower(u)
    ensures !HasLargeToken(u)
  {
    var l := Lower(u);
    forall k, t | 0 <= k <= |u| && t in LargeTokens ensures !LargeAt(l, k, t) {
      if t == "large" || t == "xlarge" || t == "xl" {
        AbsentChar(l, t, k, 'l');
      } else if t == "1920" || t == "1080" || t == "1200" {
        AbsentChar(l, t, k, '1');
      } else if t == "2048" {
        AbsentChar(l, t, k, '2');
      } else {
        AbsentChar(l, t, k, 'r');
      }
    }
  }

  /** `photo-1920.jpg` has an image extension and a large token but no
      thumbnail pattern. */
  lemma PhotoUrlScore()
    ensures UrlScore("photo-1920.jpg") == 750
  {
    PhotoIsLowercase();
    PhotoUrlTokens();
    NoThumbTokenWithoutM("photo-1920.jpg");
  }

  lemma PhotoIsLowercase()
    ensures Lower("photo-1920.jpg") == "photo-1920.jpg" && 'm' !in "photo-1920.jpg"
  {
    LowerOfLowercase("photo-1920.jpg");
  }

  lemma PhotoUrlTokens()
    requires Lower("photo-1920.jpg") == "photo-1920.jpg"
    ensures IsImgExt("photo-1920.jpg") && HasLargeToken("photo-1920.jpg")
  {
    var l := "photo-1920.jpg";
    assert ExtensionMatch(l, 10, "jpg") by { assert l[11..14] == "jpg"; }
    assert ExtensionAt(l, 10);
    assert LargeAt(l, 6, "1920") by { assert l[6..10] == "1920" && l[5] == '-' && l[10] == '.'; }
  }

  /** `thumb.jpg` has an image extension and the thumbnail pattern but no
      large token. */
  lemma ThumbUrlScore()
    ensures UrlScore("thumb.jpg") == 200
  {
    ThumbIsLowercase();
    ThumbUrlTokens();
    NoLargeTokenWithout("thumb.jpg");
  }

  lemma ThumbIsLowercase()
    ensures Lower("thumb.jpg") == "thumb.jpg"
    ensures 'l' !in "thumb.jpg" && 'r' !in "thumb.jpg" && '1' !in "thumb.jpg" && '2' !in "thumb.jpg"
  {
    LowerOfLowercase("thumb.jpg");
  }

  lemma ThumbUrlTokens()
    requires Lower("thumb.jpg") == "thumb.jpg"
    ensures IsImgExt("thumb.jpg") && HasThumbToken("thumb.jpg")
  {
    var l := "thumb.jpg";
    assert ExtensionMatch(l, 5, "jpg") by { assert l[6..9] == "jpg"; }
    assert ExtensionAt(l, 5);
    assert ThumbAt(l, 0) by { assert l[0..5] == "thumb"; }
  }

  /** The 1920-wide photo outscores the thumbnail whenever the photo's body
      is at least as long, both being reachable JPEGs. */
  lemma LargePhotoBeatsThumbnail(bigLen: int, smallLen: int)
    requires smallLen <= bigLen
    ensures Score("photo-1920.jpg", ProbeInfo(true, bigLen, "image/jpeg"))
          > Score("thumb.jpg", ProbeInfo(true, smallLen, "image/jpeg"))
  {
    PhotoUrlScore();
    ThumbUrlScore();
    assert Contains("image/jpeg", "image/") by { assert OccursAt("image/jpeg", "image/", 0); }
    LengthBonusMonotone(smallLen, bigLen);
  }
}

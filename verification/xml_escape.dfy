/** Escaping text for an SSML document: the five predefined entities of
    section 4.6 of XML 1.0 (`escapeXml` in the key-authenticated speech
    handler) and the three-entity markup escape of `buildSsml` in the
    identity-authenticated one, with the decoder that inverts both. */
module XmlEscape {
  import opened JsStrings
  import Seqs

  /** `s.replace(/c/g, rep)` for a one-character pattern. */
  function ReplaceChar(s: String, c: char, rep: String): (r: String)
    ensures c !in s ==> r == s
    ensures c !in rep ==> c !in r
  {
    if s == [] then []
    else (if s[0] == c then rep else [s[0]]) + ReplaceChar(s[1..], c, rep)
  }

  /** A character that is neither the one replaced nor part of the
      replacement is in the result exactly when it was in the input. */
  lemma {:induction false} ReplaceCharKeeps(s: String, c: char, rep: String, x: char)
    requires x != c && x !in rep
    ensures x in ReplaceChar(s, c, rep) <==> x in s
    decreases |s|
  {
    if s != [] {
      ReplaceCharKeeps(s[1..], c, rep, x);
      assert s == [s[0]] + s[1..];
    }
  }

  /** Replacing distributes over concatenation. */
  lemma {:induction false} ReplaceCharConcat(a: String, b: String, c: char, rep: String)
    ensures ReplaceChar(a + b, c, rep) == ReplaceChar(a, c, rep) + ReplaceChar(b, c, rep)
    decreases |a|
  {
    if a == [] {
      assert a + b == b;
    } else {
      var ab := a + b;
      assert ab[0] == a[0] && ab[1..] == a[1..] + b;
      ReplaceCharConcat(a[1..], b, c, rep);
      var h := if a[0] == c then rep else [a[0]];
      assert ReplaceChar(ab, c, rep) == h + ReplaceChar(a[1..] + b, c, rep);
      assert ReplaceChar(a, c, rep) == h + ReplaceChar(a[1..], c, rep);
      Seqs.ConcatAssoc(h, ReplaceChar(a[1..], c, rep), ReplaceChar(b, c, rep));
    }
  }

  // ---------------------------------------------------------------------------
  // The five predefined entities
  // ---------------------------------------------------------------------------

  predicate IsMarkupChar(c: char) {
    c == '&' || c == '<' || c == '>'
  }

  predicate IsQuoteChar(c: char) {
    c == '"' || c == '\''
  }

  /** The entity reference of a special character, the character itself
      otherwise. */
  function EntityOf(c: char): (r: String)
    ensures !IsMarkupChar(c) && !IsQuoteChar(c) ==> r == [c]
    ensures IsMarkupChar(c) || IsQuoteChar(c) ==> |r| >= 4 && r[0] == '&' && r[|r| - 1] == ';'
  {
    match c
    case '&' => "&amp;"
    case '<' => "&lt;"
    case '>' => "&gt;"
    case '"' => "&quot;"
    case '\'' => "&apos;"
    case _ => [c]
  }

  /** The per-character reference definition: every character replaced by
      its entity. */
  function EscapeEach(s: String): String {
    if s == [] then [] else EntityOf(s[0]) + EscapeEach(s[1..])
  }

  /** `escapeXml(s)`: five global replacements, `&` first so that the
      ampersands the later replacements introduce are not escaped again. */
  function EscapeXml(s: String): String {
    var a := ReplaceChar(s, '&', "&amp;");
    var b := ReplaceChar(a, '<', "&lt;");
    var c := ReplaceChar(b, '>', "&gt;");
    var d := ReplaceChar(c, '"', "&quot;");
    ReplaceChar(d, '\'', "&apos;")
  }

  /** No entity reference contains a markup character or a quote. */
  lemma EntityOfRemovesMarkup(c: char)
    ensures '<' !in EntityOf(c) && '>' !in EntityOf(c) && '"' !in EntityOf(c) && '\'' !in EntityOf(c)
  {
  }

  lemma {:induction false} EscapeEachRemovesMarkup(s: String)
    ensures '<' !in EscapeEach(s) && '>' !in EscapeEach(s) && '"' !in EscapeEach(s) && '\'' !in EscapeEach(s)
    decreases |s|
  {
    if s != [] {
      EntityOfRemovesMarkup(s[0]);
      EscapeEachRemovesMarkup(s[1..]);
    }
  }

  /** The escaped text holds no `<`, `>`, `"` or `'`. */
  lemma EscapeXmlRemovesMarkup(s: String)
    ensures '<' !in EscapeXml(s) && '>' !in EscapeXml(s) && '"' !in EscapeXml(s) && '\'' !in EscapeXml(s)
  {
    EscapeXmlPerChar(s);
    EscapeEachRemovesMarkup(s);
  }

  /** The sequence of replacements escapes each character on its own. */
  lemma {:induction false} EscapeXmlPerChar(s: String)
    ensures EscapeXml(s) == EscapeEach(s)
    decreases |s|
  {
    if s != [] {
      var h, t := [s[0]], s[1..];
      assert s == h + t;
      EscapeXmlPerChar(t);
      var a1, a2 := ReplaceChar(h, '&', "&amp;"), ReplaceChar(t, '&', "&amp;");
      ReplaceCharConcat(h, t, '&', "&amp;");
      var b1, b2 := ReplaceChar(a1, '<', "&lt;"), ReplaceChar(a2, '<', "&lt;");
      ReplaceCharConcat(a1, a2, '<', "&lt;");
      var c1, c2 := ReplaceChar(b1, '>', "&gt;"), ReplaceChar(b2, '>', "&gt;");
      ReplaceCharConcat(b1, b2, '>', "&gt;");
      var d1, d2 := ReplaceChar(c1, '"', "&quot;"), ReplaceChar(c2, '"', "&quot;");
      ReplaceCharConcat(c1, c2, '"', "&quot;");
      ReplaceCharConcat(d1, d2, '\'', "&apos;");
      assert EscapeXml(h) == EntityOf(s[0]) by { EscapeXmlOfChar(s[0]); }
    }
  }

  /** Text without special characters is left as it is. */
  lemma EscapeXmlPlain(s: String)
    requires forall i :: 0 <= i < |s| ==> !IsMarkupChar(s[i]) && !IsQuoteChar(s[i])
    ensures EscapeXml(s) == s
  {
    assert '&' !in s && '<' !in s && '>' !in s && '"' !in s && '\'' !in s;
  }

  lemma ReplaceCharSingle(x: char, c: char, rep: String)
    ensures ReplaceChar([x], c, rep) == if x == c then rep else [x]
  {
    assert [x][1..] == [];
  }

  lemma AmpEntityPlain()
    ensures '<' !in "&amp;" && '>' !in "&amp;" && '"' !in "&amp;" && '\'' !in "&amp;"
  {
  }

  /** One character through the five replacements. */
  lemma EscapeXmlOfChar(x: char)
    ensures EscapeXml([x]) == EntityOf(x)
  {
    if x == '&' {
      EscapeXmlOfAmp();
    } else if x == '<' {
      EscapeXmlOfLt();
    } else if x == '>' {
      EscapeXmlOfGt();
    } else if x == '"' {
      EscapeXmlOfQuot();
    } else if x == '\'' {
      EscapeXmlOfApos();
    } else {
      EscapeXmlOfPlain(x);
    }
  }

  lemma EscapeXmlOfPlain(x: char)
    requires !IsMarkupChar(x) && !IsQuoteChar(x)
    ensures EscapeXml([x]) == [x]
  {
    ReplaceCharSingle(x, '&', "&amp;");
    ReplaceCharSingle(x, '<', "&lt;");
    ReplaceCharSingle(x, '>', "&gt;");
    ReplaceCharSingle(x, '"', "&quot;");
    ReplaceCharSingle(x, '\'', "&apos;");
  }

  lemma EscapeXmlOfAmp()
    ensures EscapeXml("&") == "&amp;"
  {
    ReplaceCharSingle('&', '&', "&amp;");
    AmpEntityPlain();
  }

  lemma EscapeXmlOfLt()
    ensures EscapeXml("<") == "&lt;"
  {
    ReplaceCharSingle('<', '&', "&amp;");
    ReplaceCharSingle('<', '<', "&lt;");
    assert '>' !in "&lt;" && '"' !in "&lt;" && '\'' !in "&lt;";
  }

  lemma EscapeXmlOfGt()
    ensures EscapeXml(">") == "&gt;"
  {
    ReplaceCharSingle('>', '&', "&amp;");
    ReplaceCharSingle('>', '<', "&lt;");
    ReplaceCharSingle('>', '>', "&gt;");
    assert '"' !in "&gt;" && '\'' !in "&gt;";
  }

  lemma EscapeXmlOfQuot()
    ensures EscapeXml("\"") == "&quot;"
  {
    ReplaceCharSingle('"', '&', "&amp;");
    ReplaceCharSingle('"', '<', "&lt;");
    ReplaceCharSingle('"', '>', "&gt;");
    ReplaceCharSingle('"', '"', "&quot;");
    assert '\'' !in "&quot;";
  }

  lemma EscapeXmlOfApos()
    ensures EscapeXml("'") == "&apos;"
  {
    ReplaceCharSingle('\'', '&', "&amp;");
    ReplaceCharSingle('\'', '<', "&lt;");
    ReplaceCharSingle('\'', '>', "&gt;");
    ReplaceCharSingle('\'', '"', "&quot;");
    ReplaceCharSingle('\'', '\'', "&apos;");
  }

  /** Escaping the ampersand last would escape the entities just made:
      `<` would come out as `&amp;lt;`. */
  lemma AmpersandMustComeFirst()
    ensures ReplaceChar(ReplaceChar("<", '<', "&lt;"), '&', "&amp;") == "&amp;lt;"
  {
    ReplaceCharSingle('<', '<', "&lt;");
    var t := "&lt;";
    assert t[0] == '&' && t[1..] == "lt;";
    assert '&' !in "lt;";
    assert ReplaceChar(t, '&', "&amp;") == "&amp;" + "lt;";
  }

  // ---------------------------------------------------------------------------
  // Decoding
  // ---------------------------------------------------------------------------

  /** Replaces each of the five entity references by its character, reading
      from left to right; anything else is kept. */
  function Unescape(t: String): (r: String)
    ensures |r| <= |t|
  {
    if t == [] then []
    else if StartsWith(t, "&amp;") then "&" + Unescape(t[5..])
    else if StartsWith(t, "&lt;") then "<" + Unescape(t[4..])
    else if StartsWith(t, "&gt;") then ">" + Unescape(t[4..])
    else if StartsWith(t, "&quot;") then "\"" + Unescape(t[6..])
    else if StartsWith(t, "&apos;") then "'" + Unescape(t[6..])
    else [t[0]] + Unescape(t[1..])
  }

  /** The decoder reads back the entity of one character. */
  lemma UnescapeEntity(c: char, rest: String)
    ensures Unescape(EntityOf(c) + rest) == [c] + Unescape(rest)
  {
    if c == '&' {
      UnescapeAmp(rest);
    } else if c == '<' {
      UnescapeLt(rest);
    } else if c == '>' {
      UnescapeGt(rest);
    } else if c == '"' {
      UnescapeQuot(rest);
    } else if c == '\'' {
      UnescapeApos(rest);
    } else {
      UnescapePlainChar(c, rest);
    }
  }

  lemma UnescapeAmp(rest: String)
    ensures Unescape("&amp;" + rest) == "&" + Unescape(rest)
  {
    var t := "&amp;" + rest;
    assert t[..5] == "&amp;" && t[5..] == rest;
  }

  lemma UnescapeLt(rest: String)
    ensures Unescape("&lt;" + rest) == "<" + Unescape(rest)
  {
    var t := "&lt;" + rest;
    assert t[1] == 'l';
    assert t[..4] == "&lt;" && t[4..] == rest;
  }

  lemma UnescapeGt(rest: String)
    ensures Unescape("&gt;" + rest) == ">" + Unescape(rest)
  {
    var t := "&gt;" + rest;
    assert t[1] == 'g';
    assert t[..4] == "&gt;" && t[4..] == rest;
  }

  lemma UnescapeQuot(rest: String)
    ensures Unescape("&quot;" + rest) == "\"" + Unescape(rest)
  {
    var t := "&quot;" + rest;
    assert t[1] == 'q';
    assert !StartsWith(t, "&amp;") by { assert t[..5][1] == 'q'; }
    assert !StartsWith(t, "&lt;") && !StartsWith(t, "&gt;") by { assert t[..4][1] == 'q'; }
    assert t[..6] == "&quot;" && t[6..] == rest;
  }

  lemma UnescapeApos(rest: String)
    ensures Unescape("&apos;" + rest) == "'" + Unescape(rest)
  {
    var t := "&apos;" + rest;
    assert t[1] == 'a' && t[2] == 'p';
    assert t[..6] == "&apos;" && t[6..] == rest;
  }

  /** A character other than `&` decodes to itself. */
  lemma UnescapePlainChar(c: char, rest: String)
    requires c != '&'
    ensures Unescape([c] + rest) == [c] + Unescape(rest)
  {
    var t := [c] + rest;
    assert t[0] == c && t[1..] == rest;
    assert !StartsWith(t, "&amp;") && !StartsWith(t, "&lt;") && !StartsWith(t, "&gt;");
    assert !StartsWith(t, "&quot;") && !StartsWith(t, "&apos;");
  }

  /** Decoding undoes `escapeXml`. */
  lemma {:induction false} UnescapeEscapeXml(s: String)
    ensures Unescape(EscapeXml(s)) == s
  {
    EscapeXmlPerChar(s);
    UnescapeEscapeEach(s);
  }

  lemma {:induction false} UnescapeEscapeEach(s: String)
    ensures Unescape(EscapeEach(s)) == s
    decreases |s|
  {
    if s != [] {
      UnescapeEscapeEach(s[1..]);
      UnescapeEntity(s[0], EscapeEach(s[1..]));
      assert s == [s[0]] + s[1..];
    }
  }

  /** `t` begins with one of the five entity references. */
  predicate BeginsEntity(t: String) {
    || StartsWith(t, "&amp;")
    || StartsWith(t, "&lt;")
    || StartsWith(t, "&gt;")
    || StartsWith(t, "&quot;")
    || StartsWith(t, "&apos;")
  }

  /** Every `&` of `t` begins an entity reference. */
  ghost predicate AmpersandsBeginEntities(t: String) {
    forall i :: 0 <= i < |t| && t[i] == '&' ==> BeginsEntity(t[i..])
  }

  lemma BeginsEntityExtend(t: String, u: String)
    requires BeginsEntity(t)
    ensures BeginsEntity(t + u)
  {
    var x := t + u;
    assert forall n :: 0 <= n <= |t| ==> x[..n] == t[..n];
  }

  /** Every `&` in the output of `escapeXml` begins one of the five
      entity references. */
  lemma {:induction false} EscapeXmlAmpersands(s: String)
    ensures AmpersandsBeginEntities(EscapeXml(s))
  {
    EscapeXmlPerChar(s);
    EscapeEachAmpersands(s);
  }

  lemma {:induction false} EscapeEachAmpersands(s: String)
    ensures AmpersandsBeginEntities(EscapeEach(s))
    decreases |s|
  {
    if s != [] {
      var e := EntityOf(s[0]);
      var rest := EscapeEach(s[1..]);
      var t := e + rest;
      EscapeEachAmpersands(s[1..]);
      forall i | 0 <= i < |t| && t[i] == '&' ensures BeginsEntity(t[i..]) {
        if i < |e| {
          assert e[i] == '&';
          EntityAmpersand(s[0], i);
          BeginsEntityExtend(e, rest);
        } else {
          assert t[i..] == rest[i - |e|..];
          assert rest[i - |e|] == '&';
        }
      }
    }
  }

  /** An entity has its only `&` in front, and starts with an entity. */
  lemma EntityAmpersand(c: char, i: int)
    requires 0 <= i < |EntityOf(c)| && EntityOf(c)[i] == '&'
    ensures i == 0 && BeginsEntity(EntityOf(c))
  {
  }

  // ---------------------------------------------------------------------------
  // The three-entity escape of buildSsml
  // ---------------------------------------------------------------------------

  /** `(text || "").replace(/&/g,"&amp;").replace(/</g,"&lt;").replace(/>/g,"&gt;")`
      on a string: quotes and apostrophes are left as they are. */
  function EscapeMarkup(s: String): (r: String)
    ensures '<' !in r && '>' !in r
    ensures '"' in r <==> '"' in s
    ensures '\'' in r <==> '\'' in s
    ensures (forall i :: 0 <= i < |s| ==> !IsMarkupChar(s[i])) ==> r == s
  {
    var a := ReplaceChar(s, '&', "&amp;");
    var b := ReplaceChar(a, '<', "&lt;");
    var r := ReplaceChar(b, '>', "&gt;");
    ReplaceCharKeeps(b, '>', "&gt;", '<');
    ReplaceCharKeeps(s, '&', "&amp;", '"');
    ReplaceCharKeeps(a, '<', "&lt;", '"');
    ReplaceCharKeeps(b, '>', "&gt;", '"');
    ReplaceCharKeeps(s, '&', "&amp;", '\'');
    ReplaceCharKeeps(a, '<', "&lt;", '\'');
    ReplaceCharKeeps(b, '>', "&gt;", '\'');
    r
  }

  function MarkupEntityOf(c: char): String {
    if IsMarkupChar(c) then EntityOf(c) else [c]
  }

  lemma EscapeMarkupOfChar(x: char)
    ensures EscapeMarkup([x]) == MarkupEntityOf(x)
  {
    if x == '&' {
      ReplaceCharSingle('&', '&', "&amp;");
      AmpEntityPlain();
    } else if x == '<' {
      EscapeMarkupOfLt();
    } else if x == '>' {
      EscapeMarkupOfGt();
    } else {
      ReplaceCharSingle(x, '&', "&amp;");
      ReplaceCharSingle(x, '<', "&lt;");
      ReplaceCharSingle(x, '>', "&gt;");
    }
  }

  lemma EscapeMarkupOfLt()
    ensures EscapeMarkup("<") == "&lt;"
  {
    ReplaceCharSingle('<', '&', "&amp;");
    ReplaceCharSingle('<', '<', "&lt;");
    assert '>' !in "&lt;";
  }

  lemma EscapeMarkupOfGt()
    ensures EscapeMarkup(">") == "&gt;"
  {
    ReplaceCharSingle('>', '&', "&amp;");
    ReplaceCharSingle('>', '<', "&lt;");
    ReplaceCharSingle('>', '>', "&gt;");
  }

  lemma {:induction false} EscapeMarkupCons(s: String)
    requires s != []
    ensures EscapeMarkup(s) == MarkupEntityOf(s[0]) + EscapeMarkup(s[1..])
  {
    var h, t := [s[0]], s[1..];
    assert s == h + t;
    var a1, a2 := ReplaceChar(h, '&', "&amp;"), ReplaceChar(t, '&', "&amp;");
    ReplaceCharConcat(h, t, '&', "&amp;");
    var b1, b2 := ReplaceChar(a1, '<', "&lt;"), ReplaceChar(a2, '<', "&lt;");
    ReplaceCharConcat(a1, a2, '<', "&lt;");
    ReplaceCharConcat(b1, b2, '>', "&gt;");
    EscapeMarkupOfChar(s[0]);
  }

  /** The same decoder undoes the three-entity escape: a quote left in place
      decodes to itself. */
  lemma {:induction false} UnescapeEscapeMarkup(s: String)
    ensures Unescape(EscapeMarkup(s)) == s
    decreases |s|
  {
    if s != [] {
      EscapeMarkupCons(s);
      UnescapeEscapeMarkup(s[1..]);
      if IsMarkupChar(s[0]) {
        UnescapeEntity(s[0], EscapeMarkup(s[1..]));
      } else {
        UnescapePlainChar(s[0], EscapeMarkup(s[1..]));
      }
      assert s == [s[0]] + s[1..];
    }
  }
}

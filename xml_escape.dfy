/**
 * `escapeXml` of the feed route: four global single-character replacements, the
 * ampersand first, and the decoder that inverts it.
 */
module XmlEscape {

  /** `s.replace(/c/g, rep)` for a one-character pattern `c`. */
  function ReplaceAll(s: string, c: char, rep: string): (r: string)
    ensures forall x :: x in r ==> (x in s && x != c) || x in rep
  {
    if s == [] then [] else (if s[0] == c then rep else [s[0]]) + ReplaceAll(s[1..], c, rep)
  }

  /**
   * `escapeXml(str)` as written: `&` first, then `<`, `>` and `"`. The output holds no
   * raw `<`, `>` or `"`, so it cannot open or close markup.
   */
  function EscapeXml(s: string): (r: string)
    ensures '<' !in r && '>' !in r && '\"' !in r
  {
    ReplaceAll(ReplaceAll(ReplaceAll(ReplaceAll(s, '&', "&amp;"), '<', "&lt;"), '>', "&gt;"), '\"', "&quot;")
  }

  /** The four characters `escapeXml` rewrites. The apostrophe is not among them. */
  predicate IsMeta(c: char)
  {
    c == '&' || c == '<' || c == '>' || c == '\"'
  }

  /** Reference definition: the replacement of a single character. */
  function EscapeChar(c: char): (r: string)
    ensures |r| >= 1
    ensures IsMeta(c) <==> |r| > 1
  {
    if c == '&' then "&amp;"
    else if c == '<' then "&lt;"
    else if c == '>' then "&gt;"
    else if c == '\"' then "&quot;"
    else [c]
  }

  /** Reference definition: every character replaced independently, in order. */
  function EscapeEach(s: string): (r: string)
  {
    if s == [] then [] else EscapeChar(s[0]) + EscapeEach(s[1..])
  }

  /** The sum of the per-character replacement lengths. */
  function EscapedLength(s: string): (n: nat)
  {
    if s == [] then 0 else |EscapeChar(s[0])| + EscapedLength(s[1..])
  }

  /** One of the four entities `escapeXml` introduces begins at index `i` of `s`. */
  predicate EntityAt(s: string, i: nat)
    requires i <= |s|
  {
    "&amp;" <= s[i..] || "&lt;" <= s[i..] || "&gt;" <= s[i..] || "&quot;" <= s[i..]
  }

  /** Decoder for the four entities; any other character is copied. */
  function UnescapeXml(s: string): (r: string)
    decreases |s|
  {
    if s == [] then []
    else if "&amp;" <= s then "&" + UnescapeXml(s[5..])
    else if "&lt;" <= s then "<" + UnescapeXml(s[4..])
    else if "&gt;" <= s then ">" + UnescapeXml(s[4..])
    else if "&quot;" <= s then "\"" + UnescapeXml(s[6..])
    else [s[0]] + UnescapeXml(s[1..])
  }

  lemma {:induction false} ReplaceAllConcat(a: string, b: string, c: char, rep: string)
    ensures ReplaceAll(a + b, c, rep) == ReplaceAll(a, c, rep) + ReplaceAll(b, c, rep)
  {
    if a == [] {
      assert a + b == b;
    } else {
      var h := if a[0] == c then rep else [a[0]];
      assert (a + b)[0] == a[0];
      assert (a + b)[1..] == a[1..] + b;
      ReplaceAllConcat(a[1..], b, c, rep);
      calc {
        ReplaceAll(a + b, c, rep);
        h + ReplaceAll(a[1..] + b, c, rep);
        h + (ReplaceAll(a[1..], c, rep) + ReplaceAll(b, c, rep));
        (h + ReplaceAll(a[1..], c, rep)) + ReplaceAll(b, c, rep);
      }
    }
  }

  lemma ReplaceAllOne(x: char, c: char, rep: string)
    ensures ReplaceAll([x], c, rep) == if x == c then rep else [x]
  {
    assert [x][1..] == [];
  }

  lemma {:induction false} ReplaceAllAbsent(s: string, c: char, rep: string)
    requires c !in s
    ensures ReplaceAll(s, c, rep) == s
  {
    if s != [] {
      ReplaceAllAbsent(s[1..], c, rep);
    }
  }

  /** The entities introduced by earlier replacements hold none of the later patterns. */
  lemma EntitiesFreeOfLaterPatterns()
    ensures '<' !in "&amp;" && '>' !in "&amp;" && '\"' !in "&amp;"
    ensures '>' !in "&lt;" && '\"' !in "&lt;" && '\"' !in "&gt;"
  {
  }

  lemma EscapeXmlOneChar(c: char)
    ensures EscapeXml([c]) == EscapeChar(c)
  {
    EntitiesFreeOfLaterPatterns();
    var s0 := ReplaceAll([c], '&', "&amp;");
    var s1 := ReplaceAll(s0, '<', "&lt;");
    var s2 := ReplaceAll(s1, '>', "&gt;");
    ReplaceAllOne(c, '&', "&amp;");
    if c == '&' {
      assert s0 == "&amp;";
      ReplaceAllAbsent("&amp;", '<', "&lt;");
      ReplaceAllAbsent("&amp;", '>', "&gt;");
      ReplaceAllAbsent("&amp;", '\"', "&quot;");
    } else {
      assert s0 == [c];
      ReplaceAllOne(c, '<', "&lt;");
      if c == '<' {
        assert s1 == "&lt;";
        ReplaceAllAbsent("&lt;", '>', "&gt;");
        ReplaceAllAbsent("&lt;", '\"', "&quot;");
      } else {
        assert s1 == [c];
        ReplaceAllOne(c, '>', "&gt;");
        if c == '>' {
          assert s2 == "&gt;";
          ReplaceAllAbsent("&gt;", '\"', "&quot;");
        } else {
          assert s2 == [c];
          ReplaceAllOne(c, '\"', "&quot;");
        }
      }
    }
  }

  /** The chain of four replacements equals the per-character encoder. */
  lemma {:induction false} EscapeXmlIsPerChar(s: string)
    ensures EscapeXml(s) == EscapeEach(s)
  {
    if s != [] {
      assert s == [s[0]] + s[1..];
      EscapeXmlConcat([s[0]], s[1..]);
      EscapeXmlOneChar(s[0]);
      EscapeXmlIsPerChar(s[1..]);
    }
  }

  /** Escaping distributes over concatenation. */
  lemma EscapeXmlConcat(a: string, b: string)
    ensures EscapeXml(a + b) == EscapeXml(a) + EscapeXml(b)
  {
    var a0, b0 := ReplaceAll(a, '&', "&amp;"), ReplaceAll(b, '&', "&amp;");
    ReplaceAllConcat(a, b, '&', "&amp;");
    var a1, b1 := ReplaceAll(a0, '<', "&lt;"), ReplaceAll(b0, '<', "&lt;");
    ReplaceAllConcat(a0, b0, '<', "&lt;");
    var a2, b2 := ReplaceAll(a1, '>', "&gt;"), ReplaceAll(b1, '>', "&gt;");
    ReplaceAllConcat(a1, b1, '>', "&gt;");
    ReplaceAllConcat(a2, b2, '\"', "&quot;");
  }

  lemma {:induction false} EscapeEachConcat(a: string, b: string)
    ensures EscapeEach(a + b) == EscapeEach(a) + EscapeEach(b)
  {
    if a == [] {
      assert a + b == b;
    } else {
      assert (a + b)[0] == a[0];
      assert (a + b)[1..] == a[1..] + b;
      EscapeEachConcat(a[1..], b);
    }
  }

  /**
   * Every `&` in the output of `escapeXml` begins one of the four entities: since `&` is
   * replaced first, no entity introduced later is escaped again.
   */
  lemma {:induction false} EscapeXmlAmpersandsAreEntities(s: string)
    ensures forall i :: 0 <= i < |EscapeXml(s)| && EscapeXml(s)[i] == '&' ==> EntityAt(EscapeXml(s), i)
  {
    EscapeXmlIsPerChar(s);
    AmpersandsEach(s);
  }

  lemma {:induction false} AmpersandsEach(s: string)
    ensures forall i :: 0 <= i < |EscapeEach(s)| && EscapeEach(s)[i] == '&' ==> EntityAt(EscapeEach(s), i)
  {
    if s != [] {
      AmpersandsEach(s[1..]);
      var h, t := EscapeChar(s[0]), EscapeEach(s[1..]);
      var r := h + t;
      forall i | 0 <= i < |r| && r[i] == '&'
        ensures EntityAt(r, i)
      {
        if i < |h| {
          assert i == 0;
          assert h <= r[i..];
        } else {
          assert r[i..] == t[i - |h|..];
          assert EntityAt(t, i - |h|);
        }
      }
    }
  }

  lemma UnescapeEscapeChar(c: char, t: string)
    ensures UnescapeXml(EscapeChar(c) + t) == [c] + UnescapeXml(t)
  {
    var u := EscapeChar(c) + t;
    if c == '&' {
      assert "&amp;" <= u && u[5..] == t;
    } else if c == '<' {
      assert u[1] == 'l' && "&lt;" <= u && u[4..] == t;
    } else if c == '>' {
      assert u[1] == 'g' && "&gt;" <= u && u[4..] == t;
    } else if c == '\"' {
      assert u[1] == 'q' && "&quot;" <= u && u[6..] == t;
    } else {
      assert u[0] == c && u[1..] == t;
    }
  }

  /** Round trip: decoding the four entities in `escapeXml(s)` gives back `s`. */
  lemma {:induction false} EscapeXmlRoundTrip(s: string)
    ensures UnescapeXml(EscapeXml(s)) == s
  {
    EscapeXmlIsPerChar(s);
    UnescapeEscapeEach(s);
  }

  lemma {:induction false} UnescapeEscapeEach(s: string)
    ensures UnescapeXml(EscapeEach(s)) == s
  {
    if s != [] {
      UnescapeEscapeChar(s[0], EscapeEach(s[1..]));
      UnescapeEscapeEach(s[1..]);
    }
  }

  /** The output is the sum of the per-character replacement lengths, so never shorter than the input. */
  lemma {:induction false} EscapeXmlLength(s: string)
    ensures |EscapeXml(s)| == EscapedLength(s)
    ensures |EscapeXml(s)| >= |s|
    ensures (exists i :: 0 <= i < |s| && IsMeta(s[i])) ==> |EscapeXml(s)| > |s|
  {
    EscapeXmlIsPerChar(s);
    EscapeEachLength(s);
  }

  lemma {:induction false} EscapeEachLength(s: string)
    ensures |EscapeEach(s)| == EscapedLength(s) >= |s|
    ensures (exists i :: 0 <= i < |s| && IsMeta(s[i])) ==> EscapedLength(s) > |s|
  {
    if s != [] {
      EscapeEachLength(s[1..]);
      if i :| 0 <= i < |s| && IsMeta(s[i]) {
        if i > 0 {
          assert IsMeta(s[1..][i - 1]);
        }
      }
    }
  }

  /**
   * `escapeXml` leaves a string unchanged exactly when it holds none of `& < > "`; every
   * other character, the apostrophe included, passes through.
   */
  lemma EscapeXmlIdentity(s: string)
    ensures EscapeXml(s) == s <==> forall i :: 0 <= i < |s| ==> !IsMeta(s[i])
  {
    EscapeXmlLength(s);
    if forall i :: 0 <= i < |s| ==> !IsMeta(s[i]) {
      EscapeXmlIsPerChar(s);
      EscapeEachIdentity(s);
    }
  }

  lemma {:induction false} EscapeEachIdentity(s: string)
    requires forall i :: 0 <= i < |s| ==> !IsMeta(s[i])
    ensures EscapeEach(s) == s
  {
    if s != [] {
      assert !IsMeta(s[0]);
      EscapeEachIdentity(s[1..]);
    }
  }

  lemma {:induction false} EscapeEachHasAmpersand(s: string, i: nat)
    requires i < |s| && IsMeta(s[i])
    ensures '&' in EscapeEach(s)
  {
    if i == 0 {
      assert EscapeEach(s)[0] == EscapeChar(s[0])[0] == '&';
    } else {
      EscapeEachHasAmpersand(s[1..], i - 1);
    }
  }

  /**
   * Escaping twice equals escaping once only on metacharacter-free text; on anything
   * holding `& < > "` it is not idempotent (`&` gives `&amp;`, then `&amp;amp;`).
   */
  lemma EscapeXmlIdempotentIff(s: string)
    ensures EscapeXml(EscapeXml(s)) == EscapeXml(s) <==> forall i :: 0 <= i < |s| ==> !IsMeta(s[i])
  {
    var e := EscapeXml(s);
    EscapeXmlIdentity(s);
    EscapeXmlIdentity(e);
    if i :| 0 <= i < |s| && IsMeta(s[i]) {
      EscapeXmlIsPerChar(s);
      EscapeEachHasAmpersand(s, i);
      var k :| 0 <= k < |e| && e[k] == '&';
      assert IsMeta(e[k]);
    }
  }
}

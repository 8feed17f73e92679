/**
 * HTML entity escaping (escapeHtml.js, and the identical local copies in
 * consoleFence.js and promptFence.js): each of `&`, `<`, `>` and `"` becomes
 * its named entity, every other character is copied.
 */
module EscapeHtml {
  import opened Text

  /** The characters the entity map covers. */
  predicate IsSpecial(c: char) {
    c == '&' || c == '<' || c == '>' || c == '"'
  }

  /** What one character becomes: its entity, or itself. */
  function Entity(c: char): string {
    if c == '&' then "&amp;"
    else if c == '<' then "&lt;"
    else if c == '>' then "&gt;"
    else if c == '"' then "&quot;"
    else [c]
  }

  /** `contents.replace(/[&<>"]/g, character => entityMap[character])`. */
  function Escape(s: string): string
    decreases |s|
  {
    if |s| == 0 then "" else Entity(s[0]) + Escape(s[1..])
  }

  /** Decodes the four entities, left to right; every other character is kept. */
  function Unescape(t: string): string
    decreases |t|
  {
    if |t| == 0 then ""
    else if StartsWith(t, "&amp;") then "&" + Unescape(t[5..])
    else if StartsWith(t, "&lt;") then "<" + Unescape(t[4..])
    else if StartsWith(t, "&gt;") then ">" + Unescape(t[4..])
    else if StartsWith(t, "&quot;") then "\"" + Unescape(t[6..])
    else [t[0]] + Unescape(t[1..])
  }

  /** One of the four entities starts at index `i` of `t`. */
  predicate EntityAt(t: string, i: nat) {
    OccursAt(t, "&amp;", i) || OccursAt(t, "&lt;", i) || OccursAt(t, "&gt;", i) || OccursAt(t, "&quot;", i)
  }

  /**
   * Text an HTML parser cannot read as markup: no `<`, `>` or `"`, and every
   * `&` opens one of the four entities.
   */
  predicate Safe(t: string) {
    forall i :: 0 <= i < |t| ==> t[i] != '<' && t[i] != '>' && t[i] != '"' && (t[i] == '&' ==> EntityAt(t, i))
  }

  lemma UnescapeEntity(c: char, rest: string)
    ensures Unescape(Entity(c) + rest) == [c] + Unescape(rest)
  {
    if c == '&' {
      UnescapeAmp(rest);
    } else if c == '<' {
      UnescapeLt(rest);
    } else if c == '>' {
      UnescapeGt(rest);
    } else if c == '"' {
      UnescapeQuot(rest);
    } else {
      UnescapePlain(c, rest);
    }
  }

  lemma UnescapeAmp(rest: string)
    ensures Unescape("&amp;" + rest) == "&" + Unescape(rest)
  {
    var t := "&amp;" + rest;
    assert t[..5] == "&amp;" && t[5..] == rest;
  }

  lemma UnescapeLt(rest: string)
    ensures Unescape("&lt;" + rest) == "<" + Unescape(rest)
  {
    var t := "&lt;" + rest;
    assert t[..4] == "&lt;" && t[4..] == rest;
    assert t[1] == 'l';
  }

  lemma UnescapeGt(rest: string)
    ensures Unescape("&gt;" + rest) == ">" + Unescape(rest)
  {
    var t := "&gt;" + rest;
    assert t[..4] == "&gt;" && t[4..] == rest;
    assert !StartsWith(t, "&amp;") by { assert t[1] == 'g'; }
    assert !StartsWith(t, "&lt;") by { assert t[1] == 'g'; }
  }

  lemma UnescapeQuot(rest: string)
    ensures Unescape("&quot;" + rest) == "\"" + Unescape(rest)
  {
    var t := "&quot;" + rest;
    assert t[..6] == "&quot;" && t[6..] == rest;
    assert t[1] == 'q';
  }

  lemma UnescapePlain(c: char, rest: string)
    requires !IsSpecial(c)
    ensures Unescape([c] + rest) == [c] + Unescape(rest)
  {
    var t := [c] + rest;
    assert t[0] == c && t[1..] == rest;
  }

  /** Decoding the entities recovers the escaped text. */
  lemma {:induction false} UnescapeEscape(s: string)
    ensures Unescape(Escape(s)) == s
    decreases |s|
  {
    if |s| > 0 {
      UnescapeEntity(s[0], Escape(s[1..]));
      UnescapeEscape(s[1..]);
      assert [s[0]] + s[1..] == s;
    }
  }

  /** Escaping never maps two different texts to the same output. */
  lemma EscapeInjective(a: string, b: string)
    requires Escape(a) == Escape(b)
    ensures a == b
  {
    UnescapeEscape(a);
    UnescapeEscape(b);
  }

  /** An occurrence in either half is an occurrence in the concatenation. */
  lemma OccursInAppend(a: string, b: string, e: string, k: nat)
    ensures OccursAt(a, e, k) ==> OccursAt(a + b, e, k)
    ensures OccursAt(b, e, k) ==> OccursAt(a + b, e, |a| + k)
  {
    var t := a + b;
    if OccursAt(a, e, k) {
      assert t[k..k + |e|] == a[k..k + |e|];
    }
    if OccursAt(b, e, k) {
      assert t[|a| + k..|a| + k + |e|] == b[k..k + |e|];
    }
  }

  /** An entity in either half is an entity in the concatenation. */
  lemma EntityInAppend(a: string, b: string, k: nat)
    ensures EntityAt(a, k) ==> EntityAt(a + b, k)
    ensures EntityAt(b, k) ==> EntityAt(a + b, |a| + k)
  {
    OccursInAppend(a, b, "&amp;", k);
    OccursInAppend(a, b, "&lt;", k);
    OccursInAppend(a, b, "&gt;", k);
    OccursInAppend(a, b, "&quot;", k);
  }

  lemma SafeAppend(a: string, b: string)
    requires Safe(a) && Safe(b)
    ensures Safe(a + b)
  {
    var t := a + b;
    forall i | 0 <= i < |t| && t[i] == '&'
      ensures EntityAt(t, i)
    {
      if i < |a| {
        EntityInAppend(a, b, i);
      } else {
        assert b[i - |a|] == '&';
        EntityInAppend(a, b, i - |a|);
      }
    }
  }

  /** The output holds no `<`, `>` or `"`, and every `&` in it starts an entity. */
  lemma {:induction false} EscapeSafe(s: string)
    ensures Safe(Escape(s))
    decreases |s|
  {
    if |s| > 0 {
      EscapeSafe(s[1..]);
      var e := Entity(s[0]);
      if IsSpecial(s[0]) {
        assert EntityAt(e, 0);
        assert Safe(e);
      } else {
        assert Safe(e);
      }
      SafeAppend(e, Escape(s[1..]));
    }
  }

  /** Text without any of the four characters comes back unchanged. */
  lemma {:induction false} EscapePlain(s: string)
    requires forall i :: 0 <= i < |s| ==> !IsSpecial(s[i])
    ensures Escape(s) == s
    decreases |s|
  {
    if |s| > 0 {
      EscapePlain(s[1..]);
      assert [s[0]] + s[1..] == s;
    }
  }

  /** Escaping works character by character, so it distributes over concatenation. */
  lemma {:induction false} EscapeAppend(a: string, b: string)
    ensures Escape(a + b) == Escape(a) + Escape(b)
    decreases |a|
  {
    if |a| > 0 {
      assert (a + b)[1..] == a[1..] + b;
      EscapeAppend(a[1..], b);
    } else {
      assert a + b == b;
    }
  }

  /** Escaping is not idempotent: the `&` of an entity is escaped again. */
  lemma EscapeNotIdempotent()
    ensures Escape(Escape("&")) == "&amp;amp;"
    ensures Escape(Escape("&")) != Escape("&")
  {
    assert Escape("&") == "&amp;";
    EscapePlain("amp;");
    EscapeAppend("&", "amp;");
    assert "&amp;" == "&" + "amp;";
  }

  /** Escaping neither adds nor removes a character that is not special, not a lower-case letter and not `;`. */
  lemma {:induction false} EscapeKeeps(s: string, d: char)
    requires !IsSpecial(d) && d != ';' && !('a' <= d <= 'z')
    ensures d in Escape(s) <==> d in s
    decreases |s|
  {
    if |s| > 0 {
      EscapeKeeps(s[1..], d);
      assert d in Entity(s[0]) <==> d == s[0];
      assert s == [s[0]] + s[1..];
    }
  }
}

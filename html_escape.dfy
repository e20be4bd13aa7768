/** The HTML escaping helper of the event-announcement front end.

    `Escape` replaces each of the five characters matched by the character
    class `[&<>'"]` with the entity the lookup table gives for it and copies
    every other character unchanged and in order.  `Unescape` is the decoder
    that inverts it; `Safe` is the invariant every escaped string satisfies.
 */
module HtmlEscape {

  /** The lookup table of the replacement callback. */
  const Entities: map<char, string> :=
    map['&' := "&amp;", '<' := "&lt;", '>' := "&gt;", '\'' := "&#39;", '"' := "&quot;"]

  /** The characters of the global pattern `[&<>'"]`. */
  predicate IsSpecial(c: char) {
    c == '&' || c == '<' || c == '>' || c == '\'' || c == '"'
  }

  /** The characters that may never appear in escaped output. */
  predicate IsMarkup(c: char) {
    c == '<' || c == '>' || c == '\'' || c == '"'
  }

  predicate NoSpecial(s: string) {
    forall k :: 0 <= k < |s| ==> !IsSpecial(s[k])
  }

  /** The replacement callback: the table entry for a matched character,
      or the character itself when the lookup gives nothing (`table[tag] || tag`). */
  function Replacement(c: char): string {
    if c in Entities && Entities[c] != "" then Entities[c] else [c]
  }

  /** What one character of the input becomes: a match of the pattern is
      handed to the callback, every other character is copied. */
  function EscapeChar(c: char): (r: string)
    ensures c == '&' ==> r == "&amp;"
    ensures c == '<' ==> r == "&lt;"
    ensures c == '>' ==> r == "&gt;"
    ensures c == '\'' ==> r == "&#39;"
    ensures c == '"' ==> r == "&quot;"
    ensures !IsSpecial(c) ==> r == [c]
  {
    if IsSpecial(c) then Replacement(c) else [c]
  }

  /** `str.replace(/[&<>'"]/g, callback)`: every character is replaced in order. */
  function Escape(s: string): (r: string)
    ensures |r| >= |s|
  {
    if s == [] then [] else EscapeChar(s[0]) + Escape(s[1..])
  }

  /** `t` starts with one of the five entities. */
  predicate BeginsEntity(t: string) {
    "&amp;" <= t || "&lt;" <= t || "&gt;" <= t || "&#39;" <= t || "&quot;" <= t
  }

  /** No markup character, and every ampersand opens one of the five entities. */
  predicate Safe(t: string) {
    (forall k :: 0 <= k < |t| ==> !IsMarkup(t[k])) &&
    (forall k :: 0 <= k < |t| && t[k] == '&' ==> BeginsEntity(t[k..]))
  }

  /** The decoder: each of the five entities becomes its character again;
      anything else is copied. */
  function Unescape(t: string): (r: string)
    ensures |r| <= |t|
  {
    if t == [] then []
    else if "&amp;" <= t then ['&'] + Unescape(t[5..])
    else if "&lt;" <= t then ['<'] + Unescape(t[4..])
    else if "&gt;" <= t then ['>'] + Unescape(t[4..])
    else if "&#39;" <= t then ['\''] + Unescape(t[5..])
    else if "&quot;" <= t then ['"'] + Unescape(t[6..])
    else [t[0]] + Unescape(t[1..])
  }

  /** Escaping one character is `EscapeChar`; with `EscapeConcat` this gives
      the character-by-character meaning of `Escape`. */
  lemma {:induction false} EscapeSingleton(c: char)
    ensures Escape([c]) == EscapeChar(c)
  {
    assert [c][1..] == [];
  }

  /** The global replace works character by character, so escaping
      distributes over concatenation. */
  lemma {:induction false} EscapeConcat(a: string, b: string)
    ensures Escape([]) == []
    ensures Escape(a + b) == Escape(a) + Escape(b)
  {
    if a == [] {
      assert a + b == b;
    } else {
      assert (a + b)[0] == a[0];
      assert (a + b)[1..] == a[1..] + b;
      EscapeConcat(a[1..], b);
    }
  }

  /** An entity opens with its only `&` and holds no markup character. */
  lemma {:induction false} SafeEntity(e: string)
    requires e == "&amp;" || e == "&lt;" || e == "&gt;" || e == "&#39;" || e == "&quot;"
    ensures Safe(e)
  {
    assert e[0..] == e;
    forall k | 0 < k < |e| ensures e[k] != '&' && !IsMarkup(e[k]) {
      if e == "&amp;" { assert e[k] in "amp;"; }
      else if e == "&lt;" { assert e[k] in "lt;"; }
      else if e == "&gt;" { assert e[k] in "gt;"; }
      else if e == "&#39;" { assert e[k] in "#39;"; }
      else { assert e[k] in "quot;"; }
    }
  }

  lemma {:induction false} SafeEscapeChar(c: char)
    ensures Safe(EscapeChar(c))
  {
    if IsSpecial(c) {
      SafeEntity(EscapeChar(c));
    }
  }

  lemma {:induction false} SafeConcat(a: string, b: string)
    requires Safe(a) && Safe(b)
    ensures Safe(a + b)
  {
    var t := a + b;
    forall k | 0 <= k < |t| && t[k] == '&'
      ensures BeginsEntity(t[k..])
    {
      if k < |a| {
        assert a[k] == '&';
        assert t[k..] == a[k..] + b;
        assert BeginsEntity(a[k..]);
      } else {
        assert t[k..] == b[k - |a|..];
        assert b[k - |a|] == '&';
      }
    }
    forall k | 0 <= k < |t| ensures !IsMarkup(t[k]) {
      if k < |a| { assert t[k] == a[k]; } else { assert t[k] == b[k - |a|]; }
    }
  }

  /** Escaped output contains no `<`, `>`, `'` or `"`, and every `&` in it
      begins one of the five entities. */
  lemma {:induction false} EscapeIsSafe(s: string)
    ensures Safe(Escape(s))
  {
    if s != [] {
      SafeEscapeChar(s[0]);
      EscapeIsSafe(s[1..]);
      SafeConcat(EscapeChar(s[0]), Escape(s[1..]));
    }
  }

  lemma {:induction false} UnescapeEscapeChar(c: char, rest: string)
    ensures Unescape(EscapeChar(c) + rest) == [c] + Unescape(rest)
  {
    var t := EscapeChar(c) + rest;
    if c == '&' {
      assert "&amp;" <= t && t[5..] == rest;
    } else if c == '<' {
      assert t[1] == 'l';
      assert "&lt;" <= t && t[4..] == rest;
    } else if c == '>' {
      assert t[1] == 'g';
      assert "&gt;" <= t && t[4..] == rest;
    } else if c == '\'' {
      assert t[1] == '#';
      assert "&#39;" <= t && t[5..] == rest;
    } else if c == '"' {
      assert t[1] == 'q';
      assert "&quot;" <= t && t[6..] == rest;
    } else {
      assert t[0] == c && t[1..] == rest;
    }
  }

  /** Decoding the five entities inverts escaping. */
  lemma {:induction false} UnescapeEscape(s: string)
    ensures Unescape(Escape(s)) == s
  {
    if s != [] {
      UnescapeEscapeChar(s[0], Escape(s[1..]));
      UnescapeEscape(s[1..]);
    }
  }

  /** Different inputs never escape to the same output. */
  lemma {:induction false} EscapeInjective(a: string, b: string)
    ensures Escape(a) == Escape(b) ==> a == b
  {
    UnescapeEscape(a);
    UnescapeEscape(b);
  }

  /** Escaping never shortens its input, and keeps the length exactly when
      the input holds none of the five special characters, in which case the
      output is the input itself. */
  lemma {:induction false} EscapeLength(s: string)
    ensures |Escape(s)| == |s| <==> NoSpecial(s)
    ensures NoSpecial(s) ==> Escape(s) == s
  {
    if s != [] {
      EscapeLength(s[1..]);
      if NoSpecial(s) {
        assert !IsSpecial(s[0]);
        assert NoSpecial(s[1..]) by {
          forall k | 0 <= k < |s[1..]| ensures !IsSpecial(s[1..][k]) {
            assert s[1..][k] == s[k + 1];
          }
        }
      } else if IsSpecial(s[0]) {
        assert |EscapeChar(s[0])| > 1;
      } else {
        assert !NoSpecial(s[1..]) by {
          var k :| 0 <= k < |s| && IsSpecial(s[k]);
          assert k > 0 && s[1..][k - 1] == s[k];
        }
      }
    }
  }

  /** Escaping is idempotent exactly on strings without special characters:
      any special character brings in an `&`, which a second pass escapes again. */
  lemma {:induction false} EscapeTwiceIff(s: string)
    ensures Escape(Escape(s)) == Escape(s) <==> NoSpecial(s)
  {
    EscapeLength(s);
    EscapeLength(Escape(s));
    if !NoSpecial(s) {
      var k :| 0 <= k < |s| && IsSpecial(s[k]);
      EscapeSplitAt(s, k);
      var t := Escape(s);
      var i := |Escape(s[..k])|;
      assert t[i] == '&';
    }
  }

  /** The escape of the character at index `k` sits right after the escape
      of the characters before it. */
  lemma {:induction false} EscapeSplitAt(s: string, k: nat)
    requires k < |s|
    ensures Escape(s) == Escape(s[..k]) + EscapeChar(s[k]) + Escape(s[k + 1..])
  {
    assert s == s[..k] + ([s[k]] + s[k + 1..]);
    EscapeConcat(s[..k], [s[k]] + s[k + 1..]);
    EscapeConcat([s[k]], s[k + 1..]);
    EscapeSingleton(s[k]);
  }

  /** A second escape of `&` turns `&amp;` into `&amp;amp;`. */
  lemma {:induction false} EscapeNotIdempotent()
    ensures Escape("&") == "&amp;"
    ensures Escape(Escape("&")) == "&amp;amp;"
  {
    EscapeSingleton('&');
    assert "&amp;" == ['&'] + "amp;";
    EscapeConcat(['&'], "amp;");
    assert "amp;" == ['a'] + "mp;";
    assert "mp;" == ['m'] + "p;";
    assert "p;" == ['p'] + ";";
    assert Escape(";") == ";" by { EscapeSingleton(';'); }
    assert Escape("p;") == "p;" by { EscapeConcat(['p'], ";"); EscapeSingleton('p'); }
    assert Escape("mp;") == "mp;" by { EscapeConcat(['m'], "p;"); EscapeSingleton('m'); }
    assert Escape("amp;") == "amp;" by { EscapeConcat(['a'], "mp;"); EscapeSingleton('a'); }
  }
}

/** The e-mail check of the subscription form.

    The address is lower-cased and then tested against the pattern
    `^[^\s@]+@[^\s@]+\.[^\s@]+$`.  The pattern is modelled by the automaton a
    matcher runs over it (`Phase`, `Step`, `Run`); `WellFormed` states its
    meaning directly, and `Matches` is proved to agree with it.
 */
module EmailValidation {

  /** `\s` of ECMAScript patterns: the WhiteSpace and LineTerminator code points. */
  predicate IsSpace(c: char) {
    c == ' ' || ('\t' <= c <= '\r') || c == '\U{00A0}' || c == '\U{1680}' ||
    ('\U{2000}' <= c <= '\U{200A}') || c == '\U{2028}' || c == '\U{2029}' ||
    c == '\U{202F}' || c == '\U{205F}' || c == '\U{3000}' || c == '\U{FEFF}'
  }

  /** The character class `[^\s@]`. */
  predicate InClass(c: char) {
    !IsSpace(c) && c != '@'
  }

  /** A class character other than the literal dot: all of these move the
      automaton the same way. */
  predicate IsPlain(c: char) {
    InClass(c) && c != '.'
  }

  predicate AllInClass(s: string) {
    forall k :: 0 <= k < |s| ==> InClass(s[k])
  }

  predicate AllPlain(s: string) {
    forall k :: 0 <= k < |s| ==> IsPlain(s[k])
  }

  predicate NoWhitespace(s: string) {
    forall k :: 0 <= k < |s| ==> !IsSpace(s[k])
  }

  /** Number of occurrences of `c` in `s`. */
  function Count(s: string, c: char): nat {
    if s == [] then 0 else (if s[0] == c then 1 else 0) + Count(s[1..], c)
  }

  /** What the pattern demands, stated directly: no whitespace, exactly one
      `@`, something before it, and a `.` after it that is neither the first
      nor the last character of the part after the `@`. */
  ghost predicate WellFormed(s: string) {
    NoWhitespace(s) && Count(s, '@') == 1 &&
    exists i, j :: 0 < i && i + 1 < j < |s| - 1 && s[i] == '@' && s[j] == '.'
  }

  /** Where the matcher is in the pattern: before the local part, inside it,
      right after the `@`, inside the domain before a usable `.`, right after
      that `.`, inside the last part (accepting), or failed. */
  datatype Phase = Start | Local | AfterAt | Domain | AfterDot | Tld | Reject

  /** One character of input. */
  function Step(q: Phase, c: char): Phase {
    if IsSpace(c) then Reject
    else if c == '@' then (if q == Local then AfterAt else Reject)
    else match q
      case Start => Local
      case Local => Local
      case AfterAt => Domain
      case Domain => if c == '.' then AfterDot else Domain
      case AfterDot => Tld
      case Tld => Tld
      case Reject => Reject
  }

  /** The scan of `s`, left to right, from phase `q`. */
  function Run(q: Phase, s: string): Phase
    decreases s
  {
    if s == [] then q else Run(Step(q, s[0]), s[1..])
  }

  /** `re.test(s)`: the whole string is consumed and the matcher accepts. */
  function Matches(s: string): (r: bool)
    ensures r <==> WellFormed(s)
  {
    StartAccepts(s);
    WellFormedIff(s);
    Run(Start, s) == Tld
  }

  /** Lower-casing of one character: ASCII capitals become small letters. */
  function LowerChar(c: char): string {
    if 'A' <= c <= 'Z' then [(c as int + 32) as char] else [c]
  }

  /** Replaces every character of `s` by its image under `f`, in order. */
  function MapChars(f: char -> string, s: string): string {
    if s == [] then [] else f(s[0]) + MapChars(f, s[1..])
  }

  function ToLower(s: string): string {
    MapChars(LowerChar, s)
  }

  /** `validateEmail`: the pattern applied to the lower-cased address.
      Lower-casing never changes the verdict. */
  function ValidateEmail(email: string): (r: bool)
    ensures r == Matches(email)
    ensures r <==> WellFormed(email)
  {
    LowerKeepsClasses();
    MapKeepsRun(LowerChar, Start, email);
    Matches(ToLower(email))
  }

  /** A case mapping that fixes whitespace, `@` and `.`, and sends every
      other character to a non-empty string of such other characters. */
  ghost predicate KeepsClasses(f: char -> string) {
    (forall c :: !IsPlain(c) ==> f(c) == [c]) &&
    (forall c :: IsPlain(c) ==> f(c) != [] && AllPlain(f(c)))
  }

  // ----- the automaton, state by state -----

  lemma {:induction false} AllInClassCons(c: char, s: string)
    ensures AllInClass([c] + s) <==> InClass(c) && AllInClass(s)
  {
    var t := [c] + s;
    if InClass(c) && AllInClass(s) {
      forall k | 0 <= k < |t| ensures InClass(t[k]) {
        if k > 0 { assert t[k] == s[k - 1]; }
      }
    }
    if AllInClass(t) {
      forall k | 0 <= k < |s| ensures InClass(s[k]) { assert s[k] == t[k + 1]; }
      assert t[0] == c;
    }
  }

  lemma {:induction false} RunReject(s: string)
    ensures Run(Reject, s) == Reject
  {
    if s != [] { RunReject(s[1..]); }
  }

  lemma {:induction false} TldAccepts(r: string)
    ensures Run(Tld, r) == Tld <==> AllInClass(r)
  {
    if r != [] {
      assert r == [r[0]] + r[1..];
      AllInClassCons(r[0], r[1..]);
      if InClass(r[0]) {
        TldAccepts(r[1..]);
      } else {
        RunReject(r[1..]);
      }
    }
  }

  lemma {:induction false} AfterDotAccepts(r: string)
    ensures Run(AfterDot, r) == Tld <==> r != [] && AllInClass(r)
  {
    if r != [] {
      assert r == [r[0]] + r[1..];
      AllInClassCons(r[0], r[1..]);
      if InClass(r[0]) {
        TldAccepts(r[1..]);
      } else {
        RunReject(r[1..]);
      }
    }
  }

  /** A `.` somewhere before the last character. */
  predicate DotBeforeLast(r: string) {
    exists j :: 0 <= j < |r| - 1 && r[j] == '.'
  }

  /** The part after the `@` matches `[^\s@]+\.[^\s@]+`. */
  predicate DomainOK(d: string) {
    AllInClass(d) && exists j :: 0 < j < |d| - 1 && d[j] == '.'
  }

  lemma {:induction false} DomainAccepts(r: string)
    ensures Run(Domain, r) == Tld <==> AllInClass(r) && DotBeforeLast(r)
  {
    if r != [] {
      var c, rest := r[0], r[1..];
      assert r == [c] + rest;
      AllInClassCons(c, rest);
      if !InClass(c) {
        RunReject(rest);
      } else if c == '.' {
        AfterDotAccepts(rest);
        if rest != [] { assert r[0] == '.'; }
      } else {
        DomainAccepts(rest);
        if DotBeforeLast(r) {
          var j :| 0 <= j < |r| - 1 && r[j] == '.';
          assert j > 0 && rest[j - 1] == '.';
        }
        if DotBeforeLast(rest) {
          var j :| 0 <= j < |rest| - 1 && rest[j] == '.';
          assert r[j + 1] == '.';
        }
      }
    }
  }

  lemma {:induction false} AfterAtAccepts(d: string)
    ensures Run(AfterAt, d) == Tld <==> DomainOK(d)
  {
    if d != [] {
      var c, rest := d[0], d[1..];
      assert d == [c] + rest;
      AllInClassCons(c, rest);
      if !InClass(c) {
        RunReject(rest);
      } else {
        DomainAccepts(rest);
        if DomainOK(d) {
          var j :| 0 < j < |d| - 1 && d[j] == '.';
          assert rest[j - 1] == '.';
        }
        if DotBeforeLast(rest) {
          var j :| 0 <= j < |rest| - 1 && rest[j] == '.';
          assert d[j + 1] == '.';
        }
      }
    }
  }

  /** `s[i]` is the `@` of a match: the class characters before it and a
      matching domain after it. */
  predicate AtSplit(s: string, i: int) {
    0 <= i < |s| && s[i] == '@' && AllInClass(s[..i]) && DomainOK(s[i + 1..])
  }

  lemma {:induction false} AtSplitCons(c: char, s: string, i: int)
    requires InClass(c)
    ensures AtSplit([c] + s, i + 1) <==> AtSplit(s, i)
  {
    var t := [c] + s;
    if 0 <= i < |s| {
      assert t[..i + 1] == [c] + s[..i];
      assert t[i + 2..] == s[i + 1..];
      assert t[i + 1] == s[i];
      AllInClassCons(c, s[..i]);
    }
  }

  lemma {:induction false} LocalAccepts(r: string)
    ensures Run(Local, r) == Tld <==> exists i :: AtSplit(r, i)
  {
    if r != [] {
      var c, rest := r[0], r[1..];
      assert r == [c] + rest;
      if IsSpace(c) {
        RunReject(rest);
      } else if c == '@' {
        AfterAtAccepts(rest);
        if DomainOK(rest) {
          assert r[..0] == [] && r[1..] == rest;
          assert AtSplit(r, 0);
        }
      } else {
        LocalAccepts(rest);
        if exists i :: AtSplit(r, i) {
          var i :| AtSplit(r, i);
          assert i > 0;
          AtSplitCons(c, rest, i - 1);
        }
        if exists i :: AtSplit(rest, i) {
          var i :| AtSplit(rest, i);
          AtSplitCons(c, rest, i);
        }
      }
    }
  }

  lemma {:induction false} StartAccepts(s: string)
    ensures Run(Start, s) == Tld <==> exists i :: 0 < i && AtSplit(s, i)
  {
    if s != [] {
      var c, rest := s[0], s[1..];
      assert s == [c] + rest;
      if !InClass(c) {
        RunReject(rest);
      } else {
        LocalAccepts(rest);
        if exists i :: 0 < i && AtSplit(s, i) {
          var i :| 0 < i && AtSplit(s, i);
          AtSplitCons(c, rest, i - 1);
        }
        if exists i :: AtSplit(rest, i) {
          var i :| AtSplit(rest, i);
          AtSplitCons(c, rest, i);
        }
      }
    }
  }

  // ----- from the split to the direct statement -----

  lemma {:induction false} CountConcat(a: string, b: string, c: char)
    ensures Count(a + b, c) == Count(a, c) + Count(b, c)
  {
    if a == [] {
      assert a + b == b;
    } else {
      assert (a + b)[0] == a[0];
      assert (a + b)[1..] == a[1..] + b;
      CountConcat(a[1..], b, c);
    }
  }

  lemma {:induction false} CountZero(s: string, c: char)
    ensures Count(s, c) == 0 <==> forall k :: 0 <= k < |s| ==> s[k] != c
  {
    if s != [] {
      CountZero(s[1..], c);
      if Count(s, c) == 0 {
        forall k | 0 <= k < |s| ensures s[k] != c {
          if k > 0 { assert s[k] == s[1..][k - 1]; }
        }
      } else if s[0] != c {
        var k :| 0 <= k < |s[1..]| && s[1..][k] == c;
        assert s[k + 1] == c;
      }
    }
  }

  /** A string split at an `@` counts its `@`s on both sides of it. */
  lemma {:induction false} CountAround(s: string, i: int)
    requires 0 <= i < |s| && s[i] == '@'
    ensures Count(s, '@') == Count(s[..i], '@') + 1 + Count(s[i + 1..], '@')
  {
    assert s == s[..i] + ([s[i]] + s[i + 1..]);
    CountConcat(s[..i], [s[i]] + s[i + 1..], '@');
    CountConcat([s[i]], s[i + 1..], '@');
  }

  lemma {:induction false} WellFormedIff(s: string)
    ensures (exists i :: 0 < i && AtSplit(s, i)) <==> WellFormed(s)
  {
    if exists i :: 0 < i && AtSplit(s, i) {
      var i :| 0 < i && AtSplit(s, i);
      var a, d := s[..i], s[i + 1..];
      CountAround(s, i);
      CountZero(a, '@');
      CountZero(d, '@');
      forall k | 0 <= k < |s| ensures !IsSpace(s[k]) {
        if k < i { assert s[k] == a[k]; }
        else if k > i { assert s[k] == d[k - i - 1]; }
      }
      var j :| 0 < j < |d| - 1 && d[j] == '.';
      assert s[i + 1 + j] == '.';
    }
    if WellFormed(s) {
      var i, j :| 0 < i && i + 1 < j < |s| - 1 && s[i] == '@' && s[j] == '.';
      var a, d := s[..i], s[i + 1..];
      CountAround(s, i);
      CountZero(a, '@');
      CountZero(d, '@');
      forall k | 0 <= k < |a| ensures InClass(a[k]) { assert a[k] == s[k]; }
      forall k | 0 <= k < |d| ensures InClass(d[k]) { assert d[k] == s[k + i + 1]; }
      assert d[j - i - 1] == '.';
      assert AtSplit(s, i);
    }
  }

  // ----- case mapping -----

  lemma {:induction false} RunConcat(q: Phase, a: string, b: string)
    ensures Run(q, a + b) == Run(Run(q, a), b)
    decreases a
  {
    if a == [] {
      assert a + b == b;
    } else {
      assert (a + b)[0] == a[0];
      assert (a + b)[1..] == a[1..] + b;
      RunConcat(Step(q, a[0]), a[1..], b);
    }
  }

  /** A non-empty run of plain characters moves the automaton as one does. */
  lemma {:induction false} RunPlain(q: Phase, t: string)
    requires t != [] && AllPlain(t)
    ensures Run(q, t) == Step(q, t[0])
    decreases t
  {
    var rest := t[1..];
    if rest != [] {
      assert AllPlain(rest) by {
        forall k | 0 <= k < |rest| ensures IsPlain(rest[k]) { assert rest[k] == t[k + 1]; }
      }
      assert IsPlain(t[0]) && IsPlain(rest[0]);
      RunPlain(Step(q, t[0]), rest);
    }
  }

  /** Any case mapping that keeps the classes leaves every scan unchanged. */
  lemma {:induction false} MapKeepsRun(f: char -> string, q: Phase, s: string)
    requires KeepsClasses(f)
    ensures Run(q, MapChars(f, s)) == Run(q, s)
    decreases s
  {
    if s != [] {
      var c := s[0];
      RunConcat(q, f(c), MapChars(f, s[1..]));
      if IsPlain(c) {
        RunPlain(q, f(c));
        assert IsPlain(f(c)[0]);
      } else {
        assert f(c) == [c];
      }
      MapKeepsRun(f, Step(q, c), s[1..]);
    }
  }

  lemma {:induction false} LowerKeepsClasses()
    ensures KeepsClasses(LowerChar)
  {
    forall c | IsPlain(c) ensures LowerChar(c) != [] && AllPlain(LowerChar(c)) {
      if 'A' <= c <= 'Z' {
        var l := (c as int + 32) as char;
        assert 'a' <= l <= 'z';
        assert LowerChar(c) == [l];
      }
    }
  }

  /** The verdict does not depend on letter case: applying any class-keeping
      case mapping first, lower-casing included, gives the same answer. */
  lemma {:induction false} CaseBlind(f: char -> string, s: string)
    requires KeepsClasses(f)
    ensures ValidateEmail(MapChars(f, s)) == ValidateEmail(s)
    ensures ValidateEmail(ToLower(s)) == ValidateEmail(s)
  {
    MapKeepsRun(f, Start, s);
    LowerKeepsClasses();
    MapKeepsRun(LowerChar, Start, s);
  }

  /** Whitespace anywhere, no `@`, or two or more `@`s: rejected. */
  lemma {:induction false} RejectsMalformed(s: string)
    requires !NoWhitespace(s) || '@' !in s || Count(s, '@') >= 2
    ensures !ValidateEmail(s)
  {
    CountZero(s, '@');
  }

  lemma {:induction false} Examples()
    ensures ValidateEmail("a@b.c")
    ensures ValidateEmail("a@b..c")
    ensures !ValidateEmail("a@.b")
    ensures !ValidateEmail("a@b.")
    ensures !ValidateEmail("A B@c.d")
  {
    assert Run(Start, "a@b.c") == Tld;
    assert Run(Start, "a@b..c") == Tld;
    assert Run(Start, "a@.b") != Tld;
    assert Run(Start, "a@b.") != Tld;
    assert Run(Start, "A B@c.d") == Reject;
  }
}

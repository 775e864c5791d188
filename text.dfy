/**
 * The few Python built-ins the scoring core relies on, over Dafny strings
 * (sequences of Unicode scalar values): `str.isspace`, `str.strip`, the
 * substring test `sub in text`, `len(s.encode('utf-8'))` and `min`.
 */
module PyText {

  /** `min(a, b)` on integers. */
  function Min(a: int, b: int): int { if a <= b then a else b }

  /** `c.isspace()` in Python: the characters Unicode classes as whitespace. */
  predicate IsSpace(c: char) {
    var n := c as int;
    || (0x09 <= n <= 0x0D) || (0x1C <= n <= 0x20)
    || n == 0x85 || n == 0xA0 || n == 0x1680
    || (0x2000 <= n <= 0x200A)
    || n == 0x2028 || n == 0x2029 || n == 0x202F || n == 0x205F || n == 0x3000
  }

  /** `not s.strip()`: every character is whitespace (the empty string included). */
  predicate IsBlank(s: string) {
    forall k :: 0 <= k < |s| ==> IsSpace(s[k])
  }

  /** The sentence filter of the byte-budget splitter: something is left after stripping. */
  predicate HasContent(s: string) {
    !IsBlank(s)
  }

  /** The sentence filter of the token-budget splitter: `if not sentence`. */
  predicate NonEmpty(s: string) {
    s != []
  }

  lemma {:induction false} BlankAppend(a: string, b: string)
    ensures IsBlank(a + b) <==> IsBlank(a) && IsBlank(b)
  {
    if IsBlank(a) && IsBlank(b) {
      forall k | 0 <= k < |a + b| ensures IsSpace((a + b)[k]) {
        if k < |a| { assert (a + b)[k] == a[k]; } else { assert (a + b)[k] == b[k - |a|]; }
      }
    }
    if IsBlank(a + b) {
      forall k | 0 <= k < |a| ensures IsSpace(a[k]) { assert (a + b)[k] == a[k]; }
      forall k | 0 <= k < |b| ensures IsSpace(b[k]) { assert (a + b)[|a| + k] == b[k]; }
    }
  }

  /** `s.lstrip()`. */
  function TrimStart(s: string): string {
    if s != [] && IsSpace(s[0]) then TrimStart(s[1..]) else s
  }

  /** `s.rstrip()`. */
  function TrimEnd(s: string): string {
    if s != [] && IsSpace(s[|s| - 1]) then TrimEnd(s[..|s| - 1]) else s
  }

  /** `lstrip` leaves the suffix after the leading whitespace. */
  lemma {:induction false} TrimStartSpec(s: string)
    ensures var r := TrimStart(s);
      && |r| <= |s| && r == s[|s| - |r|..]
      && IsBlank(s[..|s| - |r|])
      && (r == [] || !IsSpace(r[0]))
  {
    if s != [] && IsSpace(s[0]) {
      TrimStartSpec(s[1..]);
      var r := TrimStart(s);
      assert s[1..][|s| - 1 - |r|..] == s[|s| - |r|..];
      assert forall k :: 1 <= k < |s| - |r| ==> s[k] == s[1..][..|s| - 1 - |r|][k - 1];
    }
  }

  /** `rstrip` leaves the prefix before the trailing whitespace. */
  lemma {:induction false} TrimEndSpec(s: string)
    ensures var r := TrimEnd(s);
      && |r| <= |s| && r == s[..|r|]
      && IsBlank(s[|r|..])
      && (r == [] || !IsSpace(r[|r| - 1]))
  {
    if s != [] && IsSpace(s[|s| - 1]) {
      TrimEndSpec(s[..|s| - 1]);
      var r := TrimEnd(s);
      assert s[..|s| - 1][..|r|] == s[..|r|];
      assert forall k :: |r| <= k < |s| - 1 ==> s[k] == s[..|s| - 1][|r|..][k - |r|];
    }
  }

  /** `s.strip()` with no argument. */
  function Strip(s: string): string {
    TrimEnd(TrimStart(s))
  }

  /** What `strip` leaves is empty exactly for blank strings; otherwise it
      neither starts nor ends with whitespace. */
  lemma StripSpec(s: string)
    ensures Strip(s) == [] <==> IsBlank(s)
    ensures Strip(s) != [] ==> !IsSpace(Strip(s)[0]) && !IsSpace(Strip(s)[|Strip(s)| - 1])
  {
    var t := TrimStart(s);
    var r := TrimEnd(t);
    TrimStartSpec(s);
    TrimEndSpec(t);
    var pre := s[..|s| - |t|];
    var post := t[|r|..];
    assert s == pre + t;
    assert t == r + post;
    BlankAppend(pre, t);
    BlankAppend(r, post);
    if r != [] {
      assert t[0] == r[0];
    }
  }

  /** `strip` cuts only whitespace, and only at the two ends: the result is
      the infix of `s` that starts at `i` for some `i`. */
  lemma StripInfix(s: string) returns (i: nat)
    ensures i + |Strip(s)| <= |s| && Strip(s) == s[i..i + |Strip(s)|]
    ensures IsBlank(s[..i]) && IsBlank(s[i + |Strip(s)|..])
  {
    var t := TrimStart(s);
    var r := TrimEnd(t);
    assert |t| <= |s| && t == s[|s| - |t|..] && IsBlank(s[..|s| - |t|]) by {
      TrimStartSpec(s);
    }
    assert |r| <= |t| && r == t[..|r|] && IsBlank(t[|r|..]) by {
      TrimEndSpec(t);
    }
    i := |s| - |t|;
    assert s[i..i + |r|] == r by {
      assert s[i..i + |r|] == t[..|r|];
    }
    assert s[i + |r|..] == t[|r|..];
  }

  /** Stripping twice is stripping once: the chunks the splitter emits are already stripped. */
  lemma StripIdempotent(s: string)
    ensures Strip(Strip(s)) == Strip(s)
  {
    StripSpec(s);
    var r := Strip(s);
    assert TrimStart(r) == r;
    assert TrimEnd(r) == r;
  }

  /** `sub` occurs in `text` starting at position `i`. */
  predicate OccursAt(text: string, sub: string, i: int) {
    0 <= i && i + |sub| <= |text| && text[i..i + |sub|] == sub
  }

  /** Python's `sub in text`. */
  predicate Contains(text: string, sub: string)
    decreases |text|
  {
    if |sub| > |text| then false
    else if text[..|sub|] == sub then true
    else Contains(text[1..], sub)
  }

  /** The search above agrees with the definition of a substring. */
  lemma {:induction false} ContainsSpec(text: string, sub: string)
    ensures Contains(text, sub) <==> exists i :: OccursAt(text, sub, i)
    decreases |text|
  {
    if |sub| > |text| {
    } else if text[..|sub|] == sub {
      assert OccursAt(text, sub, 0);
    } else {
      ContainsSpec(text[1..], sub);
      if Contains(text[1..], sub) {
        var i :| OccursAt(text[1..], sub, i);
        assert text[1..][i..i + |sub|] == text[i + 1..i + 1 + |sub|];
        assert OccursAt(text, sub, i + 1);
      }
      if exists i :: OccursAt(text, sub, i) {
        var i :| OccursAt(text, sub, i);
        assert i != 0;
        assert text[1..][i - 1..i - 1 + |sub|] == text[i..i + |sub|];
        assert OccursAt(text[1..], sub, i - 1);
      }
    }
  }

  /** Bytes in the UTF-8 encoding of one Unicode scalar value (RFC 3629, section 3). */
  function CharUtf8Len(c: char): (n: nat)
    ensures 1 <= n <= 4
    ensures n == 1 <==> (c as int) < 0x80
  {
    var v := c as int;
    if v < 0x80 then 1 else if v < 0x800 then 2 else if v < 0x10000 then 3 else 4
  }

  /** `len(s.encode('utf-8'))`. */
  function Utf8Len(s: string): (n: nat)
    ensures |s| <= n <= 4 * |s|
  {
    if s == [] then 0 else CharUtf8Len(s[0]) + Utf8Len(s[1..])
  }

  /** The byte length of a concatenation is the sum of the byte lengths. */
  lemma {:induction false} Utf8LenAppend(a: string, b: string)
    ensures Utf8Len(a + b) == Utf8Len(a) + Utf8Len(b)
  {
    if a != [] {
      assert (a + b)[1..] == a[1..] + b;
      Utf8LenAppend(a[1..], b);
    } else {
      assert a + b == b;
    }
  }

  /** Stripping never makes a string longer in bytes. */
  lemma StripUtf8Len(s: string)
    ensures Utf8Len(Strip(s)) <= Utf8Len(s)
  {
    var t := TrimStart(s);
    var r := TrimEnd(t);
    TrimStartSpec(s);
    TrimEndSpec(t);
    var k := |s| - |t|;
    var pre := s[..k];
    var post := t[|r|..];
    assert s == pre + t;
    Utf8LenAppend(pre, t);
    assert t == r + post;
    Utf8LenAppend(r, post);
  }

  /** The concatenation of a sequence of sequences (`''.join` on strings). */
  function Join<T>(xss: seq<seq<T>>): seq<T> {
    if xss == [] then [] else xss[0] + Join(xss[1..])
  }

  lemma {:induction false} JoinAppend<T>(a: seq<seq<T>>, b: seq<seq<T>>)
    ensures Join(a + b) == Join(a) + Join(b)
  {
    if a == [] {
      assert a + b == b;
    } else {
      assert (a + b)[1..] == a[1..] + b;
      JoinAppend(a[1..], b);
    }
  }

  /** A concatenation of strings is blank exactly when each of them is. */
  lemma {:induction false} BlankJoin(xs: seq<string>)
    ensures IsBlank(Join(xs)) <==> forall k :: 0 <= k < |xs| ==> IsBlank(xs[k])
  {
    if xs != [] {
      BlankJoin(xs[1..]);
      BlankAppend(xs[0], Join(xs[1..]));
      assert forall k :: 1 <= k < |xs| ==> xs[k] == xs[1..][k - 1];
    }
  }

  lemma JoinSingle<T>(x: seq<T>)
    ensures Join([x]) == x
  {
    assert [x][1..] == [];
  }
}

/**
 * The three string operations the field reader applies to element text:
 * Python's `str.strip()` with no arguments, `str.replace(c, "")` for a
 * single character, and `sep.join(parts)`.
 */
module Text {

  /**
   * The characters Python's `str.isspace()` accepts, which are exactly the
   * characters `str.strip()` removes.  U+3000, the ideographic space used
   * in Japanese text, is one of them.
   */
  predicate IsSpace(c: char) {
    || c == ' '
    || '\t' <= c <= '\r'
    || '\U{1c}' <= c <= '\U{1f}'
    || c == '\U{85}' || c == '\U{a0}' || c == '\U{1680}'
    || '\U{2000}' <= c <= '\U{200a}'
    || c == '\U{2028}' || c == '\U{2029}' || c == '\U{202f}' || c == '\U{205f}'
    || c == '\U{3000}'
  }

  predicate AllSpace(s: string) {
    forall i :: 0 <= i < |s| ==> IsSpace(s[i])
  }

  /** Neither the first nor the last character is whitespace. */
  predicate Trimmed(s: string) {
    s == [] || (!IsSpace(s[0]) && !IsSpace(s[|s| - 1]))
  }

  /** `s` is `r`, starting at index `i`, with whitespace before and after it, and `r` is trimmed. */
  ghost predicate PaddedAt(s: string, i: int, r: string) {
    && Trimmed(r)
    && 0 <= i <= |s| - |r|
    && s[i..i + |r|] == r
    && AllSpace(s[..i])
    && AllSpace(s[i + |r|..])
  }

  /**
   * `r` is what is left of `s` once the whitespace at both ends is cut off:
   * `s` is `r` surrounded by whitespace, and `r` is trimmed.
   */
  ghost predicate StripsTo(s: string, r: string) {
    |r| <= |s| && exists i :: PaddedAt(s, i, r)
  }

  /** Removes the leading whitespace of `s`. */
  function TrimStart(s: string): (r: string)
    ensures |r| <= |s| && r == s[|s| - |r|..]
    ensures AllSpace(s[..|s| - |r|])
    ensures r == [] || !IsSpace(r[0])
  {
    if s != [] && IsSpace(s[0]) then
      var r := TrimStart(s[1..]);
      assert forall i :: 1 <= i < |s| - |r| ==> s[i] == s[1..][..|s| - 1 - |r|][i - 1];
      r
    else s
  }

  /** Removes the trailing whitespace of `s`. */
  function TrimEnd(s: string): (r: string)
    ensures |r| <= |s| && r == s[..|r|]
    ensures AllSpace(s[|r|..])
    ensures r == [] || !IsSpace(r[|r| - 1])
  {
    if s != [] && IsSpace(s[|s| - 1]) then
      var r := TrimEnd(s[..|s| - 1]);
      assert s[|r|..] == s[..|s| - 1][|r|..] + [s[|s| - 1]];
      r
    else s
  }

  /** Python's `s.strip()`. */
  function Strip(s: string): (r: string)
    ensures Trimmed(r)
    ensures StripsTo(s, r)
    ensures forall c :: c in r ==> c in s
  {
    StripMeetsSpec(s);
    TrimEnd(TrimStart(s))
  }

  lemma StripMeetsSpec(s: string)
    ensures StripsTo(s, TrimEnd(TrimStart(s)))
    ensures forall c :: c in TrimEnd(TrimStart(s)) ==> c in s
  {
    var t := TrimStart(s);
    var r := TrimEnd(t);
    var i := |s| - |t|;
    TrimsTrimmed(t, r);
    PaddedSlice(s, i, r, t);
    assert PaddedAt(s, i, r);
  }

  lemma TrimsTrimmed(t: string, r: string)
    requires t == [] || !IsSpace(t[0])
    requires |r| <= |t| && r == t[..|r|]
    requires r == [] || !IsSpace(r[|r| - 1])
    ensures Trimmed(r)
  {
    if r != [] {
      assert r[0] == t[0];
    }
  }

  /** The witness of `StripsTo` for the two trimming steps. */
  lemma PaddedSlice(s: string, i: nat, r: string, t: string)
    requires i <= |s| && t == s[i..] && AllSpace(s[..i])
    requires |r| <= |t| && r == t[..|r|] && AllSpace(t[|r|..])
    requires Trimmed(r)
    ensures PaddedAt(s, i, r)
    ensures forall c :: c in r ==> c in s
  {
    assert s[i..i + |r|] == r;
    assert s[i + |r|..] == t[|r|..];
    forall c | c in r
      ensures c in s
    {
      var k :| 0 <= k < |r| && r[k] == c;
      assert s[i + k] == c;
    }
  }

  lemma {:induction false} TrimStartPadded(a: string, t: string)
    requires AllSpace(a)
    requires t == [] || !IsSpace(t[0])
    ensures TrimStart(a + t) == t
  {
    if a == [] {
      assert a + t == t;
    } else {
      assert (a + t)[1..] == a[1..] + t;
      TrimStartPadded(a[1..], t);
    }
  }

  lemma {:induction false} TrimEndPadded(t: string, b: string)
    requires AllSpace(b)
    requires t == [] || !IsSpace(t[|t| - 1])
    ensures TrimEnd(t + b) == t
  {
    if b == [] {
      assert t + b == t;
    } else {
      assert (t + b)[..|t + b| - 1] == t + b[..|b| - 1];
      TrimEndPadded(t, b[..|b| - 1]);
    }
  }

  /**
   * Stripping is determined by its specification: a trimmed text surrounded
   * by whitespace strips to exactly that text.
   */
  lemma {:induction false} StripPadded(a: string, m: string, b: string)
    requires AllSpace(a) && AllSpace(b) && Trimmed(m)
    ensures Strip(a + m + b) == m
  {
    if m == [] {
      assert a + m + b == a + b;
      assert AllSpace(a + b);
    } else {
      assert a + m + b == a + (m + b);
      TrimStartPadded(a, m + b);
      TrimEndPadded(m, b);
    }
  }

  /** A text satisfies `StripsTo` with one result only. */
  lemma StripsToUnique(s: string, r: string)
    requires StripsTo(s, r)
    ensures Strip(s) == r
  {
    var i :| PaddedAt(s, i, r);
    var a, b := s[..i], s[i + |r|..];
    assert s[..i + |r|] == a + r;
    assert s == s[..i + |r|] + b;
    StripPadded(a, r, b);
  }

  /** Stripping twice is stripping once. */
  lemma StripIdempotent(s: string)
    ensures Strip(Strip(s)) == Strip(s)
  {
    StripOfTrimmed(Strip(s));
  }

  /** A trimmed text is its own strip. */
  lemma StripOfTrimmed(m: string)
    requires Trimmed(m)
    ensures Strip(m) == m
  {
    assert TrimStart(m) == m;
    assert TrimEnd(m) == m;
  }

  /** Python's `s.replace(c, "")`: every occurrence of `c` removed, the rest kept in order. */
  function Without(s: string, c: char): (r: string)
    ensures c !in r
    ensures |r| <= |s|
  {
    if s == [] then [] else (if s[0] == c then [] else [s[0]]) + Without(s[1..], c)
  }

  /** Every other character keeps its number of occurrences. */
  lemma {:induction false} WithoutKeepsOthers(s: string, c: char)
    ensures forall x :: multiset(Without(s, c))[x] == if x == c then 0 else multiset(s)[x]
  {
    if s != [] {
      WithoutKeepsOthers(s[1..], c);
      assert s == [s[0]] + s[1..];
    }
  }

  /** Removing a character distributes over concatenation, so order is kept. */
  lemma {:induction false} WithoutAppend(a: string, b: string, c: char)
    ensures Without(a + b, c) == Without(a, c) + Without(b, c)
  {
    if a == [] {
      assert a + b == b;
    } else {
      var head := if a[0] == c then [] else [a[0]];
      assert (a + b)[0] == a[0];
      assert (a + b)[1..] == a[1..] + b;
      assert Without(a + b, c) == head + Without(a[1..] + b, c);
      WithoutAppend(a[1..], b, c);
      assert Without(a, c) == head + Without(a[1..], c);
    }
  }

  /** A text without `c` is left as it is. */
  lemma {:induction false} WithoutAbsent(s: string, c: char)
    requires c !in s
    ensures Without(s, c) == s
  {
    if s != [] {
      assert c !in s[1..];
      WithoutAbsent(s[1..], c);
    }
  }

  /** The total length of `parts`. */
  function TotalLength(parts: seq<string>): nat {
    if parts == [] then 0 else |parts[0]| + TotalLength(parts[1..])
  }

  /** Python's `sep.join(parts)`. */
  function Join(parts: seq<string>, sep: string): (r: string)
    ensures |r| == TotalLength(parts) + if parts == [] then 0 else (|parts| - 1) * |sep|
  {
    if parts == [] then []
    else if |parts| == 1 then parts[0]
    else parts[0] + sep + Join(parts[1..], sep)
  }

  /** Joining one part gives that part whatever the separator. */
  lemma JoinSingle(part: string, sep: string)
    ensures Join([part], sep) == part
  {
  }
}

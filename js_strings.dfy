/**
 * The parts of JavaScript's string semantics the ingestion code relies on:
 * the ECMA-262 white-space set (what `String.prototype.trim` strips and what
 * the regular-expression class `\s` matches), `trim`, `toLowerCase`
 * restricted to ASCII, `endsWith`, `Array.prototype.join` and the decimal
 * formatting of integers.
 */
module JsStrings {

  /** WhiteSpace and LineTerminator of ECMA-262 (sections 12.2 and 12.3):
      TAB, VT, FF, SP, NBSP, ZWNBSP (U+FEFF), the other Zs code points,
      LF, CR, LS and PS. */
  predicate IsWhitespace(c: char) {
    || c == '\t' || c == '\U{000B}' || c == '\U{000C}' || c == ' '
    || c == '\U{00A0}' || c == '\U{FEFF}' || c == '\U{1680}'
    || ('\U{2000}' <= c <= '\U{200A}')
    || c == '\U{202F}' || c == '\U{205F}' || c == '\U{3000}'
    || c == '\n' || c == '\r' || c == '\U{2028}' || c == '\U{2029}'
  }

  /** Neither the first nor the last character is white space. */
  predicate IsTrimmed(s: string) {
    s == [] || (!IsWhitespace(s[0]) && !IsWhitespace(s[|s| - 1]))
  }

  predicate AllWhitespace(s: string) {
    forall i :: 0 <= i < |s| ==> IsWhitespace(s[i])
  }

  /** `s.trimStart()`: the suffix left after the longest white-space prefix. */
  function TrimStart(s: string): (r: string)
    ensures |r| <= |s| && r == s[|s| - |r|..]
    ensures r == [] || !IsWhitespace(r[0])
    ensures AllWhitespace(s[..|s| - |r|])
  {
    if s != [] && IsWhitespace(s[0]) then TrimStart(s[1..]) else s
  }

  /** A string that does not start with white space is its own `trimStart`. */
  lemma TrimStartKeeps(s: string)
    requires s != [] && !IsWhitespace(s[0])
    ensures TrimStart(s) == s
  {
  }

  /** `s.trimEnd()`: the prefix left after the longest white-space suffix. */
  function TrimEnd(s: string): (r: string)
    ensures |r| <= |s| && r == s[..|r|]
    ensures r == [] || !IsWhitespace(r[|r| - 1])
    ensures AllWhitespace(s[|r|..])
  {
    if s != [] && IsWhitespace(s[|s| - 1]) then TrimEnd(s[..|s| - 1]) else s
  }

  /** `s.trim()`. */
  function Trim(s: string): (r: string)
    ensures |r| <= |s|
    ensures IsTrimmed(r)
    ensures r == [] <==> AllWhitespace(s)
    ensures IsTrimmed(s) ==> r == s
  {
    var t := TrimStart(s);
    assert TrimEnd(t) == [] ==> AllWhitespace(s) by {
      if TrimEnd(t) == [] {
        assert AllWhitespace(t[0..]);
        assert s == s[..|s| - |t|] + t;
      }
    }
    TrimEnd(t)
  }

  /** `r` is the part of `s` that starts at `i`, with only white space
      before and after it. */
  predicate FramedAt(s: string, r: string, i: nat) {
    && i + |r| <= |s| && s[i..i + |r|] == r
    && AllWhitespace(s[..i]) && AllWhitespace(s[i + |r|..])
  }

  /** `trim` removes white space at the two ends and nothing else. With
      `IsTrimmed(Trim(s))` this fixes the result: the part of `s` between its
      first and last character that is not white space. */
  lemma TrimFramed(s: string)
    ensures exists i :: FramedAt(s, Trim(s), i)
  {
    var t := TrimStart(s);
    FramedParts(s, t, TrimEnd(t));
    assert FramedAt(s, Trim(s), |s| - |t|);
  }

  /** A white-space prefix cut, then a white-space suffix cut, leave a framed part. */
  lemma FramedParts(s: string, t: string, r: string)
    requires |t| <= |s| && t == s[|s| - |t|..] && AllWhitespace(s[..|s| - |t|])
    requires |r| <= |t| && r == t[..|r|] && AllWhitespace(t[|r|..])
    ensures FramedAt(s, r, |s| - |t|)
  {
    var i := |s| - |t|;
    assert s[i..i + |r|] == r;
    assert s[i + |r|..] == t[|r|..];
  }

  lemma {:induction false} TrimIdempotent(s: string)
    ensures Trim(Trim(s)) == Trim(s)
  {
  }

  predicate IsUpper(c: char) { 'A' <= c <= 'Z' }

  /** U+212A KELVIN SIGN, the one character outside ASCII whose lower-case
      form is a single ASCII letter (`k`). */
  const Kelvin: char := '\U{212A}'

  /** `toLowerCase` on one character: the ASCII capitals and the Kelvin sign;
      every other character is kept. */
  function LowerChar(c: char): (l: char)
    ensures !IsUpper(l) && l != Kelvin
    ensures IsWhitespace(l) <==> IsWhitespace(c)
    ensures l != c ==> IsUpper(c) || c == Kelvin
  {
    if IsUpper(c) then (c as int + 32) as char
    else if c == Kelvin then 'k'
    else c
  }

  /** `s.toLowerCase()`, one character at a time. */
  function ToLower(s: string): (r: string)
    ensures |r| == |s|
    ensures forall i :: 0 <= i < |s| ==> r[i] == LowerChar(s[i])
    ensures (forall i :: 0 <= i < |s| ==> !IsUpper(s[i]) && s[i] != Kelvin) ==> r == s
  {
    if s == [] then [] else [LowerChar(s[0])] + ToLower(s[1..])
  }

  /** `s.replace(/\s+/g, "")`: every white-space character removed. */
  function RemoveWhitespace(s: string): (r: string)
    ensures forall i :: 0 <= i < |r| ==> !IsWhitespace(r[i]) && r[i] in s
  {
    if s == [] then []
    else (if IsWhitespace(s[0]) then [] else [s[0]]) + RemoveWhitespace(s[1..])
  }

  /** A string without white space is left as it is. */
  lemma {:induction false} RemoveWhitespaceAbsent(s: string)
    requires forall i :: 0 <= i < |s| ==> !IsWhitespace(s[i])
    ensures RemoveWhitespace(s) == s
  {
    if s != [] {
      RemoveWhitespaceAbsent(s[1..]);
    }
  }

  /** Every character other than white space survives. */
  lemma {:induction false} RemoveWhitespaceKeeps(s: string, c: char)
    requires c in s && !IsWhitespace(c)
    ensures c in RemoveWhitespace(s)
  {
    if s[0] != c {
      RemoveWhitespaceKeeps(s[1..], c);
    }
  }

  lemma {:induction false} RemoveWhitespaceAppend(a: string, b: string)
    ensures RemoveWhitespace(a + b) == RemoveWhitespace(a) + RemoveWhitespace(b)
  {
    if a == [] {
      assert a + b == b;
    } else {
      var head := if IsWhitespace(a[0]) then [] else [a[0]];
      assert (a + b)[0] == a[0];
      assert (a + b)[1..] == a[1..] + b;
      RemoveWhitespaceAppend(a[1..], b);
      calc {
        RemoveWhitespace(a + b);
        head + RemoveWhitespace(a[1..] + b);
        head + (RemoveWhitespace(a[1..]) + RemoveWhitespace(b));
        (head + RemoveWhitespace(a[1..])) + RemoveWhitespace(b);
        RemoveWhitespace(a) + RemoveWhitespace(b);
      }
    }
  }

  lemma {:induction false} ToLowerAppend(a: string, b: string)
    ensures ToLower(a + b) == ToLower(a) + ToLower(b)
  {
  }

  /** Lower-casing introduces no character that is not a lower-case letter. */
  lemma ToLowerAbsent(s: string, c: char)
    requires c !in s && !('a' <= c <= 'z')
    ensures c !in ToLower(s)
  {
  }

  /** `s.replace(/c/g, "")`: every occurrence of `c` removed, the rest kept in order. */
  function RemoveChar(s: string, c: char): (r: string)
    ensures c !in r
    ensures forall i :: 0 <= i < |r| ==> r[i] in s
    ensures s != [] && s[0] != c ==> r != [] && r[0] == s[0]
  {
    if s == [] then []
    else (if s[0] == c then [] else [s[0]]) + RemoveChar(s[1..], c)
  }

  /** A string without `c` is left as it is. */
  lemma {:induction false} RemoveCharAbsent(s: string, c: char)
    requires c !in s
    ensures RemoveChar(s, c) == s
  {
    if s != [] {
      RemoveCharAbsent(s[1..], c);
    }
  }

  lemma RemoveCharUnfold(s: string, c: char)
    requires s != []
    ensures RemoveChar(s, c) == (if s[0] == c then [] else [s[0]]) + RemoveChar(s[1..], c)
  {
  }

  /** Every character other than `c` survives. */
  lemma {:induction false} RemoveCharKeeps(s: string, c: char, x: char)
    requires x in s && x != c
    ensures x in RemoveChar(s, c)
  {
    if s[0] != x {
      RemoveCharKeeps(s[1..], c, x);
    }
  }

  /** Deleting a character distributes over concatenation, so the characters
      kept stay in their order and keep their multiplicity. */
  lemma {:induction false} RemoveCharAppend(a: string, b: string, c: char)
    ensures RemoveChar(a + b, c) == RemoveChar(a, c) + RemoveChar(b, c)
  {
    if a == [] {
      assert a + b == b;
    } else {
      var head := if a[0] == c then [] else [a[0]];
      assert (a + b)[0] == a[0];
      assert (a + b)[1..] == a[1..] + b;
      RemoveCharAppend(a[1..], b, c);
      calc {
        RemoveChar(a + b, c);
        { RemoveCharUnfold(a + b, c); }
        head + RemoveChar(a[1..] + b, c);
        head + (RemoveChar(a[1..], c) + RemoveChar(b, c));
        (head + RemoveChar(a[1..], c)) + RemoveChar(b, c);
        { RemoveCharUnfold(a, c); }
        RemoveChar(a, c) + RemoveChar(b, c);
      }
    }
  }

  /** A last character other than `c` stays last. */
  lemma RemoveCharLast(s: string, c: char)
    requires s != [] && s[|s| - 1] != c
    ensures RemoveChar(s, c) != [] && RemoveChar(s, c)[|RemoveChar(s, c)| - 1] == s[|s| - 1]
  {
    var n := |s| - 1;
    assert s == s[..n] + [s[n]];
    RemoveCharAppend(s[..n], [s[n]], c);
    assert RemoveChar([s[n]], c) == [s[n]];
  }

  predicate StartsWith(s: string, prefix: string) {
    |prefix| <= |s| && s[..|prefix|] == prefix
  }

  /** `a + (b + c)` starts with `a + b`. */
  lemma StartsWithConcat(a: string, b: string, c: string)
    ensures StartsWith(a + (b + c), a + b)
  {
    assert (a + (b + c))[..|a + b|] == a + b;
  }

  /** `s.endsWith(suffix)`. */
  predicate EndsWith(s: string, suffix: string) {
    |suffix| <= |s| && s[|s| - |suffix|..] == suffix
  }

  /** `xs.join(sep)`. */
  function Join(xs: seq<string>, sep: string): (r: string)
    ensures xs == [] ==> r == ""
    ensures |xs| == 1 ==> r == xs[0]
    ensures |xs| >= 2 ==> StartsWith(r, xs[0] + sep)
  {
    if xs == [] then ""
    else if |xs| == 1 then xs[0]
    else
      assert (xs[0] + sep + Join(xs[1..], sep))[..|xs[0] + sep|] == xs[0] + sep;
      xs[0] + sep + Join(xs[1..], sep)
  }

  /** Joining two non-empty lists is joining each and putting `sep` between. */
  lemma {:induction false} JoinAppend(xs: seq<string>, ys: seq<string>, sep: string)
    requires xs != [] && ys != []
    ensures Join(xs + ys, sep) == Join(xs, sep) + sep + Join(ys, sep)
  {
    var zs := xs + ys;
    assert |zs| >= 2 && zs[0] == xs[0];
    assert Join(zs, sep) == xs[0] + sep + Join(zs[1..], sep);
    if |xs| == 1 {
      assert zs[1..] == ys;
    } else {
      var tail := xs[1..];
      assert zs[1..] == tail + ys;
      JoinAppend(tail, ys, sep);
      var a, b, c := xs[0] + sep, Join(tail, sep), Join(ys, sep);
      assert Join(xs, sep) == a + b;
      assert Join(zs, sep) == a + (b + sep + c);
      assert a + (b + sep + c) == (a + b) + sep + c;
    }
  }

  /** `s.includes(t)`. */
  predicate Contains(s: string, t: string) {
    exists k :: 0 <= k <= |s| && InfixAt(s, t, k)
  }

  /** `t` occurs in `s` at position `k`. */
  predicate InfixAt(s: string, t: string, k: nat) {
    k + |t| <= |s| && s[k..k + |t|] == t
  }

  /** What a string contains, a longer string with it in the middle contains. */
  lemma ContainsWithin(p: string, s: string, q: string, t: string)
    requires Contains(s, t)
    ensures Contains(p + s + q, t)
  {
    var k: nat :| k <= |s| && InfixAt(s, t, k);
    var w := p + s + q;
    assert forall j :: 0 <= j < |t| ==> w[|p| + k + j] == s[k + j] == t[j];
    assert w[|p| + k..|p| + k + |t|] == t;
    assert InfixAt(p + s + q, t, |p| + k);
  }

  /** Every element of a list occurs in its join. */
  lemma {:induction false} JoinContains(xs: seq<string>, sep: string, i: nat)
    requires i < |xs|
    ensures Contains(Join(xs, sep), xs[i])
  {
    if i == 0 {
      assert Join(xs, sep)[0..|xs[0]|] == xs[0];
      assert InfixAt(Join(xs, sep), xs[0], 0);
    } else {
      JoinContains(xs[1..], sep, i - 1);
      ContainsWithin(xs[0] + sep, Join(xs[1..], sep), "", xs[i]);
      assert xs[0] + sep + Join(xs[1..], sep) + "" == Join(xs, sep);
    }
  }

  predicate IsDigit(c: char) { '0' <= c <= '9' }

  predicate AllDigits(s: string) {
    forall i :: 0 <= i < |s| ==> IsDigit(s[i])
  }

  function DigitValue(c: char): (d: nat)
    requires IsDigit(c)
    ensures d < 10
  {
    c as int - '0' as int
  }

  function DigitChar(d: nat): (c: char)
    requires d < 10
    ensures IsDigit(c) && DigitValue(c) == d
  {
    ('0' as int + d) as char
  }

  /** The value of a string of decimal digits, most significant first. */
  function DecimalValue(ds: string): nat
    requires AllDigits(ds)
  {
    if ds == [] then 0
    else DecimalValue(ds[..|ds| - 1]) * 10 + DigitValue(ds[|ds| - 1])
  }

  /** The decimal form of a non-negative integer, as JavaScript prints it. */
  function NatToString(n: nat): (r: string)
    ensures r != [] && AllDigits(r)
    ensures DecimalValue(r) == n
    ensures n == 0 ==> r == "0"
    ensures n > 0 ==> r[0] != '0'
  {
    if n < 10 then [DigitChar(n)]
    else
      var prefix := NatToString(n / 10);
      assert (prefix + [DigitChar(n % 10)])[..|prefix|] == prefix;
      prefix + [DigitChar(n % 10)]
  }

  /** `${n}` for an integer `n`, as the code uses it for row numbers (which
      stay far below 10^21, where JavaScript switches to exponent form). */
  function IntToString(n: int): (r: string)
    ensures n >= 0 ==> r == NatToString(n)
    ensures n < 0 ==> r == "-" + NatToString(-n)
  {
    if n < 0 then "-" + NatToString(-n) else NatToString(n)
  }

  /** Decimal formatting is injective: different integers print differently. */
  lemma {:induction false} IntToStringInjective(m: int, n: int)
    requires IntToString(m) == IntToString(n)
    ensures m == n
  {
    if m >= 0 && n >= 0 {
      assert DecimalValue(NatToString(m)) == DecimalValue(NatToString(n));
    } else if m < 0 && n < 0 {
      assert NatToString(-m) == IntToString(m)[1..];
      assert NatToString(-n) == IntToString(n)[1..];
      assert DecimalValue(NatToString(-m)) == DecimalValue(NatToString(-n));
    }
  }
}

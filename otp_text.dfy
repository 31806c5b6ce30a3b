/**
  The string helpers the OTP handlers compute inline: e-mail normalisation
  (lower-case, then strip surrounding whitespace), the zero-padded six-digit
  code, and the placeholder session token.
*/
module OtpText {

  // ---------------------------------------------------------------- case

  /** Lower-cases ASCII letters and leaves every other character alone. */
  function AsciiLower(c: char): char
  {
    if 'A' <= c <= 'Z' then (c as int + 32) as char else c
  }

  /** `str.lower()`, restricted to ASCII letters. */
  function Lower(s: string): (r: string)
    ensures |r| == |s|
  {
    if s == [] then [] else [AsciiLower(s[0])] + Lower(s[1..])
  }

  /** Lower-casing works character by character and keeps the length. */
  lemma {:induction false} LowerPointwise(s: string)
    ensures |Lower(s)| == |s|
    ensures forall i :: 0 <= i < |s| ==> Lower(s)[i] == AsciiLower(s[i])
  {
    if s != [] {
      LowerPointwise(s[1..]);
      assert forall i :: 1 <= i < |s| ==> Lower(s)[i] == Lower(s[1..])[i - 1];
    }
  }

  // ---------------------------------------------------------------- whitespace

  /**
    The characters for which `str.isspace()` holds, which are exactly the ones
    `str.strip()` removes when given no argument.
  */
  predicate IsSpace(c: char)
  {
    || c == ' '
    || '\t' <= c <= '\r'
    || '\U{1C}' <= c <= '\U{1F}'
    || c == '\U{85}'
    || c == '\U{A0}'
    || c == '\U{1680}'
    || '\U{2000}' <= c <= '\U{200A}'
    || c == '\U{2028}'
    || c == '\U{2029}'
    || c == '\U{202F}'
    || c == '\U{205F}'
    || c == '\U{3000}'
  }

  predicate AllSpace(s: string)
  {
    forall i :: 0 <= i < |s| ==> IsSpace(s[i])
  }

  /** Neither end of `s` is whitespace. */
  predicate Tight(s: string)
  {
    s == [] || (!IsSpace(s[0]) && !IsSpace(s[|s| - 1]))
  }

  /** Drops the leading whitespace of `s`. */
  function TrimStart(s: string): string
  {
    if s != [] && IsSpace(s[0]) then TrimStart(s[1..]) else s
  }

  /** Drops the trailing whitespace of `s`. */
  function TrimEnd(s: string): string
  {
    if s != [] && IsSpace(s[|s| - 1]) then TrimEnd(s[..|s| - 1]) else s
  }

  /** `TrimStart` drops a run of whitespace and stops at the first other character. */
  lemma {:induction false} TrimStartSplits(s: string) returns (p: string)
    ensures s == p + TrimStart(s) && AllSpace(p)
    ensures TrimStart(s) == [] || !IsSpace(TrimStart(s)[0])
  {
    if s != [] && IsSpace(s[0]) {
      var p' := TrimStartSplits(s[1..]);
      p := [s[0]] + p';
      assert s == [s[0]] + s[1..];
    } else {
      p := [];
      assert s == [] + s;
    }
  }

  /** `TrimEnd` drops a run of whitespace and stops at the last other character. */
  lemma {:induction false} TrimEndSplits(s: string) returns (q: string)
    ensures s == TrimEnd(s) + q && AllSpace(q)
    ensures TrimEnd(s) == [] || !IsSpace(TrimEnd(s)[|TrimEnd(s)| - 1])
  {
    if s != [] && IsSpace(s[|s| - 1]) {
      var q' := TrimEndSplits(s[..|s| - 1]);
      q := q' + [s[|s| - 1]];
      assert s == s[..|s| - 1] + [s[|s| - 1]];
    } else {
      q := [];
      assert s == s + [];
    }
  }

  /** `str.strip()`: whitespace is cut from both ends. */
  function Strip(s: string): string
  {
    TrimEnd(TrimStart(s))
  }

  /**
    What `Strip` removes is a run of whitespace at each end and nothing else,
    and no whitespace is left at either end of what it keeps.
  */
  lemma StripSplits(s: string) returns (p: string, q: string)
    ensures s == p + Strip(s) + q && AllSpace(p) && AllSpace(q)
    ensures Tight(Strip(s))
  {
    var t := TrimStart(s);
    var r := TrimEnd(t);
    p := TrimStartSplits(s);
    q := TrimEndSplits(t);
    if r != [] {
      assert r[0] == t[0];
    }
  }

  lemma {:induction false} TrimStartSkipsSpace(p: string, y: string)
    requires AllSpace(p)
    ensures TrimStart(p + y) == TrimStart(y)
  {
    if p != [] {
      assert (p + y)[0] == p[0];
      assert (p + y)[1..] == p[1..] + y;
      TrimStartSkipsSpace(p[1..], y);
    } else {
      assert p + y == y;
    }
  }

  lemma {:induction false} TrimEndSkipsSpace(y: string, q: string)
    requires AllSpace(q)
    ensures TrimEnd(y + q) == TrimEnd(y)
  {
    if q != [] {
      assert (y + q)[|y + q| - 1] == q[|q| - 1];
      assert (y + q)[..|y + q| - 1] == y + q[..|q| - 1];
      TrimEndSkipsSpace(y, q[..|q| - 1]);
    } else {
      assert y + q == y;
    }
  }

  /**
    The decomposition `StripSplits` gives is unique: whatever whitespace
    surrounds a tight string, stripping yields exactly that string.
  */
  lemma StripPadded(p: string, t: string, q: string)
    requires AllSpace(p) && AllSpace(q) && Tight(t)
    ensures Strip(p + t + q) == t
  {
    assert p + t + q == p + (t + q);
    TrimStartSkipsSpace(p, t + q);
    if t == [] {
      assert t + q == q + [];
      TrimStartSkipsSpace(q, []);
      assert TrimStart(t + q) == [];
      assert TrimEnd([]) == [];
    } else {
      assert TrimStart(t + q) == t + q;
      TrimEndSkipsSpace(t, q);
    }
  }

  /** Whitespace on both sides of whitespace is still whitespace. */
  lemma SpaceConcat(a: string, b: string)
    requires AllSpace(a) && AllSpace(b)
    ensures AllSpace(a + b)
  {
    forall i | 0 <= i < |a + b| ensures IsSpace((a + b)[i]) {
      if i < |a| { assert (a + b)[i] == a[i]; } else { assert (a + b)[i] == b[i - |a|]; }
    }
  }

  lemma Regroup(a: string, b: string, c: string, d: string, e: string)
    ensures a + (b + c + d) + e == (a + b) + c + (d + e)
  {
  }

  /** Extra whitespace around a string never changes what it strips to. */
  lemma StripIgnoresPadding(p: string, s: string, q: string)
    requires AllSpace(p) && AllSpace(q)
    ensures Strip(p + s + q) == Strip(s)
  {
    var t := Strip(s);
    var p', q' := StripSplits(s);
    SpaceConcat(p, p');
    SpaceConcat(q', q);
    Regroup(p, p', t, q', q);
    StripPadded(p + p', t, q' + q);
  }

  lemma StripIdempotent(s: string)
    ensures Strip(Strip(s)) == Strip(s)
  {
    var t := Strip(s);
    var _, _ := StripSplits(s);
    assert [] + t + [] == t;
    StripPadded([], t, []);
  }

  // ---------------------------------------------------------------- e-mail

  /** Stripping only shortens a string and leaves it tight. */
  lemma StripShortensToTight(s: string)
    ensures |Strip(s)| <= |s| && Tight(Strip(s))
  {
    var _, _ := StripSplits(s);
  }

  /**
    The normalised form of an e-mail address: lower-cased, then stripped. It is
    never longer than the address and has no whitespace at either end.
  */
  function Normalize(email: string): (r: string)
    ensures |r| <= |email| && Tight(r)
  {
    StripShortensToTight(Lower(email));
    Strip(Lower(email))
  }

  /** Lower-casing leaves whitespace alone. */
  lemma LowerOfSpace(s: string)
    requires AllSpace(s)
    ensures Lower(s) == s
  {
    LowerPointwise(s);
  }

  /** Lower-casing a concatenation lower-cases each part. */
  lemma {:induction false} LowerAppend(a: string, b: string)
    ensures Lower(a + b) == Lower(a) + Lower(b)
  {
    if a == [] {
      assert a + b == b;
    } else {
      assert (a + b)[1..] == a[1..] + b;
      LowerAppend(a[1..], b);
    }
  }

  /** A string that is a part of a lower-cased string is lower-cased already. */
  lemma {:induction false} LowerOfLowered(s: string, i: nat, j: nat)
    requires i <= j <= |s|
    ensures Lower(Lower(s)[i..j]) == Lower(s)[i..j]
  {
    var t := Lower(s)[i..j];
    LowerPointwise(s);
    LowerPointwise(t);
    forall k | 0 <= k < |t| ensures Lower(t)[k] == t[k] {
      assert t[k] == AsciiLower(s[i + k]);
    }
  }

  /** Normalising twice is normalising once. */
  lemma NormalizeIdempotent(email: string)
    ensures Normalize(Normalize(email)) == Normalize(email)
  {
    var l := Lower(email);
    var t := Strip(l);
    var p, q := StripSplits(l);
    assert t == l[|p|..|p| + |t|];
    LowerOfLowered(email, |p|, |p| + |t|);
    StripIdempotent(l);
  }

  /** Whitespace around an address does not change its normal form. */
  lemma NormalizeIgnoresPadding(p: string, email: string, q: string)
    requires AllSpace(p) && AllSpace(q)
    ensures Normalize(p + email + q) == Normalize(email)
  {
    LowerAppend(p + email, q);
    LowerAppend(p, email);
    LowerOfSpace(p);
    LowerOfSpace(q);
    StripIgnoresPadding(p, Lower(email), q);
  }

  /** Addresses that differ only in the case of ASCII letters normalise alike. */
  lemma NormalizeIgnoresCase(a: string, b: string)
    requires |a| == |b|
    requires forall i :: 0 <= i < |a| ==> AsciiLower(a[i]) == AsciiLower(b[i])
    ensures Normalize(a) == Normalize(b)
  {
    LowerPointwise(a);
    LowerPointwise(b);
    assert Lower(a) == Lower(b);
  }

  // ---------------------------------------------------------------- code

  const CodeWidth: nat := 6
  const MaxDraw: nat := 999999

  predicate IsDigit(c: char)
  {
    '0' <= c <= '9'
  }

  predicate AllDigits(s: string)
  {
    forall i :: 0 <= i < |s| ==> IsDigit(s[i])
  }

  function DigitChar(d: nat): (c: char)
    requires d < 10
  {
    ('0' as int + d) as char
  }

  function DigitValue(c: char): nat
    requires IsDigit(c)
  {
    c as int - '0' as int
  }

  function Pow10(k: nat): nat
  {
    if k == 0 then 1 else 10 * Pow10(k - 1)
  }

  /** The last `width` decimal digits of `n`, most significant first, zero-padded. */
  function ZeroPadded(n: nat, width: nat): (r: string)
    ensures |r| == width && AllDigits(r)
  {
    if width == 0 then [] else ZeroPadded(n / 10, width - 1) + [DigitChar(n % 10)]
  }

  /** The number a string of decimal digits denotes (`int(s)`). */
  function DecimalValue(s: string): (v: nat)
    requires AllDigits(s)
    ensures v < Pow10(|s|)
  {
    if s == [] then 0 else 10 * DecimalValue(s[..|s| - 1]) + DigitValue(s[|s| - 1])
  }

  /** Reading back a zero-padded rendering yields the number, when it fits the width. */
  lemma {:induction false} ZeroPaddedRoundTrip(n: nat, width: nat)
    requires n < Pow10(width)
    ensures DecimalValue(ZeroPadded(n, width)) == n
  {
    if width > 0 {
      var r := ZeroPadded(n, width);
      assert r[..|r| - 1] == ZeroPadded(n / 10, width - 1);
      ZeroPaddedRoundTrip(n / 10, width - 1);
    }
  }

  /** Rendering the value of a digit string at its own width gives the string back. */
  lemma {:induction false} DecimalValueRoundTrip(s: string)
    requires AllDigits(s)
    ensures ZeroPadded(DecimalValue(s), |s|) == s
  {
    if s != [] {
      var init := s[..|s| - 1];
      var v := DecimalValue(s);
      assert v / 10 == DecimalValue(init) && v % 10 == DigitValue(s[|s| - 1]);
      DecimalValueRoundTrip(init);
      assert s == init + [s[|s| - 1]];
    }
  }

  /**
    `f"{draw:06d}"` for a draw in 0..999999: exactly six ASCII digits, leading
    zeros kept, and reading them back yields the draw.
  */
  function FormatCode(draw: nat): (code: string)
    requires draw <= MaxDraw
    ensures |code| == CodeWidth && AllDigits(code)
    ensures DecimalValue(code) == draw
  {
    assert Pow10(CodeWidth) == 1000000;
    ZeroPaddedRoundTrip(draw, CodeWidth);
    ZeroPadded(draw, CodeWidth)
  }

  /** Distinct draws give distinct codes, and every six-digit string is some draw's code. */
  lemma FormatCodeBijective(s: string)
    requires |s| == CodeWidth && AllDigits(s)
    ensures DecimalValue(s) <= MaxDraw && FormatCode(DecimalValue(s)) == s
  {
    assert Pow10(CodeWidth) == 1000000;
    DecimalValueRoundTrip(s);
  }

  /** A digit string has no whitespace to strip. */
  lemma DigitsStripToThemselves(s: string)
    requires AllDigits(s)
    ensures Strip(s) == s
  {
    assert [] + s + [] == s;
    StripPadded([], s, []);
  }

  // ---------------------------------------------------------------- token

  const TokenPrefix: string := "demo-token-"

  /**
    The placeholder session token: a fixed prefix followed by the address, so
    the address can be read back from the token.
  */
  function Token(email: string): (t: string)
    ensures |t| == |TokenPrefix| + |email|
    ensures t[..|TokenPrefix|] == TokenPrefix && t[|TokenPrefix|..] == email
  {
    TokenPrefix + email
  }

  /** The token determines the address it was issued for. */
  lemma TokenIdentifiesEmail(a: string, b: string)
    requires Token(a) == Token(b)
    ensures a == b
  {
    assert a == Token(a)[|TokenPrefix|..];
  }
}

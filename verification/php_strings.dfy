/**
 * The two PHP string functions the search results go through: `trim` with its
 * default character list and `intval` on a string.
 */
module PhpStrings {
  import opened ByteStrings

  /** The bytes `trim` strips by default: space, tab, LF, CR, NUL and vertical tab. */
  predicate IsTrimByte(c: Byte) {
    c == ' ' || c == '\t' || c == '\n' || c == '\r' || c as int == 0 || c as int == 11
  }

  predicate AllTrimBytes(s: Bytes) {
    forall i :: 0 <= i < |s| ==> IsTrimByte(s[i])
  }

  /** Neither end of `s` is a byte `trim` would strip. */
  predicate IsTrimmed(s: Bytes) {
    |s| == 0 || (!IsTrimByte(s[0]) && !IsTrimByte(s[|s| - 1]))
  }

  /** `ltrim(s)`: drop the leading trim bytes. */
  function TrimLeft(s: Bytes): Bytes {
    if |s| > 0 && IsTrimByte(s[0]) then TrimLeft(s[1..]) else s
  }

  /** `rtrim(s)`: drop the trailing trim bytes. */
  function TrimRight(s: Bytes): Bytes {
    if |s| > 0 && IsTrimByte(s[|s| - 1]) then TrimRight(s[..|s| - 1]) else s
  }

  /** `ltrim` keeps a suffix, cuts only trim bytes, and stops at the first other byte. */
  lemma {:induction false} TrimLeftShape(s: Bytes)
    ensures var r := TrimLeft(s);
      |r| <= |s| && r == s[|s| - |r|..] && AllTrimBytes(s[..|s| - |r|]) && (|r| == 0 || !IsTrimByte(r[0]))
  {
    if |s| > 0 && IsTrimByte(s[0]) {
      TrimLeftShape(s[1..]);
      var r := TrimLeft(s);
      assert s[..|s| - |r|] == [s[0]] + s[1..][..|s| - 1 - |r|];
    } else {
      assert s[..0] == [];
    }
  }

  /** `rtrim` keeps a prefix, cuts only trim bytes, and stops at the last other byte. */
  lemma {:induction false} TrimRightShape(s: Bytes)
    ensures var r := TrimRight(s);
      |r| <= |s| && r == s[..|r|] && AllTrimBytes(s[|r|..]) && (|r| == 0 || !IsTrimByte(r[|r| - 1]))
  {
    if |s| > 0 && IsTrimByte(s[|s| - 1]) {
      TrimRightShape(s[..|s| - 1]);
      var r := TrimRight(s);
      assert s[|r|..] == s[..|s| - 1][|r|..] + [s[|s| - 1]];
    } else {
      assert s[|s|..] == [];
    }
  }

  /**
   * `trim(s)`: the middle slice of `s` left after removing the longest runs of
   * trim bytes at both ends.
   */
  function Trim(s: Bytes): Bytes {
    TrimRight(TrimLeft(s))
  }

  /**
   * `trim(s)` is the middle slice of `s` left after removing the longest runs
   * of trim bytes at both ends.
   */
  lemma TrimShape(s: Bytes)
    ensures |TrimLeft(s)| <= |s| && |s| - |TrimLeft(s)| + |Trim(s)| <= |s|
    ensures var i := |s| - |TrimLeft(s)|;
      Trim(s) == s[i..i + |Trim(s)|] && AllTrimBytes(s[..i]) && AllTrimBytes(s[i + |Trim(s)|..])
  {
    var l := TrimLeft(s);
    var r := TrimRight(l);
    var i := |s| - |l|;
    assert |l| <= |s| && l == s[i..] && AllTrimBytes(s[..i]) by {
      TrimLeftShape(s);
    }
    assert |r| <= |l| && r == l[..|r|] && AllTrimBytes(l[|r|..]) by {
      TrimRightShape(l);
    }
    assert s[i + |r|..] == l[|r|..];
  }

  /** Neither end of `trim(s)` is a trim byte. */
  lemma TrimTrimmed(s: Bytes)
    ensures IsTrimmed(Trim(s))
  {
    var l := TrimLeft(s);
    var r := TrimRight(l);
    TrimLeftShape(s);
    TrimRightShape(l);
    assert |r| > 0 ==> r[0] == l[0];
  }

  lemma TrimLeftOfTrimmed(s: Bytes)
    requires |s| == 0 || !IsTrimByte(s[0])
    ensures TrimLeft(s) == s
  {
  }

  lemma TrimRightOfTrimmed(s: Bytes)
    requires |s| == 0 || !IsTrimByte(s[|s| - 1])
    ensures TrimRight(s) == s
  {
  }

  lemma {:induction false} TrimLeftPadding(pad: Bytes, t: Bytes)
    requires AllTrimBytes(pad)
    requires |t| == 0 || !IsTrimByte(t[0])
    ensures TrimLeft(pad + t) == t
  {
    if |pad| > 0 {
      assert (pad + t)[1..] == pad[1..] + t;
      TrimLeftPadding(pad[1..], t);
    } else {
      assert pad + t == t;
    }
  }

  lemma {:induction false} TrimRightPadding(t: Bytes, pad: Bytes)
    requires AllTrimBytes(pad)
    requires |t| == 0 || !IsTrimByte(t[|t| - 1])
    ensures TrimRight(t + pad) == t
  {
    if |pad| > 0 {
      assert (t + pad)[..|t + pad| - 1] == t + pad[..|pad| - 1];
      TrimRightPadding(t, pad[..|pad| - 1]);
    } else {
      assert t + pad == t;
    }
  }

  /** Trimming removes exactly the padding around a trimmed string, whatever the padding. */
  lemma TrimPadding(pre: Bytes, t: Bytes, post: Bytes)
    requires AllTrimBytes(pre) && AllTrimBytes(post)
    requires IsTrimmed(t)
    ensures Trim(pre + t + post) == t
  {
    if |t| == 0 {
      assert pre + t + post == (pre + post) + t;
      assert AllTrimBytes(pre + post);
      TrimLeftPadding(pre + post, t);
    } else {
      assert pre + t + post == pre + (t + post);
      TrimLeftPadding(pre, t + post);
      TrimRightPadding(t, post);
    }
  }

  /** `trim` is idempotent. */
  lemma TrimIdempotent(s: Bytes)
    ensures Trim(Trim(s)) == Trim(s)
  {
    var r := Trim(s);
    TrimTrimmed(s);
    TrimLeftOfTrimmed(r);
    TrimRightOfTrimmed(r);
  }

  // ---------------------------------------------------------------------------
  // intval

  const MaxInt: int := 0x7FFF_FFFF_FFFF_FFFF
  const MinInt: int := -0x8000_0000_0000_0000

  /** The white space PHP skips before a numeric string: space, \t, \n, \r, \v, \f. */
  predicate IsNumericSpace(c: Byte) {
    c == ' ' || c == '\t' || c == '\n' || c == '\r' || c as int == 11 || c as int == 12
  }

  function SkipSpace(s: Bytes): (r: Bytes)
    ensures |r| <= |s| && r == s[|s| - |r|..]
    ensures |r| == 0 || !IsNumericSpace(r[0])
  {
    if |s| > 0 && IsNumericSpace(s[0]) then SkipSpace(s[1..]) else s
  }

  /** The longest prefix of `s` made of decimal digits. */
  function DigitRun(s: Bytes): (r: Bytes)
    ensures |r| <= |s| && r == s[..|r|]
    ensures forall i :: 0 <= i < |r| ==> IsDigit(r[i])
    ensures |r| == |s| || !IsDigit(s[|r|])
  {
    if |s| > 0 && IsDigit(s[0]) then [s[0]] + DigitRun(s[1..]) else []
  }

  function DigitValue(c: Byte): (d: nat)
    requires IsDigit(c)
    ensures d < 10
  {
    c as int - '0' as int
  }

  /** The number a run of decimal digits denotes, most significant first. */
  function DigitsValue(ds: Bytes): nat
    requires forall i :: 0 <= i < |ds| ==> IsDigit(ds[i])
  {
    if |ds| == 0 then 0 else 10 * DigitsValue(ds[..|ds| - 1]) + DigitValue(ds[|ds| - 1])
  }

  /** The 64-bit saturation PHP applies to an integer string out of range. */
  function Clamp(n: int): (r: int)
    ensures MinInt <= r <= MaxInt
    ensures MinInt <= n <= MaxInt ==> r == n
    ensures n > MaxInt ==> r == MaxInt
    ensures n < MinInt ==> r == MinInt
  {
    if n > MaxInt then MaxInt else if n < MinInt then MinInt else n
  }

  /**
   * `intval($s)`: skip leading white space, read an optional sign and the
   * digits that follow, ignore the rest, and saturate to the 64-bit range.
   * A string with no leading digits is 0.
   */
  function IntVal(s: Bytes): (r: int)
    ensures MinInt <= r <= MaxInt
  {
    SignedValue(SkipSpace(s))
  }

  /** The optional sign and leading digits of `t`, saturated. */
  function SignedValue(t: Bytes): (r: int)
    ensures MinInt <= r <= MaxInt
  {
    var negative := |t| > 0 && t[0] == '-';
    var u := if |t| > 0 && (t[0] == '-' || t[0] == '+') then t[1..] else t;
    var n: int := DigitsValue(DigitRun(u));
    Clamp(if negative then -n else n)
  }

  function Digit(d: nat): (c: Byte)
    requires d < 10
    ensures IsDigit(c) && DigitValue(c) == d
  {
    ('0' as int + d) as char
  }

  /** Decimal digits of `n` without leading zeros. */
  function FormatNat(n: nat): (r: Bytes)
    ensures |r| >= 1
    ensures forall i :: 0 <= i < |r| ==> IsDigit(r[i])
  {
    if n < 10 then [Digit(n)] else FormatNat(n / 10) + [Digit(n % 10)]
  }

  /** The decimal form of an integer, with a `-` for negatives (what PHP prints). */
  function FormatInt(n: int): (r: Bytes)
    ensures |r| >= 1
  {
    if n < 0 then ['-'] + FormatNat(-n) else FormatNat(n)
  }

  lemma {:induction false} DigitsValueFormat(n: nat)
    ensures DigitsValue(FormatNat(n)) == n
  {
    if n >= 10 {
      var r := FormatNat(n);
      assert r[..|r| - 1] == FormatNat(n / 10);
      DigitsValueFormat(n / 10);
    }
  }

  lemma {:induction false} DigitRunExact(ds: Bytes, rest: Bytes)
    requires forall i :: 0 <= i < |ds| ==> IsDigit(ds[i])
    requires |rest| == 0 || !IsDigit(rest[0])
    ensures DigitRun(ds + rest) == ds
  {
    if |ds| > 0 {
      assert (ds + rest)[1..] == ds[1..] + rest;
      DigitRunExact(ds[1..], rest);
      assert [ds[0]] + ds[1..] == ds;
    } else {
      assert ds + rest == rest;
    }
  }

  lemma {:induction false} SkipSpacePadding(pad: Bytes, t: Bytes)
    requires forall i :: 0 <= i < |pad| ==> IsNumericSpace(pad[i])
    requires |t| == 0 || !IsNumericSpace(t[0])
    ensures SkipSpace(pad + t) == t
  {
    if |pad| > 0 {
      assert (pad + t)[1..] == pad[1..] + t;
      SkipSpacePadding(pad[1..], t);
    } else {
      assert pad + t == t;
    }
  }

  /**
   * `intval` reads back any 64-bit integer PHP prints, even with white space
   * before it and non-digit text after it.
   */
  lemma IntValFormat(pad: Bytes, n: int, rest: Bytes)
    requires MinInt <= n <= MaxInt
    requires forall i :: 0 <= i < |pad| ==> IsNumericSpace(pad[i])
    requires |rest| == 0 || (!IsDigit(rest[0]) && rest[0] != '.' && rest[0] != 'e' && rest[0] != 'E')
    ensures IntVal(pad + FormatInt(n) + rest) == n
  {
    var t := FormatInt(n) + rest;
    assert pad + FormatInt(n) + rest == pad + t;
    SkipSpacePadding(pad, t);
    SignedValueFormat(n, rest);
  }

  lemma SignedValueFormat(n: int, rest: Bytes)
    requires MinInt <= n <= MaxInt
    requires |rest| == 0 || !IsDigit(rest[0])
    ensures SignedValue(FormatInt(n) + rest) == n
  {
    if n < 0 {
      NegativeFormat(n, rest);
    } else {
      DigitsFormat(n, rest);
      SignedDigits(FormatNat(n) + rest, FormatNat(n) + rest, n, false);
    }
  }

  lemma NegativeFormat(n: int, rest: Bytes)
    requires MinInt <= n < 0
    requires |rest| == 0 || !IsDigit(rest[0])
    ensures SignedValue(FormatInt(n) + rest) == n
  {
    var x := FormatNat(-n) + rest;
    assert FormatInt(n) + rest == ['-'] + x;
    DigitsFormat(-n, rest);
    SignedDigits(['-'] + x, x, -n, true);
  }

  /** The digits of `m` followed by text that does not start with a digit read as `m`. */
  lemma DigitsFormat(m: nat, rest: Bytes)
    requires |rest| == 0 || !IsDigit(rest[0])
    ensures var x := FormatNat(m) + rest; |x| > 0 && IsDigit(x[0]) && DigitsValue(DigitRun(x)) == m
  {
    DigitRunExact(FormatNat(m), rest);
    DigitsValueFormat(m);
  }

  /** A sign (or none) followed by digits worth `m` reads as `m` or `-m`, saturated. */
  lemma SignedDigits(t: Bytes, x: Bytes, m: nat, negative: bool)
    requires t == if negative then ['-'] + x else x
    requires |x| > 0 && IsDigit(x[0])
    requires DigitsValue(DigitRun(x)) == m
    ensures SignedValue(t) == Clamp(if negative then -(m as int) else m)
  {
    if negative {
      assert t[1..] == x;
    }
  }

  /** Text that does not start with a number, such as the empty string, reads as 0. */
  lemma IntValNoDigits(s: Bytes)
    requires forall i :: 0 <= i < |s| ==> !IsDigit(s[i]) 
    ensures IntVal(s) == 0
  {
    var t := SkipSpace(s);
    var u := if |t| > 0 && (t[0] == '-' || t[0] == '+') then t[1..] else t;
    assert |u| == 0 || !IsDigit(u[0]) by {
      if |u| > 0 {
        assert u[0] == s[|s| - |u|];
      }
    }
    assert DigitRun(u) == [];
  }
}

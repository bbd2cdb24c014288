/** Canonical text forms the rendering code produces: decimal integers (Rust's
    `Display` for integers), lowercase hexadecimal (base16, section 8 of RFC 4648)
    and whitespace splitting. */
module Text {
  import opened Common

  // ---------------------------------------------------------------- decimal

  predicate IsDigit(c: char) { '0' <= c <= '9' }

  predicate AllDigits(s: string) { forall i :: 0 <= i < |s| ==> IsDigit(s[i]) }

  function DigitChar(d: nat): (c: char)
    requires d < 10
    ensures IsDigit(c)
  {
    (('0' as int) + d) as char
  }

  function DigitValue(c: char): (d: nat)
    requires IsDigit(c)
    ensures d < 10 && DigitChar(d) == c
  {
    (c as int) - ('0' as int)
  }

  /** Decimal digits of `n`, most significant first, no leading zero. */
  function NatToString(n: nat): (s: string)
    ensures 1 <= |s|
    ensures AllDigits(s)
    ensures |s| > 1 ==> s[0] != '0'
    decreases n
  {
    if n < 10 then [DigitChar(n)] else NatToString(n / 10) + [DigitChar(n % 10)]
  }

  /** The value of a string of decimal digits (the empty string reads as 0). */
  function DigitsValue(s: string): nat
    requires AllDigits(s)
  {
    if |s| == 0 then 0 else DigitsValue(s[..|s| - 1]) * 10 + DigitValue(s[|s| - 1])
  }

  lemma {:induction false} NatToStringValue(n: nat)
    ensures DigitsValue(NatToString(n)) == n
    decreases n
  {
    if n >= 10 {
      var s := NatToString(n);
      assert s[..|s| - 1] == NatToString(n / 10);
      NatToStringValue(n / 10);
    }
  }

  /** Rust's `Display` for a signed integer. */
  function IntToString(x: int): (s: string)
    ensures 1 <= |s|
  {
    if x < 0 then "-" + NatToString(-x) else NatToString(x)
  }

  /** Rust's `str::parse` for an integer type whose values lie in `lo..=hi`:
      an optional sign (`-` only when the type is signed), at least one
      ASCII digit, nothing else. */
  function ParseInt(s: string, lo: int, hi: int): (r: Option<int>)
    ensures r.Some? ==> lo <= r.value <= hi
  {
    var signed := lo < 0;
    var negative := |s| > 0 && s[0] == '-' && signed;
    var digits := if |s| > 0 && (s[0] == '+' || negative) then s[1..] else s;
    if |digits| == 0 || !AllDigits(digits) then None
    else
      var v: int := if negative then 0 - DigitsValue(digits) as int else DigitsValue(digits);
      if lo <= v <= hi then Some(v) else None
  }

  lemma IntToStringParses(x: int, lo: int, hi: int)
    requires lo <= x <= hi
    requires x < 0 ==> lo < 0
    ensures ParseInt(IntToString(x), lo, hi) == Some(x)
  {
    var s := IntToString(x);
    if x < 0 {
      assert s[1..] == NatToString(-x);
      NatToStringValue(-x);
    } else {
      NatToStringValue(x);
    }
  }

  // ---------------------------------------------------------------- hex

  const HexAlphabet: string := "0123456789abcdef"

  function HexDigit(d: nat): (c: char)
    requires d < 16
  {
    HexAlphabet[d]
  }

  /** Value of one hexadecimal digit, either case, as the `hex` crate accepts. */
  function HexValue(c: char): (r: Option<nat>)
    ensures r.Some? ==> r.value < 16
  {
    if '0' <= c <= '9' then Some((c as int) - ('0' as int))
    else if 'a' <= c <= 'f' then Some((c as int) - ('a' as int) + 10)
    else if 'A' <= c <= 'F' then Some((c as int) - ('A' as int) + 10)
    else None
  }

  lemma HexDigitValue(d: nat)
    requires d < 16
    ensures HexValue(HexDigit(d)) == Some(d)
  {
  }

  /** `hex::encode`: two lowercase digits per byte, high nibble first. */
  function Hex(b: Bytes): (s: string)
    ensures |s| == 2 * |b|
  {
    if |b| == 0 then "" else [HexDigit(b[0] / 16), HexDigit(b[0] % 16)] + Hex(b[1..])
  }

  /** `hex::decode` on an input of even length; `None` for any other input. */
  function HexDecode(s: string): (r: Option<Bytes>)
    ensures r.Some? ==> 2 * |r.value| == |s|
    decreases |s|
  {
    if |s| == 0 then Some([])
    else if |s| == 1 then None
    else
      var h, l, rest := HexValue(s[0]), HexValue(s[1]), HexDecode(s[2..]);
      if h.Some? && l.Some? && rest.Some? then Some([h.value * 16 + l.value] + rest.value)
      else None
  }

  lemma {:induction false} HexRoundTrip(b: Bytes)
    ensures HexDecode(Hex(b)) == Some(b)
  {
    if |b| > 0 {
      var s := Hex(b);
      var h, l := b[0] / 16, b[0] % 16;
      HexDigitValue(h);
      HexDigitValue(l);
      assert s[0] == HexDigit(h) && s[1] == HexDigit(l);
      assert s[2..] == Hex(b[1..]);
      HexRoundTrip(b[1..]);
      assert h * 16 + l == b[0];
      assert HexDecode(s) == Some([b[0]] + b[1..]);
      assert [b[0]] + b[1..] == b;
    }
  }

  lemma {:induction false} HexAppend(a: Bytes, b: Bytes)
    ensures Hex(a + b) == Hex(a) + Hex(b)
  {
    if |a| > 0 {
      assert (a + b)[1..] == a[1..] + b;
      HexAppend(a[1..], b);
    } else {
      assert a + b == b;
    }
  }

  /** The hex of the first `k` bytes is the first `2k` characters. */
  lemma HexPrefix(b: Bytes, k: nat)
    requires k <= |b|
    ensures Hex(b)[..2 * k] == Hex(b[..k])
    ensures Hex(b)[2 * k..] == Hex(b[k..])
  {
    assert b == b[..k] + b[k..];
    HexAppend(b[..k], b[k..]);
  }

  // ---------------------------------------------------------------- tokens

  /** `char::is_whitespace`: the characters with the Unicode White_Space
      property. */
  predicate IsWhitespace(c: char)
  {
    var n := c as int;
    || 0x09 <= n <= 0x0D || n == 0x20 || n == 0x85 || n == 0xA0 || n == 0x1680
    || 0x2000 <= n <= 0x200A || n == 0x2028 || n == 0x2029 || n == 0x202F
    || n == 0x205F || n == 0x3000
  }

  predicate IsNonDigit(c: char) { !IsDigit(c) }

  predicate IsToken(t: string, sep: char -> bool)
  {
    |t| > 0 && forall i :: 0 <= i < |t| ==> !sep(t[i])
  }

  /** Length of the longest prefix of `s` free of separators. */
  function TokenLength(s: string, sep: char -> bool): (n: nat)
    ensures n <= |s|
    ensures forall i :: 0 <= i < n ==> !sep(s[i])
    ensures n < |s| ==> sep(s[n])
  {
    if |s| == 0 || sep(s[0]) then 0 else 1 + TokenLength(s[1..], sep)
  }

  /** The maximal separator-free runs of `s`, in order. With `IsWhitespace`
      this is `str::split_whitespace` (`SplitWhitespace`). */
  function Tokens(s: string, sep: char -> bool): (r: seq<string>)
    ensures forall i :: 0 <= i < |r| ==> IsToken(r[i], sep)
    decreases |s|
  {
    if |s| == 0 then []
    else if sep(s[0]) then Tokens(s[1..], sep)
    else
      var n := TokenLength(s, sep);
      [s[..n]] + Tokens(s[n..], sep)
  }

  function SplitWhitespace(s: string): seq<string>
  {
    Tokens(s, IsWhitespace)
  }

  lemma TokenLengthOfToken(t: string, rest: string, sep: char -> bool)
    requires IsToken(t, sep)
    requires |rest| > 0 ==> sep(rest[0])
    ensures TokenLength(t + rest, sep) == |t|
    decreases |t|
  {
    if |t| > 1 {
      assert (t + rest)[1..] == t[1..] + rest;
      TokenLengthOfToken(t[1..], rest, sep);
    } else {
      assert (t + rest)[1..] == rest;
    }
  }

  /** A token that ends at a separator, or at the end of its left part when the
      right part starts with one, is not lengthened by concatenation. */
  lemma TokenLengthAppend(x: string, y: string, sep: char -> bool)
    requires (|x| > 0 && sep(x[|x| - 1])) || |y| == 0 || sep(y[0])
    ensures TokenLength(x + y, sep) == TokenLength(x, sep)
    decreases |x|
  {
    if |x| == 0 {
      assert x + y == y;
    } else if !sep(x[0]) {
      assert (x + y)[1..] == x[1..] + y;
      TokenLengthAppend(x[1..], y, sep);
    }
  }

  lemma TokensUnfold(s: string, sep: char -> bool)
    requires |s| > 0
    ensures sep(s[0]) ==> Tokens(s, sep) == Tokens(s[1..], sep)
    ensures !sep(s[0]) ==>
      Tokens(s, sep) == [s[..TokenLength(s, sep)]] + Tokens(s[TokenLength(s, sep)..], sep)
  {
  }

  /** Splitting distributes over a concatenation that has a separator at its seam. */
  lemma {:induction false} TokensAppend(x: string, y: string, sep: char -> bool)
    requires (|x| > 0 && sep(x[|x| - 1])) || |y| == 0 || sep(y[0])
    ensures Tokens(x + y, sep) == Tokens(x, sep) + Tokens(y, sep)
    decreases |x|, 1
  {
    if |x| == 0 {
      assert x + y == y;
    } else if sep(x[0]) {
      TokensAppendAfterSeparator(x, y, sep);
    } else {
      TokensAppendAfterToken(x, y, sep);
    }
  }

  lemma {:induction false} TokensAppendAfterSeparator(x: string, y: string, sep: char -> bool)
    requires |x| > 0 && sep(x[0])
    requires sep(x[|x| - 1]) || |y| == 0 || sep(y[0])
    ensures Tokens(x + y, sep) == Tokens(x, sep) + Tokens(y, sep)
    decreases |x|, 0
  {
    var xy := x + y;
    assert xy[0] == x[0];
    TokensUnfold(x, sep);
    TokensUnfold(xy, sep);
    assert xy[1..] == x[1..] + y;
    if |x| > 1 {
      TokensAppend(x[1..], y, sep);
    } else {
      assert x[1..] + y == y;
    }
  }

  lemma {:induction false} TokensAppendAfterToken(x: string, y: string, sep: char -> bool)
    requires |x| > 0 && !sep(x[0])
    requires sep(x[|x| - 1]) || |y| == 0 || sep(y[0])
    ensures Tokens(x + y, sep) == Tokens(x, sep) + Tokens(y, sep)
    decreases |x|, 0
  {
    var xy := x + y;
    assert xy[0] == x[0];
    TokensUnfold(x, sep);
    TokensUnfold(xy, sep);
    var n := TokenLength(x, sep);
    TokenLengthAppend(x, y, sep);
    assert xy[..n] == x[..n];
    assert xy[n..] == x[n..] + y;
    TokensAppend(x[n..], y, sep);
  }

  lemma TokensOfToken(t: string, sep: char -> bool)
    requires IsToken(t, sep)
    ensures Tokens(t, sep) == [t]
  {
    TokenLengthOfToken(t, "", sep);
    assert t + "" == t;
    assert t[..|t|] == t;
    assert t[|t|..] == "";
  }

  lemma TokensOfSeparators(s: string, sep: char -> bool)
    requires forall i :: 0 <= i < |s| ==> sep(s[i])
    ensures Tokens(s, sep) == []
    decreases |s|
  {
    if |s| > 0 {
      TokensOfSeparators(s[1..], sep);
    }
  }

  /** Splitting tokens joined by a separator string gives the tokens back. */
  lemma {:induction false} TokensOfJoin(ts: seq<string>, glue: string, sep: char -> bool)
    requires forall i :: 0 <= i < |ts| ==> IsToken(ts[i], sep)
    requires |glue| > 0 && forall i :: 0 <= i < |glue| ==> sep(glue[i])
    ensures Tokens(Join(ts, glue), sep) == ts
  {
    if |ts| == 1 {
      TokensOfToken(ts[0], sep);
    } else if |ts| > 1 {
      var head := ts[0] + glue;
      assert Join(ts, glue) == head + Join(ts[1..], glue);
      TokensAppend(head, Join(ts[1..], glue), sep);
      TokensAppendToken(ts[0], glue, sep);
      TokensOfJoin(ts[1..], glue, sep);
    }
  }

  /** Splitting tokens each followed by a separator string gives the tokens back. */
  lemma {:induction false} TokensOfTerminated(ts: seq<string>, glue: string, sep: char -> bool)
    requires forall i :: 0 <= i < |ts| ==> IsToken(ts[i], sep)
    requires |glue| > 0 && forall i :: 0 <= i < |glue| ==> sep(glue[i])
    ensures Tokens(Terminated(ts, glue), sep) == ts
  {
    if |ts| > 0 {
      var head := ts[0] + glue;
      assert Terminated(ts, glue) == head + Terminated(ts[1..], glue);
      TokensAppend(head, Terminated(ts[1..], glue), sep);
      TokensOfSeparators(glue, sep);
      TokensOfToken(ts[0], sep);
      TokensAppendToken(ts[0], glue, sep);
      TokensOfTerminated(ts[1..], glue, sep);
    }
  }

  lemma TokensAppendToken(t: string, glue: string, sep: char -> bool)
    requires IsToken(t, sep)
    requires |glue| > 0 && forall i :: 0 <= i < |glue| ==> sep(glue[i])
    ensures Tokens(t + glue, sep) == [t]
  {
    TokenLengthOfToken(t, glue, sep);
    var s := t + glue;
    assert s[..|t|] == t;
    assert s[|t|..] == glue;
    TokensOfSeparators(glue, sep);
  }
}

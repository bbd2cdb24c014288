/** Byte rendering and byte input parsing of the newer UI code (src/bytes_utils.rs):
    guessing a display variant from the length, truncated list and hex renderings,
    big-endian integer decoding, and the text input that turns typed text back into
    bytes. */
module BytesUtils {
  import opened Common
  import opened Text

  const MaxBytes: nat := 10
  const MaxHexLength: nat := 32
  const HexPartsLength: nat := 12

  /** Behaviour of foreign crates the rendering calls into, passed in as parameters:
      `String::from_utf8_lossy`, `str::as_bytes` (UTF-8 encoding) and the
      `integer_encoding` variable-length integer codec. */
  datatype Foreign = Foreign(
    utf8Lossy: Bytes -> string,
    utf8Encode: string -> Bytes,
    varIntDecode: Bytes -> Option<int>,
    varIntEncode: int -> Bytes)

  datatype BytesDisplayVariant = U8 | String | Hex | SignedInt | UnsignedInt | VarInt

  /** The display variant picked for bytes nobody has chosen a variant for. */
  function Guess(bytes: Bytes): (v: BytesDisplayVariant)
    ensures v == U8 <==> |bytes| == 1
    ensures v == SignedInt <==> (|bytes| == 2 || |bytes| == 4 || |bytes| == 8)
    ensures v == Hex <==> |bytes| == 32
    ensures v == String <==> !(|bytes| in {1, 2, 4, 8, 32})
    ensures v != UnsignedInt && v != VarInt
  {
    match |bytes|
    case 1 => U8
    case 2 => SignedInt
    case 4 => SignedInt
    case 8 => SignedInt
    case 32 => Hex
    case _ => String
  }

  // ---------------------------------------------------------------- big endian

  function Pow256(w: nat): (p: int)
    ensures p >= 1
  {
    if w == 0 then 1 else 256 * Pow256(w - 1)
  }

  /** `uN::from_be_bytes`: the unsigned value of `b`, most significant byte first. */
  function BeValue(b: Bytes): (n: nat)
    ensures n < Pow256(|b|)
  {
    if |b| == 0 then 0 else BeValue(b[..|b| - 1]) * 256 + b[|b| - 1]
  }

  /** `uN::to_be_bytes` for a `w`-byte integer. */
  function BeBytes(x: nat, w: nat): (b: Bytes)
    requires x < Pow256(w)
    ensures |b| == w
  {
    if w == 0 then [] else BeBytes(x / 256, w - 1) + [x % 256]
  }

  /** Two's complement reading of an unsigned `w`-byte value (`iN::from_be_bytes`). */
  function Signed(n: nat, w: nat): int
  {
    if 2 * n >= Pow256(w) then n - Pow256(w) else n
  }

  /** Two's complement bit pattern of a signed `w`-byte value (`iN::to_be_bytes`). */
  function Unsigned(x: int, w: nat): (n: nat)
    requires -Pow256(w) <= 2 * x < Pow256(w)
    ensures n < Pow256(w)
    ensures Signed(n, w) == x
  {
    if x < 0 then x + Pow256(w) else x
  }

  lemma {:induction false} BeRoundTrip(x: nat, w: nat)
    requires x < Pow256(w)
    ensures BeValue(BeBytes(x, w)) == x
  {
    if w > 0 {
      var b := BeBytes(x, w);
      assert b[..|b| - 1] == BeBytes(x / 256, w - 1);
      BeRoundTrip(x / 256, w - 1);
    }
  }

  lemma {:induction false} BeBytesOfValue(b: Bytes)
    ensures BeBytes(BeValue(b), |b|) == b
  {
    if |b| > 0 {
      var init := b[..|b| - 1];
      BeBytesOfValue(init);
      assert BeValue(b) / 256 == BeValue(init);
      assert BeValue(b) % 256 == b[|b| - 1];
      assert init + [b[|b| - 1]] == b;
    }
  }

  // ---------------------------------------------------------------- rendering

  function Decimals(b: Bytes): (ds: seq<string>)
    ensures |ds| == |b|
    ensures forall i :: 0 <= i < |b| ==> ds[i] == NatToString(b[i])
  {
    MapSeq(b, (x: Byte) => NatToString(x))
  }

  /** Rust's `{:?}` of a byte slice: `[1, 2, 3]`. */
  function DebugList(b: Bytes): string
  {
    "[" + Join(Decimals(b), ", ") + "]"
  }

  /** `bytes_as_slice`: the whole list when it is short, otherwise the first
      `MaxBytes` bytes, each followed by a comma, then `...`. */
  function BytesAsSlice(b: Bytes): (r: string)
    ensures |r| > 0 && r[0] == '['
  {
    if |b| <= MaxBytes then DebugList(b)
    else "[" + Terminated(Decimals(b[..MaxBytes]), ",") + "..."
  }

  function Min(a: nat, b: nat): nat { if a <= b then a else b }

  lemma DecimalsAreTokens(b: Bytes)
    ensures forall i :: 0 <= i < |b| ==> IsToken(Decimals(b)[i], IsNonDigit)
  {
  }

  /** The digit runs of Rust's slice rendering are the decimal forms of the bytes. */
  lemma DebugListShowsBytes(b: Bytes)
    ensures Tokens(DebugList(b), IsNonDigit) == Decimals(b)
  {
    var ds := Decimals(b);
    var j := Join(ds, ", ");
    DecimalsAreTokens(b);
    assert DebugList(b) == "[" + (j + "]");
    TokensAppend("[", j + "]", IsNonDigit);
    TokensAppend(j, "]", IsNonDigit);
    TokensOfSeparators("[", IsNonDigit);
    TokensOfSeparators("]", IsNonDigit);
    TokensOfJoin(ds, ", ", IsNonDigit);
  }

  /** The digit runs of the list rendering are exactly the decimal forms of the
      first `min(|b|, MaxBytes)` bytes, in order; the rendering ends in `...`
      exactly when bytes were cut off. */
  lemma SliceShowsLeadingBytes(b: Bytes)
    ensures Tokens(BytesAsSlice(b), IsNonDigit) == Decimals(b[..Min(|b|, MaxBytes)])
    ensures |b| > MaxBytes <==> (|BytesAsSlice(b)| >= 3 &&
      BytesAsSlice(b)[|BytesAsSlice(b)| - 3..] == "...")
  {
    if |b| <= MaxBytes {
      SliceShowsAllBytes(b);
    } else {
      SliceShowsCutBytes(b);
    }
  }

  lemma SliceShowsAllBytes(b: Bytes)
    requires |b| <= MaxBytes
    ensures Tokens(BytesAsSlice(b), IsNonDigit) == Decimals(b)
    ensures var r := BytesAsSlice(b); |r| > 0 && r[|r| - 1] == ']'
  {
    DebugListShowsBytes(b);
  }

  lemma SliceShowsCutBytes(b: Bytes)
    requires |b| > MaxBytes
    ensures Tokens(BytesAsSlice(b), IsNonDigit) == Decimals(b[..MaxBytes])
    ensures var r := BytesAsSlice(b); |r| >= 3 && r[|r| - 3..] == "..."
  {
    var ds := Decimals(b[..MaxBytes]);
    DecimalsAreTokens(b[..MaxBytes]);
    var t := Terminated(ds, ",");
    var body := t + "...";
    TokensOfTerminated(ds, ",", IsNonDigit);
    TokensBeforeSuffix(t);
    assert BytesAsSlice(b) == "[" + body;
    TokensAppend("[", body, IsNonDigit);
    TokensOfSeparators("[", IsNonDigit);
    assert ("[" + body)[|"[" + body| - 3..] == body[|body| - 3..];
  }

  /** A trailing `...` adds no digit run. */
  lemma TokensBeforeSuffix(x: string)
    ensures Tokens(x + "...", IsNonDigit) == Tokens(x, IsNonDigit)
  {
    TokensAppend(x, "...", IsNonDigit);
    TokensOfDots();
  }

  lemma TokensOfDots()
    ensures Tokens("...", IsNonDigit) == []
  {
    TokensOfSeparators("...", IsNonDigit);
  }

  /** `bytes_as_hex`: the lowercase hex string when it has at most
      `MaxHexLength` characters, otherwise its first and last `HexPartsLength`
      characters around `..`. */
  function BytesAsHex(b: Bytes): (r: string)
  {
    var h := Text.Hex(b);
    if |h| <= MaxHexLength then h
    else h[..HexPartsLength] + ".." + h[|h| - HexPartsLength..]
  }

  /** A short hex rendering decodes back to the bytes; a long one shows the first
      and the last `HexPartsLength / 2` bytes in hex around `..`. */
  lemma BytesAsHexShows(b: Bytes)
    ensures |b| <= MaxHexLength / 2 ==> HexDecode(BytesAsHex(b)) == Some(b)
    ensures |b| > MaxHexLength / 2 ==>
      var r := BytesAsHex(b);
      && |r| == 2 * HexPartsLength + 2
      && r[..HexPartsLength] == Text.Hex(b[..HexPartsLength / 2])
      && r[HexPartsLength..HexPartsLength + 2] == ".."
      && r[HexPartsLength + 2..] == Text.Hex(b[|b| - HexPartsLength / 2..])
  {
    HexRoundTrip(b);
    if |b| > MaxHexLength / 2 {
      HexPrefix(b, HexPartsLength / 2);
      HexPrefix(b, |b| - HexPartsLength / 2);
    }
  }

  /** The label an `N`-byte integer is printed with, for N in {2, 4, 8}. */
  function IntLabel(signed: bool, w: nat): (r: string)
    ensures |r| > 0 && r[0] == (if signed then 'i' else 'u')
  {
    var bits := if w == 2 then "16" else if w == 4 then "32" else "64";
    (if signed then "i" else "u") + bits + ": "
  }

  predicate IsIntWidth(w: nat) { w == 2 || w == 4 || w == 8 }

  const IntWidthError: string := "[E]: must be 2/4/8 bytes"

  /** `bytes_as_signed_int`. */
  function BytesAsSignedInt(b: Bytes): (r: string)
    ensures !IsIntWidth(|b|) <==> r == IntWidthError
  {
    if IsIntWidth(|b|) then
      var r := IntLabel(true, |b|) + IntToString(Signed(BeValue(b), |b|));
      assert r[0] != IntWidthError[0];
      r
    else IntWidthError
  }

  /** `bytes_as_unsigned_int`. */
  function BytesAsUnsignedInt(b: Bytes): (r: string)
    ensures !IsIntWidth(|b|) <==> r == IntWidthError
  {
    if IsIntWidth(|b|) then
      var r := IntLabel(false, |b|) + NatToString(BeValue(b));
      assert r[0] != IntWidthError[0];
      r
    else IntWidthError
  }

  /** `bytes_as_varint`. */
  function BytesAsVarInt(b: Bytes, f: Foreign): string
  {
    match f.varIntDecode(b)
    case Some(x) => IntToString(x)
    case None => "varint: MSB"
  }

  /** `bytes_by_display_variant`: empty input reads `empty` whatever the variant. */
  function BytesByDisplayVariant(b: Bytes, v: BytesDisplayVariant, f: Foreign): (r: string)
    ensures |b| == 0 <==> r == "empty"
    ensures |b| > 0 ==> |r| > 0 && r[0] != 'e'
  {
    if |b| == 0 then "empty"
    else match v
      case U8 => BytesAsSlice(b)
      case String => var r := "str: " + f.utf8Lossy(b); assert r[0] == 's'; r
      case Hex => "hex: " + BytesAsHex(b)
      case SignedInt => BytesAsSignedInt(b)
      case UnsignedInt => BytesAsUnsignedInt(b)
      case VarInt => "varint: " + BytesAsVarInt(b, f)
  }

  /** `bytes_by_display_variant_explicit`, the hover text: nothing is cut off and
      there is no label. */
  function BytesByDisplayVariantExplicit(b: Bytes, v: BytesDisplayVariant, f: Foreign): string
  {
    match v
    case U8 => DebugList(b)
    case String => f.utf8Lossy(b)
    case Hex => Text.Hex(b)
    case SignedInt => BytesAsSignedInt(b)
    case UnsignedInt => BytesAsUnsignedInt(b)
    case VarInt => BytesAsVarInt(b, f)
  }

  /** The hover text shows every byte, where the label may cut them off; the two
      agree on short lists. */
  lemma ExplicitShowsAllBytes(b: Bytes, f: Foreign)
    ensures Tokens(BytesByDisplayVariantExplicit(b, U8, f), IsNonDigit) == Decimals(b)
    ensures HexDecode(BytesByDisplayVariantExplicit(b, Hex, f)) == Some(b)
    ensures 0 < |b| <= MaxBytes ==>
      BytesByDisplayVariant(b, U8, f) == BytesByDisplayVariantExplicit(b, U8, f)
  {
    DebugListShowsBytes(b);
    HexRoundTrip(b);
  }

  // ---------------------------------------------------------------- input

  datatype BytesInputVariant =
    | InputU8 | InputString | InputHex | InputVarInt
    | InputI16 | InputI32 | InputI64 | InputU16 | InputU32 | InputU64

  /** The typed text, how to read it, and the error flag the last read left. */
  datatype BytesInput = BytesInput(input: string, variant: BytesInputVariant, err: bool)

  /** Result of `get_bytes`: the bytes, and the new value of the error flag. */
  datatype ReadBytes = ReadBytes(bytes: Bytes, err: bool)

  /** `BytesInput::new_from_bytes`: every byte but the last in decimal followed by
      a space, then the last one. */
  function NewFromBytes(b: Bytes): (r: BytesInput)
    ensures r.variant == InputU8 && !r.err
    ensures |b| > 0 ==> r.input == Join(Decimals(b), " ")
    ensures |b| == 0 ==> r.input == ""
  {
    var ds := Decimals(b);
    if |b| == 0 then BytesInput("", InputU8, false)
    else
      TerminatedThenLastIsJoin(ds, " ");
      BytesInput(Terminated(ds[..|ds| - 1], " ") + ds[|ds| - 1], InputU8, false)
  }

  /** Width in bytes and signedness of the fixed-width integer inputs. */
  function IntInput(v: BytesInputVariant): Option<(nat, bool)>
  {
    match v
    case InputI16 => Some((2, true))
    case InputI32 => Some((4, true))
    case InputI64 => Some((8, true))
    case InputU16 => Some((2, false))
    case InputU32 => Some((4, false))
    case InputU64 => Some((8, false))
    case _ => None
  }

  /** Each whitespace-separated token parsed as a `u8`; `None` when any fails. */
  function ParseU8s(tokens: seq<string>): (r: Option<Bytes>)
    ensures r.Some? ==> |r.value| == |tokens|
  {
    if |tokens| == 0 then Some([])
    else match (ParseInt(tokens[0], 0, 255), ParseU8s(tokens[1..]))
      case (Some(x), Some(rest)) => Some([x as Byte] + rest)
      case _ => None
  }

  /** The input read as a `w`-byte big-endian integer, signed or not. */
  function ParseFixedWidth(s: string, w: nat, signed: bool): Option<Bytes>
  {
    var half := Pow256(w) / 2;
    if signed then
      match ParseInt(s, -half, half - 1)
      case Some(x) =>
        assert -Pow256(w) <= 2 * x < Pow256(w);
        Some(BeBytes(Unsigned(x, w), w))
      case None => None
    else
      match ParseInt(s, 0, Pow256(w) - 1)
      case Some(x) => Some(BeBytes(x, w))
      case None => None
  }

  function ParseInput(bi: BytesInput, f: Foreign): Option<Bytes>
  {
    match bi.variant
    case InputU8 => ParseU8s(SplitWhitespace(bi.input))
    case InputString => Some(f.utf8Encode(bi.input))
    case InputHex => HexDecode(bi.input)
    case InputVarInt =>
      (match ParseInt(bi.input, -Pow256(8) / 2, Pow256(8) / 2 - 1)
       case Some(x) => Some(f.varIntEncode(x))
       case None => None)
    case _ =>
      var (w, signed) := IntInput(bi.variant).value;
      ParseFixedWidth(bi.input, w, signed)
  }

  /** `BytesInput::get_bytes`: empty text is no bytes and no error; a parse
      failure is no bytes and the error flag set; a success clears the flag. */
  function GetBytes(bi: BytesInput, f: Foreign): (r: ReadBytes)
    ensures |bi.input| == 0 ==> r == ReadBytes([], false)
    ensures r.err ==> r.bytes == []
    ensures |bi.input| > 0 ==> (r.err <==> ParseInput(bi, f).None?)
  {
    if |bi.input| == 0 then ReadBytes([], false)
    else match ParseInput(bi, f)
      case Some(b) => ReadBytes(b, false)
      case None => ReadBytes([], true)
  }

  /** `BytesInput` equality: two inputs are equal when they read as the same bytes. */
  predicate InputEq(a: BytesInput, b: BytesInput, f: Foreign)
  {
    GetBytes(a, f).bytes == GetBytes(b, f).bytes
  }

  lemma {:induction false} ParseDecimals(b: Bytes)
    ensures ParseU8s(Decimals(b)) == Some(b)
  {
    if |b| > 0 {
      IntToStringParses(b[0], 0, 255);
      assert Decimals(b)[1..] == Decimals(b[1..]);
      ParseDecimals(b[1..]);
      assert [b[0]] + b[1..] == b;
    }
  }

  /** Reading back the text `new_from_bytes` wrote gives the same bytes, no error. */
  lemma NewFromBytesRoundTrip(b: Bytes, f: Foreign)
    ensures GetBytes(NewFromBytes(b), f) == ReadBytes(b, false)
  {
    if |b| > 0 {
      var ds := Decimals(b);
      DecimalsAreTokens(b);
      forall i | 0 <= i < |ds|
        ensures IsToken(ds[i], IsWhitespace)
      {
        assert IsToken(ds[i], IsNonDigit);
      }
      TokensOfJoin(ds, " ", IsWhitespace);
      ParseDecimals(b);
    }
  }

  /** Bytes typed in decimal may be separated by any Unicode whitespace, such
      as a no-break space, not only by ASCII blanks. */
  lemma NoBreakSpaceSeparates(f: Foreign)
    ensures GetBytes(BytesInput("1\U{00A0}2", InputU8, false), f) == ReadBytes([1, 2], false)
  {
    var s := "1\U{00A0}2";
    assert !IsWhitespace(s[0]) && IsWhitespace(s[1]) && !IsWhitespace(s[2]);
    assert TokenLength(s, IsWhitespace) == 1 by {
      assert TokenLength(s[1..], IsWhitespace) == 0;
    }
    assert s[..1] == "1" && s[1..][1..] == "2";
    assert Tokens(s, IsWhitespace) == ["1"] + Tokens(s[1..], IsWhitespace);
    assert Tokens(s[1..], IsWhitespace) == Tokens("2", IsWhitespace);
    assert TokenLength("2", IsWhitespace) == 1 by {
      assert TokenLength("2"[1..], IsWhitespace) == 0;
    }
    assert "2"[..1] == "2" && "2"[1..] == "";
    assert Tokens("2", IsWhitespace) == ["2"];
    assert Tokens(s, IsWhitespace) == ["1", "2"];
    assert ParseInt("1", 0, 255) == Some(1);
    assert ParseInt("2", 0, 255) == Some(2);
    var two: seq<string> := ["2"];
    assert ParseU8s(two[1..]) == Some([]) by {
      assert two[1..] == [];
    }
    assert ParseU8s(two) == Some([2]) by {
      assert ParseInt(two[0], 0, 255) == Some(2);
      assert ParseU8s(two).value == [2] + [];
      assert [2] + [] == [2];
    }
    var both: seq<string> := ["1", "2"];
    assert both[1..] == two;
    assert ParseU8s(both) == Some([1, 2]) by {
      assert ParseInt(both[0], 0, 255) == Some(1);
      assert ParseU8s(both).value == [1] + [2];
      assert [1] + [2] == [1, 2];
    }
    assert ParseInput(BytesInput(s, InputU8, false), f) == Some([1, 2]);
  }

  /** Inputs written from different bytes are different inputs. */
  lemma NewFromBytesEq(a: Bytes, b: Bytes, f: Foreign)
    ensures InputEq(NewFromBytes(a), NewFromBytes(b), f) <==> a == b
  {
    NewFromBytesRoundTrip(a, f);
    NewFromBytesRoundTrip(b, f);
  }

  lemma Pow256Even(w: nat)
    requires w > 0
    ensures Pow256(w) == 2 * (Pow256(w) / 2)
  {
    assert Pow256(w) == 2 * (128 * Pow256(w - 1));
  }

  /** A `w`-byte signed integer typed in canonical decimal is stored as its two's
      complement in `w` big-endian bytes, which read back as the same number. */
  lemma ParseSignedRoundTrip(x: int, w: nat)
    requires w > 0
    requires -Pow256(w) <= 2 * x < Pow256(w)
    ensures var r := ParseFixedWidth(IntToString(x), w, true);
      r.Some? && |r.value| == w && Signed(BeValue(r.value), w) == x
  {
    var half := Pow256(w) / 2;
    Pow256Even(w);
    assert -half <= x <= half - 1;
    IntToStringParses(x, -half, half - 1);
    var n := Unsigned(x, w);
    assert ParseFixedWidth(IntToString(x), w, true) == Some(BeBytes(n, w));
    BeRoundTrip(n, w);
  }

  /** A `w`-byte unsigned integer typed in canonical decimal is stored in `w`
      big-endian bytes, which read back as the same number. */
  lemma ParseUnsignedRoundTrip(x: nat, w: nat)
    requires x < Pow256(w)
    ensures var r := ParseFixedWidth(IntToString(x), w, false);
      r.Some? && |r.value| == w && BeValue(r.value) == x
  {
    IntToStringParses(x, 0, Pow256(w) - 1);
    BeRoundTrip(x, w);
  }

  /** A fixed-width integer input holding a canonical decimal reads without
      error into `w` bytes whose integer rendering prints the same number. */
  lemma FixedWidthRoundTrip(v: BytesInputVariant, x: int, f: Foreign)
    requires IntInput(v).Some?
    requires var (w, signed) := IntInput(v).value;
      if signed then -Pow256(w) <= 2 * x < Pow256(w) else 0 <= x < Pow256(w)
    ensures var (w, signed) := IntInput(v).value;
      var r := GetBytes(BytesInput(IntToString(x), v, false), f);
      && !r.err
      && |r.bytes| == w
      && (signed ==> BytesAsSignedInt(r.bytes) == IntLabel(true, w) + IntToString(x))
      && (!signed ==> BytesAsUnsignedInt(r.bytes) == IntLabel(false, w) + IntToString(x))
  {
    var (w, signed) := IntInput(v).value;
    if signed {
      ParseSignedRoundTrip(x, w);
    } else {
      ParseUnsignedRoundTrip(x, w);
    }
    var bi := BytesInput(IntToString(x), v, false);
    assert ParseInput(bi, f) == ParseFixedWidth(IntToString(x), w, signed);
    var r := ParseFixedWidth(IntToString(x), w, signed).value;
    if !signed {
      assert IntToString(x) == NatToString(x);
    }
  }
}

/** Byte rendering of the older tree view (src/ui/common.rs). It shares the list,
    hex and variable-length integer renderings with `BytesUtils` but has its own
    display variants, reads integers only as 8-byte `i64`, adds no labels and has
    no special case for empty input. */
module UiCommon {
  import opened Common
  import opened Text
  import BytesUtils

  datatype DisplayVariant = U8 | String | Hex | Int | VarInt

  /** `DisplayVariant::guess`. */
  function Guess(bytes: Bytes): (v: DisplayVariant)
    ensures v == U8 <==> |bytes| == 1
    ensures v == Int <==> |bytes| == 8
    ensures v == Hex <==> |bytes| == 32
    ensures v == String <==> !(|bytes| in {1, 8, 32})
    ensures v != VarInt
  {
    match |bytes|
    case 1 => U8
    case 8 => Int
    case 32 => Hex
    case _ => String
  }

  const IntError: string := "[E]: must be 8 bytes"

  /** `bytes_as_int`: exactly eight bytes read as a big-endian `i64`. */
  function BytesAsInt(b: Bytes): string
  {
    if |b| == 8 then IntToString(BytesUtils.Signed(BytesUtils.BeValue(b), 8))
    else IntError
  }

  /** `bytes_by_display_variant`. */
  function BytesByDisplayVariant(b: Bytes, v: DisplayVariant, f: BytesUtils.Foreign): string
  {
    match v
    case U8 => BytesUtils.BytesAsSlice(b)
    case String => f.utf8Lossy(b)
    case Hex => BytesUtils.BytesAsHex(b)
    case Int => BytesAsInt(b)
    case VarInt => BytesUtils.BytesAsVarInt(b, f)
  }

  /** `bytes_by_display_variant_explicit`: the untruncated hover text. */
  function BytesByDisplayVariantExplicit(b: Bytes, v: DisplayVariant, f: BytesUtils.Foreign): string
  {
    match v
    case U8 => BytesUtils.DebugList(b)
    case String => f.utf8Lossy(b)
    case Hex => Text.Hex(b)
    case Int => BytesAsInt(b)
    case VarInt => BytesUtils.BytesAsVarInt(b, f)
  }

  /** Any 64-bit signed integer stored as its eight big-endian two's complement
      bytes is printed back as the same number; any other length is an error. */
  lemma BytesAsIntRoundTrip(x: int)
    requires -BytesUtils.Pow256(8) <= 2 * x < BytesUtils.Pow256(8)
    ensures BytesAsInt(BytesUtils.BeBytes(BytesUtils.Unsigned(x, 8), 8)) == IntToString(x)
  {
    BytesUtils.BeRoundTrip(BytesUtils.Unsigned(x, 8), 8);
  }

  lemma BytesAsIntError(b: Bytes)
    ensures BytesAsInt(b) == IntError <==> |b| != 8
  {
    if |b| == 8 {
      var s := BytesAsInt(b);
      assert s[0] != IntError[0] by {
        var x := BytesUtils.Signed(BytesUtils.BeValue(b), 8);
        if x >= 0 {
          assert IsDigit(s[0]);
        }
      }
    }
  }

  /** On eight bytes the older integer rendering is the newer signed one
      without its `i64: ` label. */
  lemma IntMatchesSignedInt(b: Bytes)
    requires |b| == 8
    ensures BytesUtils.BytesAsSignedInt(b) == "i64: " + BytesAsInt(b)
  {
  }

  /** The label with the same variant agrees with the newer rendering minus its
      prefix for non-empty input, but empty input renders as an empty list
      instead of `empty`. */
  lemma AgreesWithBytesUtils(b: Bytes, f: BytesUtils.Foreign)
    ensures |b| > 0 ==>
      && BytesUtils.BytesByDisplayVariant(b, BytesUtils.U8, f) == BytesByDisplayVariant(b, U8, f)
      && BytesUtils.BytesByDisplayVariant(b, BytesUtils.Hex, f) == "hex: " + BytesByDisplayVariant(b, Hex, f)
      && BytesUtils.BytesByDisplayVariant(b, BytesUtils.String, f) == "str: " + BytesByDisplayVariant(b, String, f)
      && BytesUtils.BytesByDisplayVariant(b, BytesUtils.VarInt, f) == "varint: " + BytesByDisplayVariant(b, VarInt, f)
    ensures BytesByDisplayVariant([], U8, f) == "[]"
    ensures BytesUtils.BytesByDisplayVariant([], BytesUtils.U8, f) == "empty"
  {
  }

  /** The two guesses differ exactly on 2- and 4-byte input, which the newer
      code reads as a signed integer and the older one as text. */
  lemma GuessesDiffer(b: Bytes)
    ensures (BytesUtils.Guess(b) == BytesUtils.SignedInt && Guess(b) == String) <==>
      (|b| == 2 || |b| == 4)
  {
  }
}

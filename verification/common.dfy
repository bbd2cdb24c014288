/** Shared vocabulary: bytes, keys, Option/Result and string joining. */
module Common {

  /** A Rust `u8`. */
  type Byte = x: int | 0 <= x < 256

  type Bytes = seq<Byte>

  /** Keys and path segments are plain byte strings. */
  type Key = Bytes

  datatype Option<+T> = None | Some(value: T)

  datatype Result<+T, +E> = Ok(value: T) | Err(error: E)

  /** `xs` joined with `sep` between consecutive elements, nothing at either end. */
  function Join(xs: seq<string>, sep: string): (r: string)
    ensures |xs| == 0 ==> r == ""
    ensures |xs| == 1 ==> r == xs[0]
  {
    if |xs| == 0 then ""
    else if |xs| == 1 then xs[0]
    else xs[0] + sep + Join(xs[1..], sep)
  }

  /** Every element followed by `suffix`, concatenated. */
  function Terminated(xs: seq<string>, suffix: string): (r: string)
    ensures |r| == SumLengths(xs) + |xs| * |suffix|
  {
    if |xs| == 0 then "" else xs[0] + suffix + Terminated(xs[1..], suffix)
  }

  function SumLengths(xs: seq<string>): nat
  {
    if |xs| == 0 then 0 else |xs[0]| + SumLengths(xs[1..])
  }

  /** Writing every element but the last followed by `sep`, then the last one,
      is the same as joining with `sep`. */
  lemma {:induction false} TerminatedThenLastIsJoin(xs: seq<string>, sep: string)
    requires |xs| > 0
    ensures Terminated(xs[..|xs| - 1], sep) + xs[|xs| - 1] == Join(xs, sep)
  {
    if |xs| == 1 {
      assert xs[..0] == [];
    } else {
      var init := xs[..|xs| - 1];
      assert init[0] == xs[0];
      assert init[1..] == xs[1..][..|xs[1..]| - 1];
      TerminatedThenLastIsJoin(xs[1..], sep);
      assert xs[1..][|xs[1..]| - 1] == xs[|xs| - 1];
    }
  }

  function MapSeq<A, B>(xs: seq<A>, f: A -> B): (r: seq<B>)
    ensures |r| == |xs|
    ensures forall i :: 0 <= i < |xs| ==> r[i] == f(xs[i])
  {
    if |xs| == 0 then [] else [f(xs[0])] + MapSeq(xs[1..], f)
  }

  function Reverse<T>(s: seq<T>): (r: seq<T>)
    ensures |r| == |s|
    ensures forall i :: 0 <= i < |s| ==> r[i] == s[|s| - 1 - i]
  {
    if |s| == 0 then [] else Reverse(s[1..]) + [s[0]]
  }
}

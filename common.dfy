/** Shared vocabulary: bytes, an option type, and the little-endian bit
    expansion of a byte that the interpreter's input and output ports use. */
module Common {

  /** An octet of the program text or of the standard streams. */
  type Byte = x: int | 0 <= x < 256

  datatype Option<T> = None | Some(value: T)

  function Pow2(k: nat): (r: nat)
    ensures r >= 1
  {
    if k == 0 then 1 else 2 * Pow2(k - 1)
  }

  /** The low `k` bits of `v`, least significant first. */
  function Bits(v: nat, k: nat): (r: seq<bool>)
    ensures |r| == k
  {
    if k == 0 then [] else [v % 2 == 1] + Bits(v / 2, k - 1)
  }

  /** The eight bits of a byte, least significant first. */
  function ByteBits(b: Byte): (r: seq<bool>)
    ensures |r| == 8
  {
    Bits(b, 8)
  }

  /** The bits of a byte stream, each byte least significant bit first. */
  function StreamBits(bs: seq<Byte>): (r: seq<bool>)
    ensures |r| == 8 * |bs|
  {
    if bs == [] then [] else ByteBits(bs[0]) + StreamBits(bs[1..])
  }

  lemma {:induction false} StreamBitsAppend(bs: seq<Byte>, b: Byte)
    ensures StreamBits(bs + [b]) == StreamBits(bs) + ByteBits(b)
  {
    if bs == [] {
      assert bs + [b] == [b];
    } else {
      assert (bs + [b])[1..] == bs[1..] + [b];
      StreamBitsAppend(bs[1..], b);
    }
  }

  /** Setting bit `k` of a value below 2^k appends that bit to its expansion:
      the `output_byte |= 1 << output_bits` idiom. */
  lemma {:induction false} BitsSetTop(v: nat, k: nat, b: bool)
    requires v < Pow2(k)
    ensures Bits(v + (if b then Pow2(k) else 0), k + 1) == Bits(v, k) + [b]
  {
    var w := v + (if b then Pow2(k) else 0);
    if k == 0 {
      assert v == 0;
    } else {
      assert w % 2 == v % 2;
      assert w / 2 == v / 2 + (if b then Pow2(k - 1) else 0);
      BitsSetTop(v / 2, k - 1, b);
    }
  }
}

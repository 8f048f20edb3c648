/** The part of Python's `struct` the codec uses: unsigned integers of a fixed width in
    either byte order, and byte strings padded to a fixed length. */
module Struct {
  import opened Common

  type Byte = b: int | 0 <= b < 256
  type Bytes = seq<Byte>

  datatype Endian = Big | Little

  function Pow256(n: nat): (r: nat)
    ensures r > 0
  {
    if n == 0 then 1 else 256 * Pow256(n - 1)
  }

  /** `n` bytes of `v`; what does not fit is cut off, so callers check the range. */
  function Digits(e: Endian, v: nat, n: nat): (r: Bytes)
    ensures |r| == n
  {
    if n == 0 then []
    else if e.Little? then [v % 256] + Digits(e, v / 256, n - 1)
    else Digits(e, v / 256, n - 1) + [v % 256]
  }

  function Number(e: Endian, bs: Bytes): nat {
    if bs == [] then 0
    else if e.Little? then bs[0] + 256 * Number(e, bs[1..])
    else bs[|bs| - 1] + 256 * Number(e, bs[..|bs| - 1])
  }

  lemma {:induction false} NumberOfDigits(e: Endian, v: nat, n: nat)
    requires v < Pow256(n)
    ensures Number(e, Digits(e, v, n)) == v
  {
    if n > 0 {
      NumberOfDigits(e, v / 256, n - 1);
      var d := Digits(e, v, n);
      if e.Little? {
        assert d[1..] == Digits(e, v / 256, n - 1);
      } else {
        assert d[..n - 1] == Digits(e, v / 256, n - 1);
      }
    }
  }

  /** `struct.pack` of one unsigned field; `None` is `struct.error`. */
  function Pack(e: Endian, v: int, width: nat): (r: Option<Bytes>)
    ensures r.Some? <==> 0 <= v < Pow256(width)
    ensures r.Some? ==> |r.value| == width
  {
    if 0 <= v < Pow256(width) then Some(Digits(e, v, width)) else None
  }

  /** `struct.unpack` of one unsigned field at the head of `bs`. */
  function Unpack(e: Endian, bs: Bytes, width: nat): Option<nat> {
    if |bs| < width then None else Some(Number(e, bs[..width]))
  }

  lemma UnpackPack(e: Endian, v: int, width: nat, rest: Bytes)
    requires Pack(e, v, width).Some?
    ensures Unpack(e, Pack(e, v, width).value + rest, width) == Some(v)
  {
    NumberOfDigits(e, v, width);
    assert (Digits(e, v, width) + rest)[..width] == Digits(e, v, width);
  }

  lemma Widths()
    ensures Pow256(1) == 0x100 && Pow256(2) == 0x1_0000
    ensures Pow256(4) == 0x1_0000_0000 && Pow256(8) == 0x1_0000_0000_0000_0000
  {
    assert Pow256(3) == 0x100_0000;
    assert Pow256(4) == 0x1_0000_0000;
    assert Pow256(6) == 0x1_0000_0000_0000;
  }

  /** The `Ns` format: cut to `n` bytes or filled up with zero bytes. */
  function Fit(n: nat, bs: Bytes): (r: Bytes)
    ensures |r| == n
    ensures |bs| == n ==> r == bs
  {
    if |bs| >= n then bs[..n] else bs + Zeros(n - |bs|)
  }

  function Zeros(n: nat): (r: Bytes)
    ensures |r| == n
  {
    seq(n, i => 0)
  }
}

/** Bytes, little-endian integers and two's complement: what the CDR writer and
    reader do with `v >> (8 * i)`, `data[i] << (8 * i)` and `static_cast`. */
module Bytes {

  type byte = b: int | 0 <= b < 256

  /** 256 to the power n; `v >> (8 * n)` is `v / Pow256(n)` on unsigned values. */
  function Pow256(n: nat): (p: nat)
    ensures p > 0
  {
    if n == 0 then 1 else 256 * Pow256(n - 1)
  }

  /** The n low bytes of v, least significant first. */
  function LittleEndian(v: nat, n: nat): (r: seq<byte>)
    ensures |r| == n
  {
    if n == 0 then [] else [v % 256] + LittleEndian(v / 256, n - 1)
  }

  function FromLittleEndian(bs: seq<byte>): (v: nat)
    ensures v < Pow256(|bs|)
  {
    if bs == [] then 0 else bs[0] + 256 * FromLittleEndian(bs[1..])
  }

  lemma {:induction false} DivLess(v: nat, n: nat)
    requires v < 256 * n
    ensures v / 256 < n
  {
  }

  lemma {:induction false} DecodeLittleEndian(v: nat, n: nat)
    requires v < Pow256(n)
    ensures FromLittleEndian(LittleEndian(v, n)) == v
  {
    if n > 0 {
      DivLess(v, Pow256(n - 1));
      DecodeLittleEndian(v / 256, n - 1);
      assert LittleEndian(v, n)[1..] == LittleEndian(v / 256, n - 1);
    }
  }

  lemma {:induction false} EncodeDecoded(bs: seq<byte>)
    ensures LittleEndian(FromLittleEndian(bs), |bs|) == bs
  {
    if bs != [] {
      EncodeDecoded(bs[1..]);
      var v := FromLittleEndian(bs);
      assert v % 256 == bs[0] && v / 256 == FromLittleEndian(bs[1..]);
      assert bs == [bs[0]] + bs[1..];
    }
  }

  lemma DivDiv(v: nat, p: nat)
    requires p > 0
    ensures v / 256 / p == v / (256 * p)
  {
    var q, r := v / (256 * p), v % (256 * p);
    assert v == 256 * p * q + r;
    var a, b := r / 256, r % 256;
    assert v / 256 == p * q + a by { assert v == 256 * (p * q + a) + b; }
    assert a < p;
    DivOfSum(p, q, a);
  }

  lemma DivOfSum(p: nat, q: int, a: nat)
    requires a < p
    ensures (p * q + a) / p == q
  {
    var d := (p * q + a) / p;
    if d < q {
      MulGap(p, d, q);
    } else if q < d {
      MulGap(p, q, d);
    }
  }

  lemma MulGap(p: nat, d: int, q: int)
    requires d < q
    ensures p * d + p <= p * q
  {
    var k: nat := q - d - 1;
    assert p * q == p * d + p * k + p by {
      assert q == d + k + 1;
    }
  }

  /** One more iteration of the writer's byte loop. */
  lemma {:induction false} LittleEndianExtend(v: nat, n: nat)
    ensures LittleEndian(v, n + 1) == LittleEndian(v, n) + [v / Pow256(n) % 256]
  {
    if n > 0 {
      LittleEndianExtend(v / 256, n - 1);
      DivDiv(v, Pow256(n - 1));
    } else {
      assert LittleEndian(v, 1) == [v % 256] + LittleEndian(v / 256, 0);
    }
  }

  /** One more iteration of the reader's byte loop. */
  lemma {:induction false} FromLittleEndianExtend(bs: seq<byte>, b: byte)
    ensures FromLittleEndian(bs + [b]) == FromLittleEndian(bs) + b * Pow256(|bs|)
  {
    if bs == [] {
      assert bs + [b] == [b];
    } else {
      FromLittleEndianExtend(bs[1..], b);
      assert (bs + [b])[1..] == bs[1..] + [b];
      var p := Pow256(|bs| - 1);
      assert Pow256(|bs|) == 256 * p;
      assert 256 * (b * p) == b * (256 * p);
    }
  }

  lemma Pow256Values()
    ensures Pow256(1) == 0x100 && Pow256(2) == 0x1_0000
    ensures Pow256(4) == 0x1_0000_0000 && Pow256(8) == 0x1_0000_0000_0000_0000
  {
    assert Pow256(0) == 1 && Pow256(1) == 256 && Pow256(2) == 65536 && Pow256(3) == 16777216;
    assert Pow256(4) == 0x1_0000_0000 && Pow256(5) == 256 * Pow256(4) && Pow256(6) == 256 * Pow256(5);
    assert Pow256(7) == 256 * Pow256(6) && Pow256(8) == 256 * Pow256(7);
  }

  function Zeros(n: nat): (z: seq<byte>)
    ensures |z| == n
  {
    if n == 0 then [] else Zeros(n - 1) + [0]
  }

  lemma {:induction false} ZerosAre(n: nat)
    ensures forall i | 0 <= i < n :: Zeros(n)[i] == 0
  {
    if n > 0 {
      ZerosAre(n - 1);
    }
  }

  /** Byte i of the splitting is v >> (8 * i), cut to a byte. */
  lemma {:induction false} LittleEndianAt(v: nat, n: nat, i: nat)
    requires i < n
    ensures LittleEndian(v, n)[i] == v / Pow256(i) % 256
  {
    LittleEndianExtend(v, n - 1);
    if i < n - 1 {
      LittleEndianAt(v, n - 1, i);
    }
  }
}

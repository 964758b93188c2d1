/** Byte strings and the big-endian integers of Python's `struct` module. */
module Bytes {

  type byte = b: int | 0 <= b < 256

  type Bytes = seq<byte>

  datatype Option<+T> = None | Some(value: T)

  function Pow2(n: nat): (r: nat)
    ensures r >= 1
  {
    if n == 0 then 1 else 2 * Pow2(n - 1)
  }

  /** 256 to the power `width`: the first number that does not fit into `width` bytes. */
  function Limit(width: nat): (r: nat)
    ensures r >= 1
  {
    if width == 0 then 1 else 256 * Limit(width - 1)
  }

  /** `struct.pack` of an unsigned integer in network byte order. */
  function Pack(n: nat, width: nat): (r: Bytes)
    requires n < Limit(width)
    ensures |r| == width
  {
    if width == 0 then [] else Pack(n / 256, width - 1) + [n % 256]
  }

  /** `struct.unpack` of an unsigned integer in network byte order. */
  function Unpack(bs: Bytes): (n: nat)
    ensures n < Limit(|bs|)
  {
    if bs == [] then 0 else 256 * Unpack(bs[..|bs| - 1]) + bs[|bs| - 1]
  }

  lemma {:induction false} UnpackPack(n: nat, width: nat)
    requires n < Limit(width)
    ensures Unpack(Pack(n, width)) == n
  {
    if width > 0 {
      UnpackPack(n / 256, width - 1);
      var r := Pack(n, width);
      assert r[..width - 1] == Pack(n / 256, width - 1);
    }
  }

  lemma {:induction false} PackUnpack(bs: Bytes)
    ensures Pack(Unpack(bs), |bs|) == bs
  {
    if bs != [] {
      PackUnpack(bs[..|bs| - 1]);
      var n := Unpack(bs);
      assert n / 256 == Unpack(bs[..|bs| - 1]) && n % 256 == bs[|bs| - 1];
      assert bs == bs[..|bs| - 1] + [bs[|bs| - 1]];
    }
  }

  lemma DivisionIsUnique(n: int, d: int, q: int, r: int)
    requires d > 0 && 0 <= r < d && n == q * d + r
    ensures n / d == q && n % d == r
  {
    var k := n / d - q;
    assert k * d == r - n % d;
    assert k * d < d && -d < k * d;
    assert k == 0 by {
      assert k >= 1 ==> k * d >= d;
      assert k <= -1 ==> k * d <= -d;
    }
  }

  lemma DivideTwice(n: nat, b: nat)
    requires b > 0
    ensures n / 256 / b == n / (256 * b)
  {
    var m := n / 256;
    var q, r := m / b, m % b;
    assert m == q * b + r;
    assert 256 * (q * b) == q * (256 * b);
    DivisionIsUnique(n, 256 * b, q, 256 * r + n % 256);
  }

  /** Network byte order: byte `i` counts for 256 to the power `width - 1 - i`. */
  lemma {:induction false} PackAt(n: nat, width: nat, i: nat)
    requires n < Limit(width) && i < width
    ensures Pack(n, width)[i] == n / Limit(width - 1 - i) % 256
  {
    if i == width - 1 {
      assert Limit(0) == 1;
    } else {
      PackAt(n / 256, width - 1, i);
      DivideTwice(n, Limit(width - 2 - i));
    }
  }

  lemma Limits()
    ensures Limit(1) == 0x100
    ensures Limit(2) == 0x1_0000
    ensures Limit(4) == 0x1_0000_0000
    ensures Limit(8) == 0x1_0000_0000_0000_0000
  {
    assert Limit(1) == 256 * Limit(0);
    assert Limit(2) == 256 * Limit(1);
    assert Limit(3) == 256 * Limit(2);
    assert Limit(4) == 256 * Limit(3);
    assert Limit(5) == 256 * Limit(4);
    assert Limit(6) == 256 * Limit(5);
    assert Limit(7) == 256 * Limit(6);
    assert Limit(8) == 256 * Limit(7);
  }

  function Zeros(n: nat): (r: Bytes)
    ensures |r| == n
  {
    seq(n, _ => 0)
  }

  /** The concatenation of a sequence of byte strings. */
  function Flatten(parts: seq<Bytes>): Bytes {
    if parts == [] then [] else parts[0] + Flatten(parts[1..])
  }
}

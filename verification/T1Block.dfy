/** Blocks of protocol T=1 (section 11 of ISO/IEC 7816-3) on a serial line:
    t1_write, t1_read, t1_read_into_tpdu and the block classification of
    pico-tunnel/util/util.c. */
module T1Block {
  import opened Bytes

  // ---------- Exclusive or ----------

  /** The exclusive or of the `n` low bits of two numbers. */
  function XorBits(a: nat, b: nat, n: nat): (r: nat)
    ensures r < Pow2(n)
  {
    if n == 0 then 0 else (a + b) % 2 + 2 * XorBits(a / 2, b / 2, n - 1)
  }

  lemma Pow2Of8()
    ensures Pow2(8) == 256
  {
    assert Pow2(2) == 4;
    assert Pow2(4) == 16;
    assert Pow2(6) == 64;
  }

  function Xor(a: byte, b: byte): byte {
    Pow2Of8();
    XorBits(a, b, 8)
  }

  lemma {:induction false} XorBitsCommutes(a: nat, b: nat, n: nat)
    ensures XorBits(a, b, n) == XorBits(b, a, n)
  {
    if n > 0 {
      XorBitsCommutes(a / 2, b / 2, n - 1);
    }
  }

  lemma LowBitAndRest(p: nat, x: nat, q: nat, y: nat)
    requires p < 2 && q < 2 && p + 2 * x == q + 2 * y
    ensures p == q && x == y
  {
  }

  lemma LowBitCancels(a: nat, b: nat, c: nat)
    requires (a + c) % 2 == (b + c) % 2 && a / 2 == b / 2
    ensures a == b
  {
  }

  lemma {:induction false} XorBitsCancels(a: nat, b: nat, c: nat, n: nat)
    requires a < Pow2(n) && b < Pow2(n)
    requires XorBits(a, c, n) == XorBits(b, c, n)
    ensures a == b
  {
    if n > 0 {
      var x, y := XorBits(a / 2, c / 2, n - 1), XorBits(b / 2, c / 2, n - 1);
      assert XorBits(a, c, n) == (a + c) % 2 + 2 * x && XorBits(b, c, n) == (b + c) % 2 + 2 * y;
      LowBitAndRest((a + c) % 2, x, (b + c) % 2, y);
      XorBitsCancels(a / 2, b / 2, c / 2, n - 1);
      LowBitCancels(a, b, c);
    }
  }

  /** Bit `k` of a number, the least significant one being bit 0. */
  function BitOf(a: nat, k: nat): nat {
    a / Pow2(k) % 2
  }

  lemma HalveTwice(a: nat, k: nat)
    ensures a / 2 / Pow2(k) == a / Pow2(k + 1)
  {
    var b := Pow2(k);
    var m := a / 2;
    var q, r := m / b, m % b;
    assert m == q * b + r && Pow2(k + 1) == 2 * b;
    assert 2 * (q * b) == q * (2 * b);
    DivisionIsUnique(a, 2 * b, q, 2 * r + a % 2);
  }

  lemma BitOfHalf(a: nat, k: nat)
    requires k > 0
    ensures BitOf(a, k) == BitOf(a / 2, k - 1)
  {
    hide Pow2;
    HalveTwice(a, k - 1);
  }

  lemma LowBit(a: nat)
    ensures BitOf(a, 0) == a % 2
  {
    assert Pow2(0) == 1;
  }

  lemma XorOfHalves(a: nat, b: nat, n: nat)
    requires n > 0
    ensures XorBits(a, b, n) % 2 == (a + b) % 2 && XorBits(a, b, n) / 2 == XorBits(a / 2, b / 2, n - 1)
  {
  }

  /** A bit of the exclusive or is set iff it is set in just one of the two. */
  lemma {:induction false} XorBitsAt(a: nat, b: nat, n: nat, k: nat)
    requires k < n
    ensures BitOf(XorBits(a, b, n), k) == (BitOf(a, k) + BitOf(b, k)) % 2
  {
    hide BitOf, XorBits, Pow2;
    XorOfHalves(a, b, n);
    if k == 0 {
      LowBit(a);
      LowBit(b);
      LowBit(XorBits(a, b, n));
    } else {
      XorBitsAt(a / 2, b / 2, n - 1, k - 1);
      BitOfHalf(a, k);
      BitOfHalf(b, k);
      BitOfHalf(XorBits(a, b, n), k);
    }
  }

  lemma XorAt(a: byte, b: byte, k: nat)
    requires k < 8
    ensures BitOf(Xor(a, b), k) == (BitOf(a, k) + BitOf(b, k)) % 2
  {
    XorBitsAt(a, b, 8, k);
  }

  lemma {:induction false} XorBitsOfSame(a: nat, n: nat)
    ensures XorBits(a, a, n) == 0
  {
    if n > 0 {
      XorBitsOfSame(a / 2, n - 1);
    }
  }

  /** The checksum of section 11.4.4: the exclusive or of all bytes. */
  function Lrc(bs: Bytes): byte {
    if bs == [] then 0 else Xor(Lrc(bs[..|bs| - 1]), bs[|bs| - 1])
  }

  /** A checksum notices every change of a single byte. */
  lemma {:induction false} LrcNoticesOneByte(bs: Bytes, i: nat, b: byte)
    requires i < |bs| && b != bs[i]
    ensures Lrc(bs[i := b]) != Lrc(bs)
  {
    var n := |bs| - 1;
    var changed := bs[i := b];
    Pow2Of8();
    if i == n {
      assert changed[..n] == bs[..n];
      if Lrc(changed) == Lrc(bs) {
        XorBitsCommutes(Lrc(bs[..n]), b, 8);
        XorBitsCommutes(Lrc(bs[..n]), bs[n], 8);
        XorBitsCancels(b, bs[n], Lrc(bs[..n]), 8);
      }
    } else {
      LrcNoticesOneByte(bs[..n], i, b);
      assert changed[..n] == bs[..n][i := b];
      if Lrc(changed) == Lrc(bs) {
        XorBitsCancels(Lrc(changed[..n]), Lrc(bs[..n]), bs[n], 8);
      }
    }
  }

  // ---------- Blocks ----------

  /** The `char apdu[256]` of the C struct; only its first `len` bytes count. */
  type ApduBuffer = s: Bytes | |s| == 256 ghost witness seq(256, _ => 0)

  datatype Tpdu = Tpdu(nad: byte, pcb: byte, len: byte, apdu: ApduBuffer, check: byte) {
    function Info(): Bytes {
      apdu[..len]
    }
  }

  /** Prologue and information field. */
  function Body(nad: byte, pcb: byte, info: Bytes): Bytes
    requires |info| < 256
  {
    [nad, pcb, |info|] + info
  }

  /** The bytes of a block on the line. */
  function Frame(nad: byte, pcb: byte, info: Bytes): (r: Bytes)
    requires |info| < 256
    ensures |r| == |info| + 4
  {
    Body(nad, pcb, info) + [Lrc(Body(nad, pcb, info))]
  }

  function FrameOf(t: Tpdu): Bytes {
    Frame(t.nad, t.pcb, t.Info())
  }

  /** The half-duplex line: what will arrive, and what was sent. The firmware
      reads back each byte it sends only to log a difference. */
  class Uart {
    var rx: Bytes
    var tx: Bytes

    constructor (incoming: Bytes)
      ensures rx == incoming && tx == []
    {
      rx, tx := incoming, [];
    }

    method Put(bs: Bytes)
      modifies this`tx
      ensures tx == old(tx) + bs
    {
      tx := tx + bs;
    }

    method Get() returns (b: byte)
      requires rx != []
      modifies this`rx
      ensures b == old(rx)[0] && rx == old(rx)[1..]
    {
      b := rx[0];
      rx := rx[1..];
    }
  }

  // ---------- Writing a block ----------

  method T1Write(uart: Uart, t: Tpdu)
    modifies uart`tx
    ensures uart.tx == old(uart.tx) + FrameOf(t)
  {
    hide Xor, Lrc;
    ghost var body := Body(t.nad, t.pcb, t.Info());
    var checksum: byte := 0;
    assert body[..0] == [] && Lrc([]) == 0 by { LrcOfNothing(); }
    var n := 3 + t.len;
    var pos := 0;
    while pos < n
      invariant 0 <= pos <= n == |body|
      invariant uart.tx == old(uart.tx) + body[..pos]
      invariant checksum == Lrc(body[..pos])
    {
      var c := if pos == 0 then t.nad else if pos == 1 then t.pcb else if pos == 2 then t.len else t.apdu[pos - 3];
      assert c == body[pos] && body[..pos + 1] == body[..pos] + [c];
      LrcGrows(body, pos);
      checksum := Xor(checksum, c);
      uart.Put([c]);
      pos := pos + 1;
    }
    assert body[..n] == body;
    uart.Put([checksum]);
  }

  /** Fills the struct together with its checksum field, which is the byte that
      T1Write puts at the end of the block. */
  method T1ReadIntoTpdu(nad: byte, pcb: byte, info: Bytes, previous: Tpdu) returns (t: Tpdu)
    requires |info| < 256
    ensures t.nad == nad && t.pcb == pcb && t.Info() == info
    ensures [t.check] == FrameOf(t)[|info| + 3..]
    ensures t.apdu[|info|..] == previous.apdu[|info|..]
  {
    hide Xor, Lrc;
    ghost var body := Body(nad, pcb, info);
    var checksum: byte := Xor(Xor(Xor(0, nad), pcb), |info|);
    LrcOfPrologue(body);
    var i := 0;
    while i < |info|
      invariant 0 <= i <= |info|
      invariant checksum == Lrc(body[..i + 3])
    {
      LrcGrows(body, i + 3);
      checksum := Xor(checksum, info[i]);
      i := i + 1;
    }
    assert body[..|info| + 3] == body;
    t := Tpdu(nad, pcb, |info|, info + previous.apdu[|info|..], checksum);
    assert t.Info() == info;
  }

  // ---------- Reading a block ----------

  /** The result codes of t1_read. `Blocked` stands for a blocking read of a byte
      that never arrives, where the firmware does not return. */
  datatype ReadCode = Complete(pos: nat) | ChecksumMismatch | Timeout | PpsHandled | Blocked

  /** The struct after `k` information bytes of `rx` were stored over `prev`. */
  function Filled(prev: Tpdu, rx: Bytes, k: nat): Tpdu
    requires k < 256 && 3 + k <= |rx|
  {
    Tpdu(rx[0], rx[1], rx[2], rx[3..3 + k] + prev.apdu[k..], prev.check)
  }

  /** t1_read on the bytes that will arrive: its code, the struct it leaves and
      the bytes it leaves. A byte that is not there yet is a timeout where the
      firmware waits with a limit. */
  function ReadOf(prev: Tpdu, rx: Bytes): (r: (ReadCode, Tpdu, Bytes))
    ensures |r.2| <= |rx|
    ensures rx != [] ==> |r.2| < |rx|
  {
    if rx == [] then (Timeout, prev, [])
    else if |rx| == 1 then (Timeout, prev.(nad := rx[0]), [])
    else if |rx| == 2 then (Timeout, prev.(nad := rx[0], pcb := rx[1]), [])
    else
      var n: nat := rx[2];
      if rx[0] == 0xFF then
        if |rx| == 3 then (Timeout, Filled(prev, rx, 0), []) else (PpsHandled, Filled(prev, rx, 0), rx[4..])
      else if |rx| == 3 then (Blocked, Filled(prev, rx, 0), [])
      else if |rx| < n + 4 then (Timeout, Filled(prev, rx, |rx| - 3), [])
      else
        var code := if Lrc(rx[..n + 3]) == rx[n + 3] then Complete(n + 4) else ChecksumMismatch;
        (code, Filled(prev, rx, n), rx[n + 4..])
  }

  /** The parameter exchange that t1_read echoes. */
  function PpsEcho(rx: Bytes): Bytes {
    if |rx| >= 4 && rx[0] == 0xFF then rx[..4] else []
  }

  /** The information field and the checksum, once the prologue is read. */
  method ReadInformation(uart: Uart, prev: Tpdu, prologue: Tpdu, sum: byte, ghost rx: Bytes)
    returns (code: ReadCode, t: Tpdu)
    requires |rx| > 3 && rx[0] != 0xFF && uart.rx == rx[3..] && sum == Lrc(rx[..3])
    requires prologue == Filled(prev, rx, 0)
    modifies uart`rx
    ensures (code, t, uart.rx) == ReadOf(prev, rx)
  {
    hide Xor, Lrc;
    t := prologue;
    var checksum := sum;
    var i := 0;
    while i < t.len
      invariant 0 <= i <= t.len == rx[2] && i + 4 <= |rx|
      invariant uart.rx == rx[i + 3..]
      invariant checksum == Lrc(rx[..i + 3])
      invariant t == Filled(prev, rx, i)
    {
      var c := uart.Get();
      assert c == rx[i + 3] && uart.rx == rx[i + 4..];
      LrcGrows(rx, i + 3);
      checksum := Xor(checksum, c);
      t := t.(apdu := t.apdu[i := c]);
      assert t.apdu == rx[3..i + 4] + prev.apdu[i + 1..];
      if |uart.rx| == 0 {
        return Timeout, t;
      }
      i := i + 1;
    }
    var c := uart.Get();
    if c != checksum {
      return ChecksumMismatch, t;
    }
    return Complete(t.len + 4), t;
  }

  lemma LrcOfNothing()
    ensures Lrc([]) == 0
  {
  }

  lemma LrcGrows(bs: Bytes, i: nat)
    requires i < |bs|
    ensures Lrc(bs[..i + 1]) == Xor(Lrc(bs[..i]), bs[i])
  {
    assert bs[..i + 1][..i] == bs[..i];
  }

  method T1Read(uart: Uart, prev: Tpdu) returns (code: ReadCode, t: Tpdu)
    modifies uart
    ensures (code, t, uart.rx) == ReadOf(prev, old(uart.rx))
    ensures uart.tx == old(uart.tx) + PpsEcho(old(uart.rx))
  {
    hide Xor, Lrc;
    ghost var rx := uart.rx;
    t := prev;
    if |uart.rx| == 0 {
      return Timeout, t;
    }
    var c := uart.Get();
    var checksum := Xor(0, c);
    t := t.(nad := c);
    if |uart.rx| == 0 {
      return Timeout, t;
    }
    c := uart.Get();
    checksum := Xor(checksum, c);
    t := t.(pcb := c);
    if |uart.rx| == 0 {
      return Timeout, t;
    }
    c := uart.Get();
    checksum := Xor(checksum, c);
    t := t.(len := c);
    assert t == Filled(prev, rx, 0) by {
      assert rx[3..3] + prev.apdu[0..] == prev.apdu;
    }
    if t.nad == 0xFF {
      if |uart.rx| == 0 {
        return Timeout, t;
      }
      var c4 := uart.Get();
      uart.Put([t.nad, t.pcb, t.len, c4]);
      return PpsHandled, t;
    }
    if |uart.rx| == 0 {
      return Blocked, t;
    }
    LrcOfPrologue(rx);
    code, t := ReadInformation(uart, prev, t, checksum, rx);
  }

  lemma LrcOfPrologue(rx: Bytes)
    requires |rx| >= 3
    ensures Lrc(rx[..3]) == Xor(Xor(Xor(0, rx[0]), rx[1]), rx[2])
  {
    hide Xor;
    assert rx[..0] == [] && Lrc([]) == 0;
    LrcGrows(rx, 0);
    LrcGrows(rx, 1);
    LrcGrows(rx, 2);
  }

  // ---------- What framing guarantees ----------

  /** t1_read accepts a block only if the line carries exactly the frame t1_write
      emits for it; it then consumes that frame and nothing else. */
  lemma AcceptedMeansFramed(prev: Tpdu, rx: Bytes)
    ensures ReadOf(prev, rx).0.Complete? ==>
      var (code, t, rest) := ReadOf(prev, rx);
      t.nad != 0xFF && rx == FrameOf(t) + rest && code.pos == |t.Info()| + 4
  {
    if ReadOf(prev, rx).0.Complete? {
      var (code, t, rest) := ReadOf(prev, rx);
      var n := rx[2];
      assert t.Info() == rx[3..3 + n];
      assert rx[..n + 3] == Body(t.nad, t.pcb, t.Info());
      assert rx == rx[..n + 3] + [rx[n + 3]] + rx[n + 4..];
    }
  }

  lemma ReadInvertsWrite(prev: Tpdu, nad: byte, pcb: byte, info: Bytes, rest: Bytes)
    requires |info| < 256 && nad != 0xFF
    ensures var (code, t, rest') := ReadOf(prev, Frame(nad, pcb, info) + rest);
      && code == Complete(|info| + 4) && rest' == rest
      && t.nad == nad && t.pcb == pcb && t.Info() == info
  {
    var rx := Frame(nad, pcb, info) + rest;
    var n := |info|;
    assert rx[..n + 3] == Body(nad, pcb, info);
    assert rx[3..3 + n] == info;
    assert rx[n + 4..] == rest;
  }

  /** All bytes of a block on the line, the checksum included, cancel out. */
  lemma FrameChecksToZero(nad: byte, pcb: byte, info: Bytes)
    requires |info| < 256
    ensures Lrc(Frame(nad, pcb, info)) == 0
  {
    hide Xor;
    var frame := Frame(nad, pcb, info);
    var body := Body(nad, pcb, info);
    assert frame[..|frame| - 1] == body;
    XorOfSame(Lrc(body));
  }

  lemma XorOfSame(b: byte)
    ensures Xor(b, b) == 0
  {
    XorBitsOfSame(b, 8);
  }

  /** A block that breaks off is a timeout, or blocks the firmware where it reads
      without a limit: behind the three bytes of the prologue. */
  lemma TruncatedBlock(prev: Tpdu, nad: byte, pcb: byte, info: Bytes, k: nat)
    requires |info| < 256 && nad != 0xFF && k < |info| + 4
    ensures var (code, t, rest) := ReadOf(prev, Frame(nad, pcb, info)[..k]);
      code == (if k == 3 then Blocked else Timeout) && rest == []
  {
    hide Lrc;
  }

  /** Any single changed byte other than the length is reported, as long as it
      does not turn the block into a parameter exchange. */
  lemma ReadNoticesOneByte(prev: Tpdu, nad: byte, pcb: byte, info: Bytes, rest: Bytes, i: nat, b: byte)
    requires |info| < 256 && nad != 0xFF
    requires i < |info| + 4 && i != 2 && b != Frame(nad, pcb, info)[i]
    requires i == 0 ==> b != 0xFF
    ensures ReadOf(prev, Frame(nad, pcb, info)[i := b] + rest).0 == ChecksumMismatch
  {
    var body := Body(nad, pcb, info);
    var rx := Frame(nad, pcb, info)[i := b] + rest;
    var n := |info|;
    if i == n + 3 {
      assert rx[..n + 3] == body;
    } else {
      LrcNoticesOneByte(body, i, b);
      assert rx[..n + 3] == body[i := b];
    }
  }

  // ---------- Kinds of blocks ----------

  datatype BlockKind = IBlock | RBlock | SBlock

  function CheckBlockKind(pcb: byte): BlockKind {
    if pcb < 128 then IBlock else if pcb < 128 + 64 then RBlock else SBlock
  }

  datatype RBlockClass = NoError | ErrorReported | Malformed

  function ClassifyRBlock(pcb: byte): RBlockClass {
    if pcb == 0x80 || pcb == 0x90 then NoError
    else if pcb in {0x81, 0x91, 0x82, 0x92} then ErrorReported
    else Malformed
  }

  /** Section 11.3.2.2: the highest bit 0 marks an I-block, the two highest bits 10
      an R-block and 11 an S-block. */
  lemma KindsByBits(pcb: byte)
    ensures CheckBlockKind(pcb) == IBlock <==> pcb / 0x80 == 0
    ensures CheckBlockKind(pcb) == RBlock <==> pcb / 0x40 == 2
    ensures CheckBlockKind(pcb) == SBlock <==> pcb / 0x40 == 3
  {
  }

  /** In an R-block the low four bits are 0 for no error, 1 for a parity or checksum
      error and 2 for any other; bit 5 is the number N(R). */
  lemma ErrorsByBits(pcb: byte)
    requires CheckBlockKind(pcb) == RBlock
    ensures ClassifyRBlock(pcb) == NoError <==> pcb / 0x20 == 4 && pcb % 0x10 == 0
    ensures ClassifyRBlock(pcb) == ErrorReported <==> pcb / 0x20 == 4 && (pcb % 0x10 == 1 || pcb % 0x10 == 2)
  {
  }

  const SEQUENCE_BIT: byte := 0x40
  const MORE_BIT: byte := 0x20

  predicate HasBit(b: byte, mask: byte)
    requires mask == SEQUENCE_BIT || mask == MORE_BIT
  {
    (b / mask) % 2 == 1
  }

  /** `b |= mask` */
  function SetBit(b: byte, mask: byte): (r: byte)
    requires mask == SEQUENCE_BIT || mask == MORE_BIT
    ensures HasBit(r, mask)
  {
    if HasBit(b, mask) then b else b + mask
  }

  /** `b &= ~mask` */
  function ClearBit(b: byte, mask: byte): (r: byte)
    requires mask == SEQUENCE_BIT || mask == MORE_BIT
    ensures !HasBit(r, mask)
  {
    if HasBit(b, mask) then b - mask else b
  }

  function PutBit(b: byte, mask: byte, on: bool): (r: byte)
    requires mask == SEQUENCE_BIT || mask == MORE_BIT
    ensures HasBit(r, mask) == on
  {
    if on then SetBit(b, mask) else ClearBit(b, mask)
  }

  /** The masks are those of N(S) and of the chaining bit: bit 7 and bit 6 of the
      byte, counted from 1. */
  lemma ProtocolBits(b: byte)
    ensures HasBit(b, SEQUENCE_BIT) <==> BitOf(b, 6) == 1
    ensures HasBit(b, MORE_BIT) <==> BitOf(b, 5) == 1
  {
    assert Pow2(2) == 4 && Pow2(4) == 16 && Pow2(5) == 32 && Pow2(6) == 64;
  }
}

/** What a chain of T=1 blocks means to the peer: the blocks that
    t1_write_complete_buffer puts on an error-free line, and their reassembly. */
module T1Reassembly {
  import opened Bytes
  import opened T1Block
  import opened T1Chain

  /** An information field: its length fits into the length byte. */
  type Info = s: Bytes | |s| < 256 witness []

  datatype Block = Block(nad: byte, pcb: byte, info: Info)

  /** A buffer cut into pieces of `size` bytes; the empty buffer is one empty piece. */
  function Pieces(buffer: Bytes, size: nat): (r: seq<Info>)
    requires 1 <= size < 256
    ensures |r| >= 1
    ensures forall i :: 0 <= i < |r| ==> |r[i]| <= size
  {
    if |buffer| <= size then [buffer] else [buffer[..size]] + Pieces(buffer[size..], size)
  }

  /** One I-block per piece. The chaining bit announces a successor; from the
      second block on the sequence bit alternates, beginning with `second`. */
  function ChainBlocks(pieces: seq<Info>, nad: byte, pcb: byte, second: bool): (r: seq<Block>)
    ensures |r| == |pieces|
    ensures forall i :: 0 <= i < |r| ==> r[i].info == pieces[i]
  {
    if pieces == [] then []
    else
      var p := PutBit(pcb, MORE_BIT, |pieces| > 1);
      [Block(nad, p, pieces[0])] + ChainBlocks(pieces[1..], nad, PutBit(p, SEQUENCE_BIT, second), !second)
  }

  ghost function FrameAll(blocks: seq<Block>): Bytes {
    if blocks == [] then []
    else Frame(blocks[0].nad, blocks[0].pcb, blocks[0].info) + FrameAll(blocks[1..])
  }

  lemma {:induction false} FrameAllConcat(a: seq<Block>, b: seq<Block>)
    ensures FrameAll(a + b) == FrameAll(a) + FrameAll(b)
  {
    if a == [] {
      assert a + b == b;
    } else {
      assert (a + b)[1..] == a[1..] + b;
      FrameAllConcat(a[1..], b);
    }
  }

  lemma FramesUnfold(pieces: seq<Info>, nad: byte, pcb: byte, second: bool)
    requires pieces != []
    ensures var p := PutBit(pcb, MORE_BIT, |pieces| > 1);
      FrameAll(ChainBlocks(pieces, nad, pcb, second))
      == Frame(nad, p, pieces[0]) + FrameAll(ChainBlocks(pieces[1..], nad, PutBit(p, SEQUENCE_BIT, second), !second))
  {
    hide PutBit, Frame;
    var p := PutBit(pcb, MORE_BIT, |pieces| > 1);
    var blocks := ChainBlocks(pieces, nad, pcb, second);
    assert blocks[0] == Block(nad, p, pieces[0]);
    assert blocks[1..] == ChainBlocks(pieces[1..], nad, PutBit(p, SEQUENCE_BIT, second), !second);
  }

  // ---------- Error-free acknowledgements ----------

  ghost predicate IsAck(b: Block) {
    b.nad != 0xFF && ClassifyRBlock(b.pcb) == NoError
  }

  ghost predicate AllAcks(acks: seq<Block>) {
    forall i :: 0 <= i < |acks| ==> IsAck(acks[i])
  }

  /** The pcb left in the struct after the last block. */
  function FinalPcb(pcb: byte, bit: bool): byte {
    PutBit(PutBit(pcb, MORE_BIT, false), SEQUENCE_BIT, bit)
  }

  /** Everything but the two protocol bits of a pcb. */
  function OtherBits(b: byte): (byte, byte) {
    (b % 32, b / 128)
  }

  lemma ChainingBitIsIndependent(b: byte, on: bool)
    ensures var r := PutBit(b, MORE_BIT, on);
      OtherBits(r) == OtherBits(b) && HasBit(r, SEQUENCE_BIT) == HasBit(b, SEQUENCE_BIT)
  {
  }

  lemma SequenceBitIsIndependent(b: byte, on: bool)
    ensures var r := PutBit(b, SEQUENCE_BIT, on);
      OtherBits(r) == OtherBits(b) && HasBit(r, MORE_BIT) == HasBit(b, MORE_BIT)
  {
  }

  lemma SameBits(a: byte, b: byte)
    requires OtherBits(a) == OtherBits(b)
    requires HasBit(a, MORE_BIT) == HasBit(b, MORE_BIT) && HasBit(a, SEQUENCE_BIT) == HasBit(b, SEQUENCE_BIT)
    ensures a == b
  {
  }

  lemma FinalPcbForgetsBits(pcb: byte, a: bool, b: bool, c: bool)
    ensures FinalPcb(PutBit(PutBit(pcb, MORE_BIT, a), SEQUENCE_BIT, b), c) == FinalPcb(pcb, c)
  {
    hide OtherBits, HasBit, SetBit, ClearBit;
    var p := PutBit(pcb, MORE_BIT, a);
    var q := PutBit(p, SEQUENCE_BIT, b);
    ChainingBitIsIndependent(pcb, a);
    SequenceBitIsIndependent(p, b);
    ChainingBitIsIndependent(q, false);
    SequenceBitIsIndependent(PutBit(q, MORE_BIT, false), c);
    ChainingBitIsIndependent(pcb, false);
    SequenceBitIsIndependent(PutBit(pcb, MORE_BIT, false), c);
    SameBits(FinalPcb(q, c), FinalPcb(pcb, c));
  }

  lemma AckIsRead(prev: Tpdu, ack: Block, rest: Bytes, resend: Bytes, counter: nat, accepted: byte)
    requires IsAck(ack)
    ensures var rx := Frame(ack.nad, ack.pcb, ack.info) + rest;
      var (code, recv, rx') := ReadOf(prev, rx);
      && !code.Blocked? && rx' == rest && PpsEcho(rx) == []
      && HandleResponseOf(resend, recv, counter, accepted, rest) == Handled(false, counter, accepted, recv, rest, [], 0)
  {
    ReadInvertsWrite(prev, ack.nad, ack.pcb, ack.info, rest);
  }

  /** One iteration on a line whose next block is an error-free acknowledgement;
      the last block of a buffer does not wait for one. */
  lemma IterationWithAck(buffer: Bytes, nad: byte, s: Sender, ack: Block, rest: Bytes)
    requires s.sent <= |buffer| && s.blockSize >= 1 && s.counter < 2
    requires s.sent + s.blockSize < |buffer| ==> IsAck(ack) && s.rx == Frame(ack.nad, ack.pcb, ack.info) + rest
    requires s.sent + s.blockSize >= |buffer| ==> s.rx == rest
    ensures var it := IterationOf(buffer, nad, s);
      var size: nat := CurrentSize(|buffer|, s);
      var pcb := PutBit(s.pcb, MORE_BIT, s.sent + size < |buffer|);
      && !it.stalled && it.tx == Frame(nad, pcb, buffer[s.sent..s.sent + size])
      && it.next.pcb == PutBit(pcb, SEQUENCE_BIT, s.counter == 0)
      && it.next.counter == (s.counter + 1) % 2 && it.next.sent == s.sent + size
      && it.next.blockSize == s.blockSize && it.next.rx == rest
  {
    hide ReadOf, PpsEcho, HandleResponseOf, Frame, HasBit;
    if s.sent + s.blockSize < |buffer| {
      var size: nat := CurrentSize(|buffer|, s);
      var next := IterationOf(buffer, nad, s).next;
      AckIsRead(s.recv, ack, rest, Frame(nad, next.pcb, buffer[s.sent..s.sent + size]), (s.counter + 1) % 2, s.blockSize);
      var tx := Frame(nad, PutBit(s.pcb, MORE_BIT, true), buffer[s.sent..s.sent + size]);
      assert tx + [] + [] == tx;
    }
  }

  /** The loop, from any intermediate state, on a line that acknowledges every
      intermediate block; `odd` says whether the counter ends on an odd value. */
  lemma {:induction false} ErrorFreeFrom(
      buffer: Bytes, nad: byte, left: nat, s: Sender, acks: seq<Block>, rest: Bytes, odd: bool)
    requires s.sent <= |buffer| && s.blockSize >= 1 && s.counter < 2
    requires left == |Pieces(buffer[s.sent..], s.blockSize)|
    requires AllAcks(acks) && |acks| == left - 1 && s.rx == FrameAll(acks) + rest
    requires odd == ((left + s.counter) % 2 == 1)
    ensures ChainFrom(buffer, nad, left, s)
         == Chained(true, FrameAll(ChainBlocks(Pieces(buffer[s.sent..], s.blockSize), nad, s.pcb, s.counter == 0)), rest,
                    FinalPcb(s.pcb, odd))
    decreases left
  {
    hide IterationOf, Frame, PutBit, HasBit, ChainBlocks;
    var tail := buffer[s.sent..];
    var bs: nat := s.blockSize;
    FramesUnfold(Pieces(tail, bs), nad, s.pcb, s.counter == 0);
    var it := IterationOf(buffer, nad, s);
    if |tail| <= bs {
      IterationWithAck(buffer, nad, s, Block(0, 0, []), rest);
      assert buffer[s.sent..s.sent + |tail|] == tail;
      assert FrameAll(ChainBlocks([], nad, it.next.pcb, s.counter != 0)) == [];
      assert ChainFrom(buffer, nad, 0, it.next) == Chained(true, [], rest, it.next.pcb);
    } else {
      var afterAck := FrameAll(acks[1..]) + rest;
      assert s.rx == Frame(acks[0].nad, acks[0].pcb, acks[0].info) + afterAck;
      IterationWithAck(buffer, nad, s, acks[0], afterAck);
      MiddleOfChain(buffer, nad, left, s, it, acks[1..], rest, odd);
    }
  }

  lemma {:induction false} MiddleOfChain(
      buffer: Bytes, nad: byte, left: nat, s: Sender, it: Iteration, acks: seq<Block>, rest: Bytes, odd: bool)
    requires s.sent + s.blockSize < |buffer| && s.blockSize >= 1 && s.counter < 2
    requires left == |Pieces(buffer[s.sent..], s.blockSize)|
    requires AllAcks(acks) && |acks| == left - 2
    requires odd == ((left + s.counter) % 2 == 1)
    requires it == IterationOf(buffer, nad, s) && !it.stalled
    requires it.tx == Frame(nad, PutBit(s.pcb, MORE_BIT, true), buffer[s.sent..s.sent + s.blockSize])
    requires it.next.pcb == PutBit(PutBit(s.pcb, MORE_BIT, true), SEQUENCE_BIT, s.counter == 0)
    requires it.next.counter == (s.counter + 1) % 2 && it.next.sent == s.sent + s.blockSize
    requires it.next.blockSize == s.blockSize && it.next.rx == FrameAll(acks) + rest
    ensures ChainFrom(buffer, nad, left, s)
         == Chained(true, FrameAll(ChainBlocks(Pieces(buffer[s.sent..], s.blockSize), nad, s.pcb, s.counter == 0)), rest,
                    FinalPcb(s.pcb, odd))
    decreases left, 0
  {
    hide IterationOf, Frame, PutBit, HasBit, ChainBlocks, FinalPcb, FrameAll, IsAck;
    var tail := buffer[s.sent..];
    var bs: nat := s.blockSize;
    var pieces := Pieces(tail, bs);
    assert buffer[s.sent..s.sent + bs] == tail[..bs] && buffer[s.sent + bs..] == tail[bs..];
    assert pieces[1..] == Pieces(tail[bs..], bs);
    assert (left - 1 + it.next.counter) % 2 == (left + s.counter) % 2;
    ErrorFreeFrom(buffer, nad, left - 1, it.next, acks, rest, odd);
    FramesUnfold(pieces, nad, s.pcb, s.counter == 0);
    FinalPcbForgetsBits(s.pcb, true, s.counter == 0, odd);
  }

  // ---------- The number of blocks ----------

  function CeilDiv(n: nat, d: nat): nat
    requires d >= 1
  {
    (n + d - 1) / d
  }

  lemma OneMoreBlock(m: nat, d: nat)
    requires d >= 1 && m > 0
    ensures NumIBlocks(m + d, d) == NumIBlocks(m, d) + 1 && CeilDiv(m + d, d) == CeilDiv(m, d) + 1
  {
    var k := m + d - 1;
    DivisionIsUnique(m + d, d, m / d + 1, m % d);
    DivisionIsUnique(k + d, d, k / d + 1, k % d);
  }

  lemma LastBlock(n: nat, d: nat)
    requires n <= d && d >= 1
    ensures NumIBlocks(n, d) == 1 && (n > 0 ==> CeilDiv(n, d) == 1)
  {
    if n == d {
      DivisionIsUnique(n, d, 1, 0);
    } else {
      DivisionIsUnique(n, d, 0, n);
    }
    if n > 0 {
      DivisionIsUnique(n + d - 1, d, 1, n - 1);
    }
  }

  /** The block count fixed before the loop is the least that holds the buffer,
      and one for the empty buffer. */
  lemma {:induction false} BlockCount(buffer: Bytes, size: nat)
    requires 1 <= size < 256
    ensures |Pieces(buffer, size)| == NumIBlocks(|buffer|, size)
    ensures |Pieces(buffer, size)| == if buffer == [] then 1 else CeilDiv(|buffer|, size)
    decreases |buffer|
  {
    hide NumIBlocks, CeilDiv;
    if |buffer| <= size {
      LastBlock(|buffer|, size);
    } else {
      BlockCount(buffer[size..], size);
      OneMoreBlock(|buffer| - size, size);
    }
  }

  // ---------- Main theorems ----------

  /** On a line that acknowledges every intermediate block without error, exactly
      the chain of blocks goes out, nothing else is consumed, and the return value
      is the parity of the number of blocks unless other pcb bits are set. */
  lemma ErrorFreeChain(blockSize: byte, nad: byte, pcb: byte, buffer: Bytes, acks: seq<Block>, rest: Bytes)
    requires blockSize >= 1 && AllAcks(acks) && |acks| == |Pieces(buffer, blockSize)| - 1
    ensures var pieces := Pieces(buffer, blockSize);
      ChainOf(blockSize, nad, pcb, buffer, FrameAll(acks) + rest)
      == Chained(true, FrameAll(ChainBlocks(pieces, nad, pcb, true)), rest, FinalPcb(pcb, |pieces| % 2 == 1))
  {
    BlockCount(buffer, blockSize);
    assert buffer[0..] == buffer;
    ErrorFreeFrom(buffer, nad, |Pieces(buffer, blockSize)|, Sender(pcb, 0, 0, blockSize, ZeroTpdu(), FrameAll(acks) + rest), acks, rest,
                  |Pieces(buffer, blockSize)| % 2 == 1);
  }

  lemma FinalPcbIsZeroIff(pcb: byte, bit: bool)
    ensures FinalPcb(pcb, bit) == 0 <==> OtherBits(pcb) == (0, 0) && !bit
  {
    hide HasBit, SetBit, ClearBit, OtherBits;
    var p := PutBit(pcb, MORE_BIT, false);
    ChainingBitIsIndependent(pcb, false);
    SequenceBitIsIndependent(p, bit);
    ZeroMeansNoBits(FinalPcb(pcb, bit));
  }

  lemma ZeroMeansNoBits(b: byte)
    ensures b == 0 <==> OtherBits(b) == (0, 0) && !HasBit(b, MORE_BIT) && !HasBit(b, SEQUENCE_BIT)
  {
  }

  /** On an acknowledged line the returned value is the parity of the blocks
      sent, as documented, iff the pcb passed in has none but the two protocol
      bits or the number of blocks is odd. */
  lemma ReturnedParityIff(blockSize: byte, nad: byte, pcb: byte, buffer: Bytes, acks: seq<Block>, rest: Bytes)
    requires blockSize >= 1 && AllAcks(acks) && |acks| == |Pieces(buffer, blockSize)| - 1
    ensures var blocks := |Pieces(buffer, blockSize)|;
      ReturnValue(ChainOf(blockSize, nad, pcb, buffer, FrameAll(acks) + rest).pcb) == blocks % 2
      <==> OtherBits(pcb) == (0, 0) || blocks % 2 == 1
  {
    hide ChainOf, OtherBits, FinalPcb;
    ErrorFreeChain(blockSize, nad, pcb, buffer, acks, rest);
    FinalPcbIsZeroIff(pcb, |Pieces(buffer, blockSize)| % 2 == 1);
  }

  /** A terminal that reads blocks until one has no chaining bit. */
  ghost function Reassemble(rx: Bytes): (r: Option<(Bytes, Bytes)>)
    ensures r.Some? ==> |r.value.1| < |rx|
    decreases |rx|
  {
    var (code, t, rest) := ReadOf(ZeroTpdu(), rx);
    if !code.Complete? then None
    else if !HasBit(t.pcb, MORE_BIT) then Some((t.Info(), rest))
    else
      match Reassemble(rest)
      case Some((more, rest')) => Some((t.Info() + more, rest'))
      case None => None
  }

  lemma {:induction false} ChainReassembles(buffer: Bytes, size: byte, nad: byte, pcb: byte, second: bool, rest: Bytes)
    requires size >= 1 && nad != 0xFF
    ensures Reassemble(FrameAll(ChainBlocks(Pieces(buffer, size), nad, pcb, second)) + rest) == Some((buffer, rest))
    decreases |buffer|
  {
    hide ReadOf, Frame, HasBit, PutBit, ZeroTpdu, ChainBlocks;
    var pieces := Pieces(buffer, size);
    var p := PutBit(pcb, MORE_BIT, |pieces| > 1);
    var after := FrameAll(ChainBlocks(pieces[1..], nad, PutBit(p, SEQUENCE_BIT, second), !second)) + rest;
    FramesUnfold(pieces, nad, pcb, second);
    assert FrameAll(ChainBlocks(pieces, nad, pcb, second)) + rest == Frame(nad, p, pieces[0]) + after;
    ReadInvertsWrite(ZeroTpdu(), nad, p, pieces[0], after);
    if |buffer| > size as nat {
      assert pieces[1..] == Pieces(buffer[size..], size);
      ChainReassembles(buffer[size..], size, nad, PutBit(p, SEQUENCE_BIT, second), !second, rest);
      assert buffer == buffer[..size] + buffer[size..];
    } else {
      assert after == rest && pieces[0] == buffer;
    }
  }

  /** Chaining round trip: on an acknowledged line the peer gets back the buffer. */
  lemma ChainRoundTrip(blockSize: byte, nad: byte, pcb: byte, buffer: Bytes, acks: seq<Block>, rest: Bytes)
    requires blockSize >= 1 && nad != 0xFF && AllAcks(acks) && |acks| == NumIBlocks(|buffer|, blockSize) - 1
    ensures var c := ChainOf(blockSize, nad, pcb, buffer, FrameAll(acks) + rest);
      c.finished && c.rx == rest && Reassemble(c.tx) == Some((buffer, []))
  {
    BlockCount(buffer, blockSize);
    ErrorFreeChain(blockSize, nad, pcb, buffer, acks, rest);
    ChainReassembles(buffer, blockSize, nad, pcb, true, []);
    var tx := FrameAll(ChainBlocks(Pieces(buffer, blockSize), nad, pcb, true));
    assert tx + [] == tx;
  }

  lemma LaterBlocks(pieces: seq<Info>, nad: byte, pcb: byte, second: bool, i: nat)
    requires 0 < i < |pieces|
    ensures var p := PutBit(PutBit(pcb, MORE_BIT, |pieces| > 1), SEQUENCE_BIT, second);
      ChainBlocks(pieces, nad, pcb, second)[i] == ChainBlocks(pieces[1..], nad, p, !second)[i - 1]
  {
    hide PutBit;
  }

  lemma FirstBlock(pieces: seq<Info>, nad: byte, pcb: byte, second: bool)
    requires pieces != []
    ensures ChainBlocks(pieces, nad, pcb, second)[0] == Block(nad, PutBit(pcb, MORE_BIT, |pieces| > 1), pieces[0])
  {
    hide PutBit;
  }

  /** The chaining bit is set on all blocks but the last. */
  lemma {:induction false} ChainingBits(pieces: seq<Info>, nad: byte, pcb: byte, second: bool, i: nat)
    requires i < |pieces|
    ensures HasBit(ChainBlocks(pieces, nad, pcb, second)[i].pcb, MORE_BIT) <==> i < |pieces| - 1
  {
    hide HasBit, PutBit;
    if i > 0 {
      hide ChainBlocks;
      LaterBlocks(pieces, nad, pcb, second, i);
      var p := PutBit(PutBit(pcb, MORE_BIT, |pieces| > 1), SEQUENCE_BIT, second);
      ChainingBits(pieces[1..], nad, p, !second, i - 1);
    }
  }

  /** The first block carries the bit it was given, and the others alternate. */
  lemma {:induction false} SequenceBits(pieces: seq<Info>, nad: byte, pcb: byte, second: bool, i: nat)
    requires i < |pieces|
    ensures HasBit(ChainBlocks(pieces, nad, pcb, second)[i].pcb, SEQUENCE_BIT)
         == if i == 0 then HasBit(pcb, SEQUENCE_BIT) else (i % 2 == 1) == second
  {
    hide HasBit, PutBit, OtherBits, ChainBlocks;
    var p := PutBit(pcb, MORE_BIT, |pieces| > 1);
    if i == 0 {
      FirstBlock(pieces, nad, pcb, second);
      ChainingBitIsIndependent(pcb, |pieces| > 1);
    } else {
      LaterBlocks(pieces, nad, pcb, second, i);
      SequenceBits(pieces[1..], nad, PutBit(p, SEQUENCE_BIT, second), !second, i - 1);
    }
  }

  lemma {:induction false} OnlyLastPieceIsShort(buffer: Bytes, size: nat, i: nat)
    requires 1 <= size < 256 && i < |Pieces(buffer, size)| - 1
    ensures |Pieces(buffer, size)[i]| == size
    decreases |buffer|
  {
    if i > 0 {
      OnlyLastPieceIsShort(buffer[size..], size, i - 1);
    }
  }
}

/** Sending a buffer as a chain of T=1 blocks: t1_write_complete_buffer and its
    helpers in pico-tunnel/util/util.c. */
module T1Chain {
  import opened Bytes
  import opened T1Block

  // ---------- Supervisory blocks ----------

  const RESYNCH_REQUEST: byte := 0xC0
  const IFS_REQUEST: byte := 0xC1
  const ABORT_REQUEST: byte := 0xC2

  /** What t1_handle_s_block leaves behind: the struct, the block counter, the
      information field size, the bytes it sent and its result. */
  datatype SHandled = SHandled(tpdu: Tpdu, counter: nat, accepted: byte, reply: Bytes, code: int)

  function SBlockReply(t: Tpdu): Option<Tpdu> {
    match t.pcb
    case 0xC0 => Some(t.(nad := 0, pcb := 0xE0, len := 0))  // resynch request
    case 0xC1 => Some(t.(pcb := 0xE1))                      // IFS request
    case 0xC2 => Some(t.(nad := 0, pcb := 0xE2, len := 0))  // abort request
    case _ => None
  }

  function HandleSBlockOf(t: Tpdu, counter: nat, accepted: byte): SHandled {
    match SBlockReply(t)
    case None => SHandled(t, counter, accepted, [], if t.pcb in {0xE1, 0xE2, 0xE3} then -1 else 0)
    case Some(r) =>
      if t.pcb == 0xC0 then SHandled(r, 0, 32, FrameOf(r), 1)
      else if t.pcb == 0xC1 then SHandled(r, counter + 1, t.apdu[0], FrameOf(r), 2)
      else SHandled(r, counter + 1, accepted, FrameOf(r), 3)
  }

  method HandleSBlock(uart: Uart, t: Tpdu, counter: nat, accepted: byte) returns (h: SHandled)
    modifies uart`tx
    ensures h == HandleSBlockOf(t, counter, accepted)
    ensures uart.tx == old(uart.tx) + h.reply
  {
    match t.pcb
    case 0xC0 =>
      var r := t.(nad := 0, pcb := 0xE0, len := 0);
      T1Write(uart, r);
      h := SHandled(r, 0, 32, FrameOf(r), 1);
    case 0xC1 =>
      var r := t.(pcb := 0xE1);
      T1Write(uart, r);
      h := SHandled(r, counter + 1, t.apdu[0], FrameOf(r), 2);
    case 0xC2 =>
      var r := t.(nad := 0, pcb := 0xE2, len := 0);
      T1Write(uart, r);
      h := SHandled(r, counter + 1, accepted, FrameOf(r), 3);
    case _ =>
      h := SHandled(t, counter, accepted, [], if t.pcb in {0xE1, 0xE2, 0xE3} then -1 else 0);
  }

  /** What the peer gets for a supervisory block: exactly the three requests are
      answered, with the response of the same type; the field size it reads back
      from the answer is the one in force from then on; every other supervisory
      block changes nothing. */
  lemma SupervisoryReply(t: Tpdu, counter: nat, accepted: byte, prev: Tpdu, rest: Bytes)
    requires t.nad != 0xFF && CheckBlockKind(t.pcb) == SBlock
    ensures var h := HandleSBlockOf(t, counter, accepted);
      && (h.reply == [] <==> t.pcb !in {0xC0, 0xC1, 0xC2})
      && (h.reply == [] ==> (h.tpdu, h.counter, h.accepted) == (t, counter, accepted) && h.code == if 0xE1 <= t.pcb <= 0xE3 then -1 else 0)
      && (h.reply != [] ==>
           var (code, r, rest') := ReadOf(prev, h.reply + rest);
           && code == Complete(|r.Info()| + 4) && rest' == rest
           && CheckBlockKind(r.pcb) == SBlock && r.pcb == t.pcb + 0x20
           && r.Info() == (if t.pcb == 0xC1 then t.Info() else [])
           && r.nad == (if t.pcb == 0xC1 then t.nad else 0)
           && h.code == t.pcb - 0xC0 + 1
           && h.counter == (if t.pcb == 0xC0 then 0 else counter + 1)
           && h.accepted == (if t.pcb == 0xC0 then 32
                             else if r.Info() != [] then r.Info()[0]
                             else if t.pcb == 0xC1 then t.apdu[0] else accepted))
  {
    hide Lrc;
    var h := HandleSBlockOf(t, counter, accepted);
    if h.reply != [] {
      var nad := if t.pcb == 0xC1 then t.nad else 0;
      var info := if t.pcb == 0xC1 then t.Info() else [];
      assert h.tpdu.Info() == info;
      ReadInvertsWrite(prev, nad, t.pcb + 0x20, info, rest);
    }
  }

  // ---------- The answer to an intermediate block ----------

  /** The state after the answer was handled. `stalled` says that the firmware
      would wait or resend forever on a line that has gone silent. */
  datatype Handled = Handled(stalled: bool, counter: nat, accepted: byte, recv: Tpdu, rx: Bytes, tx: Bytes, code: int)

  /** t1_handle_response_from_write: `resend` is the frame it repeats on errors. */
  function HandleResponseOf(resend: Bytes, recv: Tpdu, counter: nat, accepted: byte, rx: Bytes): Handled
    decreases |rx|
  {
    match CheckBlockKind(recv.pcb)
    case SBlock =>
      var s := HandleSBlockOf(recv, counter, accepted);
      Handled(false, s.counter, s.accepted, s.tpdu, rx, s.reply, -1)
    case IBlock => Handled(false, counter, accepted, recv, rx, [], -2)
    case RBlock =>
      if ClassifyRBlock(recv.pcb) == NoError then Handled(false, counter, accepted, recv, rx, [], 0)
      else
        var (code, recv', rx') := ReadOf(recv, rx);
        var sent := resend + PpsEcho(rx);
        if rx == [] || code.Blocked? then Handled(true, counter + 1, accepted, recv', rx', sent, -2)
        else
          var h := HandleResponseOf(resend, recv', counter + 1, accepted, rx');
          h.(tx := sent + h.tx)
  }

  /** The result tells which kind of block has ended the exchange: -1 for an
      S-block, 0 for an R-block without error, -2 for an I-block. */
  lemma {:induction false} ResponseCodes(resend: Bytes, recv: Tpdu, counter: nat, accepted: byte, rx: Bytes)
    ensures var h := HandleResponseOf(resend, recv, counter, accepted, rx);
      !h.stalled ==> h.code == if h.recv.pcb >= 0xC0 then -1 else if h.recv.pcb >= 0x80 then 0 else -2
    decreases |rx|
  {
    hide ReadOf, Frame, PpsEcho;
    if CheckBlockKind(recv.pcb) == RBlock && ClassifyRBlock(recv.pcb) != NoError {
      var (code, recv', rx') := ReadOf(recv, rx);
      if rx != [] && !code.Blocked? {
        ResponseCodes(resend, recv', counter + 1, accepted, rx');
      }
    }
  }

  method HandleResponseFromWrite(uart: Uart, send: Tpdu, recv: Tpdu, counter: nat, accepted: byte)
    returns (h: Handled)
    modifies uart
    ensures h == HandleResponseOf(FrameOf(send), recv, counter, accepted, old(uart.rx))
    ensures uart.rx == h.rx && uart.tx == old(uart.tx) + h.tx
    decreases |uart.rx|
  {
    hide Frame, ReadOf, PpsEcho, HandleSBlockOf;
    var kind := CheckBlockKind(recv.pcb);
    if kind == SBlock {
      var s := HandleSBlock(uart, recv, counter, accepted);
      return Handled(false, s.counter, s.accepted, s.tpdu, uart.rx, s.reply, -1);
    }
    if kind == RBlock {
      if ClassifyRBlock(recv.pcb) == NoError {
        return Handled(false, counter, accepted, recv, uart.rx, [], 0);
      }
      ghost var rx := uart.rx;
      var silent := |uart.rx| == 0;
      T1Write(uart, send);
      var echo := PpsEcho(uart.rx);
      var code, recv' := T1Read(uart, recv);
      if silent || code.Blocked? {
        return Handled(true, counter + 1, accepted, recv', uart.rx, FrameOf(send) + echo, -2);
      }
      assert |uart.rx| < |rx|;
      var rest := HandleResponseFromWrite(uart, send, recv', counter + 1, accepted);
      h := rest.(tx := FrameOf(send) + echo + rest.tx);
      return;
    }
    return Handled(false, counter, accepted, recv, uart.rx, [], -2);
  }

  // ---------- The chain ----------

  /** `num_iblocks` for a buffer of `n` bytes. */
  function NumIBlocks(n: nat, blockSize: nat): nat
    requires blockSize >= 1
  {
    var k := n / blockSize + 1;
    if n % blockSize == 0 && n != 0 then k - 1 else k
  }

  /** The local variables of t1_write_complete_buffer between two iterations,
      with the bytes that will arrive. */
  datatype Sender = Sender(pcb: byte, counter: nat, sent: nat, blockSize: byte, recv: Tpdu, rx: Bytes)

  datatype Iteration = Iteration(next: Sender, tx: Bytes, stalled: bool)

  function CurrentSize(n: nat, s: Sender): byte
    requires s.sent <= n
  {
    if n - s.sent > s.blockSize then s.blockSize else n - s.sent
  }

  /** One iteration: send a block, set the sequence bit of the next one, and
      unless the buffer is exhausted read and handle the answer. */
  function IterationOf(buffer: Bytes, nad: byte, s: Sender): (r: Iteration)
    requires s.sent <= |buffer|
    ensures r.next.sent <= |buffer|
  {
    var sent: nat := s.sent + CurrentSize(|buffer|, s);
    var info := buffer[s.sent..sent];
    var pcb := PutBit(s.pcb, MORE_BIT, sent < |buffer|);
    var frame := Frame(nad, pcb, info);
    var counter := (s.counter + 1) % 2;
    var pcb' := PutBit(pcb, SEQUENCE_BIT, counter == 1);
    var next := s.(pcb := pcb', counter := counter, sent := sent);
    if sent == |buffer| then Iteration(next, frame, false)
    else
      var (code, recv, rx) := ReadOf(s.recv, s.rx);
      var tx := frame + PpsEcho(s.rx);
      if code.Blocked? then Iteration(next.(recv := recv, rx := rx), tx, true)
      else
        var h := HandleResponseOf(Frame(nad, pcb', info), recv, counter, s.blockSize, rx);
        Iteration(next.(counter := h.counter, blockSize := h.accepted, recv := h.recv, rx := h.rx), tx + h.tx, h.stalled)
  }

  datatype Chained = Chained(finished: bool, tx: Bytes, rx: Bytes, pcb: byte) {
    function After(earlier: Bytes): Chained {
      this.(tx := earlier + tx)
    }
  }

  /** The remaining `left` iterations of the loop. */
  function ChainFrom(buffer: Bytes, nad: byte, left: nat, s: Sender): Chained
    requires s.sent <= |buffer|
    decreases left
  {
    if left == 0 then Chained(true, [], s.rx, s.pcb)
    else
      var it := IterationOf(buffer, nad, s);
      if it.stalled then Chained(false, it.tx, it.next.rx, it.next.pcb)
      else ChainFrom(buffer, nad, left - 1, it.next).After(it.tx)
  }

  /** `memset` to zero. */
  function ZeroTpdu(): Tpdu {
    Tpdu(0, 0, 0, Zeros(256), 0)
  }

  function ChainOf(blockSize: byte, nad: byte, pcb: byte, buffer: Bytes, rx: Bytes): Chained
    requires blockSize >= 1
  {
    ChainFrom(buffer, nad, NumIBlocks(|buffer|, blockSize), Sender(pcb, 0, 0, blockSize, ZeroTpdu(), rx))
  }

  /** The firmware returns `pcb && 0x40`, which is 1 for every non-zero pcb. */
  function ReturnValue(pcb: byte): nat {
    if pcb != 0 then 1 else 0
  }

  method SendOneBlock(uart: Uart, buffer: Bytes, nad: byte, s: Sender, previous: Tpdu)
    returns (it: Iteration, send: Tpdu)
    requires s.sent <= |buffer| && s.rx == uart.rx && previous.nad == nad && previous.pcb == s.pcb
    modifies uart
    ensures it == IterationOf(buffer, nad, s)
    ensures uart.rx == it.next.rx && uart.tx == old(uart.tx) + it.tx
    ensures send.nad == nad && send.pcb == it.next.pcb
  {
    hide ReadOf, PpsEcho, HandleResponseOf, HasBit, Lrc;
    var current: byte := if |buffer| - s.sent > s.blockSize then s.blockSize else |buffer| - s.sent;
    var sent: nat := s.sent + current;
    var pcb := if sent < |buffer| then SetBit(s.pcb, MORE_BIT) else ClearBit(s.pcb, MORE_BIT);
    send := T1ReadIntoTpdu(previous.nad, pcb, buffer[s.sent..sent], previous);
    T1Write(uart, send);
    var tx := FrameOf(send);
    var counter := s.counter + 1;
    if counter % 2 == 0 {
      send := send.(pcb := ClearBit(send.pcb, SEQUENCE_BIT));
      counter := 0;
    } else {
      send := send.(pcb := SetBit(send.pcb, SEQUENCE_BIT));
      counter := 1;
    }
    var next := s.(pcb := send.pcb, counter := counter, sent := sent);
    if sent == |buffer| {
      return Iteration(next, tx, false), send;
    }
    tx := tx + PpsEcho(uart.rx);
    var code, recv := T1Read(uart, s.recv);
    if code.Blocked? {
      return Iteration(next.(recv := recv, rx := uart.rx), tx, true), send;
    }
    assert send.Info() == buffer[s.sent..sent];
    var h := HandleResponseFromWrite(uart, send, recv, counter, s.blockSize);
    next := next.(counter := h.counter, blockSize := h.accepted, recv := h.recv, rx := h.rx);
    it := Iteration(next, tx + h.tx, h.stalled);
    assert uart.tx == old(uart.tx) + it.tx;
  }

  method WriteCompleteBuffer(uart: Uart, blockSize: byte, nad: byte, pcb: byte, buffer: Bytes)
    returns (finished: bool, parity: nat)
    requires blockSize >= 1
    modifies uart
    ensures var c := ChainOf(blockSize, nad, pcb, buffer, old(uart.rx));
      && finished == c.finished && uart.rx == c.rx && uart.tx == old(uart.tx) + c.tx
      && parity == ReturnValue(c.pcb)
  {
    hide IterationOf;
    ghost var all := ChainOf(blockSize, nad, pcb, buffer, uart.rx);
    var numBlocks := NumIBlocks(|buffer|, blockSize);
    var send := ZeroTpdu().(nad := nad, pcb := pcb);
    var s := Sender(pcb, 0, 0, blockSize, ZeroTpdu(), uart.rx);
    var i := 0;
    ghost var tx: Bytes := [];
    while i < numBlocks
      invariant 0 <= i <= numBlocks
      invariant s.sent <= |buffer| && s.rx == uart.rx && send.nad == nad && send.pcb == s.pcb
      invariant uart.tx == old(uart.tx) + tx
      invariant ChainFrom(buffer, nad, numBlocks - i, s).After(tx) == all
    {
      ghost var rest := ChainFrom(buffer, nad, numBlocks - i, s);
      ghost var before := s;
      var it;
      it, send := SendOneBlock(uart, buffer, nad, s, send);
      ChainUnfolds(buffer, nad, numBlocks - i, before, it, tx);
      tx := tx + it.tx;
      if it.stalled {
        return false, ReturnValue(send.pcb);
      }
      s := it.next;
      i := i + 1;
    }
    return true, ReturnValue(send.pcb);
  }

  lemma ChainUnfolds(buffer: Bytes, nad: byte, left: nat, s: Sender, it: Iteration, tx: Bytes)
    requires s.sent <= |buffer| && left > 0 && it == IterationOf(buffer, nad, s)
    ensures ChainFrom(buffer, nad, left, s).After(tx)
         == if it.stalled then Chained(false, tx + it.tx, it.next.rx, it.next.pcb)
            else ChainFrom(buffer, nad, left - 1, it.next).After(tx + it.tx)
  {
    assert tx + (it.tx + ChainFrom(buffer, nad, left - 1, it.next).tx)
        == (tx + it.tx) + ChainFrom(buffer, nad, left - 1, it.next).tx;
  }
}

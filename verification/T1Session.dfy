/** The command loop of protocol T=1, `prot_t1` in pico-tunnel/pico_poc.c, and
    the sequence numbers it puts on the line over a whole session. */
module T1Session {
  import opened Bytes
  import opened T1Block
  import opened T1Chain
  import opened T1Reassembly
  import opened T1Answers

  // ---------- One pass through the command loop ----------

  datatype CardState = CardState(seqNo: nat, accepted: byte, command: Tpdu, response: Tpdu)

  /** How a pass ends: the loop goes on, the firmware waits for a byte that never
      arrives, or it divides by a field size of zero, which C leaves undefined. */
  datatype PassEnd = Continues | Stuck | DividesByZero

  /** `forwarded` is the APDU handed to the USB side. */
  datatype Pass = Pass(next: CardState, tx: Bytes, rx: Bytes, forwarded: Option<Bytes>, end: PassEnd)

  /** t1_adjust_sequence_bit */
  function AdjustSequenceBit(seqNo: nat, pcb: byte): (nat, byte) {
    (seqNo % 2, PutBit(pcb, SEQUENCE_BIT, seqNo % 2 == 1))
  }

  function PassOf(st: CardState, rx: Bytes, answer: Bytes): Pass {
    var (code, t, rx1) := ReadOf(st.command, rx);
    var st1 := st.(command := t);
    match code
    case Blocked => Pass(st1, [], rx1, None, Stuck)
    case PpsHandled => Pass(st1, PpsEcho(rx), rx1, None, Continues)
    case Timeout => Pass(st1, [], rx1, None, Continues)
    case ChecksumMismatch =>
      Pass(st1.(seqNo := st.seqNo + 1), Frame(0, if st.seqNo % 2 == 0 then 0x81 else 0x91, []), rx1, None, Continues)
    case Complete(_) =>
      match CheckBlockKind(t.pcb)
      case SBlock =>
        var h := HandleSBlockOf(t, st.seqNo, st.accepted);
        Pass(st1.(command := h.tpdu, seqNo := h.counter, accepted := h.accepted), h.reply, rx1, None, Continues)
      case RBlock =>
        if ClassifyRBlock(t.pcb) == NoError then Pass(st1, [], rx1, None, Continues)
        else
          var (seqNo, pcb) := AdjustSequenceBit(st.seqNo, st.response.pcb);
          var r := st.response.(pcb := pcb);
          Pass(st1.(seqNo := seqNo + 1, response := r), FrameOf(r), rx1, None, Continues)
      case IBlock =>
        var (seqNo, pcb) := AdjustSequenceBit(st.seqNo, t.pcb);
        var response := st.response.(nad := t.nad, pcb := pcb);
        if st.accepted == 0 then
          Pass(CardState(seqNo, 0, t.(pcb := pcb), response), [], rx1, Some(t.Info()), DividesByZero)
        else
          var c := ChainOf(st.accepted, t.nad, pcb, answer, rx1);
          Pass(CardState(seqNo + ReturnValue(c.pcb), st.accepted, t.(pcb := pcb), response),
               c.tx, c.rx, Some(t.Info()), if c.finished then Continues else Stuck)
  }

  class Card {
    const uart: Uart
    var seqNo: nat
    var accepted: byte
    var command: Tpdu
    var response: Tpdu

    /** The firmware leaves both structs uninitialised. */
    constructor (uart: Uart, command: Tpdu, response: Tpdu)
      ensures this.uart == uart && State() == CardState(1, 32, command, response)
    {
      this.uart := uart;
      this.seqNo, this.accepted, this.command, this.response := 1, 32, command, response;
    }

    ghost function State(): CardState
      reads this
    {
      CardState(seqNo, accepted, command, response)
    }

    /** One pass; `answer` is what the USB side returns for a forwarded APDU. */
    method HandleCommand(answer: Bytes) returns (forwarded: Option<Bytes>, end: PassEnd)
      modifies this, uart
      ensures var p := PassOf(old(State()), old(uart.rx), answer);
        && State() == p.next && uart.rx == p.rx && uart.tx == old(uart.tx) + p.tx
        && forwarded == p.forwarded && end == p.end
    {
      hide ReadOf, Frame, ChainOf, HandleSBlockOf, PpsEcho, SetBit, ClearBit;
      var code;
      code, command := T1Read(uart, command);
      if code.Blocked? {
        assert PpsEcho(old(uart.rx)) == [] by { EchoMeansPps(old(command), old(uart.rx)); }
        return None, Stuck;
      }
      if code.PpsHandled? {
        return None, Continues;
      }
      assert PpsEcho(old(uart.rx)) == [] by { EchoMeansPps(old(command), old(uart.rx)); }
      if code.Timeout? {
        return None, Continues;
      }
      if code.ChecksumMismatch? {
        var r := T1ReadIntoTpdu(0, if seqNo % 2 == 0 then 0x81 else 0x91, [], ZeroTpdu());
        T1Write(uart, r);
        seqNo := seqNo + 1;
        return None, Continues;
      }
      var kind := CheckBlockKind(command.pcb);
      if kind == SBlock {
        var h := HandleSBlock(uart, command, seqNo, accepted);
        command, seqNo, accepted := h.tpdu, h.counter, h.accepted;
        return None, Continues;
      }
      if kind == RBlock {
        if ClassifyRBlock(command.pcb) != NoError {
          var s, pcb := AdjustSequenceBit(seqNo, response.pcb).0, AdjustSequenceBit(seqNo, response.pcb).1;
          seqNo, response := s, response.(pcb := pcb);
          T1Write(uart, response);
          seqNo := seqNo + 1;
        }
        return None, Continues;
      }
      var apdu := command.Info();
      var s, pcb := AdjustSequenceBit(seqNo, command.pcb).0, AdjustSequenceBit(seqNo, command.pcb).1;
      seqNo, command := s, command.(pcb := pcb);
      response := response.(nad := command.nad, pcb := command.pcb);
      if accepted == 0 {
        return Some(apdu), DividesByZero;
      }
      var finished, parity := WriteCompleteBuffer(uart, accepted, response.nad, response.pcb, answer);
      seqNo := seqNo + parity;
      return Some(apdu), if finished then Continues else Stuck;
    }
  }

  lemma EchoMeansPps(prev: Tpdu, rx: Bytes)
    ensures PpsEcho(rx) != [] ==> ReadOf(prev, rx).0.PpsHandled?
  {
  }

  // ---------- A session on an error-free line ----------

  /** A command of the terminal, the card's answer to it, and the terminal's
      acknowledgements of all blocks of the answer but the last. */
  datatype Exchange = Exchange(nad: byte, pcb: byte, info: Info, answer: Bytes, acks: seq<Block>)

  /** What the terminal does: a command, or a block between two commands. */
  datatype Event = Command(x: Exchange) | Notice(b: Block)

  /** The command is an I-block, and every block of the answer but the last is
      acknowledged. */
  ghost predicate Acknowledged(x: Exchange, size: nat)
    requires 1 <= size < 256
  {
    && x.nad != 0xFF && CheckBlockKind(x.pcb) == IBlock
    && AllAcks(x.acks) && |x.acks| == |Pieces(x.answer, size)| - 1
  }

  /** A supervisory block, where a request for a field size names one, or an
      acknowledgement that nothing waits for. */
  ghost predicate IsNotice(b: Block) {
    || IsAck(b)
    || (b.nad != 0xFF && CheckBlockKind(b.pcb) == SBlock && (b.pcb == IFS_REQUEST ==> b.info != []))
  }

  /** The events fit: no command comes while the field size is zero. */
  ghost predicate Runs(size: byte, es: seq<Event>)
    decreases |es|
  {
    es != [] ==>
      match es[0]
      case Command(x) => size >= 1 && Acknowledged(x, size) && Runs(size, es[1..])
      case Notice(b) => IsNotice(b) && Runs(SizeAfter(size, b), es[1..])
  }

  ghost function EventBytes(e: Event): Bytes {
    match e
    case Command(x) => Frame(x.nad, x.pcb, x.info) + FrameAll(x.acks)
    case Notice(b) => Frame(b.nad, b.pcb, b.info)
  }

  ghost function TerminalSends(es: seq<Event>): Bytes {
    if es == [] then [] else EventBytes(es[0]) + TerminalSends(es[1..])
  }

  // ---------- What moves the running number ----------

  /** Whether an answer moves the running number by one: `pcb && 0x40` does so for
      an odd number of blocks, and for any number when a reserved bit is set. */
  ghost predicate Counted(x: Exchange, size: nat)
    requires 1 <= size < 256
  {
    OtherBits(x.pcb) != (0, 0) || |Pieces(x.answer, size)| % 2 == 1
  }

  function OddAfterNotice(odd: bool, b: Block): bool {
    b.pcb != RESYNCH_REQUEST && odd != (b.pcb == IFS_REQUEST || b.pcb == ABORT_REQUEST)
  }

  ghost function AnswerChain(odd: bool, x: Exchange, size: nat): seq<Block>
    requires 1 <= size < 256
  {
    ChainBlocks(Pieces(x.answer, size), x.nad, PutBit(x.pcb, SEQUENCE_BIT, odd), true)
  }

  /** Everything the card sends; `odd` is the parity of its running number. */
  ghost function CardOutput(odd: bool, size: byte, es: seq<Event>): seq<Block>
    requires Runs(size, es)
    decreases |es|
  {
    if es == [] then []
    else
      match es[0]
      case Command(x) => AnswerChain(odd, x, size) + CardOutput(odd != Counted(x, size), size, es[1..])
      case Notice(b) => Reply(b) + CardOutput(OddAfterNotice(odd, b), SizeAfter(size, b), es[1..])
  }

  /** The firmware's output over one pass for each event, and its final state. */
  ghost function SessionOf(st: CardState, rx: Bytes, es: seq<Event>): (Bytes, CardState)
    decreases |es|
  {
    if es == [] then ([], st)
    else
      var p := PassOf(st, rx, if es[0].Command? then es[0].x.answer else []);
      var (tx, end) := SessionOf(p.next, p.rx, es[1..]);
      (p.tx + tx, end)
  }

  /** One exchange: the command's field is forwarded, the answer goes out as a
      chain, and the running number moves as the firmware counts. */
  lemma OneExchange(st: CardState, x: Exchange, rest: Bytes)
    requires st.accepted >= 1 && Acknowledged(x, st.accepted)
    ensures var p := PassOf(st, EventBytes(Command(x)) + rest, x.answer);
      var odd := st.seqNo % 2 == 1;
      && p.end.Continues? && p.rx == rest && p.forwarded == Some(x.info) && p.next.accepted == st.accepted
      && p.tx == FrameAll(AnswerChain(odd, x, st.accepted))
      && (p.next.seqNo % 2 == 1) == (odd != Counted(x, st.accepted))
      && p.next.response == st.response.(nad := x.nad, pcb := PutBit(x.pcb, SEQUENCE_BIT, odd))
  {
    hide ReadOf, Frame, ChainOf, HandleSBlockOf, PpsEcho, HasBit, FinalPcb, FrameAll, OtherBits;
    var odd := st.seqNo % 2 == 1;
    var odder := |Pieces(x.answer, st.accepted)| % 2 == 1;
    var pcb := PutBit(x.pcb, SEQUENCE_BIT, odd);
    var rx1 := FrameAll(x.acks) + rest;
    assert EventBytes(Command(x)) + rest == Frame(x.nad, x.pcb, x.info) + rx1;
    ReadInvertsWrite(st.command, x.nad, x.pcb, x.info, rx1);
    ErrorFreeChain(st.accepted, x.nad, pcb, x.answer, x.acks, rest);
    SequenceBitIsIndependent(x.pcb, odd);
    FinalPcbIsZeroIff(pcb, odder);
    AddParities(st.seqNo, ReturnValue(FinalPcb(pcb, odder)));
  }

  lemma AddParities(a: nat, bit: nat)
    requires bit < 2
    ensures (a % 2 + bit) % 2 == 1 <==> (a % 2 == 1) != (bit == 1)
  {
  }

  lemma OneNotice(st: CardState, b: Block, rest: Bytes)
    requires IsNotice(b)
    ensures var p := PassOf(st, EventBytes(Notice(b)) + rest, []);
      && p.end.Continues? && p.rx == rest && p.forwarded == None && p.tx == FrameAll(Reply(b))
      && p.next.accepted == SizeAfter(st.accepted, b)
      && (p.next.seqNo % 2 == 1) == OddAfterNotice(st.seqNo % 2 == 1, b)
  {
    hide ReadOf, Frame, ChainOf, PpsEcho, SetBit, ClearBit;
    ReadInvertsWrite(st.command, b.nad, b.pcb, b.info, rest);
    var t := ReadOf(st.command, EventBytes(Notice(b)) + rest).1;
    if b.pcb == IFS_REQUEST {
      assert t.Info()[0] == t.apdu[0];
    }
    if Reply(b) != [] {
      FrameAllOfOne(Reply(b)[0]);
    }
  }

  /** Over a whole session the card sends exactly these blocks, also where
      supervisory requests between the commands change number and field size. */
  lemma {:induction false} SessionSends(st: CardState, es: seq<Event>)
    requires Runs(st.accepted, es)
    ensures SessionOf(st, TerminalSends(es), es).0 == FrameAll(CardOutput(st.seqNo % 2 == 1, st.accepted, es))
    decreases |es|
  {
    hide PassOf, EventBytes, FrameAll, AnswerChain, Counted, Acknowledged, IsNotice, Reply, SizeAfter, OddAfterNotice;
    if es == [] {
      NoFrames();
    } else {
      var odd, rest := st.seqNo % 2 == 1, TerminalSends(es[1..]);
      match es[0]
      case Command(x) =>
        OneExchange(st, x, rest);
        SessionSends(PassOf(st, TerminalSends(es), x.answer).next, es[1..]);
        FrameAllConcat(AnswerChain(odd, x, st.accepted), CardOutput(odd != Counted(x, st.accepted), st.accepted, es[1..]));
      case Notice(b) =>
        OneNotice(st, b, rest);
        SessionSends(PassOf(st, TerminalSends(es), []).next, es[1..]);
        FrameAllConcat(Reply(b), CardOutput(OddAfterNotice(odd, b), SizeAfter(st.accepted, b), es[1..]));
    }
  }

  // ---------- The terminal gets every answer ----------

  /** A terminal that reassembles one answer after the other, with the replies to
      its requests in between. */
  ghost function ReassembleAll(rx: Bytes): Option<seq<Bytes>>
    decreases |rx|
  {
    if rx == [] then Some([])
    else
      var (code, t, rest) := ReadOf(ZeroTpdu(), rx);
      if !code.Complete? then None
      else if CheckBlockKind(t.pcb) == SBlock then ReassembleAll(rest)
      else
        match Reassemble(rx)
        case None => None
        case Some((answer, rest')) =>
          match ReassembleAll(rest')
          case None => None
          case Some(later) => Some([answer] + later)
  }

  ghost function Answers(es: seq<Event>): seq<Bytes> {
    if es == [] then []
    else (if es[0].Command? then [es[0].x.answer] else []) + Answers(es[1..])
  }

  lemma {:induction false} ChainKeepsRest(pieces: seq<Info>, nad: byte, pcb: byte, second: bool, i: nat)
    requires i < |pieces|
    ensures var b := ChainBlocks(pieces, nad, pcb, second)[i]; b.nad == nad && OtherBits(b.pcb) == OtherBits(pcb)
  {
    hide PutBit, HasBit, OtherBits;
    var p := PutBit(pcb, MORE_BIT, |pieces| > 1);
    ChainingBitIsIndependent(pcb, |pieces| > 1);
    if i > 0 {
      SequenceBitIsIndependent(p, second);
      LaterBlocks(pieces, nad, pcb, second, i);
      ChainKeepsRest(pieces[1..], nad, PutBit(p, SEQUENCE_BIT, second), !second, i - 1);
    }
  }

  lemma SameKind(a: byte, b: byte)
    requires OtherBits(a) == OtherBits(b)
    ensures (CheckBlockKind(a) == IBlock) == (CheckBlockKind(b) == IBlock)
  {
  }

  lemma AnswerIsNumbered(odd: bool, x: Exchange, size: nat)
    requires 1 <= size < 256 && CheckBlockKind(x.pcb) == IBlock
    ensures var chain := AnswerChain(odd, x, size);
      |chain| == |Pieces(x.answer, size)| >= 1 && forall i :: 0 <= i < |chain| ==> CheckBlockKind(chain[i].pcb) == IBlock
  {
    hide PutBit, HasBit, OtherBits, CheckBlockKind;
    SequenceBitIsIndependent(x.pcb, odd);
    SameKind(x.pcb, PutBit(x.pcb, SEQUENCE_BIT, odd));
    forall i | 0 <= i < |Pieces(x.answer, size)|
      ensures CheckBlockKind(AnswerChain(odd, x, size)[i].pcb) == IBlock
    {
      ChainKeepsRest(Pieces(x.answer, size), x.nad, PutBit(x.pcb, SEQUENCE_BIT, odd), true, i);
      SameKind(PutBit(x.pcb, SEQUENCE_BIT, odd), AnswerChain(odd, x, size)[i].pcb);
    }
  }

  lemma AnswerIsReassembled(odd: bool, x: Exchange, size: byte, rest: Bytes)
    requires size >= 1 && Acknowledged(x, size)
    ensures ReassembleAll(FrameAll(AnswerChain(odd, x, size)) + rest)
         == match ReassembleAll(rest)
            case None => None
            case Some(later) => Some([x.answer] + later)
  {
    hide ReadOf, Frame, FrameAll, PutBit, HasBit, Reassemble, ReassembleAll, ChainBlocks, CheckBlockKind, AllAcks;
    var chain := AnswerChain(odd, x, size);
    var rx := FrameAll(chain) + rest;
    AnswerIsNumbered(odd, x, size);
    ChainReassembles(x.answer, size, x.nad, PutBit(x.pcb, SEQUENCE_BIT, odd), true, rest);
    FirstOfFrames(chain, rest);
    ChainKeepsRest(Pieces(x.answer, size), x.nad, PutBit(x.pcb, SEQUENCE_BIT, odd), true, 0);
    ReadInvertsWrite(ZeroTpdu(), chain[0].nad, chain[0].pcb, chain[0].info, FrameAll(chain[1..]) + rest);
    assert rx != [];
    ReassembleStep(rx);
  }

  lemma FirstOfFrames(blocks: seq<Block>, rest: Bytes)
    requires blocks != []
    ensures FrameAll(blocks) + rest == Frame(blocks[0].nad, blocks[0].pcb, blocks[0].info) + (FrameAll(blocks[1..]) + rest)
  {
    hide Frame;
  }

  lemma ReassembleStep(rx: Bytes)
    requires rx != [] && ReadOf(ZeroTpdu(), rx).0.Complete?
    ensures ReassembleAll(rx)
         == if CheckBlockKind(ReadOf(ZeroTpdu(), rx).1.pcb) == SBlock then ReassembleAll(ReadOf(ZeroTpdu(), rx).2)
            else match Reassemble(rx)
                 case None => None
                 case Some((answer, rest)) =>
                   match ReassembleAll(rest)
                   case None => None
                   case Some(later) => Some([answer] + later)
  {
    hide ReadOf, Reassemble, CheckBlockKind, ZeroTpdu;
  }

  lemma ReplyIsSkipped(b: Block, rest: Bytes)
    requires IsNotice(b)
    ensures ReassembleAll(FrameAll(Reply(b)) + rest) == ReassembleAll(rest)
  {
    hide ReadOf, Frame, FrameAll, Reassemble, ReassembleAll;
    if Reply(b) == [] {
      NoFrames();
      assert [] + rest == rest;
    } else {
      var r := Reply(b)[0];
      FrameAllOfOne(r);
      ReadInvertsWrite(ZeroTpdu(), r.nad, r.pcb, r.info, rest);
      ReassembleStep(FrameAll(Reply(b)) + rest);
    }
  }

  /** End to end: a terminal gets back every answer of the session, in order, and
      nothing else, whatever supervisory blocks it puts between its commands. */
  lemma {:induction false} SessionAnswers(st: CardState, es: seq<Event>)
    requires Runs(st.accepted, es)
    ensures ReassembleAll(SessionOf(st, TerminalSends(es), es).0) == Some(Answers(es))
    decreases |es|
  {
    hide PassOf, EventBytes, FrameAll, AnswerChain, Counted, Acknowledged, IsNotice, Reply, SizeAfter, OddAfterNotice;
    hide ReassembleAll;
    if es == [] {
      NothingToReassemble();
    } else {
      var odd, rest := st.seqNo % 2 == 1, TerminalSends(es[1..]);
      match es[0]
      case Command(x) =>
        OneExchange(st, x, rest);
        var p := PassOf(st, TerminalSends(es), x.answer);
        SessionAnswers(p.next, es[1..]);
        AnswerIsReassembled(odd, x, st.accepted, SessionOf(p.next, p.rx, es[1..]).0);
      case Notice(b) =>
        OneNotice(st, b, rest);
        var p := PassOf(st, TerminalSends(es), []);
        SessionAnswers(p.next, es[1..]);
        ReplyIsSkipped(b, SessionOf(p.next, p.rx, es[1..]).0);
        assert [] + Answers(es[1..]) == Answers(es[1..]);
    }
  }

  lemma NothingToReassemble()
    ensures ReassembleAll([]) == Some([])
  {
  }

  // ---------- When do the sequence numbers alternate? ----------

  /** The blocks that carry a sequence number. */
  function IBlocks(blocks: seq<Block>): seq<Block> {
    if blocks == [] then []
    else (if CheckBlockKind(blocks[0].pcb) == IBlock then [blocks[0]] else []) + IBlocks(blocks[1..])
  }

  lemma {:induction false} IBlocksConcat(a: seq<Block>, b: seq<Block>)
    ensures IBlocks(a + b) == IBlocks(a) + IBlocks(b)
  {
    if a == [] {
      assert a + b == b;
    } else {
      assert (a + b)[1..] == a[1..] + b;
      IBlocksConcat(a[1..], b);
    }
  }

  lemma {:induction false} AllIBlocks(blocks: seq<Block>)
    requires forall i :: 0 <= i < |blocks| ==> CheckBlockKind(blocks[i].pcb) == IBlock
    ensures IBlocks(blocks) == blocks
  {
    if blocks != [] {
      AllIBlocks(blocks[1..]);
    }
  }

  ghost predicate Alternates(blocks: seq<Block>) {
    forall i :: 0 <= i < |blocks| - 1 ==>
      HasBit(blocks[i].pcb, SEQUENCE_BIT) != HasBit(blocks[i + 1].pcb, SEQUENCE_BIT)
  }

  /** One answer: its own blocks alternate, and so does the step to the next
      answer, iff it is a single block or begins with bit 0. */
  lemma ChainAlternatesIff(pieces: seq<Info>, nad: byte, pcb: byte)
    requires pieces != []
    ensures var blocks := ChainBlocks(pieces, nad, pcb, true);
      var first := HasBit(pcb, SEQUENCE_BIT);
      && (Alternates(blocks) <==> |pieces| == 1 || !first)
      && (|pieces| == 1 || !first ==>
           HasBit(blocks[|blocks| - 1].pcb, SEQUENCE_BIT) != (first != (|pieces| % 2 == 1)))
  {
    hide HasBit, PutBit;
    var blocks := ChainBlocks(pieces, nad, pcb, true);
    forall i | 0 <= i < |pieces|
      ensures HasBit(blocks[i].pcb, SEQUENCE_BIT) == if i == 0 then HasBit(pcb, SEQUENCE_BIT) else i % 2 == 1
    {
      SequenceBits(pieces, nad, pcb, true, i);
    }
    if |pieces| > 1 && HasBit(pcb, SEQUENCE_BIT) {
      assert HasBit(blocks[0].pcb, SEQUENCE_BIT) == HasBit(blocks[0 + 1].pcb, SEQUENCE_BIT);
    }
  }

  lemma AlternatesConcat(a: seq<Block>, b: seq<Block>)
    requires a != []
    ensures Alternates(a + b) <==>
      && Alternates(a) && Alternates(b)
      && (b != [] ==> HasBit(a[|a| - 1].pcb, SEQUENCE_BIT) != HasBit(b[0].pcb, SEQUENCE_BIT))
  {
    hide HasBit;
    var ab := a + b;
    if Alternates(ab) {
      forall i | 0 <= i < |a| - 1
        ensures HasBit(a[i].pcb, SEQUENCE_BIT) != HasBit(a[i + 1].pcb, SEQUENCE_BIT)
      {
        assert ab[i] == a[i] && ab[i + 1] == a[i + 1];
      }
      forall i | 0 <= i < |b| - 1
        ensures HasBit(b[i].pcb, SEQUENCE_BIT) != HasBit(b[i + 1].pcb, SEQUENCE_BIT)
      {
        assert ab[|a| + i] == b[i] && ab[|a| + i + 1] == b[i + 1];
      }
      if b != [] {
        assert ab[|a| - 1] == a[|a| - 1] && ab[|a| - 1 + 1] == b[0];
      }
    }
  }

  /** Condition on the events: no answer of more than one block begins on an odd
      running number, and at every answer but the first the number is the one that
      is due, which the blocks of the answer before it alone would have led to. */
  ghost predicate InStep(due: Option<bool>, odd: bool, size: byte, es: seq<Event>)
    requires Runs(size, es)
    decreases |es|
  {
    es != [] ==>
      match es[0]
      case Notice(b) => InStep(due, OddAfterNotice(odd, b), SizeAfter(size, b), es[1..])
      case Command(x) =>
        var blocks := |Pieces(x.answer, size)|;
        && (due.Some? ==> odd == due.value)
        && (blocks == 1 || !odd)
        && InStep(Some(odd != (blocks % 2 == 1)), odd != Counted(x, size), size, es[1..])
  }

  /** With the last numbered block before the events, if there is one. */
  lemma {:induction false} AlternatesBehind(prev: seq<Block>, due: Option<bool>, odd: bool, size: byte, es: seq<Event>)
    requires Runs(size, es) && |prev| <= 1
    requires due == if prev == [] then None else Some(!HasBit(prev[0].pcb, SEQUENCE_BIT))
    ensures Alternates(prev + IBlocks(CardOutput(odd, size, es))) <==> InStep(due, odd, size, es)
    decreases |es|
  {
    hide HasBit, PutBit, Alternates, IBlocks, AnswerChain, Counted, Acknowledged, IsNotice, Reply, SizeAfter, OddAfterNotice;
    if es == [] {
      FewAlternate(prev);
    } else {
      match es[0]
      case Notice(b) =>
        var later := CardOutput(OddAfterNotice(odd, b), SizeAfter(size, b), es[1..]);
        IBlocksConcat(Reply(b), later);
        ReplyHasNoNumber(b);
        assert [] + IBlocks(later) == IBlocks(later);
        AlternatesBehind(prev, due, OddAfterNotice(odd, b), SizeAfter(size, b), es[1..]);
      case Command(x) =>
        AnswerAlternates(prev, due, odd, size, x, CardOutput(odd != Counted(x, size), size, es[1..]));
        var blocks := |Pieces(x.answer, size)|;
        if blocks == 1 || !odd {
          var chain := AnswerChain(odd, x, size);
          AlternatesBehind([chain[|chain| - 1]], Some(odd != (blocks % 2 == 1)), odd != Counted(x, size), size, es[1..]);
        }
    }
  }

  /** One answer between what came before and what comes later. */
  lemma AnswerAlternates(prev: seq<Block>, due: Option<bool>, odd: bool, size: byte, x: Exchange, later: seq<Block>)
    requires size >= 1 && Acknowledged(x, size) && |prev| <= 1
    requires due == if prev == [] then None else Some(!HasBit(prev[0].pcb, SEQUENCE_BIT))
    ensures var chain := AnswerChain(odd, x, size);
      var blocks := |Pieces(x.answer, size)|;
      && |chain| == blocks >= 1
      && (blocks == 1 || !odd ==> !HasBit(chain[blocks - 1].pcb, SEQUENCE_BIT) == (odd != (blocks % 2 == 1)))
      && (Alternates(prev + IBlocks(chain + later)) <==>
           && (due.Some? ==> odd == due.value) && (blocks == 1 || !odd)
           && Alternates([chain[blocks - 1]] + IBlocks(later)))
  {
    hide HasBit, PutBit, Alternates, IBlocks, AllAcks, ChainBlocks;
    var chain := AnswerChain(odd, x, size);
    var pieces := Pieces(x.answer, size);
    var pcb := PutBit(x.pcb, SEQUENCE_BIT, odd);
    AnswerIsNumbered(odd, x, size);
    AllIBlocks(chain);
    IBlocksConcat(chain, later);
    ChainAlternatesIff(pieces, x.nad, pcb);
    SequenceBits(pieces, x.nad, pcb, true, 0);
    var rest := IBlocks(later);
    var last := [chain[|chain| - 1]];
    AlternatesConcat(chain, rest);
    AlternatesConcat(last, rest);
    FewAlternate(last);
    if prev == [] {
      assert prev + (chain + rest) == chain + rest;
    } else {
      AlternatesConcat(prev, chain + rest);
      FewAlternate(prev);
    }
  }

  lemma FewAlternate(blocks: seq<Block>)
    requires |blocks| <= 1
    ensures Alternates(blocks) && blocks + IBlocks([]) == blocks
  {
  }

  lemma ReplyHasNoNumber(b: Block)
    ensures IBlocks(Reply(b)) == []
  {
    if Reply(b) != [] {
      assert Reply(b)[1..] == [] && Reply(b)[0].pcb >= 0xE0;
    }
  }

  /** The sequence numbers on the card's output alternate iff the events keep its
      running number in step. The firmware starts a session with the number 1. */
  lemma SequenceAlternatesIff(odd: bool, size: byte, es: seq<Event>)
    requires Runs(size, es)
    ensures Alternates(IBlocks(CardOutput(odd, size, es))) <==> InStep(None, odd, size, es)
  {
    hide Alternates, InStep;
    AlternatesBehind([], None, odd, size, es);
    assert [] + IBlocks(CardOutput(odd, size, es)) == IBlocks(CardOutput(odd, size, es));
  }

  // ---------- The condition in numbers of requests ----------

  function Notices(gap: seq<Block>): seq<Event> {
    if gap == [] then [] else [Notice(gap[0])] + Notices(gap[1..])
  }

  function Resynchs(gap: seq<Block>): bool {
    exists i :: 0 <= i < |gap| && gap[i].pcb == RESYNCH_REQUEST
  }

  /** The requests for a field size or an abort since the last resynchronisation. */
  function Confirmed(gap: seq<Block>): nat {
    if gap == [] then 0
    else
      var last := gap[|gap| - 1].pcb;
      if last == RESYNCH_REQUEST then 0
      else Confirmed(gap[..|gap| - 1]) + if last == IFS_REQUEST || last == ABORT_REQUEST then 1 else 0
  }

  /** The parity of the running number behind a gap. */
  function OddBehind(odd: bool, gap: seq<Block>): bool {
    if gap == [] then odd else OddAfterNotice(OddBehind(odd, gap[..|gap| - 1]), gap[|gap| - 1])
  }

  function SizeBehind(size: byte, gap: seq<Block>): byte {
    if gap == [] then size else SizeAfter(SizeBehind(size, gap[..|gap| - 1]), gap[|gap| - 1])
  }

  lemma {:induction false} OddBehindIsCount(odd: bool, gap: seq<Block>)
    ensures OddBehind(odd, gap) == ((!Resynchs(gap) && odd) != (Confirmed(gap) % 2 == 1))
  {
    if gap != [] {
      var init, last := gap[..|gap| - 1], gap[|gap| - 1];
      OddBehindIsCount(odd, init);
      if Resynchs(init) {
        var i :| 0 <= i < |init| && init[i].pcb == RESYNCH_REQUEST;
        assert gap[i].pcb == RESYNCH_REQUEST;
      } else {
        assert Resynchs(gap) <==> last.pcb == RESYNCH_REQUEST;
      }
    }
  }

  lemma {:induction false} BehindConcat(odd: bool, size: byte, first: Block, gap: seq<Block>)
    ensures OddBehind(odd, [first] + gap) == OddBehind(OddAfterNotice(odd, first), gap)
    ensures SizeBehind(size, [first] + gap) == SizeBehind(SizeAfter(size, first), gap)
    decreases |gap|
  {
    hide OddAfterNotice, SizeAfter;
    var all := [first] + gap;
    if gap == [] {
      assert all[..0] == [];
    } else {
      assert all[..|all| - 1] == [first] + gap[..|gap| - 1];
      BehindConcat(odd, size, first, gap[..|gap| - 1]);
    }
  }

  lemma {:induction false} GapIsSkipped(due: Option<bool>, odd: bool, size: byte, gap: seq<Block>, es: seq<Event>)
    requires Runs(size, Notices(gap) + es)
    ensures Runs(SizeBehind(size, gap), es)
    ensures InStep(due, odd, size, Notices(gap) + es) <==> InStep(due, OddBehind(odd, gap), SizeBehind(size, gap), es)
    decreases |gap|
  {
    hide OddAfterNotice, SizeAfter, IsNotice;
    if gap == [] {
      assert Notices(gap) + es == es;
    } else {
      var all := Notices(gap) + es;
      assert all[0] == Notice(gap[0]) && all[1..] == Notices(gap[1..]) + es;
      assert gap == [gap[0]] + gap[1..];
      BehindConcat(odd, size, gap[0], gap[1..]);
      GapIsSkipped(due, OddAfterNotice(odd, gap[0]), SizeAfter(size, gap[0]), gap[1..], es);
    }
  }

  /** One when a reserved pcb bit makes an even number of blocks count as odd. */
  ghost function Miscounted(x: Exchange, size: nat): nat
    requires 1 <= size < 256
  {
    if Counted(x, size) && |Pieces(x.answer, size)| % 2 == 0 then 1 else 0
  }

  /** An answer, a gap, and the next command: the numbers stay in step iff the
      requests confirmed in the gap, and a miscounted answer, add up to an even
      number; after a resynchronisation, which sets the number to 0, iff the
      requests since then have led to the number that is due. */
  lemma NextAnswerInStepIff(odd: bool, size: byte, x: Exchange, gap: seq<Block>, y: Exchange, es: seq<Event>)
    requires Runs(size, [Command(x)] + (Notices(gap) + ([Command(y)] + es)))
    ensures size >= 1 && Runs(SizeBehind(size, gap), [Command(y)] + es)
    ensures var blocks := |Pieces(x.answer, size)|;
      var due := odd != (blocks % 2 == 1);
      InStep(None, odd, size, [Command(x)] + (Notices(gap) + ([Command(y)] + es))) <==>
        && (blocks == 1 || !odd)
        && (if Resynchs(gap) then due == (Confirmed(gap) % 2 == 1) else (Confirmed(gap) + Miscounted(x, size)) % 2 == 0)
        && InStep(None, due, SizeBehind(size, gap), [Command(y)] + es)
  {
    hide Resynchs, Confirmed, OddBehind, SizeBehind, Acknowledged, IsNotice, Notices;
    var later := [Command(y)] + es;
    var behind := Notices(gap) + later;
    var all := [Command(x)] + behind;
    assert all[0] == Command(x) && all[1..] == behind && later[0] == Command(y) && later[1..] == es;
    var due := odd != (|Pieces(x.answer, size)| % 2 == 1);
    var odd' := odd != Counted(x, size);
    GapIsSkipped(Some(due), odd', size, gap, later);
    OddBehindIsCount(odd', gap);
    assert InStep(Some(due), OddBehind(odd', gap), SizeBehind(size, gap), later) <==>
      OddBehind(odd', gap) == due && InStep(None, due, SizeBehind(size, gap), later);
  }

  // ---------- Inputs on which the numbers go wrong ----------

  /** A command with this pcb and an answer of 33 bytes, which takes two blocks
      of the default size. */
  function TwoBlockExchange(pcb: byte): Exchange {
    Exchange(0, pcb, [], Zeros(33), [Block(0, 0x80, [])])
  }

  lemma TwoBlocks(pcb: byte)
    requires CheckBlockKind(pcb) == IBlock
    ensures |Pieces(Zeros(33), 32)| == 2 && |Pieces(Zeros(33), 32)[1]| == 1
    ensures Acknowledged(TwoBlockExchange(pcb), 32)
  {
    var b := Zeros(33);
    assert Pieces(b, 32) == [b[..32]] + Pieces(b[32..], 32);
    assert Pieces(b[32..], 32) == [b[32..]];
  }

  /** In the first exchange after reset an answer of two blocks goes out with the
      sequence bit 1 in both. */
  lemma FirstLongAnswerRepeatsBit(command: Tpdu, response: Tpdu)
    ensures var st := CardState(1, 32, command, response);
      var es := [Command(TwoBlockExchange(0))];
      Runs(32, es) &&
      var blocks := CardOutput(true, 32, es);
      && SessionOf(st, TerminalSends(es), es).0 == FrameAll(blocks)
      && |blocks| == 2 && HasBit(blocks[0].pcb, SEQUENCE_BIT) && HasBit(blocks[1].pcb, SEQUENCE_BIT)
      && !Alternates(IBlocks(blocks))
  {
    hide HasBit, PutBit, ChainBlocks, PassOf, Pieces, Alternates, IBlocks;
    var x := TwoBlockExchange(0);
    var es := [Command(x)];
    TwoBlocks(0);
    assert es[1..] == [] && Runs(32, []) && Runs(32, es);
    SessionSends(CardState(1, 32, command, response), es);
    SequenceAlternatesIff(true, 32, es);
    var pcb := PutBit(0, SEQUENCE_BIT, true);
    SequenceBits(Pieces(x.answer, 32), 0, pcb, true, 0);
    SequenceBits(Pieces(x.answer, 32), 0, pcb, true, 1);
    assert CardOutput(true, 32, es) == AnswerChain(true, x, 32) + [];
  }

  /** A reserved bit in the command's pcb makes the card count two blocks as one. */
  lemma ReservedBitMiscounts(command: Tpdu, response: Tpdu, rest: Bytes)
    ensures var st := CardState(1, 32, command, response);
      var x := TwoBlockExchange(1);
      var p := PassOf(st, EventBytes(Command(x)) + rest, x.answer);
      && p.end.Continues? && |Pieces(x.answer, 32)| == 2 && p.next.seqNo % 2 == 0
  {
    hide HasBit, PutBit, ChainBlocks, PassOf, Pieces;
    TwoBlocks(1);
    assert OtherBits(1) == (1, 0);
    OneExchange(CardState(1, 32, command, response), TwoBlockExchange(1), rest);
  }

  const SHORT_EXCHANGE := Exchange(0, 0, [], [1], [])

  /** Two answers of one block each, and a confirmed IFS request between them:
      both go out with the number 1. */
  lemma RequestBetweenAnswersRepeatsBit(command: Tpdu, response: Tpdu)
    ensures var st := CardState(1, 32, command, response);
      var es := [Command(SHORT_EXCHANGE), Notice(Block(0, IFS_REQUEST, [32])), Command(SHORT_EXCHANGE)];
      Runs(32, es) &&
      var blocks := CardOutput(true, 32, es);
      && SessionOf(st, TerminalSends(es), es).0 == FrameAll(blocks)
      && blocks == [Block(0, 0x40, [1]), Block(0, 0xE1, [32]), Block(0, 0x40, [1])]
      && !Alternates(IBlocks(blocks))
  {
    hide PassOf, Alternates, IBlocks, FrameAll;
    var x, b := SHORT_EXCHANGE, Block(0, IFS_REQUEST, [32]);
    var es := [Command(x), Notice(b), Command(x)];
    assert Pieces(x.answer, 32) == [[1]] && [[1]][1..] == [];
    assert AnswerChain(true, x, 32) == [Block(0, 0x40, [1])];
    assert Counted(x, 32) && Acknowledged(x, 32) && IsNotice(b);
    assert es[1..] == [Notice(b), Command(x)] && es[1..][1..] == [Command(x)] && [Command(x)][1..] == [];
    assert Runs(32, [Command(x)]) && Runs(32, es[1..]) && Runs(32, es);
    SessionSends(CardState(1, 32, command, response), es);
    assert CardOutput(true, 32, [Command(x)]) == [Block(0, 0x40, [1])] + [];
    assert CardOutput(false, 32, es[1..]) == [Block(0, 0xE1, [32])] + CardOutput(true, 32, [Command(x)]);
    SequenceAlternatesIff(true, 32, es);
    assert !InStep(Some(false), true, 32, [Command(x)]);
    assert !InStep(Some(false), false, 32, es[1..]);
  }

  // ---------- Damaged, missing and intact blocks ----------

  /** A block with a checksum mismatch is not forwarded. The peer reads back one
      R-block that reports a checksum error, with the running number as N(R), and
      the running number moves by one. */
  lemma DamagedBlockIsReported(st: CardState, rx: Bytes, answer: Bytes, prev: Tpdu, later: Bytes)
    requires ReadOf(st.command, rx).0 == ChecksumMismatch
    ensures var p := PassOf(st, rx, answer);
      var (code, r, later') := ReadOf(prev, p.tx + later);
      && p.end.Continues? && p.forwarded == None && p.rx == ReadOf(st.command, rx).2
      && p.next.seqNo == st.seqNo + 1 && p.next.accepted == st.accepted && p.next.response == st.response
      && code == Complete(4) && later' == later && r.nad == 0 && r.Info() == []
      && r.pcb / 0x20 == 4 && r.pcb % 0x10 == 1 && BitOf(r.pcb, 4) == st.seqNo % 2
      && CheckBlockKind(r.pcb) == RBlock && ClassifyRBlock(r.pcb) == ErrorReported
  {
    hide Lrc, ReadOf, Frame;
    ReadInvertsWrite(prev, 0, if st.seqNo % 2 == 0 then 0x81 else 0x91, [], later);
    assert Pow2(2) == 4 && Pow2(4) == 16;
  }

  /** A command with one changed byte, repeated by the terminal, is forwarded once
      and answered once. */
  lemma RepeatedCommandIsForwardedOnce(st: CardState, x: Exchange, i: nat, b: byte, rest: Bytes)
    requires st.accepted >= 1 && Acknowledged(x, st.accepted)
    requires i < |x.info| + 4 && i != 2 && b != Frame(x.nad, x.pcb, x.info)[i] && (i == 0 ==> b != 0xFF)
    ensures var damaged := Frame(x.nad, x.pcb, x.info)[i := b];
      var p := PassOf(st, damaged + (EventBytes(Command(x)) + rest), x.answer);
      var q := PassOf(p.next, p.rx, x.answer);
      && p.forwarded == None && |p.tx| == 4 && p.end.Continues?
      && q.forwarded == Some(x.info) && q.rx == rest && q.end.Continues?
      && q.tx == FrameAll(AnswerChain(st.seqNo % 2 == 0, x, st.accepted))
  {
    hide Lrc, ReadOf, Frame, FrameAll, AnswerChain, AllAcks, PassOf, EventBytes;
    var later := EventBytes(Command(x)) + rest;
    var rx := Frame(x.nad, x.pcb, x.info)[i := b] + later;
    ReadNoticesOneByte(st.command, x.nad, x.pcb, x.info, later, i, b);
    DamagedBlockIsReported(st, rx, x.answer, ZeroTpdu(), []);
    DamagedReply(st, rx, x.answer);
    ConsumesBlock(st.command, x.nad, x.pcb, x.info, i, b, later);
    OneExchange(PassOf(st, rx, x.answer).next, x, rest);
  }

  lemma DamagedReply(st: CardState, rx: Bytes, answer: Bytes)
    requires ReadOf(st.command, rx).0 == ChecksumMismatch
    ensures |PassOf(st, rx, answer).tx| == 4
  {
    hide ReadOf, Lrc;
  }

  lemma ConsumesBlock(prev: Tpdu, nad: byte, pcb: byte, info: Info, i: nat, b: byte, later: Bytes)
    requires nad != 0xFF && i < |info| + 4 && i != 2 && (i == 0 ==> b != 0xFF)
    ensures ReadOf(prev, Frame(nad, pcb, info)[i := b] + later).2 == later
  {
    hide Lrc;
    var rx := Frame(nad, pcb, info)[i := b] + later;
    assert rx[2] == |info| && rx[|info| + 4..] == later;
  }

  /** An intact command is answered with an I-block, never with an error report. */
  lemma IntactCommandIsAnswered(
      st: CardState, nad: byte, pcb: byte, info: Info, rest: Bytes, answer: Bytes, prev: Tpdu)
    requires nad != 0xFF && CheckBlockKind(pcb) == IBlock && st.accepted >= 1
    ensures var p := PassOf(st, Frame(nad, pcb, info) + rest, answer);
      var (code, t, _) := ReadOf(prev, p.tx);
      && p.forwarded == Some(info) && code.Complete? && t.nad == nad && CheckBlockKind(t.pcb) == IBlock
      && t.Info() == if |answer| > st.accepted as nat then answer[..st.accepted] else answer
  {
    hide Lrc, ReadOf, Frame, ChainFrom, HasBit, PutBit, OtherBits, HandleResponseOf, PpsEcho;
    ReadInvertsWrite(st.command, nad, pcb, info, rest);
    var adjusted := PutBit(pcb, SEQUENCE_BIT, st.seqNo % 2 == 1);
    var s := Sender(adjusted, 0, 0, st.accepted, ZeroTpdu(), rest);
    var it := IterationOf(answer, nad, s);
    BlockCount(answer, st.accepted);
    var first := PutBit(adjusted, MORE_BIT, SentAfter(|answer|, LinkOf(s)) < |answer|);
    var piece := answer[0..SentAfter(|answer|, LinkOf(s))];
    FirstOfChainTx(answer, nad, NumIBlocks(|answer|, st.accepted), s);
    SequenceBitIsIndependent(pcb, st.seqNo % 2 == 1);
    ChainingBitIsIndependent(adjusted, SentAfter(|answer|, LinkOf(s)) < |answer|);
    SameKind(pcb, first);
    var tx := PassOf(st, Frame(nad, pcb, info) + rest, answer).tx;
    ReadInvertsWrite(prev, nad, first, piece, tx[|Frame(nad, first, piece)|..]);
    assert tx == Frame(nad, first, piece) + tx[|Frame(nad, first, piece)|..];
  }

  lemma FirstOfChainTx(buffer: Bytes, nad: byte, left: nat, s: Sender)
    requires s.sent <= |buffer| && left > 0
    ensures var sent := SentAfter(|buffer|, LinkOf(s));
      Frame(nad, PutBit(s.pcb, MORE_BIT, sent < |buffer|), buffer[s.sent..sent]) <= ChainFrom(buffer, nad, left, s).tx
  {
    hide Frame, ReadOf, HasBit, PutBit, HandleResponseOf, PpsEcho;
    var it := IterationOf(buffer, nad, s);
    assert it.tx <= ChainFrom(buffer, nad, left, s).tx;
  }

  /** A line that goes silent in mid-block is waited for at most once; a parameter
      exchange is echoed; neither touches the running number or the field size. */
  lemma SilenceAndPps(st: CardState, rx: Bytes, answer: Bytes)
    ensures var p := PassOf(st, rx, answer);
      && (|rx| >= 4 && rx[0] == 0xFF ==>
           p.tx == rx[..4] && p.rx == rx[4..] && p.end.Continues? && p.forwarded == None
           && p.next.seqNo == st.seqNo && p.next.accepted == st.accepted)
      && (|rx| < 3 || (|rx| == 3 && rx[0] == 0xFF) ==>
           p.tx == [] && p.rx == [] && p.end.Continues? && p.forwarded == None
           && p.next.seqNo == st.seqNo && p.next.accepted == st.accepted)
      && (|rx| == 3 && rx[0] != 0xFF ==> p.tx == [] && p.end.Stuck? && p.forwarded == None)
  {
    hide Lrc;
  }

  /** An intact error report is answered with the response struct under the running
      number, which then moves by one. */
  lemma ErrorReportIsAnswered(st: CardState, report: Block, rest: Bytes, answer: Bytes)
    requires report.nad != 0xFF && CheckBlockKind(report.pcb) == RBlock && ClassifyRBlock(report.pcb) != NoError
    ensures var p := PassOf(st, Frame(report.nad, report.pcb, report.info) + rest, answer);
      && p.end.Continues? && p.forwarded == None && p.rx == rest && p.next.accepted == st.accepted
      && p.tx == Frame(st.response.nad, PutBit(st.response.pcb, SEQUENCE_BIT, st.seqNo % 2 == 1), st.response.Info())
      && p.next.seqNo % 2 != st.seqNo % 2
  {
    hide Lrc, ReadOf, Frame, HasBit, SetBit, ClearBit;
    ReadInvertsWrite(st.command, report.nad, report.pcb, report.info, rest);
  }

  // ---------- An error report after the last block ----------

  lemma FrameTells(nad: byte, pcb: byte, info: Bytes, pcb': byte, info': Bytes)
    requires |info| < 256 && |info'| < 256 && nad != 0xFF
    ensures Frame(nad, pcb, info) == Frame(nad, pcb', info') <==> pcb == pcb' && info == info'
  {
    hide Frame, ReadOf;
    if Frame(nad, pcb, info) == Frame(nad, pcb', info') {
      ReadInvertsWrite(ZeroTpdu(), nad, pcb, info, []);
      ReadInvertsWrite(ZeroTpdu(), nad, pcb', info', []);
    }
  }

  /** The terminal reports the last block of an answer as faulty. prot_t1 then sends
      its response struct, whose field no one has filled in: t1_write_complete_buffer
      works on a struct of its own. That is the last block once more iff the field
      happens to be the same, the command's pcb had no chaining bit, and the running
      number has the value of the last block's, which takes two blocks or more. */
  lemma ResendIsLastIff(st: CardState, x: Exchange, report: Block, rest: Bytes)
    requires st.accepted >= 1 && Acknowledged(x, st.accepted)
    requires report.nad != 0xFF && CheckBlockKind(report.pcb) == RBlock && ClassifyRBlock(report.pcb) != NoError
    ensures var odd := st.seqNo % 2 == 1;
      var chain := AnswerChain(odd, x, st.accepted);
      var blocks := |chain|;
      var p := PassOf(st, EventBytes(Command(x)) + (Frame(report.nad, report.pcb, report.info) + rest), x.answer);
      var q := PassOf(p.next, p.rx, []);
      && blocks >= 1 && q.end.Continues? && q.rx == rest
      && (q.tx == FrameAll([chain[blocks - 1]]) <==>
           && st.response.Info() == chain[blocks - 1].info
           && !HasBit(x.pcb, MORE_BIT)
           && blocks > 1 && (odd != Counted(x, st.accepted)) == (blocks % 2 == 0))
  {
    hide ReadOf, Frame, ChainOf, HandleSBlockOf, PpsEcho, HasBit, SetBit, ClearBit, FrameAll, OtherBits, ChainBlocks;
    hide AnswerChain, Counted, AllAcks, EventBytes;
    var odd := st.seqNo % 2 == 1;
    var later := Frame(report.nad, report.pcb, report.info) + rest;
    OneExchange(st, x, later);
    var p := PassOf(st, EventBytes(Command(x)) + later, x.answer);
    ReadInvertsWrite(p.next.command, report.nad, report.pcb, report.info, rest);
    var number := p.next.seqNo % 2 == 1;
    var first := PutBit(x.pcb, SEQUENCE_BIT, odd);
    var resent := PutBit(first, SEQUENCE_BIT, number);
    LastOfAnswer(odd, x, st.accepted);
    var chain := AnswerChain(odd, x, st.accepted);
    var last := chain[|chain| - 1];
    FrameAllOfOne(last);
    FrameTells(x.nad, resent, st.response.Info(), last.pcb, last.info);
    SequenceBitIsIndependent(x.pcb, odd);
    SequenceBitIsIndependent(first, number);
    if HasBit(last.pcb, MORE_BIT) == HasBit(resent, MORE_BIT) && HasBit(last.pcb, SEQUENCE_BIT) == number {
      SameBits(resent, last.pcb);
    }
  }

  /** The last block of an answer. */
  lemma LastOfAnswer(odd: bool, x: Exchange, size: byte)
    requires size >= 1 && Acknowledged(x, size)
    ensures var chain := AnswerChain(odd, x, size);
      var blocks := |chain|;
      && blocks >= 1 && (blocks == 1 ==> Counted(x, size))
      && var last := chain[blocks - 1];
      && last.nad == x.nad && OtherBits(last.pcb) == OtherBits(x.pcb) && !HasBit(last.pcb, MORE_BIT)
      && HasBit(last.pcb, SEQUENCE_BIT) == if blocks == 1 then odd else blocks % 2 == 0
  {
    hide HasBit, PutBit, OtherBits, ChainBlocks, AllAcks;
    var pieces := Pieces(x.answer, size);
    var pcb := PutBit(x.pcb, SEQUENCE_BIT, odd);
    SequenceBitIsIndependent(x.pcb, odd);
    SequenceBits(pieces, x.nad, pcb, true, |pieces| - 1);
    ChainingBits(pieces, x.nad, pcb, true, |pieces| - 1);
    ChainKeepsRest(pieces, x.nad, pcb, true, |pieces| - 1);
  }

  /** A response struct that was zero at the start: the second block of the answer,
      with one byte, is not what an error report brings back. */
  lemma ResendIsEmpty(command: Tpdu)
    ensures var st := CardState(1, 32, command, ZeroTpdu());
      var x := TwoBlockExchange(0);
      var p := PassOf(st, EventBytes(Command(x)) + (Frame(0, 0x81, []) + []), x.answer);
      && |Pieces(x.answer, 32)| == 2
      && PassOf(p.next, p.rx, []).tx != FrameAll([AnswerChain(true, x, 32)[1]])
  {
    hide PassOf, Frame, FrameAll, ChainBlocks, Pieces, HasBit, PutBit;
    var x := TwoBlockExchange(0);
    TwoBlocks(0);
    ResendIsLastIff(CardState(1, 32, command, ZeroTpdu()), x, Block(0, 0x81, []), []);
  }

  // ---------- A field size of zero ----------

  /** The firmware divides by zero iff the field size in force is zero and an
      intact I-block has arrived. */
  lemma DividesByZeroIff(st: CardState, rx: Bytes, answer: Bytes)
    ensures PassOf(st, rx, answer).end.DividesByZero? <==>
      && st.accepted == 0
      && exists nad: byte, pcb: byte, info: Info, rest ::
           nad != 0xFF && CheckBlockKind(pcb) == IBlock && rx == Frame(nad, pcb, info) + rest
  {
    hide Frame, ReadOf, ChainOf, HandleSBlockOf, SetBit, ClearBit;
    if PassOf(st, rx, answer).end.DividesByZero? {
      AcceptedMeansFramed(st.command, rx);
      var (code, t, rest) := ReadOf(st.command, rx);
      assert rx == Frame(t.nad, t.pcb, t.Info()) + rest;
    }
    forall nad: byte, pcb: byte, info: Info, rest |
      st.accepted == 0 && nad != 0xFF && CheckBlockKind(pcb) == IBlock && rx == Frame(nad, pcb, info) + rest
      ensures PassOf(st, rx, answer).end.DividesByZero?
    {
      ReadInvertsWrite(st.command, nad, pcb, info, rest);
    }
  }

  /** A terminal gets there by requesting the field size 0: the request is
      confirmed, and the next I-block divides. */
  lemma ZeroSizeIsReachable(st: CardState, nad: byte, pcb: byte, info: Info, answer: Bytes, rest: Bytes)
    requires nad != 0xFF && CheckBlockKind(pcb) == IBlock
    ensures var later := Frame(nad, pcb, info) + rest;
      var p := PassOf(st, Frame(0, IFS_REQUEST, [0]) + later, answer);
      && p.end.Continues? && p.tx == Frame(0, 0xE1, [0]) && p.next.accepted == 0
      && PassOf(p.next, p.rx, answer).end.DividesByZero?
  {
    hide Frame, ReadOf, ChainOf, SetBit, ClearBit;
    var later := Frame(nad, pcb, info) + rest;
    var rx := Frame(0, IFS_REQUEST, [0]) + later;
    ReadInvertsWrite(st.command, 0, IFS_REQUEST, [0], later);
    assert ReadOf(st.command, rx).1.Info()[0] == 0;
    var p := PassOf(st, rx, answer);
    DividesByZeroIff(p.next, p.rx, answer);
  }
}

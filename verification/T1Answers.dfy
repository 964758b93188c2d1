/** Chains of T=1 blocks on a line that is not free of errors: the peer may
    report errors, so that t1_write_complete_buffer (pico-tunnel/util/util.c)
    repeats blocks, and may put supervisory requests between them, which change
    the counter and the information field size in mid-chain. */
module T1Answers {
  import opened Bytes
  import opened T1Block
  import opened T1Chain
  import opened T1Reassembly

  // ---------- The peer ----------

  /** The answer to a block that expects one: error reports, after each of which
      the card repeats the block, and the block that ends this. */
  datatype Answer = Answer(errors: seq<Block>, last: Block)

  predicate IsErrorReport(b: Block) {
    CheckBlockKind(b.pcb) == RBlock && ClassifyRBlock(b.pcb) != NoError
  }

  /** An answer that arrives undamaged; a request for a field size names one. */
  ghost predicate IsAnswer(a: Answer) {
    && (forall i :: 0 <= i < |a.errors| ==> a.errors[i].nad != 0xFF && IsErrorReport(a.errors[i]))
    && a.last.nad != 0xFF && !IsErrorReport(a.last)
    && (a.last.pcb == IFS_REQUEST ==> a.last.info != [])
  }

  ghost function AnswerBytes(a: Answer): Bytes {
    FrameAll(a.errors) + Frame(a.last.nad, a.last.pcb, a.last.info)
  }

  ghost function AllAnswers(answers: seq<Answer>): Bytes {
    if answers == [] then [] else AnswerBytes(answers[0]) + AllAnswers(answers[1..])
  }

  // ---------- What an answer does ----------

  function SizeAfter(size: byte, last: Block): byte {
    if last.pcb == RESYNCH_REQUEST then 32
    else if last.pcb == IFS_REQUEST && last.info != [] then last.info[0]
    else size
  }

  function NextSize(size: byte, answers: seq<Answer>): byte {
    if answers == [] then size else SizeAfter(size, answers[0].last)
  }

  /** How often an answer advances the counter, unless it resets it. */
  function Advances(a: Answer): nat {
    |a.errors| + if a.last.pcb == IFS_REQUEST || a.last.pcb == ABORT_REQUEST then 1 else 0
  }

  /** Whether the counter is odd after an answer, given what it was before it. */
  function OddAfter(odd: bool, a: Answer): bool {
    a.last.pcb != RESYNCH_REQUEST && odd != (Advances(a) % 2 == 1)
  }

  function NextOdd(odd: bool, answers: seq<Answer>): bool {
    if answers == [] then odd else OddAfter(odd, answers[0])
  }

  function Reply(last: Block): seq<Block> {
    if last.pcb == RESYNCH_REQUEST then [Block(0, 0xE0, [])]
    else if last.pcb == IFS_REQUEST then [Block(last.nad, 0xE1, last.info)]
    else if last.pcb == ABORT_REQUEST then [Block(0, 0xE2, [])]
    else []
  }

  function Copies(b: Block, n: nat): (r: seq<Block>)
    ensures |r| == n && forall i :: 0 <= i < n ==> r[i] == b
  {
    if n == 0 then [] else [b] + Copies(b, n - 1)
  }

  // ---------- The chain, block by block ----------

  /** What goes out in one iteration: a block, its repetitions, and the reply to a
      supervisory request. */
  datatype Turn = Turn(first: Block, repeats: seq<Block>, reply: seq<Block>) {
    function Blocks(): seq<Block> {
      [first] + repeats + reply
    }
  }

  /** Between two turns: the pcb of the next block, whether the counter is odd,
      how much of the buffer was sent, and the field size in force. */
  datatype Link = Link(pcb: byte, odd: bool, sent: nat, size: byte)

  function SentAfter(n: nat, s: Link): nat
    requires s.sent <= n
  {
    if n - s.sent > s.size then s.sent + s.size else n
  }

  function Next(buffer: Bytes, s: Link, answers: seq<Answer>): (r: Link)
    requires s.sent <= |buffer|
    ensures r.sent <= |buffer|
  {
    var sent := SentAfter(|buffer|, s);
    var q := PutBit(PutBit(s.pcb, MORE_BIT, sent < |buffer|), SEQUENCE_BIT, !s.odd);
    Link(q, NextOdd(!s.odd, answers), sent, NextSize(s.size, answers))
  }

  function TurnOf(buffer: Bytes, nad: byte, s: Link, answers: seq<Answer>): Turn
    requires s.sent <= |buffer|
  {
    var sent := SentAfter(|buffer|, s);
    var info := buffer[s.sent..sent];
    var p := PutBit(s.pcb, MORE_BIT, sent < |buffer|);
    var repeated := Block(nad, PutBit(p, SEQUENCE_BIT, !s.odd), info);
    if answers == [] then Turn(Block(nad, p, info), [], [])
    else Turn(Block(nad, p, info), Copies(repeated, |answers[0].errors|), Reply(answers[0].last))
  }

  function Later(answers: seq<Answer>): seq<Answer> {
    if answers == [] then [] else answers[1..]
  }

  function Turns(buffer: Bytes, nad: byte, left: nat, s: Link, answers: seq<Answer>): (r: seq<Turn>)
    requires s.sent <= |buffer|
    ensures |r| == left
  {
    if left == 0 then []
    else [TurnOf(buffer, nad, s, answers)] + Turns(buffer, nad, left - 1, Next(buffer, s, answers), Later(answers))
  }

  /** One answer for every block that expects one: all but those that reach the
      end of the buffer. */
  ghost predicate Suffices(buffer: Bytes, left: nat, s: Link, answers: seq<Answer>)
    requires s.sent <= |buffer|
    decreases left
  {
    if left == 0 then answers == []
    else if SentAfter(|buffer|, s) == |buffer| then answers == []
    else answers != [] && IsAnswer(answers[0]) && Suffices(buffer, left - 1, Next(buffer, s, answers), answers[1..])
  }

  function Start(pcb: byte, blockSize: byte): Link {
    Link(pcb, false, 0, blockSize)
  }

  function Blocks(turns: seq<Turn>): seq<Block> {
    if turns == [] then [] else turns[0].Blocks() + Blocks(turns[1..])
  }

  // ---------- The firmware sends these turns ----------

  lemma FirstBlockIsRead(prev: Tpdu, b: Block, rest: Bytes)
    requires b.nad != 0xFF
    ensures var rx := Frame(b.nad, b.pcb, b.info) + rest;
      var (code, recv, rx') := ReadOf(prev, rx);
      && rx != [] && code.Complete? && rx' == rest && PpsEcho(rx) == []
      && recv.nad == b.nad && recv.pcb == b.pcb && recv.Info() == b.info
  {
    ReadInvertsWrite(prev, b.nad, b.pcb, b.info, rest);
  }

  lemma LastIsHandled(resend: Bytes, recv: Tpdu, last: Block, counter: nat, accepted: byte, rest: Bytes)
    requires recv.nad == last.nad && recv.pcb == last.pcb && recv.Info() == last.info
    requires !IsErrorReport(last) && (last.pcb == IFS_REQUEST ==> last.info != [])
    ensures var h := HandleResponseOf(resend, recv, counter, accepted, rest);
      && !h.stalled && h.rx == rest && h.accepted == SizeAfter(accepted, last) && h.tx == FrameAll(Reply(last))
      && h.counter == if last.pcb == RESYNCH_REQUEST then 0 else counter + Advances(Answer([], last))
  {
    hide Frame, ReadOf, PpsEcho;
    if last.pcb == IFS_REQUEST {
      assert recv.Info()[0] == recv.apdu[0];
    }
    if Reply(last) != [] {
      FrameAllOfOne(Reply(last)[0]);
    }
  }

  lemma FrameAllOfOne(b: Block)
    ensures FrameAll([b]) == Frame(b.nad, b.pcb, b.info)
  {
    assert [b][1..] == [];
  }

  /** Every error report repeats block `b`, and the last block is handled. */
  lemma {:induction false} AnswerIsHandled(b: Block, prev: Tpdu, a: Answer, counter: nat, accepted: byte, rest: Bytes)
    requires IsAnswer(a)
    ensures var rx := AnswerBytes(a) + rest;
      var (code, recv, rx') := ReadOf(prev, rx);
      var h := HandleResponseOf(Frame(b.nad, b.pcb, b.info), recv, counter, accepted, rx');
      && rx != [] && code.Complete? && PpsEcho(rx) == []
      && !h.stalled && h.rx == rest && h.accepted == SizeAfter(accepted, a.last)
      && h.tx == FrameAll(Copies(b, |a.errors|) + Reply(a.last))
      && h.counter == if a.last.pcb == RESYNCH_REQUEST then 0 else counter + Advances(a)
    decreases |a.errors|
  {
    hide Frame, ReadOf, PpsEcho, HandleSBlockOf;
    var rx := AnswerBytes(a) + rest;
    var resend := Frame(b.nad, b.pcb, b.info);
    if a.errors == [] {
      assert rx == Frame(a.last.nad, a.last.pcb, a.last.info) + rest;
      FirstBlockIsRead(prev, a.last, rest);
      LastIsHandled(resend, ReadOf(prev, rx).1, a.last, counter, accepted, rest);
      assert Copies(b, 0) + Reply(a.last) == Reply(a.last);
    } else {
      var e := a.errors[0];
      var a' := Answer(a.errors[1..], a.last);
      var rx1 := AnswerBytes(a') + rest;
      assert rx == Frame(e.nad, e.pcb, e.info) + rx1;
      FirstBlockIsRead(prev, e, rx1);
      var recv := ReadOf(prev, rx).1;
      AnswerIsHandled(b, recv, a', counter + 1, accepted, rest);
      FrameAllOfOne(b);
      FrameAllConcat([b], Copies(b, |a'.errors|) + Reply(a.last));
      assert [b] + (Copies(b, |a'.errors|) + Reply(a.last)) == Copies(b, |a.errors|) + Reply(a.last);
      assert resend + [] == resend;
    }
  }

  function LinkOf(s: Sender): Link {
    Link(s.pcb, s.counter % 2 == 1, s.sent, s.blockSize)
  }

  /** The block that reaches the end of the buffer expects no answer. */
  lemma LastTurn(buffer: Bytes, nad: byte, s: Sender)
    requires s.sent <= |buffer| && SentAfter(|buffer|, LinkOf(s)) == |buffer|
    ensures var it := IterationOf(buffer, nad, s);
      && !it.stalled && it.tx == FrameAll(TurnOf(buffer, nad, LinkOf(s), []).Blocks())
      && LinkOf(it.next) == Next(buffer, LinkOf(s), []) && it.next.rx == s.rx
  {
    hide Frame, FrameAll, ReadOf, PpsEcho, HandleResponseOf, HasBit, PutBit;
    var turn := TurnOf(buffer, nad, LinkOf(s), []);
    FrameAllOfOne(turn.first);
    assert turn.Blocks() == [turn.first];
  }

  lemma AnsweredTurn(buffer: Bytes, nad: byte, s: Sender, answers: seq<Answer>, rest: Bytes)
    requires s.sent <= |buffer| && SentAfter(|buffer|, LinkOf(s)) < |buffer|
    requires answers != [] && IsAnswer(answers[0]) && s.rx == AnswerBytes(answers[0]) + rest
    ensures var it := IterationOf(buffer, nad, s);
      && !it.stalled && it.tx == FrameAll(TurnOf(buffer, nad, LinkOf(s), answers).Blocks())
      && LinkOf(it.next) == Next(buffer, LinkOf(s), answers) && it.next.rx == rest
  {
    hide Frame, FrameAll, ReadOf, PpsEcho, HandleResponseOf, HasBit, PutBit, AnswerBytes, IsAnswer, Reply, Copies, SizeAfter;
    var turn := TurnOf(buffer, nad, LinkOf(s), answers);
    var a := answers[0];
    var counter := (s.counter + 1) % 2;
    var repeated := turn.first.(pcb := PutBit(turn.first.pcb, SEQUENCE_BIT, counter == 1));
    AnswerIsHandled(repeated, s.recv, a, counter, s.blockSize, rest);
    FrameAllOfOne(turn.first);
    FrameAllConcat([turn.first], turn.repeats + turn.reply);
    assert turn.Blocks() == [turn.first] + (turn.repeats + turn.reply);
    var frame := Frame(nad, turn.first.pcb, turn.first.info);
    assert frame + [] == frame;
    assert (counter + Advances(a)) % 2 == 1 <==> (counter == 1) != (Advances(a) % 2 == 1);
  }

  lemma SufficesLater(buffer: Bytes, left: nat, s: Link, answers: seq<Answer>)
    requires s.sent <= |buffer| && left > 0 && Suffices(buffer, left, s, answers)
    ensures Suffices(buffer, left - 1, Next(buffer, s, answers), Later(answers))
  {
    hide PutBit, IsAnswer;
  }

  lemma {:induction false} ChainSendsTurns(buffer: Bytes, nad: byte, left: nat, s: Sender, answers: seq<Answer>, rest: Bytes)
    requires s.sent <= |buffer| && Suffices(buffer, left, LinkOf(s), answers)
    requires s.rx == AllAnswers(answers) + rest
    ensures var c := ChainFrom(buffer, nad, left, s);
      && c.finished && c.rx == rest && c.tx == FrameAll(Blocks(Turns(buffer, nad, left, LinkOf(s), answers)))
    decreases left
  {
    hide IterationOf, TurnOf, Next, IsAnswer, AnswerBytes, FrameAll;
    if left == 0 {
      assert FrameAll([]) == [] by { NoFrames(); }
    } else {
      var afterAnswer := AllAnswers(Later(answers)) + rest;
      SufficesLater(buffer, left, LinkOf(s), answers);
      if answers == [] {
        LastTurn(buffer, nad, s);
      } else {
        assert s.rx == AnswerBytes(answers[0]) + afterAnswer;
        AnsweredTurn(buffer, nad, s, answers, afterAnswer);
      }
      ChainSendsTurns(buffer, nad, left - 1, IterationOf(buffer, nad, s).next, Later(answers), rest);
      FrameAllConcat(TurnOf(buffer, nad, LinkOf(s), answers).Blocks(),
                     Blocks(Turns(buffer, nad, left - 1, Next(buffer, LinkOf(s), answers), Later(answers))));
    }
  }

  lemma NoFrames()
    ensures FrameAll([]) == []
  {
  }

  /** The turns of a chain, from the parameters of t1_write_complete_buffer. */
  function TurnsOf(blockSize: byte, nad: byte, pcb: byte, buffer: Bytes, answers: seq<Answer>): seq<Turn>
    requires blockSize >= 1
  {
    Turns(buffer, nad, NumIBlocks(|buffer|, blockSize), Start(pcb, blockSize), answers)
  }

  ghost predicate AnswersChain(blockSize: byte, pcb: byte, buffer: Bytes, answers: seq<Answer>)
    requires blockSize >= 1
  {
    Suffices(buffer, NumIBlocks(|buffer|, blockSize), Start(pcb, blockSize), answers)
  }

  /** Whatever intact answers the peer gives, exactly these turns go out and
      exactly the answers are consumed. */
  lemma AnsweredChain(blockSize: byte, nad: byte, pcb: byte, buffer: Bytes, answers: seq<Answer>, rest: Bytes)
    requires blockSize >= 1 && AnswersChain(blockSize, pcb, buffer, answers)
    ensures var c := ChainOf(blockSize, nad, pcb, buffer, AllAnswers(answers) + rest);
      && c.finished && c.rx == rest && c.tx == FrameAll(Blocks(TurnsOf(blockSize, nad, pcb, buffer, answers)))
  {
    var s := Sender(pcb, 0, 0, blockSize, ZeroTpdu(), AllAnswers(answers) + rest);
    ChainSendsTurns(buffer, nad, NumIBlocks(|buffer|, blockSize), s, answers, rest);
  }

  // ---------- How much of the buffer a chain carries ----------

  /** The sum of the field sizes in force for the first `n` blocks. */
  function Capacity(size: byte, answers: seq<Answer>, n: nat): nat
    decreases n
  {
    if n == 0 then 0 else size + Capacity(NextSize(size, answers), Later(answers), n - 1)
  }

  lemma {:induction false} CapacityGrows(size: byte, answers: seq<Answer>, m: nat, n: nat)
    requires m <= n
    ensures Capacity(size, answers, m) <= Capacity(size, answers, n)
    decreases m
  {
    if m > 0 {
      CapacityGrows(NextSize(size, answers), Later(answers), m - 1, n - 1);
    }
  }

  /** The information fields of all blocks without their repetitions. */
  function Data(turns: seq<Turn>): Bytes {
    if turns == [] then [] else turns[0].first.info + Data(turns[1..])
  }

  function Min(a: nat, b: nat): nat {
    if a <= b then a else b
  }

  lemma {:induction false} DataIsPrefix(buffer: Bytes, nad: byte, left: nat, s: Link, answers: seq<Answer>)
    requires s.sent <= |buffer|
    ensures Data(Turns(buffer, nad, left, s, answers))
         == buffer[s.sent..Min(|buffer|, s.sent + Capacity(s.size, answers, left))]
    decreases left
  {
    hide PutBit, NextSize, NextOdd, TurnOf;
    if left > 0 {
      var next := Next(buffer, s, answers);
      var later := Turns(buffer, nad, left - 1, next, Later(answers));
      DataIsPrefix(buffer, nad, left - 1, next, Later(answers));
      FirstField(buffer, nad, s, answers);
      assert Turns(buffer, nad, left, s, answers) == [TurnOf(buffer, nad, s, answers)] + later;
      var end := Min(|buffer|, next.sent + Capacity(next.size, Later(answers), left - 1));
      assert end == Min(|buffer|, s.sent + Capacity(s.size, answers, left));
      assert buffer[s.sent..next.sent] + buffer[next.sent..end] == buffer[s.sent..end];
    }
  }

  lemma FirstField(buffer: Bytes, nad: byte, s: Link, answers: seq<Answer>)
    requires s.sent <= |buffer|
    ensures TurnOf(buffer, nad, s, answers).first.info == buffer[s.sent..Next(buffer, s, answers).sent]
  {
    hide PutBit, NextSize, NextOdd;
  }

  /** The chaining bit of a block says that the buffer goes on behind it. */
  lemma {:induction false} ChainingBitAt(buffer: Bytes, nad: byte, left: nat, s: Link, answers: seq<Answer>, i: nat)
    requires s.sent <= |buffer| && i < left
    ensures HasBit(Turns(buffer, nad, left, s, answers)[i].first.pcb, MORE_BIT)
       <==> s.sent + Capacity(s.size, answers, i + 1) < |buffer|
  {
    hide HasBit, PutBit, NextSize, NextOdd;
    if i == 0 {
      assert Capacity(s.size, answers, 1) == s.size;
    } else {
      ChainingBitAt(buffer, nad, left - 1, Next(buffer, s, answers), Later(answers), i - 1);
    }
  }

  /** A chain in order: the fields add up to the buffer, and the chaining bit is
      set on all blocks but the last. */
  ghost predicate InOrder(turns: seq<Turn>, buffer: Bytes) {
    && Data(turns) == buffer
    && forall i :: 0 <= i < |turns| ==> (HasBit(turns[i].first.pcb, MORE_BIT) <==> i < |turns| - 1)
  }

  /** The number of blocks is fixed before the loop, although a supervisory
      request may change the field size in mid-chain. The chain is in order iff
      the sizes in force fit this number; otherwise the tail of the buffer is
      lost, or empty blocks follow its end. */
  lemma InOrderIff(blockSize: byte, nad: byte, pcb: byte, buffer: Bytes, answers: seq<Answer>)
    requires blockSize >= 1
    ensures var turns := TurnsOf(blockSize, nad, pcb, buffer, answers);
      var n := NumIBlocks(|buffer|, blockSize);
      && n >= 1
      && Data(turns) == buffer[..Min(|buffer|, Capacity(blockSize, answers, n))]
      && (InOrder(turns, buffer) <==>
           buffer == [] || Capacity(blockSize, answers, n - 1) < |buffer| <= Capacity(blockSize, answers, n))
  {
    hide HasBit, Turns, Data, Capacity;
    var turns := TurnsOf(blockSize, nad, pcb, buffer, answers);
    var n := NumIBlocks(|buffer|, blockSize);
    BlockCount(buffer, blockSize);
    DataIsPrefix(buffer, nad, n, Start(pcb, blockSize), answers);
    forall i | 0 <= i < n
      ensures HasBit(turns[i].first.pcb, MORE_BIT) <==> Capacity(blockSize, answers, i + 1) < |buffer|
    {
      ChainingBitAt(buffer, nad, n, Start(pcb, blockSize), answers, i);
    }
    if Capacity(blockSize, answers, n - 1) < |buffer| <= Capacity(blockSize, answers, n) {
      forall i | 0 <= i < n ensures HasBit(turns[i].first.pcb, MORE_BIT) <==> i < n - 1 {
        if i < n - 1 {
          CapacityGrows(blockSize, answers, i + 1, n - 1);
        }
      }
    }
    if InOrder(turns, buffer) && n > 1 {
      assert HasBit(turns[n - 2].first.pcb, MORE_BIT);
    }
    NoCapacity(blockSize, answers);
  }

  lemma NoCapacity(size: byte, answers: seq<Answer>)
    ensures Capacity(size, answers, 0) == 0
  {
  }

  // ---------- Sequence numbers ----------

  /** Whether the counter is odd when block `i` begins. */
  function OddAt(odd: bool, answers: seq<Answer>, i: nat): bool
    decreases i
  {
    if i == 0 then odd else OddAt(NextOdd(!odd, answers), Later(answers), i - 1)
  }

  lemma {:induction false} OddAtNext(odd: bool, answers: seq<Answer>, i: nat)
    ensures OddAt(odd, answers, i + 1)
         == NextOdd(!OddAt(odd, answers, i), if i <= |answers| then answers[i..] else [])
    decreases i
  {
    hide NextOdd;
    if i == 0 {
      assert OddAt(odd, answers, 1) == OddAt(NextOdd(!odd, answers), Later(answers), 0);
      assert answers[0..] == answers;
    } else {
      OddAtNext(NextOdd(!odd, answers), Later(answers), i - 1);
      assert i <= |answers| ==> answers[i..] == Later(answers)[i - 1..];
    }
  }

  /** Block `i` goes out first with the number left by its predecessor and is
      repeated with the number meant for its successor. */
  lemma {:induction false} NumbersOfTurn(buffer: Bytes, nad: byte, left: nat, s: Link, answers: seq<Answer>, i: nat)
    requires s.sent <= |buffer| && i < left
    ensures var t := Turns(buffer, nad, left, s, answers)[i];
      && HasBit(t.first.pcb, SEQUENCE_BIT)
         == (if i == 0 then HasBit(s.pcb, SEQUENCE_BIT) else !OddAt(s.odd, answers, i - 1))
      && (forall k :: 0 <= k < |t.repeats| ==>
           t.repeats[k] == t.first.(pcb := PutBit(t.first.pcb, SEQUENCE_BIT, !OddAt(s.odd, answers, i))))
  {
    hide HasBit, PutBit, NextSize, NextOdd, OtherBits;
    var turn := TurnOf(buffer, nad, s, answers);
    var next := Next(buffer, s, answers);
    assert Turns(buffer, nad, left, s, answers) == [turn] + Turns(buffer, nad, left - 1, next, Later(answers));
    if i == 0 {
      ChainingBitIsIndependent(s.pcb, SentAfter(|buffer|, s) < |buffer|);
    } else {
      NumbersOfTurn(buffer, nad, left - 1, next, Later(answers), i - 1);
    }
  }

  /** Whether block `i` is repeated as it was first sent. The first block: iff it
      carries the number 1. A later block: iff the answer to the block before it
      held an odd number of error reports and confirmed requests, or was a
      resynchronisation that the counter met on an even value. */
  function RepeatsKeepNumber(first: bool, answers: seq<Answer>, i: nat): bool {
    if i == 0 then first
    else if i > |answers| then false
    else if answers[i - 1].last.pcb == RESYNCH_REQUEST then !OddAt(false, answers, i - 1)
    else Advances(answers[i - 1]) % 2 == 1
  }

  lemma KeepsNumberIff(first: bool, answers: seq<Answer>, i: nat)
    ensures (if i == 0 then first else !OddAt(false, answers, i - 1)) == !OddAt(false, answers, i)
       <==> RepeatsKeepNumber(first, answers, i)
  {
    if i > 0 {
      OddAtNext(false, answers, i - 1);
    }
  }

  /** A repeated block is the block first sent iff the peer's earlier answers have
      moved the counter accordingly. */
  lemma RepeatIsSameIff(blockSize: byte, nad: byte, pcb: byte, buffer: Bytes, answers: seq<Answer>, i: nat, k: nat)
    requires blockSize >= 1 && i < NumIBlocks(|buffer|, blockSize)
    requires k < |TurnsOf(blockSize, nad, pcb, buffer, answers)[i].repeats|
    ensures var t := TurnsOf(blockSize, nad, pcb, buffer, answers)[i];
      t.repeats[k] == t.first <==> RepeatsKeepNumber(HasBit(pcb, SEQUENCE_BIT), answers, i)
  {
    hide HasBit, PutBit, Turns, OtherBits, NumIBlocks, RepeatsKeepNumber;
    var t := TurnsOf(blockSize, nad, pcb, buffer, answers)[i];
    var bit := !OddAt(false, answers, i);
    NumbersOfTurn(buffer, nad, NumIBlocks(|buffer|, blockSize), Start(pcb, blockSize), answers, i);
    KeepsNumberIff(HasBit(pcb, SEQUENCE_BIT), answers, i);
    SequenceBitIsIndependent(t.first.pcb, bit);
    if HasBit(t.first.pcb, SEQUENCE_BIT) == bit {
      SameBits(t.first.pcb, t.repeats[k].pcb);
    }
  }

  /** Neighbouring blocks carry different numbers iff the first of them would not
      be repeated as it was first sent. */
  lemma NumbersAlternateIff(blockSize: byte, nad: byte, pcb: byte, buffer: Bytes, answers: seq<Answer>, i: nat)
    requires blockSize >= 1 && i + 1 < NumIBlocks(|buffer|, blockSize)
    ensures var turns := TurnsOf(blockSize, nad, pcb, buffer, answers);
      HasBit(turns[i].first.pcb, SEQUENCE_BIT) != HasBit(turns[i + 1].first.pcb, SEQUENCE_BIT)
      <==> !RepeatsKeepNumber(HasBit(pcb, SEQUENCE_BIT), answers, i)
  {
    hide HasBit, Turns, NumIBlocks, RepeatsKeepNumber;
    var n := NumIBlocks(|buffer|, blockSize);
    NumbersOfTurn(buffer, nad, n, Start(pcb, blockSize), answers, i);
    NumbersOfTurn(buffer, nad, n, Start(pcb, blockSize), answers, i + 1);
    KeepsNumberIff(HasBit(pcb, SEQUENCE_BIT), answers, i);
  }

  // ---------- Inputs on which a chain goes wrong ----------

  const ACK := Answer([], Block(0, 0x80, []))
  const REPORTED_ONCE := Answer([Block(0, 0x81, [])], Block(0, 0x80, []))

  function SizeRequest(size: byte): Answer {
    Answer([], Block(0, IFS_REQUEST, [size]))
  }

  /** Three blocks, the first with number 0, the first two reported once each: the
      first is repeated under another number, the second as it was. */
  lemma SecondRepeatIsSame()
    ensures var answers := [REPORTED_ONCE, REPORTED_ONCE];
      var turns := TurnsOf(1, 0, 0, [1, 2, 3], answers);
      && AnswersChain(1, 0, [1, 2, 3], answers)
      && |turns[0].repeats| == 1 && turns[0].repeats[0] != turns[0].first
      && |turns[1].repeats| == 1 && turns[1].repeats[0] == turns[1].first
  {
    hide HasBit, PutBit;
    var answers := [REPORTED_ONCE, REPORTED_ONCE];
    assert answers[1..] == [REPORTED_ONCE] && [REPORTED_ONCE][1..] == [];
    assert !HasBit(0, SEQUENCE_BIT) by { ZeroMeansNoBits(0); }
    var start := Start(0, 1);
    var second := Next([1, 2, 3], start, answers);
    assert Turns([1, 2, 3], 0, 3, start, answers)[1] == Turns([1, 2, 3], 0, 2, second, [REPORTED_ONCE])[0];
    RepeatIsSameIff(1, 0, 0, [1, 2, 3], answers, 0, 0);
    RepeatIsSameIff(1, 0, 0, [1, 2, 3], answers, 1, 0);
  }

  /** Four bytes in blocks of two, and the peer asks for blocks of one after the
      first: the last byte is never sent. */
  lemma LoweredSizeLosesTail()
    ensures var answers := [SizeRequest(1), ACK];
      && AnswersChain(2, 0, [1, 2, 3, 4], answers)
      && Data(TurnsOf(2, 0, 0, [1, 2, 3, 4], answers)) == [1, 2, 3]
  {
    hide HasBit, PutBit;
    var answers := [SizeRequest(1), ACK];
    assert answers[1..] == [ACK] && [ACK][1..] == [];
    assert Capacity(1, [ACK], 1) == 1 && Capacity(2, answers, 2) == 3;
    InOrderIff(2, 0, 0, [1, 2, 3, 4], answers);
  }

  /** Three bytes in blocks of one, and the peer asks for blocks of two after the
      first: an empty block follows the end of the buffer. */
  lemma RaisedSizeAppendsBlock()
    ensures var answers := [SizeRequest(2)];
      var turns := TurnsOf(1, 0, 0, [1, 2, 3], answers);
      && AnswersChain(1, 0, [1, 2, 3], answers)
      && Data(turns) == [1, 2, 3] && |turns| == 3 && turns[2].first.info == [] && !InOrder(turns, [1, 2, 3])
  {
    hide HasBit, PutBit, Data;
    var answers := [SizeRequest(2)];
    assert answers[1..] == [];
    assert Capacity(2, [], 1) == 2 && Capacity(1, answers, 2) == 3;
    CapacityGrows(1, answers, 2, 3);
    InOrderIff(1, 0, 0, [1, 2, 3], answers);
  }
}

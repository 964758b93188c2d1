/** The buffered streams of moatt_clients/streams.py over a socket that cuts the
    byte stream into arbitrary chunks. */
module Streams {
  import opened Bytes
  import opened Codec

  // ---------- Specification: what a reader does to the bytes still to come ----------

  datatype ReadResult<+T> = Done(value: T) | EofError | DecodeError

  /** `read_message` as a function of the bytes still to come: `taken` is what it
      has already moved into its local buffer. */
  function ReadMessageFrom<T>(decode: Bytes -> Decoded<T>, taken: Bytes, pending: Bytes): (r: (ReadResult<T>, Bytes))
    ensures |r.1| <= |pending|
    decreases |pending|
  {
    match decode(taken)
    case Message(m) => (Done(m), pending)
    case Rejected => (DecodeError, pending)
    case PartialInput(n) =>
      if n == 0 || n > |pending| then (EofError, pending)
      else ReadMessageFrom(decode, taken + pending[..n], pending[n..])
  }

  function ReadMessageOf<T>(decode: Bytes -> Decoded<T>, pending: Bytes): (ReadResult<T>, Bytes) {
    ReadMessageFrom(decode, [], pending)
  }

  datatype RecvResult = Packet(packet: ApduPacket) | EndOfStream | TruncatedPacket | MalformedPacket

  /** `ApduStream.recv` as a function of the bytes still to come. */
  function RecvOf(pending: Bytes): (r: (RecvResult, Bytes))
    ensures r.0.Packet? ==> |r.1| < |pending|
  {
    if pending == [] then (EndOfStream, [])
    else if |pending| < 6 then (TruncatedPacket, [])
    else
      var len := 6 + Unpack(pending[2..6]);
      if |pending| < len then (TruncatedPacket, [])
      else
        match DecodeApdu(pending[..len])
        case Message(p) => (Packet(p), pending[len..])
        case _ => (MalformedPacket, pending[len..])
  }

  /** The packets that successive calls of `recv` return, and the first result
      that is not a packet. */
  function RecvAllOf(pending: Bytes): (r: (seq<ApduPacket>, RecvResult))
    ensures !r.1.Packet?
    decreases |pending|
  {
    var (res, rest) := RecvOf(pending);
    if res.Packet? then
      var (ps, end) := RecvAllOf(rest);
      ([res.packet] + ps, end)
    else ([], res)
  }

  /** What a peer puts on the wire for a sequence of packets. */
  function EncodeAll(ps: seq<ApduPacket>): Bytes {
    if ps == [] then [] else EncodeApdu(ps[0]).value + EncodeAll(ps[1..])
  }

  // ---------- The socket and the two streams ----------

  /** The network end of a connection. `incoming` holds the chunks that successive
      calls of `recv(1024)` will return; when none is left the peer has closed. */
  class Socket {
    var incoming: seq<Bytes>
    var sent: Bytes

    ghost predicate Valid()
      reads this
    {
      forall i :: 0 <= i < |incoming| ==> 1 <= |incoming[i]| <= 1024
    }

    constructor (chunks: seq<Bytes>)
      requires forall i :: 0 <= i < |chunks| ==> 1 <= |chunks[i]| <= 1024
      ensures Valid() && incoming == chunks && sent == []
    {
      incoming, sent := chunks, [];
    }

    method Recv() returns (chunk: Bytes)
      requires Valid()
      modifies this`incoming
      ensures Valid()
      ensures old(incoming) == [] ==> chunk == [] && incoming == []
      ensures old(incoming) != [] ==> chunk == old(incoming)[0] && incoming == old(incoming)[1..]
    {
      if incoming == [] {
        chunk := [];
      } else {
        chunk, incoming := incoming[0], incoming[1..];
      }
    }

    method SendAll(bs: Bytes)
      modifies this`sent
      ensures sent == old(sent) + bs
    {
      sent := sent + bs;
    }
  }

  class RawStream {
    const socket: Socket
    var buf: Bytes

    constructor (socket: Socket)
      ensures this.socket == socket && buf == []
    {
      this.socket := socket;
      buf := [];
    }

    ghost predicate Valid()
      reads this, socket
    {
      socket.Valid()
    }

    /** Every byte the peer has sent that no reader has taken yet, however much
        of it already sits in the buffer. */
    ghost function Pending(): Bytes
      reads this, socket
    {
      buf + Flatten(socket.incoming)
    }

    static lemma SplitPending(buf: Bytes, later: Bytes, k: nat)
      requires k <= |buf|
      ensures buf + later == buf[..k] + (buf[k..] + later)
    {
      assert buf == buf[..k] + buf[k..];
    }

    method WriteAll(bs: Bytes)
      requires Valid()
      modifies socket`sent
      ensures socket.sent == old(socket.sent) + bs
    {
      socket.SendAll(bs);
    }

    method FillBuf() returns (more: bool)
      requires Valid()
      modifies this`buf, socket`incoming
      ensures Valid() && Pending() == old(Pending())
      ensures more <==> old(socket.incoming) != []
      ensures more ==> |buf| > old(|buf|) && |socket.incoming| == old(|socket.incoming|) - 1
      ensures !more ==> buf == old(buf) && socket.incoming == []
    {
      var b := socket.Recv();
      if |b| == 0 {
        more := false;
      } else {
        buf := buf + b;
        more := true;
        assert old(buf) + (b + Flatten(socket.incoming)) == buf + Flatten(socket.incoming);
      }
    }

    method ReadExactly(n: nat) returns (r: ReadResult<Bytes>)
      requires Valid()
      modifies this`buf, socket`incoming
      ensures Valid()
      ensures n <= |old(Pending())| ==> r == Done(old(Pending())[..n]) && Pending() == old(Pending())[n..]
      ensures n > |old(Pending())| ==> r == EofError && Pending() == old(Pending())
    {
      while true
        invariant Valid() && Pending() == old(Pending())
        decreases |socket.incoming|
      {
        if |buf| >= n {
          ghost var before := Pending();
          var b := buf[..n];
          buf := buf[n..];
          assert before[..n] == b && before[n..] == Pending();
          return Done(b);
        }
        var more := FillBuf();
        if !more {
          return EofError;
        }
      }
    }

    /** `read(n)`; `n == -1` takes whatever one refill left in the buffer. */
    method Read(n: int) returns (b: Bytes)
      requires Valid()
      requires n >= -1
      modifies this`buf, socket`incoming
      ensures Valid()
      ensures old(Pending()) == b + Pending()
      ensures n != -1 ==> |b| <= n
      ensures n != 0 ==> (b == [] <==> old(Pending()) == [])
    {
      if |buf| == 0 {
        var _ := FillBuf();
      }
      assert buf == [] ==> Pending() == [];
      if n == -1 {
        b := buf;
        buf := [];
      } else {
        var k := if n <= |buf| then n else |buf|;
        b := buf[..k];
        SplitPending(buf, Flatten(socket.incoming), k);
        buf := buf[k..];
      }
    }

    method ReadMessage<T>(decode: Bytes -> Decoded<T>) returns (r: ReadResult<T>)
      requires Valid()
      modifies this`buf, socket`incoming
      ensures Valid()
      ensures (r, Pending()) == ReadMessageOf(decode, old(Pending()))
    {
      var msg: Bytes := [];
      while true
        invariant Valid() && |Pending()| <= |old(Pending())|
        invariant ReadMessageFrom(decode, msg, Pending()) == ReadMessageOf(decode, old(Pending()))
        decreases |Pending()|
      {
        match decode(msg)
        case Message(m) => return Done(m);
        case Rejected => return DecodeError;
        case PartialInput(n) =>
          var part := ReadExactly(n);
          if part.EofError? || |part.value| == 0 {
            return EofError;
          }
          msg := msg + part.value;
      }
    }
  }

  class ApduStream {
    const stream: RawStream

    constructor (stream: RawStream)
      ensures this.stream == stream
    {
      this.stream := stream;
    }

    method Send(packet: ApduPacket)
      requires stream.Valid()
      modifies stream.socket`sent
      ensures stream.socket.sent == old(stream.socket.sent) + EncodeAll([packet])
    {
      stream.WriteAll(EncodeApdu(packet).value);
    }

    static function BytesMissing(msg: Bytes): nat {
      if |msg| < 6 then 6 - |msg|
      else if |msg| < 6 + Unpack(msg[2..6]) then 6 + Unpack(msg[2..6]) - |msg|
      else 0
    }

    static lemma SplitAll(all: Bytes, msg: Bytes, rest: Bytes)
      requires |msg| >= 6 && all == msg + rest
      ensures all[2..6] == msg[2..6] && all[..|msg|] == msg && all[|msg|..] == rest
    {
    }

    method Recv() returns (r: RecvResult)
      requires stream.Valid()
      modifies stream`buf, stream.socket`incoming
      ensures stream.Valid()
      ensures (r, stream.Pending()) == RecvOf(old(stream.Pending()))
    {
      ghost var all := stream.Pending();
      var msg := stream.Read(6);
      if |msg| == 0 {
        return EndOfStream;
      }
      var missing := BytesMissing(msg);
      while missing > 0
        invariant stream.Valid() && all == msg + stream.Pending() && msg != []
        invariant missing == BytesMissing(msg)
        invariant |msg| <= 6 || |msg| <= 6 + Unpack(msg[2..6])
        decreases |stream.Pending()|
      {
        ghost var had := msg;
        ghost var before := stream.Pending();
        var part := stream.Read(missing);
        if |part| == 0 {
          assert all == msg;
          return TruncatedPacket;
        }
        msg := msg + part;
        assert all == msg + stream.Pending();
        if |had| >= 6 {
          assert msg[2..6] == had[2..6];
        }
        missing := BytesMissing(msg);
      }
      assert |msg| == 6 + Unpack(msg[2..6]);
      SplitAll(all, msg, stream.Pending());
      match DecodeApdu(msg)
      case Message(p) => return Packet(p);
      case _ => return MalformedPacket;
    }
  }

  // ---------- Fragmentation is invisible ----------

  lemma EncodeAllSplits(p: ApduPacket, ps: seq<ApduPacket>)
    ensures EncodeAll([p] + ps) == EncodeApdu(p).value + EncodeAll(ps)
  {
    assert ([p] + ps)[1..] == ps;
  }

  lemma RecvTakesOnePacket(p: ApduPacket, rest: Bytes)
    ensures RecvOf(EncodeApdu(p).value + rest) == (Packet(p), rest)
  {
    var e := EncodeApdu(p).value;
    var all := e + rest;
    ApduHeader(p);
    assert all[2..6] == e[2..6];
    assert all[..|e|] == e && all[|e|..] == rest;
    ApduPacketCodec();
    assert DecodeApdu(e) == Message(p);
  }

  lemma TruncatedIsNoticed(p: ApduPacket, k: nat)
    requires 0 < k < |EncodeApdu(p).value|
    ensures RecvOf(EncodeApdu(p).value[..k]) == (TruncatedPacket, [])
  {
    var e := EncodeApdu(p).value;
    ApduHeader(p);
    if k >= 6 {
      assert e[..k][2..6] == e[2..6];
    }
  }

  lemma OneMoreReceived(p: ApduPacket, rest: Bytes)
    ensures var (later, end) := RecvAllOf(rest); RecvAllOf(EncodeApdu(p).value + rest) == ([p] + later, end)
  {
    hide RecvOf;
    RecvTakesOnePacket(p, rest);
  }

  lemma EncodeFirst(ps: seq<ApduPacket>, tail: Bytes)
    requires ps != []
    ensures EncodeAll(ps) + tail == EncodeApdu(ps[0]).value + (EncodeAll(ps[1..]) + tail)
  {
    hide Pack;
  }

  lemma HeadAgain(ps: seq<ApduPacket>, later: seq<ApduPacket>)
    requires ps != []
    ensures [ps[0]] + (ps[1..] + later) == ps + later
  {
  }

  lemma NothingSent(tail: Bytes)
    ensures EncodeAll([]) + tail == tail
  {
  }

  /** Whatever comes behind them: encoded packets are received first, in order. */
  lemma {:induction false} ReceivedBefore(ps: seq<ApduPacket>, tail: Bytes)
    ensures RecvAllOf(EncodeAll(ps) + tail) == (ps + RecvAllOf(tail).0, RecvAllOf(tail).1)
  {
    hide RecvAllOf, EncodeAll, EncodeApdu;
    var later := RecvAllOf(tail).0;
    if ps == [] {
      NothingSent(tail);
      assert ps + later == later;
    } else {
      var rest := EncodeAll(ps[1..]) + tail;
      ReceivedBefore(ps[1..], tail);
      OneMoreReceived(ps[0], rest);
      EncodeFirst(ps, tail);
      HeadAgain(ps, later);
    }
  }

  /** What was sent is what is received: the packets in order, then end of stream,
      or, when the peer stopped inside packet `p` after `k` bytes, the packets
      before it and then the error for a partial packet. */
  lemma ReceivedAsSent(ps: seq<ApduPacket>, p: ApduPacket, k: nat)
    requires k < |EncodeApdu(p).value|
    ensures RecvAllOf(EncodeAll(ps) + EncodeApdu(p).value[..k])
         == (ps, if k == 0 then EndOfStream else TruncatedPacket)
  {
    var tail := EncodeApdu(p).value[..k];
    ReceivedBefore(ps, tail);
    if k > 0 {
      TruncatedIsNoticed(p, k);
    }
    assert RecvAllOf(tail).0 == [] && ps + [] == ps;
  }

  lemma RecvConsumesAnEncoding(pending: Bytes)
    requires RecvOf(pending).0.Packet?
    ensures pending == EncodeApdu(RecvOf(pending).0.packet).value + RecvOf(pending).1
  {
    ApduPacketCodec();
    var len := 6 + Unpack(pending[2..6]);
    assert DecodeApdu(pending[..len]).Message?;
    assert EncodeApdu(DecodeApdu(pending[..len]).value) == Some(pending[..len]);
  }

  /** Nothing is invented: a receiver that sees `ps` and then a clean end of
      stream was sent exactly `ps`. */
  lemma {:induction false} CleanEndIff(pending: Bytes, ps: seq<ApduPacket>)
    ensures RecvAllOf(pending) == (ps, EndOfStream) <==> pending == EncodeAll(ps)
  {
    if pending == EncodeAll(ps) {
      var p := ApduPacket(Reset, []);
      ReceivedAsSent(ps, p, 0);
      assert EncodeAll(ps) + EncodeApdu(p).value[..0] == pending;
    }
    if RecvAllOf(pending) == (ps, EndOfStream) {
      CleanEndMeansSent(pending);
    }
  }

  lemma {:induction false} CleanEndMeansSent(pending: Bytes)
    requires RecvAllOf(pending).1 == EndOfStream
    ensures pending == EncodeAll(RecvAllOf(pending).0)
    decreases |pending|
  {
    var (res, rest) := RecvOf(pending);
    if res.Packet? {
      RecvConsumesAnEncoding(pending);
      CleanEndMeansSent(rest);
      EncodeAllSplits(res.packet, RecvAllOf(rest).0);
    }
  }

  // ---------- read_message takes one message and no byte more ----------

  /** `read_message` on a stream that starts with an encoded message returns that
      message and leaves the stream at its end. */
  lemma {:induction false} ReadMessageFromTakesOne<T(!new)>(
      decode: Bytes -> Decoded<T>, encode: T -> Option<Bytes>, m: T, k: nat, rest: Bytes)
    requires IsCodec(decode, encode) && encode(m).Some? && k <= |encode(m).value|
    ensures ReadMessageFrom(decode, encode(m).value[..k], encode(m).value[k..] + rest) == (Done(m), rest)
    decreases |encode(m).value| - k
  {
    var e := encode(m).value;
    assert decode(e) == Message(m);
    if k == |e| {
      assert e[..k] == e && e[k..] + rest == rest;
    } else {
      var n := decode(e[..k]).missing;
      var pending := e[k..] + rest;
      assert 1 <= n <= |e| - k;
      assert e[..k] + pending[..n] == e[..k + n];
      assert pending[n..] == e[k + n..] + rest;
      ReadMessageFromTakesOne(decode, encode, m, k + n, rest);
    }
  }

  lemma ReadMessageTakesOne<T(!new)>(decode: Bytes -> Decoded<T>, encode: T -> Option<Bytes>, m: T, rest: Bytes)
    requires IsCodec(decode, encode) && encode(m).Some?
    ensures ReadMessageOf(decode, encode(m).value + rest) == (Done(m), rest)
  {
    ReadMessageFromTakesOne(decode, encode, m, 0, rest);
    assert encode(m).value[..0] == [] && encode(m).value[0..] == encode(m).value;
  }

  /** A message that breaks off is reported as the end of the stream. */
  lemma {:induction false} ReadMessageTruncated<T(!new)>(
      decode: Bytes -> Decoded<T>, encode: T -> Option<Bytes>, m: T, j: nat, k: nat)
    requires IsCodec(decode, encode) && encode(m).Some? && j <= k < |encode(m).value|
    ensures ReadMessageFrom(decode, encode(m).value[..j], encode(m).value[j..k]).0 == EofError
    decreases k - j
  {
    var e := encode(m).value;
    var n := decode(e[..j]).missing;
    var pending := e[j..k];
    assert n >= 1;
    if n <= |pending| {
      assert e[..j] + pending[..n] == e[..j + n] && pending[n..] == e[j + n..k];
      ReadMessageTruncated(decode, encode, m, j + n, k);
    }
  }

  /** Conversely, whatever `read_message` returns is what its bytes encode. */
  lemma {:induction false} ReadMessageFromConsumes<T(!new)>(
      decode: Bytes -> Decoded<T>, encode: T -> Option<Bytes>, taken: Bytes, pending: Bytes)
    requires Bijective(decode, encode)
    requires ReadMessageFrom(decode, taken, pending).0.Done?
    ensures var (r, rest) := ReadMessageFrom(decode, taken, pending);
      encode(r.value).Some? && taken + pending == encode(r.value).value + rest
    decreases |pending|
  {
    match decode(taken)
    case Message(m) => assert encode(decode(taken).value) == Some(taken);
    case Rejected =>
    case PartialInput(n) =>
      ReadMessageFromConsumes(decode, encode, taken + pending[..n], pending[n..]);
      assert taken + pending == (taken + pending[..n]) + pending[n..];
  }

  /** A reader gets message `m` and stops at `rest` iff the peer sent `m` followed by `rest`. */
  lemma ReadMessageIff<T(!new)>(
      decode: Bytes -> Decoded<T>, encode: T -> Option<Bytes>, pending: Bytes, m: T, rest: Bytes)
    requires IsCodec(decode, encode)
    ensures ReadMessageOf(decode, pending) == (Done(m), rest)
       <==> encode(m).Some? && pending == encode(m).value + rest
  {
    if encode(m).Some? && pending == encode(m).value + rest {
      ReadMessageTakesOne(decode, encode, m, rest);
    }
    if ReadMessageOf(decode, pending) == (Done(m), rest) {
      ReadMessageFromConsumes(decode, encode, [], pending);
      assert [] + pending == pending;
    }
  }

  /** How often `read_message` refills its buffer. */
  function Refills<T>(decode: Bytes -> Decoded<T>, taken: Bytes, pending: Bytes): nat
    decreases |pending|
  {
    match decode(taken)
    case PartialInput(n) =>
      if n == 0 || n > |pending| then 0
      else 1 + Refills(decode, taken + pending[..n], pending[n..])
    case _ => 0
  }

  lemma AtMostTwoRefills<T(!new)>(decode: Bytes -> Decoded<T>, pending: Bytes)
    requires AsksAtMostTwice(decode)
    ensures Refills(decode, [], pending) <= 2
  {
    var h := decode([]).missing;
    if 0 < h <= |pending| {
      var a := pending[..h];
      assert [] + a == a;
      if decode(a).PartialInput? && 0 < decode(a).missing <= |pending| - h {
        var k := decode(a).missing;
        assert !decode(a + pending[h..][..k]).PartialInput?;
        assert Refills(decode, a + pending[h..][..k], pending[h..][k..]) == 0;
      }
      assert Refills(decode, a, pending[h..]) <= 1;
    }
  }

  /** The two read loops agree on every stream: one of them returns a packet iff
      the other does, and then it is the same packet and the same rest. */
  lemma RecvAgreesWithReadMessage(pending: Bytes, p: ApduPacket, rest: Bytes)
    ensures RecvOf(pending) == (Packet(p), rest) <==> ReadMessageOf(DecodeApdu, pending) == (Done(p), rest)
  {
    ApduPacketCodec();
    ReadMessageIff(DecodeApdu, EncodeApdu, pending, p, rest);
    if RecvOf(pending) == (Packet(p), rest) {
      RecvConsumesAnEncoding(pending);
    }
    if pending == EncodeApdu(p).value + rest {
      RecvTakesOnePacket(p, rest);
    }
  }
}

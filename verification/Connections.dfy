/** Whole connections over an arbitrarily cut socket: the handshake, then the
    loops that use the APDU stream, `maintain_connection` of a provider
    (simprovider/tunnel/sim_tunnel.py) and `handle_apdu_indirect` of a probe
    (probe/tunnel/modem_tunnel.py). */
module Connections {
  import opened Bytes
  import opened Codec
  import opened Streams
  import opened Clients

  /** A SIM card: its response to the last of the packets it has received. */
  type SimCard = seq<ApduPacket> -> Payload

  function Responses(card: SimCard, ps: seq<ApduPacket>): seq<ApduPacket> {
    if ps == [] then [] else Responses(card, ps[..|ps| - 1]) + [ApduPacket(Apdu, card(ps))]
  }

  /** One packet with an APDU for each packet received, in order. */
  lemma {:induction false} ResponsesAt(card: SimCard, ps: seq<ApduPacket>, i: nat)
    requires i < |ps|
    ensures |Responses(card, ps)| == |ps|
    ensures Responses(card, ps)[i].op == Apdu && Responses(card, ps)[i].payload == card(ps[..i + 1])
    decreases |ps|
  {
    var n := |ps| - 1;
    ResponsesLength(card, ps);
    ResponsesLength(card, ps[..n]);
    if i < n {
      ResponsesAt(card, ps[..n], i);
      assert ps[..n][..i + 1] == ps[..i + 1];
    } else {
      assert ps[..n + 1] == ps;
    }
  }

  lemma {:induction false} ResponsesLength(card: SimCard, ps: seq<ApduPacket>)
    ensures |Responses(card, ps)| == |ps|
    decreases |ps|
  {
    if ps != [] {
      ResponsesLength(card, ps[..|ps| - 1]);
    }
  }

  lemma {:induction false} EncodeAllConcat(a: seq<ApduPacket>, b: seq<ApduPacket>)
    ensures EncodeAll(a + b) == EncodeAll(a) + EncodeAll(b)
  {
    hide EncodeApdu;
    if a == [] {
      assert a + b == b;
    } else {
      assert (a + b)[1..] == a[1..] + b;
      EncodeAllConcat(a[1..], b);
    }
  }

  /** What a reader has received once it goes on from `received`. */
  ghost function GoingOn(received: seq<ApduPacket>, pending: Bytes): (seq<ApduPacket>, RecvResult) {
    (received + RecvAllOf(pending).0, RecvAllOf(pending).1)
  }

  lemma GoOn(received: seq<ApduPacket>, pending: Bytes)
    ensures GoingOn([], pending) == RecvAllOf(pending)
    ensures var (r, rest) := RecvOf(pending);
      GoingOn(received, pending) == if r.Packet? then GoingOn(received + [r.packet], rest) else (received, r)
  {
    hide RecvOf;
    assert [] + RecvAllOf(pending).0 == RecvAllOf(pending).0;
    var (r, rest) := RecvOf(pending);
    if r.Packet? {
      assert received + ([r.packet] + RecvAllOf(rest).0) == (received + [r.packet]) + RecvAllOf(rest).0;
    } else {
      assert received + [] == received;
    }
  }

  lemma OneMoreResponse(card: SimCard, received: seq<ApduPacket>, p: ApduPacket)
    ensures var response := ApduPacket(Apdu, card(received + [p]));
      EncodeAll(Responses(card, received + [p])) == EncodeAll(Responses(card, received)) + EncodeAll([response])
  {
    hide EncodeAll;
    assert (received + [p])[..|received|] == received;
    EncodeAllConcat(Responses(card, received), [ApduPacket(Apdu, card(received + [p]))]);
  }

  /** Receives and answers packets until the peer closes or an error is raised. */
  method MaintainConnection(apdus: ApduStream, card: SimCard) returns (received: seq<ApduPacket>, end: RecvResult)
    requires apdus.stream.Valid()
    modifies apdus.stream`buf, apdus.stream.socket
    ensures apdus.stream.Valid()
    ensures (received, end) == RecvAllOf(old(apdus.stream.Pending()))
    ensures apdus.stream.socket.sent == old(apdus.stream.socket.sent) + EncodeAll(Responses(card, received))
  {
    hide RecvOf, RecvAllOf, EncodeAll, Responses, GoingOn;
    ghost var all := RecvAllOf(apdus.stream.Pending());
    received, end := [], EndOfStream;
    GoOn([], apdus.stream.Pending());
    NoResponses(card);
    while true
      invariant apdus.stream.Valid() && GoingOn(received, apdus.stream.Pending()) == all
      invariant apdus.stream.socket.sent == old(apdus.stream.socket.sent) + EncodeAll(Responses(card, received))
      decreases |apdus.stream.Pending()|
    {
      GoOn(received, apdus.stream.Pending());
      end := apdus.Recv();
      if !end.Packet? {
        return;
      }
      OneMoreResponse(card, received, end.packet);
      received := received + [end.packet];
      ghost var pending := apdus.stream.Pending();
      apdus.Send(ApduPacket(Apdu, card(received)));
      assert apdus.stream.Pending() == pending;
    }
  }

  lemma NoResponses(card: SimCard)
    ensures EncodeAll(Responses(card, [])) == []
  {
  }

  /** `send_apdu` for each command. */
  function Packets(commands: seq<Payload>): (r: seq<ApduPacket>)
    ensures |r| == |commands| && forall i :: 0 <= i < |r| ==> r[i].op == Apdu && r[i].payload == commands[i]
  {
    seq(|commands|, i requires 0 <= i < |commands| => ApduPacket(Apdu, commands[i]))
  }

  lemma NoCommands(commands: seq<Payload>)
    ensures EncodeAll(Packets(commands[..0])) == []
  {
  }

  lemma OneMoreCommand(commands: seq<Payload>, i: nat)
    requires i < |commands|
    ensures EncodeAll(Packets(commands[..i + 1]))
         == EncodeAll(Packets(commands[..i])) + EncodeAll([ApduPacket(Apdu, commands[i])])
  {
    hide EncodeAll;
    assert Packets(commands[..i + 1]) == Packets(commands[..i]) + [ApduPacket(Apdu, commands[i])];
    EncodeAllConcat(Packets(commands[..i]), [ApduPacket(Apdu, commands[i])]);
  }

  /** For each APDU of the modem: forwards it and waits for the response, until
      one fails to arrive. */
  method ForwardAll(apdus: ApduStream, commands: seq<Payload>) returns (responses: seq<ApduPacket>, end: RecvResult)
    requires apdus.stream.Valid()
    modifies apdus.stream`buf, apdus.stream.socket
    ensures apdus.stream.Valid()
    ensures var (all, last) := RecvAllOf(old(apdus.stream.Pending()));
      if |commands| <= |all| then responses == all[..|commands|] && end == EndOfStream
      else responses == all && end == last
    ensures var forwarded := if |responses| < |commands| then |responses| + 1 else |commands|;
      apdus.stream.socket.sent == old(apdus.stream.socket.sent) + EncodeAll(Packets(commands[..forwarded]))
  {
    hide RecvOf, RecvAllOf, EncodeAll, GoingOn, Packets;
    ghost var all := RecvAllOf(apdus.stream.Pending());
    responses, end := [], EndOfStream;
    GoOn([], apdus.stream.Pending());
    NoCommands(commands);
    for i := 0 to |commands|
      invariant apdus.stream.Valid() && |responses| == i && end == EndOfStream
      invariant GoingOn(responses, apdus.stream.Pending()) == all
      invariant apdus.stream.socket.sent == old(apdus.stream.socket.sent) + EncodeAll(Packets(commands[..i]))
    {
      ghost var pending := apdus.stream.Pending();
      OneMoreCommand(commands, i);
      apdus.Send(ApduPacket(Apdu, commands[i]));
      assert apdus.stream.Pending() == pending;
      GoOn(responses, pending);
      var r := apdus.Recv();
      if !r.Packet? {
        end := r;
        return;
      }
      responses := responses + [r.packet];
    }
    GoOn(responses, apdus.stream.Pending());
    CompleteResponses(responses, apdus.stream.Pending());
    assert commands[..|commands|] == commands;
  }

  lemma CompleteResponses(responses: seq<ApduPacket>, pending: Bytes)
    ensures |responses| <= |GoingOn(responses, pending).0|
    ensures GoingOn(responses, pending).0[..|responses|] == responses
  {
  }

  // ---------- End to end ----------

  /** What reaches a provider that a probe has been connected to. */
  function ToProvider(id: Identifier, noWait: bool, ps: seq<ApduPacket>): Bytes
    requires EncodeConnectRequest(ConnectRequest(noWait, id)).Some?
  {
    EncodeAuthResponse(Authenticated).value + (EncodeConnectRequest(ConnectRequest(noWait, id)).value + EncodeAll(ps))
  }

  /** What reaches a probe whose request was accepted. */
  function ToProbe(ps: seq<ApduPacket>): Bytes {
    EncodeAuthResponse(Authenticated).value + (EncodeConnectResponse(Accepted).value + EncodeAll(ps))
  }

  /** A provider's connection from the first chunk to the last. However the bytes
      are cut, it is handed the identifier asked for, receives exactly the packets
      sent, and sends exactly the card's responses behind its own handshake. */
  method ServeProbe(client: Client, chunks: seq<Bytes>, cb: ConnectRequest -> ConnectStatus, card: SimCard)
    returns (r: Handshake<Identifier>, received: seq<ApduPacket>, end: RecvResult, sent: Bytes)
    requires forall i :: 0 <= i < |chunks| ==> 1 <= |chunks[i]| <= 1024
    ensures r == WaitForConnectionOf(Flatten(chunks), cb).0
    ensures r.Connected? ==> (received, end) == RecvAllOf(WaitForConnectionOf(Flatten(chunks), cb).1)
    ensures forall id, noWait, ps ::
      && EncodeConnectRequest(ConnectRequest(noWait, id)).Some?
      && cb(ConnectRequest(noWait, id)) == Accepted
      && Flatten(chunks) == ToProvider(id, noWait, ps)
      ==> && r == Connected(id) && received == ps && end == EndOfStream
          && sent == AuthBytes(1, client.token)
                     + [1, 0] + EncodeAll(Responses(card, ps))
  {
    hide RecvAllOf, EncodeAll, EncodeApdu, EncodeConnectRequest, EncodeAuthRequest, EncodeAuthResponse, AuthBytes, RequestBytes;
    hide WaitForConnectionOf, ConnectOf, ProviderAnswerBytes, ProbeRequestBytes, Flatten, Responses;
    var socket := new Socket(chunks);
    var stream := new RawStream(socket);
    ghost var pending := stream.Pending();
    assert pending == Flatten(chunks);
    var apdus;
    r, apdus := client.WaitForConnection(stream, cb);
    received, end := [], EndOfStream;
    if r.Connected? {
      received, end := MaintainConnection(apdus, card);
    }
    sent := socket.sent;
    forall id, noWait, ps |
      && EncodeConnectRequest(ConnectRequest(noWait, id)).Some?
      && cb(ConnectRequest(noWait, id)) == Accepted
      && Flatten(chunks) == ToProvider(id, noWait, ps)
      ensures r == Connected(id) && received == ps && end == EndOfStream
      ensures sent == AuthBytes(1, client.token)
                      + [1, 0] + EncodeAll(Responses(card, ps))
    {
      assert pending == ToProvider(id, noWait, ps);
      ProviderReceivesAllPackets(id, noWait, cb, ps);
      ProviderAnswers(id, noWait, cb, ps);
    }
  }

  lemma ProviderAnswers(id: Identifier, noWait: bool, cb: ConnectRequest -> ConnectStatus, ps: seq<ApduPacket>)
    requires EncodeConnectRequest(ConnectRequest(noWait, id)).Some?
    requires cb(ConnectRequest(noWait, id)) == Accepted
    ensures ProviderAnswerBytes(ToProvider(id, noWait, ps), cb) == [1, 0]
  {
    var req := ConnectRequest(noWait, id);
    var rest := EncodeConnectRequest(req).value + EncodeAll(ps);
    AuthenticatedIff(ToProvider(id, noWait, ps), rest);
    ConnectRequestCodec();
    ReadMessageIff(DecodeConnectRequest, EncodeConnectRequest, rest, req, EncodeAll(ps));
  }

  /** A probe's connection over any bytes that the server sends. */
  method ConnectAndForward(client: Client, chunks: seq<Bytes>, id: Identifier, noWait: bool, commands: seq<Payload>)
    returns (r: Handshake<()>, responses: seq<ApduPacket>, end: RecvResult, sent: Bytes)
    requires forall i :: 0 <= i < |chunks| ==> 1 <= |chunks[i]| <= 1024
    ensures r == ConnectOf(Flatten(chunks), id, noWait).0
    ensures !r.Connected? ==>
      sent == AuthBytes(2, client.token) + ProbeRequestBytes(Flatten(chunks), id, noWait)
    ensures r.Connected? ==>
      var (all, last) := RecvAllOf(ConnectOf(Flatten(chunks), id, noWait).1);
      && (if |commands| <= |all| then responses == all[..|commands|] && end == EndOfStream
          else responses == all && end == last)
      && sent == AuthBytes(2, client.token) + ProbeRequestBytes(Flatten(chunks), id, noWait)
                 + EncodeAll(Packets(commands[..if |responses| < |commands| then |responses| + 1 else |commands|]))
  {
    hide RecvAllOf, EncodeAll, EncodeApdu, AuthBytes, RequestBytes, ConnectOf, ProbeRequestBytes, Flatten, Packets;
    var socket := new Socket(chunks);
    var stream := new RawStream(socket);
    assert stream.Pending() == Flatten(chunks);
    var apdus;
    r, apdus := client.ConnectProbe(stream, id, noWait);
    responses, end := [], EndOfStream;
    if r.Connected? {
      responses, end := ForwardAll(apdus, commands);
    }
    sent := socket.sent;
    assert [] + AuthBytes(2, client.token) == AuthBytes(2, client.token);
  }

  /** A probe whose server has accepted the request: with a response for every
      command it returns exactly these responses, in order, and sends exactly its
      handshake and the commands, however the bytes are cut. Without a further
      response it stops. */
  method RunProbe(client: Client, chunks: seq<Bytes>, id: Identifier, noWait: bool, commands: seq<Payload>,
                  ghost ps: seq<ApduPacket>)
    returns (r: Handshake<()>, responses: seq<ApduPacket>, end: RecvResult, sent: Bytes)
    requires forall i :: 0 <= i < |chunks| ==> 1 <= |chunks[i]| <= 1024
    requires EncodeIdentifier(id).Some? && Flatten(chunks) == ToProbe(ps)
    ensures r.Connected? && end == EndOfStream
    ensures responses == if |commands| <= |ps| then ps[..|commands|] else ps
    ensures sent == AuthBytes(2, client.token) + RequestBytes(noWait, id)
                    + EncodeAll(Packets(commands[..if |ps| < |commands| then |ps| + 1 else |commands|]))
  {
    hide RecvAllOf, EncodeAll, EncodeApdu, AuthBytes, RequestBytes, ConnectOf, ProbeRequestBytes, Flatten, Packets;
    ProbeRequests(id, noWait, ps);
    ProbeReceivesAllPackets(id, noWait, ps);
    r, responses, end, sent := ConnectAndForward(client, chunks, id, noWait, commands);
  }

  lemma ProbeRequests(id: Identifier, noWait: bool, ps: seq<ApduPacket>)
    requires EncodeIdentifier(id).Some?
    ensures EncodeConnectRequest(ConnectRequest(noWait, id)).Some? && AuthenticateOf(ToProbe(ps)).0.Connected?
    ensures ProbeRequestBytes(ToProbe(ps), id, noWait) == RequestBytes(noWait, id)
  {
    AuthenticatedIff(ToProbe(ps), EncodeConnectResponse(Accepted).value + EncodeAll(ps));
  }
}

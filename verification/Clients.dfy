/** The connection handshakes of moatt_clients: client.py, probe_client.py and
    provider_client.py. */
module Clients {
  import opened Bytes
  import opened Codec
  import opened Streams

  /** How a handshake ends. Every case but the first is an exception. */
  datatype Handshake<+T> =
    | Connected(info: T)
    | AuthFailed(status: AuthStatus)
    | RequestFailed(connectStatus: ConnectStatus)
    | BrokenMessage
    | NotEncodable

  // ---------- Specification over the bytes the peer sends ----------

  function AuthenticateOf(pending: Bytes): (Handshake<()>, Bytes) {
    match ReadMessageOf(DecodeAuthResponse, pending)
    case (Done(s), rest) => (if s == Authenticated then Connected(()) else AuthFailed(s), rest)
    case (_, rest) => (BrokenMessage, rest)
  }

  function ConnectOf(pending: Bytes, id: Identifier, noWait: bool): (Handshake<()>, Bytes) {
    var (auth, rest) := AuthenticateOf(pending);
    if !auth.Connected? then (auth, rest)
    else if EncodeConnectRequest(ConnectRequest(noWait, id)).None? then (NotEncodable, rest)
    else
      match ReadMessageOf(DecodeConnectResponse, rest)
      case (Done(s), rest') => (if s == Accepted then Connected(()) else RequestFailed(s), rest')
      case (_, rest') => (BrokenMessage, rest')
  }

  function WaitForConnectionOf(pending: Bytes, cb: ConnectRequest -> ConnectStatus): (Handshake<Identifier>, Bytes) {
    match AuthenticateOf(pending)
    case (Connected(_), rest) =>
      (match ReadMessageOf(DecodeConnectRequest, rest)
       case (Done(req), rest') =>
         (if cb(req) == Accepted then Connected(req.identifier) else RequestFailed(cb(req)), rest')
       case (_, rest') => (BrokenMessage, rest'))
    case (AuthFailed(s), rest) => (AuthFailed(s), rest)
    case (_, rest) => (BrokenMessage, rest)
  }

  /** What a probe writes after its authentication request: its connection
      request once authenticated, and nothing before that. */
  function ProbeRequestBytes(pending: Bytes, id: Identifier, noWait: bool): Bytes {
    var request := EncodeConnectRequest(ConnectRequest(noWait, id));
    if AuthenticateOf(pending).0.Connected? && request.Some? then request.value else []
  }

  /** What a provider writes after its authentication request: its callback's
      answer, once a request has come in. */
  function ProviderAnswerBytes(pending: Bytes, cb: ConnectRequest -> ConnectStatus): Bytes {
    var (auth, rest) := AuthenticateOf(pending);
    match ReadMessageOf(DecodeConnectRequest, rest)
    case (Done(req), _) => if auth.Connected? then EncodeConnectResponse(cb(req)).value else []
    case _ => []
  }

  /** The bytes of an authentication request: version, type of client, length of
      the token in two bytes, token. */
  function AuthBytes(authType: byte, token: Token): Bytes {
    [1, authType, |token| / 256, |token| % 256] + token
  }

  /** The bytes of a connection request: version, the flag "do not wait", the kind
      of identifier, identifier. */
  function RequestBytes(noWait: bool, id: Identifier): Bytes
    requires EncodeIdentifier(id).Some?
  {
    [1, if noWait then 1 else 0, match id case SimId(_, _) => 0 case Iccid(_) => 1 case Imsi(_) => 2 case SimIndex(_, _) => 3]
    + EncodeIdentifier(id).value
  }

  /** The bytes of a connection response. */
  function StatusBytes(s: ConnectStatus): Bytes {
    [1, match s case Accepted => 0 case NotFound => 1 case Forbidden => 2 case NotAvailable => 3 case ProviderTimedOut => 4]
  }

  // ---------- The clients ----------

  class Client {
    const token: Token

    constructor (token: Token)
      ensures this.token == token
    {
      this.token := token;
    }

    method Authenticate(authType: AuthType, stream: RawStream) returns (r: Handshake<()>)
      requires stream.Valid()
      modifies stream`buf, stream.socket
      ensures stream.Valid()
      ensures (r, stream.Pending()) == AuthenticateOf(old(stream.Pending()))
      ensures stream.socket.sent
           == old(stream.socket.sent) + EncodeAuthRequest(AuthRequest(authType, token)).value
    {
      stream.WriteAll(EncodeAuthRequest(AuthRequest(authType, token)).value);
      var res := stream.ReadMessage(DecodeAuthResponse);
      if !res.Done? {
        return BrokenMessage;
      }
      if res.value != Authenticated {
        return AuthFailed(res.value);
      }
      return Connected(());
    }

    method ConnectProbe(stream: RawStream, id: Identifier, noWait: bool)
      returns (r: Handshake<()>, apdus: ApduStream)
      requires stream.Valid()
      modifies stream`buf, stream.socket
      ensures stream.Valid() && apdus.stream == stream
      ensures (r, stream.Pending()) == ConnectOf(old(stream.Pending()), id, noWait)
      ensures stream.socket.sent == old(stream.socket.sent)
                                  + AuthBytes(2, token)
                                  + ProbeRequestBytes(old(stream.Pending()), id, noWait)
      ensures AuthenticateOf(old(stream.Pending())).0.Connected? && EncodeIdentifier(id).Some? ==>
        stream.socket.sent == old(stream.socket.sent) + AuthBytes(2, token) + RequestBytes(noWait, id)
      ensures !(AuthenticateOf(old(stream.Pending())).0.Connected? && EncodeIdentifier(id).Some?) ==>
        stream.socket.sent == old(stream.socket.sent) + AuthBytes(2, token)
    {
      AuthRequestLayout(AuthRequest(Probe, token));
      apdus := new ApduStream(stream);
      r := Authenticate(Probe, stream);
      if !r.Connected? {
        return;
      }
      var request := EncodeConnectRequest(ConnectRequest(noWait, id));
      if request.None? {
        r := NotEncodable;
        return;
      }
      stream.WriteAll(request.value);
      var res := stream.ReadMessage(DecodeConnectResponse);
      if !res.Done? {
        r := BrokenMessage;
      } else if res.value != Accepted {
        r := RequestFailed(res.value);
      }
    }

    /** `cb` is the provider's callback that accepts or rejects a request. */
    method WaitForConnection(stream: RawStream, cb: ConnectRequest -> ConnectStatus)
      returns (r: Handshake<Identifier>, apdus: ApduStream)
      requires stream.Valid()
      modifies stream`buf, stream.socket
      ensures stream.Valid() && apdus.stream == stream
      ensures (r, stream.Pending()) == WaitForConnectionOf(old(stream.Pending()), cb)
      ensures stream.socket.sent == old(stream.socket.sent)
                                  + AuthBytes(1, token)
                                  + ProviderAnswerBytes(old(stream.Pending()), cb)
    {
      AuthRequestLayout(AuthRequest(Provider, token));
      apdus := new ApduStream(stream);
      var auth := Authenticate(Provider, stream);
      if auth.AuthFailed? {
        r := AuthFailed(auth.status);
        return;
      }
      if !auth.Connected? {
        r := BrokenMessage;
        return;
      }
      var req := stream.ReadMessage(DecodeConnectRequest);
      if !req.Done? {
        r := BrokenMessage;
        return;
      }
      var status := cb(req.value);
      stream.WriteAll(EncodeConnectResponse(status).value);
      if status != Accepted {
        r := RequestFailed(status);
        return;
      }
      r := Connected(req.value.identifier);
    }
  }

  // ---------- What the other side makes of the bytes ----------

  /** What an authenticated probe sends is decoded to the identifier it was asked
      to connect to and to the flag it was given; without authentication, or for an
      id that cannot be encoded, it sends no request. */
  lemma ProbeRequestIsDecoded(pending: Bytes, id: Identifier, noWait: bool)
    ensures var bs := ProbeRequestBytes(pending, id, noWait);
      if AuthenticateOf(pending).0.Connected? && EncodeIdentifier(id).Some? then
        && bs == RequestBytes(noWait, id)
        && DecodeConnectRequest(bs).Message?
        && DecodeConnectRequest(bs).value.noWait == noWait && DecodeConnectRequest(bs).value.identifier == id
      else bs == []
  {
    if EncodeIdentifier(id).Some? {
      ConnectRequestRoundTrip(ConnectRequest(noWait, id));
    }
  }

  /** A provider answers iff a decodable request has come in behind its own
      authentication, with version 1 and the status its callback gives. */
  lemma ProviderAnswersIff(pending: Bytes, cb: ConnectRequest -> ConnectStatus, req: ConnectRequest, rest: Bytes)
    requires EncodeConnectRequest(req).Some?
    requires pending == [1, 0] + (EncodeConnectRequest(req).value + rest)
    ensures ProviderAnswerBytes(pending, cb)
         == StatusBytes(cb(req))
    ensures WaitForConnectionOf(pending, cb)
         == (if cb(req) == Accepted then Connected(req.identifier) else RequestFailed(cb(req)), rest)
  {
    ResponseLayout();
    ConnectRequestCodec();
    AuthenticatedIff(pending, EncodeConnectRequest(req).value + rest);
    ReadMessageIff(DecodeConnectRequest, EncodeConnectRequest, EncodeConnectRequest(req).value + rest, req, rest);
  }

  /** Any other authentication status is reported as such, and nothing more is read. */
  lemma AuthFailedIff(pending: Bytes, s: AuthStatus, rest: Bytes)
    ensures AuthenticateOf(pending) == (AuthFailed(s), rest)
       <==> s != Authenticated && pending == [1, if s == Unauthorized then 1 else 3] + rest
  {
    ResponseLayout();
    AuthResponseCodec();
    ReadMessageIff(DecodeAuthResponse, EncodeAuthResponse, pending, s, rest);
  }

  /** A refused connection reports the status that the server sent. */
  lemma RequestFailedIff(pending: Bytes, id: Identifier, noWait: bool, s: ConnectStatus, rest: Bytes)
    requires EncodeIdentifier(id).Some?
    ensures ConnectOf(pending, id, noWait) == (RequestFailed(s), rest)
       <==> s != Accepted && pending == [1, 0] + (StatusBytes(s) + rest)
  {
    hide ConnectOf, AuthenticateOf, StatusBytes;
    var mid := StatusBytes(s) + rest;
    if pending == [1, 0] + mid {
      ResponseLayout();
      AuthenticatedIff(pending, mid);
      RefusedIff(pending, mid, id, noWait, s, rest);
    }
    if ConnectOf(pending, id, noWait) == (RequestFailed(s), rest) {
      OnlyAuthenticatedIsRefused(pending, id, noWait);
      var r := AuthenticateOf(pending).1;
      ResponseLayout();
      AuthenticatedIff(pending, r);
      RefusedIff(pending, r, id, noWait, s, rest);
    }
  }

  lemma OnlyAuthenticatedIsRefused(pending: Bytes, id: Identifier, noWait: bool)
    requires ConnectOf(pending, id, noWait).0.RequestFailed?
    ensures AuthenticateOf(pending).0 == Connected(())
  {
    hide ReadMessageFrom, EncodeConnectRequest;
  }

  lemma RefusedIff(pending: Bytes, later: Bytes, id: Identifier, noWait: bool, s: ConnectStatus, rest: Bytes)
    requires EncodeIdentifier(id).Some? && AuthenticateOf(pending) == (Connected(()), later)
    ensures ConnectOf(pending, id, noWait) == (RequestFailed(s), rest) <==> s != Accepted && later == StatusBytes(s) + rest
  {
    hide AuthenticateOf, ReadMessageOf, DecodeConnectResponse, IsCodec;
    ResponseLayout();
    ConnectResponseCodec();
    ReadMessageIff(DecodeConnectResponse, EncodeConnectResponse, later, s, rest);
    assert EncodeConnectRequest(ConnectRequest(noWait, id)).Some?;
  }

  /** Anything but the three responses is a broken message. */
  lemma AuthBrokenIff(pending: Bytes)
    ensures AuthenticateOf(pending).0.BrokenMessage? <==>
      |pending| < 2 || pending[0] != 1 || pending[1] !in {0, 1, 3}
    ensures !AuthenticateOf(pending).0.RequestFailed? && !AuthenticateOf(pending).0.NotEncodable?
  {
    AuthResponseCodec();
    var r := ReadMessageOf(DecodeAuthResponse, pending);
    if r.0.Done? {
      ReadMessageIff(DecodeAuthResponse, EncodeAuthResponse, pending, r.0.value, r.1);
    }
    if |pending| >= 2 && pending[0] == 1 && pending[1] in {0, 1, 3} {
      var s := AuthStatusOf(pending[1]).value;
      assert pending == [1, pending[1]] + pending[2..];
      ReadMessageIff(DecodeAuthResponse, EncodeAuthResponse, pending, s, pending[2..]);
    }
  }

  /** An id that does not fit into 64 bits is noticed once the probe is authenticated. */
  lemma NotEncodableIff(pending: Bytes, id: Identifier, noWait: bool)
    ensures ConnectOf(pending, id, noWait).0 == NotEncodable <==>
      && AuthenticateOf(pending).0 == Connected(())
      && match id
         case SimId(_, n) => !(0 <= n < 0x1_0000_0000_0000_0000)
         case SimIndex(_, n) => !(0 <= n < 0x1_0000_0000_0000_0000)
         case _ => false
  {
    hide ReadMessageFrom;
    EncodableIff(ConnectRequest(noWait, id));
    AuthBrokenIff(pending);
  }

  // ---------- The switch from handshake to APDU phase ----------

  lemma AuthenticatedIff(pending: Bytes, rest: Bytes)
    ensures AuthenticateOf(pending) == (Connected(()), rest)
       <==> pending == EncodeAuthResponse(Authenticated).value + rest
  {
    AuthResponseCodec();
    ReadMessageIff(DecodeAuthResponse, EncodeAuthResponse, pending, Authenticated, rest);
  }

  /** A probe gets its APDU stream iff the peer's bytes are the two success
      responses, and then the stream starts right behind them: no APDU byte is
      read too early and none is lost, however the chunks were cut. */
  lemma ProbeConnectedIff(pending: Bytes, id: Identifier, noWait: bool, rest: Bytes)
    requires EncodeConnectRequest(ConnectRequest(noWait, id)).Some?
    ensures ConnectOf(pending, id, noWait) == (Connected(()), rest)
       <==> pending == EncodeAuthResponse(Authenticated).value + (EncodeConnectResponse(Accepted).value + rest)
  {
    ConnectResponseCodec();
    var mid := EncodeConnectResponse(Accepted).value + rest;
    if pending == EncodeAuthResponse(Authenticated).value + mid {
      AuthenticatedIff(pending, mid);
      ReadMessageIff(DecodeConnectResponse, EncodeConnectResponse, mid, Accepted, rest);
    }
    if ConnectOf(pending, id, noWait) == (Connected(()), rest) {
      var r := AuthenticateOf(pending).1;
      AuthenticatedIff(pending, r);
      ReadMessageIff(DecodeConnectResponse, EncodeConnectResponse, r, Accepted, rest);
    }
  }

  /** The same for a provider, whose peer sends the request of a probe: it is
      handed exactly the identifier the probe asked for. */
  lemma ProviderConnectedIff(pending: Bytes, cb: ConnectRequest -> ConnectStatus, id: Identifier, rest: Bytes)
    ensures WaitForConnectionOf(pending, cb) == (Connected(id), rest)
       <==> exists noWait ::
              && EncodeConnectRequest(ConnectRequest(noWait, id)).Some?
              && cb(ConnectRequest(noWait, id)) == Accepted
              && pending == EncodeAuthResponse(Authenticated).value
                   + (EncodeConnectRequest(ConnectRequest(noWait, id)).value + rest)
  {
    ConnectRequestCodec();
    forall noWait |
      && EncodeConnectRequest(ConnectRequest(noWait, id)).Some?
      && cb(ConnectRequest(noWait, id)) == Accepted
      && pending == EncodeAuthResponse(Authenticated).value
           + (EncodeConnectRequest(ConnectRequest(noWait, id)).value + rest)
      ensures WaitForConnectionOf(pending, cb) == (Connected(id), rest)
    {
      var req := ConnectRequest(noWait, id);
      var mid := EncodeConnectRequest(req).value + rest;
      AuthenticatedIff(pending, mid);
      ReadMessageIff(DecodeConnectRequest, EncodeConnectRequest, mid, req, rest);
    }
    if WaitForConnectionOf(pending, cb) == (Connected(id), rest) {
      var r := AuthenticateOf(pending).1;
      AuthenticatedIff(pending, r);
      var req := ReadMessageOf(DecodeConnectRequest, r).0.value;
      ReadMessageIff(DecodeConnectRequest, EncodeConnectRequest, r, req, rest);
      assert req == ConnectRequest(req.noWait, id);
    }
  }

  /** Handshake and APDU phase over one shared buffer: the bytes of the server's
      handshake messages followed by encoded packets give exactly these packets
      and then a clean end. `Recv` and the handshake methods depend on the chunks
      only through these functions of the bytes still to come. */
  lemma ProbeReceivesAllPackets(id: Identifier, noWait: bool, ps: seq<ApduPacket>)
    requires EncodeConnectRequest(ConnectRequest(noWait, id)).Some?
    ensures var wire := EncodeAuthResponse(Authenticated).value
        + (EncodeConnectResponse(Accepted).value + EncodeAll(ps));
      ConnectOf(wire, id, noWait).0.Connected?
      && RecvAllOf(ConnectOf(wire, id, noWait).1) == (ps, EndOfStream)
  {
    var wire := EncodeAuthResponse(Authenticated).value
      + (EncodeConnectResponse(Accepted).value + EncodeAll(ps));
    ProbeConnectedIff(wire, id, noWait, EncodeAll(ps));
    CleanEndIff(EncodeAll(ps), ps);
  }

  lemma ProviderReceivesAllPackets(id: Identifier, noWait: bool, cb: ConnectRequest -> ConnectStatus, ps: seq<ApduPacket>)
    requires EncodeConnectRequest(ConnectRequest(noWait, id)).Some?
    requires cb(ConnectRequest(noWait, id)) == Accepted
    ensures var wire := EncodeAuthResponse(Authenticated).value
        + (EncodeConnectRequest(ConnectRequest(noWait, id)).value + EncodeAll(ps));
      WaitForConnectionOf(wire, cb).0 == Connected(id)
      && RecvAllOf(WaitForConnectionOf(wire, cb).1) == (ps, EndOfStream)
  {
    var wire := EncodeAuthResponse(Authenticated).value
      + (EncodeConnectRequest(ConnectRequest(noWait, id)).value + EncodeAll(ps));
    ProviderConnectedIff(wire, cb, id, EncodeAll(ps));
    CleanEndIff(EncodeAll(ps), ps);
  }
}

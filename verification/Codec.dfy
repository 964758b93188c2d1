/** The messages of the SIM tunnel protocol: moatt_types/connect.py. */
module Codec {
  import opened Bytes

  /** What a decoder does with a byte string: build a message, raise
      `PartialInput(missing)`, or raise any other exception. */
  datatype Decoded<+T> = Message(value: T) | PartialInput(missing: nat) | Rejected

  // ---------- Messages ----------

  datatype AuthType = Provider | Probe
  datatype AuthStatus = Authenticated | Unauthorized | NotRegistered
  datatype ConnectStatus = Accepted | NotFound | Forbidden | NotAvailable | ProviderTimedOut
  datatype ApduOp = Apdu | Reset

  /** The constructors assert these bounds, so no value outside them exists. */
  type Token = t: Bytes | |t| < 0x1_0000 witness []
  type Payload = p: Bytes | |p| < 1024 witness []

  predicate OnlyDigits(bs: Bytes) {
    forall i :: 0 <= i < |bs| ==> 48 <= bs[i] <= 57
  }

  const IMSI_LEN := 15
  const ICCID_LEN := 20
  const SIM_ID_LEN := 24
  const UUID_LEN := 16

  /** The constructor's assertion bounds the id by the 24 bytes of the whole
      encoding, not by the 8 bytes that the id itself gets. */
  ghost const SIM_ID_BOUND := Limit(SIM_ID_LEN)

  type Uuid = u: Bytes | |u| == UUID_LEN witness [0, 0, 0, 0, 0, 0, 0, 0, 0, 0, 0, 0, 0, 0, 0, 0]
  type ImsiDigits = d: Bytes | OnlyDigits(d) && 5 <= |d| <= IMSI_LEN witness [48, 48, 48, 48, 48]
  type IccidDigits = d: Bytes | OnlyDigits(d) && 5 <= |d| <= ICCID_LEN witness [48, 48, 48, 48, 48]
  type LocalId = n: int | n < SIM_ID_BOUND ghost witness 0

  datatype Identifier =
    | SimId(provider: Uuid, id: LocalId)
    | Iccid(iccid: IccidDigits)
    | Imsi(imsi: ImsiDigits)
    | SimIndex(provider: Uuid, index: LocalId)

  datatype ApduPacket = ApduPacket(op: ApduOp, payload: Payload)
  datatype AuthRequest = AuthRequest(authType: AuthType, token: Token)
  datatype ConnectRequest = ConnectRequest(noWait: bool, identifier: Identifier)

  // ---------- Enumerations ----------

  function AuthTypeOf(b: byte): Option<AuthType> {
    match b case 1 => Some(Provider) case 2 => Some(Probe) case _ => None
  }

  function AuthTypeValue(t: AuthType): byte {
    match t case Provider => 1 case Probe => 2
  }

  function AuthStatusOf(b: byte): Option<AuthStatus> {
    match b
    case 0 => Some(Authenticated)
    case 1 => Some(Unauthorized)
    case 3 => Some(NotRegistered)
    case _ => None
  }

  function AuthStatusValue(s: AuthStatus): byte {
    match s case Authenticated => 0 case Unauthorized => 1 case NotRegistered => 3
  }

  function ConnectStatusOf(b: byte): Option<ConnectStatus> {
    match b
    case 0 => Some(Accepted)
    case 1 => Some(NotFound)
    case 2 => Some(Forbidden)
    case 3 => Some(NotAvailable)
    case 4 => Some(ProviderTimedOut)
    case _ => None
  }

  function ConnectStatusValue(s: ConnectStatus): byte {
    match s
    case Accepted => 0
    case NotFound => 1
    case Forbidden => 2
    case NotAvailable => 3
    case ProviderTimedOut => 4
  }

  function ApduOpOf(b: byte): Option<ApduOp> {
    match b case 0 => Some(Apdu) case 1 => Some(Reset) case _ => None
  }

  function ApduOpValue(op: ApduOp): byte {
    match op case Apdu => 0 case Reset => 1
  }

  // ---------- Encoders ----------

  function EncodeApdu(p: ApduPacket): Option<Bytes> {
    Limits();
    Some([1, ApduOpValue(p.op)] + Pack(|p.payload|, 4) + p.payload)
  }

  function EncodeAuthRequest(m: AuthRequest): Option<Bytes> {
    Limits();
    Some([1, AuthTypeValue(m.authType)] + Pack(|m.token|, 2) + m.token)
  }

  function EncodeAuthResponse(s: AuthStatus): Option<Bytes> {
    Some([1, AuthStatusValue(s)])
  }

  function EncodeConnectResponse(s: ConnectStatus): Option<Bytes> {
    Some([1, ConnectStatusValue(s)])
  }

  function EncodeDigits(d: Bytes, width: nat): Bytes
    requires |d| <= width
  {
    d + Zeros(width - |d|)
  }

  /** `struct.pack("!Q", id)` raises for an id outside 64 bits; `None` stands for that. */
  function EncodeProviderAndNumber(provider: Uuid, n: int): Option<Bytes> {
    if 0 <= n < Limit(8) then Some(provider + Pack(n, 8)) else None
  }

  function EncodeIdentifier(i: Identifier): Option<Bytes> {
    match i
    case SimId(provider, id) => EncodeProviderAndNumber(provider, id)
    case Iccid(d) => Some(EncodeDigits(d, ICCID_LEN))
    case Imsi(d) => Some(EncodeDigits(d, IMSI_LEN))
    case SimIndex(provider, index) => EncodeProviderAndNumber(provider, index)
  }

  function IdentifierKind(i: Identifier): byte {
    match i
    case SimId(_, _) => 0
    case Iccid(_) => 1
    case Imsi(_) => 2
    case SimIndex(_, _) => 3
  }

  function EncodeConnectRequest(m: ConnectRequest): Option<Bytes> {
    match EncodeIdentifier(m.identifier)
    case None => None
    case Some(e) => Some([1, if m.noWait then 1 else 0, IdentifierKind(m.identifier)] + e)
  }

  // ---------- Decoders ----------

  function DecodeApdu(msg: Bytes): Decoded<ApduPacket> {
    if |msg| < 6 then PartialInput(6 - |msg|)
    else if msg[0] != 1 then Rejected
    else if ApduOpOf(msg[1]).None? then Rejected
    else
      var plen := Unpack(msg[2..6]);
      if |msg| < 6 + plen then PartialInput(6 + plen - |msg|)
      else if |msg| > 6 + plen then Rejected
      else if plen >= 1024 then Rejected  // the constructor's assertion
      else Message(ApduPacket(ApduOpOf(msg[1]).value, msg[6..]))
  }

  function DecodeAuthRequest(msg: Bytes): Decoded<AuthRequest> {
    if |msg| < 4 then PartialInput(4 - |msg|)
    else if msg[0] != 1 then Rejected
    else
      var plen := Unpack(msg[2..4]);
      assert plen < 0x1_0000 by { Limits(); }
      if |msg| < plen + 4 then PartialInput(plen + 4 - |msg|)
      else if |msg| != plen + 4 then Rejected
      else if AuthTypeOf(msg[1]).None? then Rejected
      else Message(AuthRequest(AuthTypeOf(msg[1]).value, msg[4..]))
  }

  function DecodeAuthResponse(msg: Bytes): Decoded<AuthStatus> {
    if |msg| < 2 then PartialInput(2 - |msg|)
    else if |msg| > 2 then Rejected
    else if msg[0] != 1 then Rejected
    else if AuthStatusOf(msg[1]).None? then Rejected
    else Message(AuthStatusOf(msg[1]).value)
  }

  function DecodeConnectResponse(msg: Bytes): Decoded<ConnectStatus> {
    if |msg| < 2 then PartialInput(2 - |msg|)
    else if |msg| > 2 then Rejected
    else if msg[0] != 1 then Rejected
    else if ConnectStatusOf(msg[1]).None? then Rejected
    else Message(ConnectStatusOf(msg[1]).value)
  }

  /** `bytes.rstrip(b"\x00")` */
  function StripZeros(bs: Bytes): (r: Bytes)
    ensures |r| <= |bs| && r == bs[..|r|]
    ensures r != [] ==> r[|r| - 1] != 0
    ensures forall i :: |r| <= i < |bs| ==> bs[i] == 0
  {
    if bs != [] && bs[|bs| - 1] == 0 then StripZeros(bs[..|bs| - 1]) else bs
  }

  /** Common part of `Imsi.decode` and `Iccid.decode`. */
  function DecodeDigits(msg: Bytes, width: nat): (r: Decoded<Bytes>)
    ensures r.Message? ==> OnlyDigits(r.value) && 5 <= |r.value| <= width
  {
    if |msg| < width then PartialInput(width - |msg|)
    else if |msg| > width then Rejected
    else
      var d := StripZeros(msg);
      if !OnlyDigits(d) || |d| < 5 || |d| > width then Rejected else Message(d)
  }

  lemma {:induction false} LimitMonotone(a: nat, b: nat)
    requires a <= b
    ensures Limit(a) <= Limit(b)
  {
    if a < b {
      LimitMonotone(a, b - 1);
    }
  }

  /** A decoded id passes the constructor's weaker bound. */
  lemma DecodedIdFits(bs: Bytes)
    requires |bs| == 8
    ensures Unpack(bs) < SIM_ID_BOUND
  {
    hide Limit, Unpack;
    LimitMonotone(8, SIM_ID_LEN);
  }

  /** Common part of `SimId.decode` and `SimIndex.decode`. */
  function DecodeProviderAndNumber(msg: Bytes): Decoded<(Uuid, LocalId)> {
    if |msg| < SIM_ID_LEN then PartialInput(SIM_ID_LEN - |msg|)
    else if |msg| > SIM_ID_LEN then Rejected
    else
      DecodedIdFits(msg[16..]);
      Message((msg[..16], Unpack(msg[16..])))
  }

  function DecodeIdentifier(kind: byte, msg: Bytes): Decoded<Identifier> {
    match kind
    case 0 =>
      (match DecodeProviderAndNumber(msg)
       case Message((p, n)) => Message(SimId(p, n))
       case PartialInput(k) => PartialInput(k)
       case Rejected => Rejected)
    case 1 =>
      (match DecodeDigits(msg, ICCID_LEN)
       case Message(d) => Message(Iccid(d))
       case PartialInput(k) => PartialInput(k)
       case Rejected => Rejected)
    case 2 =>
      (match DecodeDigits(msg, IMSI_LEN)
       case Message(d) => Message(Imsi(d))
       case PartialInput(k) => PartialInput(k)
       case Rejected => Rejected)
    case 3 =>
      (match DecodeProviderAndNumber(msg)
       case Message((p, n)) => Message(SimIndex(p, n))
       case PartialInput(k) => PartialInput(k)
       case Rejected => Rejected)
    case _ => Rejected
  }

  function DecodeConnectRequest(msg: Bytes): Decoded<ConnectRequest> {
    if |msg| < 3 then PartialInput(3 - |msg|)
    else if msg[0] != 1 then Rejected
    else if msg[1] > 1 then Rejected
    else
      match DecodeIdentifier(msg[2], msg[3..])
      case Message(i) => Message(ConnectRequest(msg[1] == 1, i))
      case PartialInput(k) => PartialInput(k)
      case Rejected => Rejected
  }

  // ---------- What a codec promises ----------

  /** decode inverts encode, and every accepted byte string is the encoding of
      the message it decodes to. */
  ghost predicate Bijective<T(!new)>(decode: Bytes -> Decoded<T>, encode: T -> Option<Bytes>) {
    && (forall m :: encode(m).Some? ==> decode(encode(m).value) == Message(m))
    && (forall b :: decode(b).Message? ==> encode(decode(b).value) == Some(b))
  }

  /** On a proper prefix of a message the decoder asks for at least one byte and
      for no byte beyond the end of that message. */
  ghost predicate DemandIsSound<T(!new)>(decode: Bytes -> Decoded<T>, encode: T -> Option<Bytes>) {
    forall m, k: nat {:trigger decode(encode(m).value[..k])} ::
      encode(m).Some? && k < |encode(m).value| ==>
        var r := decode(encode(m).value[..k]);
        r.PartialInput? && 1 <= r.missing <= |encode(m).value| - k
  }

  /** Whatever the bytes are: the decoder first asks for a fixed number of them,
      and once the second request is met it does not ask again. */
  ghost predicate AsksAtMostTwice<T(!new)>(decode: Bytes -> Decoded<T>) {
    && decode([]).PartialInput?
    && forall a, b {:trigger decode(a + b)} ::
         && |a| == decode([]).missing
         && decode(a).PartialInput?
         && |b| == decode(a).missing
         ==> !decode(a + b).PartialInput?
  }

  ghost predicate IsCodec<T(!new)>(decode: Bytes -> Decoded<T>, encode: T -> Option<Bytes>) {
    && Bijective(decode, encode)
    && DemandIsSound(decode, encode)
    && AsksAtMostTwice(decode)
  }

  /** Messages with the same encoding are the same message; for connection
      requests this says that the identifier kinds never overlap. */
  lemma EncodingIsInjective<T(!new)>(decode: Bytes -> Decoded<T>, encode: T -> Option<Bytes>, a: T, b: T)
    requires Bijective(decode, encode)
    requires encode(a).Some? && encode(a) == encode(b)
    ensures a == b
  {
    assert decode(encode(a).value) == Message(a);
  }

  // ---------- The five codecs ----------

  lemma ApduHeader(p: ApduPacket)
    ensures var e := EncodeApdu(p).value;
      && |e| == 6 + |p.payload| && e[0] == 1 && e[1] == ApduOpValue(p.op)
      && Unpack(e[2..6]) == |p.payload| && e[6..] == p.payload
  {
    Limits();
    var e := EncodeApdu(p).value;
    assert e[2..6] == Pack(|p.payload|, 4);
    UnpackPack(|p.payload|, 4);
  }

  lemma ApduPacketCodec()
    ensures IsCodec(DecodeApdu, EncodeApdu)
  {
    forall p ensures DecodeApdu(EncodeApdu(p).value) == Message(p) {
      ApduHeader(p);
    }
    forall b | DecodeApdu(b).Message? ensures EncodeApdu(DecodeApdu(b).value) == Some(b) {
      PackUnpack(b[2..6]);
      assert b == [b[0], b[1]] + b[2..6] + b[6..];
    }
    forall p, k: nat | k < |EncodeApdu(p).value|
      ensures var r := DecodeApdu(EncodeApdu(p).value[..k]);
        r.PartialInput? && 1 <= r.missing <= |EncodeApdu(p).value| - k
    {
      ApduHeader(p);
      var e := EncodeApdu(p).value;
      if k >= 6 {
        assert e[..k][2..6] == e[2..6];
      }
    }
    forall a, b | |a| == 6 && DecodeApdu(a).PartialInput? && |b| == DecodeApdu(a).missing
      ensures !DecodeApdu(a + b).PartialInput?
    {
      assert (a + b)[2..6] == a[2..6];
    }
  }

  lemma AuthRequestHeader(m: AuthRequest)
    ensures var e := EncodeAuthRequest(m).value;
      && |e| == 4 + |m.token| && e[0] == 1 && e[1] == AuthTypeValue(m.authType)
      && Unpack(e[2..4]) == |m.token| && e[4..] == m.token
  {
    Limits();
    var e := EncodeAuthRequest(m).value;
    assert e[2..4] == Pack(|m.token|, 2);
    UnpackPack(|m.token|, 2);
  }

  lemma AuthRequestCodec()
    ensures IsCodec(DecodeAuthRequest, EncodeAuthRequest)
  {
    forall m ensures DecodeAuthRequest(EncodeAuthRequest(m).value) == Message(m) {
      AuthRequestHeader(m);
    }
    forall b | DecodeAuthRequest(b).Message?
      ensures EncodeAuthRequest(DecodeAuthRequest(b).value) == Some(b)
    {
      PackUnpack(b[2..4]);
      assert b == [b[0], b[1]] + b[2..4] + b[4..];
    }
    forall m, k: nat | k < |EncodeAuthRequest(m).value|
      ensures var r := DecodeAuthRequest(EncodeAuthRequest(m).value[..k]);
        r.PartialInput? && 1 <= r.missing <= |EncodeAuthRequest(m).value| - k
    {
      AuthRequestHeader(m);
      var e := EncodeAuthRequest(m).value;
      if k >= 4 {
        assert e[..k][2..4] == e[2..4];
      }
    }
    forall a, b | |a| == 4 && DecodeAuthRequest(a).PartialInput? && |b| == DecodeAuthRequest(a).missing
      ensures !DecodeAuthRequest(a + b).PartialInput?
    {
      assert (a + b)[2..4] == a[2..4];
    }
  }

  lemma AuthResponseCodec()
    ensures IsCodec(DecodeAuthResponse, EncodeAuthResponse)
  {
    forall b | DecodeAuthResponse(b).Message?
      ensures EncodeAuthResponse(DecodeAuthResponse(b).value) == Some(b)
    {
      assert b == [b[0], b[1]];
    }
  }

  lemma ConnectResponseCodec()
    ensures IsCodec(DecodeConnectResponse, EncodeConnectResponse)
  {
    forall b | DecodeConnectResponse(b).Message?
      ensures EncodeConnectResponse(DecodeConnectResponse(b).value) == Some(b)
    {
      assert b == [b[0], b[1]];
    }
  }

  lemma DigitsRoundTrip(d: Bytes, width: nat)
    requires OnlyDigits(d) && 5 <= |d| <= width
    ensures DecodeDigits(EncodeDigits(d, width), width) == Message(d)
  {
    var e := EncodeDigits(d, width);
    var r := StripZeros(e);
    assert e[|d| - 1] == d[|d| - 1];
    assert forall i :: |d| <= i < |e| ==> e[i] == 0;
    assert |r| == |d|;
    assert r == d;
  }

  lemma DigitsCanonical(msg: Bytes, width: nat)
    requires DecodeDigits(msg, width).Message?
    ensures EncodeDigits(DecodeDigits(msg, width).value, width) == msg
  {
    var d := StripZeros(msg);
    assert msg == d + Zeros(width - |d|);
  }

  lemma ProviderAndNumberRoundTrip(p: Uuid, n: LocalId)
    requires 0 <= n < Limit(8)
    ensures DecodeProviderAndNumber(EncodeProviderAndNumber(p, n).value) == Message((p, n))
  {
    var e := EncodeProviderAndNumber(p, n).value;
    assert e[..16] == p && e[16..] == Pack(n, 8);
    UnpackPack(n, 8);
  }

  lemma ProviderAndNumberCanonical(msg: Bytes)
    requires DecodeProviderAndNumber(msg).Message?
    ensures var (p, n) := DecodeProviderAndNumber(msg).value; EncodeProviderAndNumber(p, n) == Some(msg)
  {
    PackUnpack(msg[16..]);
    assert msg == msg[..16] + msg[16..];
  }

  lemma IdentifierRoundTrip(i: Identifier)
    requires EncodeIdentifier(i).Some?
    ensures DecodeIdentifier(IdentifierKind(i), EncodeIdentifier(i).value) == Message(i)
  {
    match i
    case SimId(p, n) => ProviderAndNumberRoundTrip(p, n);
    case Iccid(d) => DigitsRoundTrip(d, ICCID_LEN);
    case Imsi(d) => DigitsRoundTrip(d, IMSI_LEN);
    case SimIndex(p, n) => ProviderAndNumberRoundTrip(p, n);
  }

  lemma IdentifierCanonical(kind: byte, msg: Bytes)
    requires DecodeIdentifier(kind, msg).Message?
    ensures var i := DecodeIdentifier(kind, msg).value;
      IdentifierKind(i) == kind && EncodeIdentifier(i) == Some(msg)
  {
    if kind == 0 || kind == 3 {
      ProviderAndNumberCanonical(msg);
    } else {
      DigitsCanonical(msg, if kind == 1 then ICCID_LEN else IMSI_LEN);
    }
  }

  lemma ConnectRequestRoundTrip(m: ConnectRequest)
    requires EncodeConnectRequest(m).Some?
    ensures DecodeConnectRequest(EncodeConnectRequest(m).value) == Message(m)
  {
    IdentifierRoundTrip(m.identifier);
    assert EncodeConnectRequest(m).value[3..] == EncodeIdentifier(m.identifier).value;
  }

  lemma ConnectRequestCanonical(b: Bytes)
    requires DecodeConnectRequest(b).Message?
    ensures EncodeConnectRequest(DecodeConnectRequest(b).value) == Some(b)
  {
    IdentifierCanonical(b[2], b[3..]);
    assert b == [b[0], b[1], b[2]] + b[3..];
  }

  /** The length of an identifier depends on its kind only. */
  function IdentifierLen(kind: byte): nat {
    match kind case 1 => ICCID_LEN case 2 => IMSI_LEN case _ => SIM_ID_LEN
  }

  lemma IdentifierDemand(kind: byte, msg: Bytes)
    requires kind <= 3
    ensures |msg| < IdentifierLen(kind) ==> DecodeIdentifier(kind, msg) == PartialInput(IdentifierLen(kind) - |msg|)
    ensures |msg| >= IdentifierLen(kind) ==> !DecodeIdentifier(kind, msg).PartialInput?
  {
  }

  lemma ConnectRequestDemand(m: ConnectRequest, k: nat)
    requires EncodeConnectRequest(m).Some? && k < |EncodeConnectRequest(m).value|
    ensures var r := DecodeConnectRequest(EncodeConnectRequest(m).value[..k]);
      r.PartialInput? && 1 <= r.missing <= |EncodeConnectRequest(m).value| - k
  {
    var e := EncodeConnectRequest(m).value;
    if k >= 3 {
      IdentifierDemand(e[2], e[..k][3..]);
    }
  }

  lemma ConnectRequestAsksAtMostTwice(a: Bytes, b: Bytes)
    requires |a| == 3 && DecodeConnectRequest(a).PartialInput? && |b| == DecodeConnectRequest(a).missing
    ensures !DecodeConnectRequest(a + b).PartialInput?
  {
    assert a[2] <= 3;
    IdentifierDemand(a[2], a[3..]);
    IdentifierDemand(a[2], (a + b)[3..]);
  }

  lemma ConnectRequestCodec()
    ensures IsCodec(DecodeConnectRequest, EncodeConnectRequest)
  {
    forall m | EncodeConnectRequest(m).Some?
      ensures DecodeConnectRequest(EncodeConnectRequest(m).value) == Message(m)
    {
      ConnectRequestRoundTrip(m);
    }
    forall b | DecodeConnectRequest(b).Message?
      ensures EncodeConnectRequest(DecodeConnectRequest(b).value) == Some(b)
    {
      ConnectRequestCanonical(b);
    }
    forall m, k: nat | EncodeConnectRequest(m).Some? && k < |EncodeConnectRequest(m).value|
      ensures var r := DecodeConnectRequest(EncodeConnectRequest(m).value[..k]);
        r.PartialInput? && 1 <= r.missing <= |EncodeConnectRequest(m).value| - k
    {
      ConnectRequestDemand(m, k);
    }
    forall a, b | |a| == 3 && DecodeConnectRequest(a).PartialInput? && |b| == DecodeConnectRequest(a).missing
      ensures !DecodeConnectRequest(a + b).PartialInput?
    {
      ConnectRequestAsksAtMostTwice(a, b);
    }
  }

  /** Exactly the ids that fit into 64 bits can be sent, although the
      constructor admits any id below 2^192. */
  lemma EncodableIff(m: ConnectRequest)
    ensures EncodeConnectRequest(m).Some? <==>
      match m.identifier
      case SimId(_, id) => 0 <= id < 0x1_0000_0000_0000_0000
      case SimIndex(_, index) => 0 <= index < 0x1_0000_0000_0000_0000
      case _ => true
  {
    Limits();
  }

  /** An id that the constructor admits and the encoder refuses. */
  lemma SixtyFourBitsAreTooFew(provider: Uuid)
    ensures 0x1_0000_0000_0000_0000 < SIM_ID_BOUND
    ensures EncodeConnectRequest(ConnectRequest(false, SimId(provider, 0x1_0000_0000_0000_0000))).None?
  {
    Limits();
    LimitMonotone(9, SIM_ID_LEN);
    EncodableIff(ConnectRequest(false, SimId(provider, 0x1_0000_0000_0000_0000)));
  }

  // ---------- The messages byte by byte ----------

  lemma TwoBytes(n: nat)
    requires n < 0x1_0000
    ensures n < Limit(2) && Pack(n, 2) == [n / 256, n % 256]
  {
    Limits();
    assert Limit(1) == 256 && Limit(0) == 1;
    PackAt(n, 2, 0);
    PackAt(n, 2, 1);
    assert n / 256 % 256 == n / 256;
  }

  /** An APDU packet: version, opcode, four bytes of length, payload. */
  lemma ApduLayout(p: ApduPacket)
    ensures EncodeApdu(p)
         == Some([1, if p.op.Apdu? then 0 else 1, 0, 0, |p.payload| / 256, |p.payload| % 256] + p.payload)
  {
    var n := |p.payload|;
    Limits();
    assert Limit(3) == 0x100_0000 && Limit(1) == 0x100 && Limit(0) == 1;
    PackAt(n, 4, 0);
    PackAt(n, 4, 1);
    PackAt(n, 4, 2);
    PackAt(n, 4, 3);
    assert n / 256 % 256 == n / 256;
    assert Pack(n, 4) == [0, 0, n / 256, n % 256];
    var header: Bytes := [1, if p.op.Apdu? then 0 else 1];
    assert header + [0, 0, n / 256, n % 256] == header + Pack(n, 4);
    assert header + [0, 0, n / 256, n % 256] == [1, if p.op.Apdu? then 0 else 1, 0, 0, n / 256, n % 256];
  }

  /** An authentication request: version, type, two bytes of length, token. */
  lemma AuthRequestLayout(m: AuthRequest)
    ensures EncodeAuthRequest(m)
         == Some([1, if m.authType.Provider? then 1 else 2, |m.token| / 256, |m.token| % 256] + m.token)
  {
    var n := |m.token|;
    TwoBytes(n);
    var header: Bytes := [1, if m.authType.Provider? then 1 else 2];
    assert header + Pack(n, 2) == [1, if m.authType.Provider? then 1 else 2, n / 256, n % 256];
  }

  /** The two responses: version and status. */
  lemma ResponseLayout()
    ensures EncodeAuthResponse(Authenticated) == Some([1, 0])
    ensures EncodeAuthResponse(Unauthorized) == Some([1, 1])
    ensures EncodeAuthResponse(NotRegistered) == Some([1, 3])
    ensures EncodeConnectResponse(Accepted) == Some([1, 0])
    ensures EncodeConnectResponse(NotFound) == Some([1, 1])
    ensures EncodeConnectResponse(Forbidden) == Some([1, 2])
    ensures EncodeConnectResponse(NotAvailable) == Some([1, 3])
    ensures EncodeConnectResponse(ProviderTimedOut) == Some([1, 4])
  {
  }

  /** Sixteen bytes of UUID and eight of number, most significant first. */
  ghost predicate IsProviderAndNumber(bs: Bytes, provider: Uuid, n: int) {
    |bs| == 24 && bs[..16] == provider && n >= 0 && forall i :: 0 <= i < 8 ==> bs[16..][i] == n / Limit(7 - i) % 256
  }

  /** Digits, filled up with NUL. */
  ghost predicate IsPadded(bs: Bytes, digits: Bytes, width: nat) {
    |bs| == width && digits <= bs && forall i :: |digits| <= i < width ==> bs[i] == 0
  }

  /** A connection request: version, the flag "do not wait", the kind of
      identifier, and the identifier. */
  lemma ConnectRequestLayout(m: ConnectRequest)
    requires EncodeConnectRequest(m).Some?
    ensures var e := EncodeConnectRequest(m).value;
      && |e| >= 3 && e[0] == 1 && e[1] == (if m.noWait then 1 else 0)
      && match m.identifier
         case SimId(provider, id) => e[2] == 0 && IsProviderAndNumber(e[3..], provider, id)
         case Iccid(d) => e[2] == 1 && IsPadded(e[3..], d, 20)
         case Imsi(d) => e[2] == 2 && IsPadded(e[3..], d, 15)
         case SimIndex(provider, index) => e[2] == 3 && IsProviderAndNumber(e[3..], provider, index)
  {
    hide Pack;
    var e := EncodeConnectRequest(m).value;
    assert e[3..] == EncodeIdentifier(m.identifier).value;
    match m.identifier
    case SimId(provider, id) => NumberLayout(provider, id);
    case SimIndex(provider, index) => NumberLayout(provider, index);
    case Iccid(d) =>
    case Imsi(d) =>
  }

  lemma NumberLayout(provider: Uuid, n: int)
    requires EncodeProviderAndNumber(provider, n).Some?
    ensures IsProviderAndNumber(EncodeProviderAndNumber(provider, n).value, provider, n)
  {
    hide Limit;
    forall i | 0 <= i < 8 ensures Pack(n, 8)[i] == n / Limit(7 - i) % 256 {
      PackAt(n, 8, i);
    }
  }
}

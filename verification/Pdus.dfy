/** Protocol data units (`ax_interface/pdu.py` and `pdu_implementations.py`): headers, the
    PDU classes, and the decoder that peels PDUs off one buffer. */
module Pdus {
  import opened Common
  import opened Struct
  import opened Encodings
  import opened ItemLoops

  const HEADER_LENGTH := 20

  // ---------------------------------------------------------------- header

  datatype Header = Header(version: nat, type_: nat, flags: nat, reserved: nat,
                           sessionId: nat, transactionId: nat, packetId: nat, payloadLength: nat) {

    predicate NonDefaultContext() {
      flags / 8 % 2 == 1
    }

    function Order(): Endian {
      if flags / 16 % 2 == 1 then Big else Little
    }

    function ToBytes(): (r: Option<Bytes>)
      ensures r.Some? ==> |r.value| == HEADER_LENGTH
    {
      if version < 256 && type_ < 256 && flags < 256 && reserved < 256 then
        var s :- Pack(Order(), sessionId, 4);
        var t :- Pack(Order(), transactionId, 4);
        var p :- Pack(Order(), packetId, 4);
        var l :- Pack(Order(), payloadLength, 4);
        Some([version, type_, flags, reserved] + s + t + p + l)
      else None
    }
  }

  function HeaderFromBytes(bs: Bytes): Header
    requires |bs| >= HEADER_LENGTH
  {
    var tags := Header(bs[0], bs[1], bs[2], bs[3], 0, 0, 0, 0);
    var e := tags.Order();
    tags.(sessionId := Number(e, bs[4..8]), transactionId := Number(e, bs[8..12]),
          packetId := Number(e, bs[12..16]), payloadLength := Number(e, bs[16..20]))
  }

  lemma HeaderRoundTrip(h: Header, rest: Bytes)
    requires h.ToBytes().Some?
    ensures HeaderFromBytes(h.ToBytes().value + rest) == h
  {
    hide Digits, Number;
    var e := h.Order();
    var bs := h.ToBytes().value + rest;
    NumberOfDigits(e, h.sessionId, 4);
    NumberOfDigits(e, h.transactionId, 4);
    NumberOfDigits(e, h.packetId, 4);
    NumberOfDigits(e, h.payloadLength, 4);
    assert bs[4..8] == Digits(e, h.sessionId, 4);
    assert bs[8..12] == Digits(e, h.transactionId, 4);
    assert bs[12..16] == Digits(e, h.packetId, 4);
    assert bs[16..20] == Digits(e, h.payloadLength, 4);
  }

  // ---------------------------------------------------------------- PDUs

  const OPEN := 1
  const CLOSE := 2
  const REGISTER := 3
  const GET := 5
  const GET_NEXT := 6
  const TEST_SET := 8
  const COMMIT_SET := 9
  const UNDO_SET := 10
  const CLEANUP_SET := 11
  const PING := 13
  const RESPONSE := 18

  /** What follows the header.  Of a test-set PDU nothing is kept. */
  datatype Body =
    | Open(timeout: nat, reserved: Bytes, oid: ObjectIdentifier, descr: OctetString)
    | Close(reason: nat, reasonReserved: Bytes)
    | Register(context: Option<OctetString>, timeout: nat, priority: nat, rangeSubid: nat, rangeReserved: nat,
               subtree: ObjectIdentifier, upperBound: Option<nat>)
    | Get(context: Option<OctetString>, sr: seq<SearchRange>)
    | GetNext(context: Option<OctetString>, sr: seq<SearchRange>)
    | TestSet(context: Option<OctetString>)
    | CommitSet
    | UndoSet
    | CleanupSet
    | Ping(context: Option<OctetString>)
    | Response(sysUpTime: nat, error: nat, index: nat, values: seq<VarBind>)

  datatype Pdu = Pdu(header: Header, body: Body)

  function TypeOf(b: Body): nat {
    match b
    case Open(_, _, _, _) => OPEN
    case Close(_, _) => CLOSE
    case Register(_, _, _, _, _, _, _) => REGISTER
    case Get(_, _) => GET
    case GetNext(_, _) => GET_NEXT
    case TestSet(_) => TEST_SET
    case CommitSet => COMMIT_SET
    case UndoSet => UNDO_SET
    case CleanupSet => CLEANUP_SET
    case Ping(_) => PING
    case Response(_, _, _, _) => RESPONSE
  }

  // ---------------------------------------------------------------- encoding

  function RangeFormat(e: Endian): Format<SearchRange> {
    Format((sr: SearchRange) => sr.ToBytes(e), bs => RangeFromBytes(bs, e), (sr: SearchRange) => sr.Size())
  }

  function VarBindFormat(e: Endian): Format<VarBind> {
    Format((v: VarBind) => v.ToBytes(e), bs => VarBindFromBytes(bs, e), (v: VarBind) => v.Size())
  }

  lemma FormatsLawful(e: Endian)
    ensures Lawful(RangeFormat(e)) && Lawful(VarBindFormat(e))
  {
  }

  function ContextToBytes(c: Option<OctetString>, e: Endian): Option<Bytes> {
    if c.None? then Some([]) else c.value.ToBytes(e)
  }

  function FourBytes(a: nat, b: nat, c: nat, d: nat): (r: Option<Bytes>)
    ensures r.Some? ==> |r.value| == 4
  {
    if a < 256 && b < 256 && c < 256 && d < 256 then Some([a, b, c, d]) else None
  }

  /** The bytes `encode` puts after the header.  A Close or TestSet PDU adds nothing of its
      own fields. */
  function BodyToBytes(b: Body, e: Endian): Option<Bytes> {
    match b
    case Open(timeout, reserved, oid, descr) =>
      (if timeout >= 256 then None else
       var o :- oid.ToBytes(e);
       var d :- descr.ToBytes(e);
       Some([timeout] + Fit(3, reserved) + (o + d)))
    case Register(context, timeout, priority, rangeSubid, rangeReserved, subtree, upperBound) =>
      (var c :- ContextToBytes(context, e);
       var f :- FourBytes(timeout, priority, rangeSubid, rangeReserved);
       var s :- subtree.ToBytes(e);
       var u :- if upperBound.Some? then Pack(e, upperBound.value, 4) else Some([]);
       Some(c + (f + (s + u))))
    case Get(context, sr) =>
      (var c :- ContextToBytes(context, e);
       var s :- EncodeAll(RangeFormat(e), sr);
       Some(c + s))
    case GetNext(context, sr) =>
      (var c :- ContextToBytes(context, e);
       var s :- EncodeAll(RangeFormat(e), sr);
       Some(c + s))
    case TestSet(context) => ContextToBytes(context, e)
    case Ping(context) => ContextToBytes(context, e)
    case Response(sysUpTime, error, index, values) =>
      (var t :- Pack(e, sysUpTime, 4);
       var r :- Pack(e, error, 2);
       var i :- Pack(e, index, 2);
       var v :- EncodeAll(VarBindFormat(e), values);
       Some(t + r + i + v))
    case _ => Some([])
  }

  /** `encode`; `None` is the exception a field out of range raises. */
  function EncodePdu(p: Pdu): Option<Bytes> {
    var h :- p.header.ToBytes();
    var b :- BodyToBytes(p.body, p.header.Order());
    Some(h + b)
  }

  // ---------------------------------------------------------------- decoding

  /** A decoded PDU and the bytes it leaves in the buffer. */
  datatype Decoded = Decoded(pdu: Pdu, trailing: Bytes)

  function DecodeRanges(e: Endian, bs: Bytes, budget: int): (r: Option<Items<SearchRange>>)
    ensures r.Some? ==> |r.value.trailing| <= |bs|
  {
    FormatsLawful(e);
    DecodeAll(RangeFormat(e), bs, budget)
  }

  function DecodeValues(e: Endian, bs: Bytes, budget: int): (r: Option<Items<VarBind>>)
    ensures r.Some? ==> |r.value.trailing| <= |bs|
  {
    FormatsLawful(e);
    DecodeAll(VarBindFormat(e), bs, budget)
  }

  /** The optional context at the head of the payload. */
  function ParseContext(h: Header, bs: Bytes): (r: Option<(Option<OctetString>, Bytes)>)
    ensures r.Some? ==> |r.value.1| <= |bs|
  {
    if !h.NonDefaultContext() then Some((None, bs))
    else
      var c :- OctetsFromBytes(bs, h.Order());
      Some((Some(c), bs[c.Size()..]))
  }

  function DecodeOpen(h: Header, bs: Bytes): (r: Option<Decoded>)
    ensures r.Some? ==> |r.value.trailing| <= |bs|
  {
    if |bs| < 4 then None else
    var oid :- OidFromBytes(bs[4..], h.Order());
    var rest := bs[4 + oid.Size()..];
    var descr :- OctetsFromBytes(rest, h.Order());
    Some(Decoded(Pdu(h, Open(bs[0], bs[1..4], oid, descr)), rest[descr.Size()..]))
  }

  function DecodeRegister(h: Header, bs: Bytes): (r: Option<Decoded>)
    ensures r.Some? ==> |r.value.trailing| <= |bs|
  {
    var (context, fields) :- ParseContext(h, bs);
    RegisterFields(h, context, fields)
  }

  function RegisterFields(h: Header, context: Option<OctetString>, bs: Bytes): (r: Option<Decoded>)
    ensures r.Some? ==> |r.value.trailing| <= |bs|
  {
    if |bs| < 4 then None else
    var subtree :- OidFromBytes(bs[4..], h.Order());
    var rest := bs[4 + subtree.Size()..];
    if bs[2] == 0 then Some(Decoded(Pdu(h, Register(context, bs[0], bs[1], 0, bs[3], subtree, None)), rest))
    else if |rest| < 4 then None
    else
      var upper := Number(h.Order(), rest[..4]);
      Some(Decoded(Pdu(h, Register(context, bs[0], bs[1], bs[2], bs[3], subtree, Some(upper))), rest[4..]))
  }

  function DecodeResponse(h: Header, bs: Bytes): (r: Option<Decoded>)
    ensures r.Some? ==> |r.value.trailing| <= |bs|
  {
    if |bs| < 8 then None else
    var e := h.Order();
    var vs :- DecodeValues(e, bs[8..], h.payloadLength - 8);
    Some(Decoded(Pdu(h, Response(Number(e, bs[..4]), Number(e, bs[4..6]), Number(e, bs[6..8]), vs.items)), vs.trailing))
  }

  /** The constructors, by type code.  A Close PDU leaves its four payload bytes in the
      buffer, a TestSet PDU reads bindings to the end of the buffer whatever its length says;
      an unknown type is an error. */
  function DecodeBody(h: Header, bs: Bytes): (r: Option<Decoded>)
    ensures r.Some? ==> |r.value.trailing| <= |bs|
  {
    match h.type_
    case 1 => DecodeOpen(h, bs)
    case 2 => if |bs| < 4 then None else Some(Decoded(Pdu(h.(payloadLength := 4), Close(bs[0], bs[1..4])), bs))
    case 3 => DecodeRegister(h, bs)
    case 5 =>
      (var (context, rest) :- ParseContext(h, bs);
       var rs :- DecodeRanges(h.Order(), rest, h.payloadLength);
       Some(Decoded(Pdu(h, Get(context, rs.items)), rs.trailing)))
    case 6 =>
      (var (context, rest) :- ParseContext(h, bs);
       var rs :- DecodeRanges(h.Order(), rest, h.payloadLength);
       Some(Decoded(Pdu(h, GetNext(context, rs.items)), rs.trailing)))
    case 8 =>
      (var (context, rest) :- ParseContext(h, bs);
       var all :- DecodeValues(h.Order(), rest, |rest|);
       Some(Decoded(Pdu(h, TestSet(context)), [])))
    case 9 => Some(Decoded(Pdu(h, CommitSet), bs))
    case 10 => Some(Decoded(Pdu(h, UndoSet), bs))
    case 11 => Some(Decoded(Pdu(h, CleanupSet), bs))
    case 13 =>
      (var (context, rest) :- ParseContext(h, bs);
       Some(Decoded(Pdu(h, Ping(context)), rest)))
    case 18 => DecodeResponse(h, bs)
    case _ => None
  }

  /** `PDU.decode`. */
  function Decode(bs: Bytes): (r: Option<Decoded>)
    ensures r.Some? ==> |r.value.trailing| < |bs|
  {
    if |bs| < HEADER_LENGTH then None
    else DecodeBody(HeaderFromBytes(bs), bs[HEADER_LENGTH..])
  }

  /** The PDUs of a buffer up to the first one that cannot be decoded, and whether the
      buffer was used up. */
  datatype Stream = Stream(pdus: seq<Pdu>, complete: bool)

  function DecodeStream(bs: Bytes): Stream
    decreases |bs|
  {
    if bs == [] then Stream([], true)
    else
      match Decode(bs)
      case None => Stream([], false)
      case Some(d) =>
        var more := DecodeStream(d.trailing);
        Stream([d.pdu] + more.pdus, more.complete)
  }

  /** `PDUStream.__iter__`. */
  method ReadStream(data: Bytes) returns (r: Stream)
    ensures r == DecodeStream(data)
  {
    var rest, pdus: seq<Pdu> := data, [];
    while rest != []
      invariant DecodeStream(data) == Stream(pdus + DecodeStream(rest).pdus, DecodeStream(rest).complete)
      decreases |rest|
    {
      var d := Decode(rest);
      if d.None? { return Stream(pdus, false); }
      pdus := pdus + [d.value.pdu];
      rest := d.value.trailing;
    }
    return Stream(pdus, true);
  }
}

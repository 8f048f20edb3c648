/** The stream decoder inverts the encoders, and exactly when a request PDU can be told
    apart from what follows it. */
module PduTheory {
  import opened Common
  import opened Struct
  import opened Encodings
  import opened ItemLoops
  import opened Pdus

  // ---------------------------------------------------------------- items

  ghost predicate RangesWellFormed(sr: seq<SearchRange>) {
    forall i :: 0 <= i < |sr| ==> sr[i].WellFormed()
  }

  ghost predicate ValuesWellFormed(vs: seq<VarBind>) {
    forall i :: 0 <= i < |vs| ==> vs[i].WellFormed()
  }

  function OnWireAll(vs: seq<VarBind>): (r: seq<VarBind>)
    ensures |r| == |vs|
    ensures forall i :: 0 <= i < |vs| ==> r[i] == vs[i].OnWire()
  {
    seq(|vs|, i requires 0 <= i < |vs| => vs[i].OnWire())
  }

  lemma {:induction false} EncodedItems<T>(f: Format<T>, xs: seq<T>, i: nat)
    requires EncodeAll(f, xs).Some? && i < |xs|
    ensures f.encode(xs[i]).Some?
  {
    if i > 0 { EncodedItems(f, xs[1..], i - 1); }
  }

  lemma RangesBecome(sr: seq<SearchRange>, e: Endian)
    requires RangesWellFormed(sr) && EncodeAll(RangeFormat(e), sr).Some?
    ensures AllBecome(RangeFormat(e), sr, sr)
  {
    var f := RangeFormat(e);
    forall i | 0 <= i < |sr| ensures Becomes(f, sr[i], sr[i]) {
      EncodedItems(f, sr, i);
      forall rest ensures f.decode(f.encode(sr[i]).value + rest) == Some(sr[i]) { RangeRoundTrip(sr[i], e, rest); }
      RangeRoundTrip(sr[i], e, []);
    }
  }

  lemma ValuesBecome(vs: seq<VarBind>, e: Endian)
    requires ValuesWellFormed(vs) && EncodeAll(VarBindFormat(e), vs).Some?
    ensures AllBecome(VarBindFormat(e), vs, OnWireAll(vs))
  {
    var f := VarBindFormat(e);
    forall i | 0 <= i < |vs| ensures Becomes(f, vs[i], OnWireAll(vs)[i]) {
      EncodedItems(f, vs, i);
      forall rest ensures f.decode(f.encode(vs[i]).value + rest) == Some(vs[i].OnWire()) {
        VarBindRoundTrip(vs[i], e, rest);
      }
      VarBindRoundTrip(vs[i], e, []);
    }
  }

  // ---------------------------------------------------------------- bodies

  /** A context is present exactly when the header flag announces one. */
  ghost predicate ContextAnnounced(h: Header, c: Option<OctetString>) {
    (c.Some? <==> h.NonDefaultContext()) && (c.Some? ==> c.value.WellFormed())
  }

  lemma ContextDecodes(h: Header, c: Option<OctetString>, rest: Bytes)
    requires ContextAnnounced(h, c) && ContextToBytes(c, h.Order()).Some?
    ensures ParseContext(h, ContextToBytes(c, h.Order()).value + rest) == Some((c, rest))
  {
    var bs := ContextToBytes(c, h.Order()).value;
    if c.Some? {
      OctetsRoundTrip(c.value, h.Order(), rest);
      assert (bs + rest)[c.value.Size()..] == rest;
    } else {
      assert bs + rest == rest;
    }
  }

  /** The PDUs that decode to themselves and leave alone what follows them. */
  ghost predicate Delimited(p: Pdu) {
    && p.header.type_ == TypeOf(p.body)
    && match p.body
       case Open(_, reserved, oid, descr) => |reserved| == 3 && oid.WellFormed() && descr.WellFormed()
       case Close(_, _) => false
       case Register(context, _, _, rangeSubid, _, subtree, upperBound) =>
         ContextAnnounced(p.header, context) && subtree.WellFormed() && (upperBound.Some? <==> rangeSubid != 0)
       case Get(context, sr) => ContextAnnounced(p.header, context) && RangesWellFormed(sr) && LengthFits(p)
       case GetNext(context, sr) => ContextAnnounced(p.header, context) && RangesWellFormed(sr) && LengthFits(p)
       case TestSet(_) => false
       case Ping(context) => ContextAnnounced(p.header, context)
       case Response(_, _, _, values) => ValuesWellFormed(values) && LengthFits(p)
       case _ => true
  }

  /** The header's payload length makes the PDU's read loop stop after its own items. */
  ghost predicate LengthFits(p: Pdu) {
    match p.body
    case Get(_, sr) => Fits(RangeFormat(p.header.Order()), sr, p.header.payloadLength)
    case GetNext(_, sr) => Fits(RangeFormat(p.header.Order()), sr, p.header.payloadLength)
    case Response(_, _, _, values) => Fits(VarBindFormat(p.header.Order()), values, p.header.payloadLength - 8)
    case _ => true
  }

  /** What the receiver sees: integer data reduced to its wire width. */
  function OnWire(p: Pdu): Pdu {
    match p.body
    case Response(t, r, i, values) => p.(body := Response(t, r, i, OnWireAll(values)))
    case _ => p
  }

  lemma OpenDecodes(h: Header, b: Body, rest: Bytes)
    requires b.Open? && |b.reserved| == 3 && b.oid.WellFormed() && b.descr.WellFormed()
    requires BodyToBytes(b, h.Order()).Some?
    ensures DecodeOpen(h, BodyToBytes(b, h.Order()).value + rest) == Some(Decoded(Pdu(h, b), rest))
  {
    var e := h.Order();
    var o, d := b.oid.ToBytes(e).value, b.descr.ToBytes(e).value;
    var head: Bytes := [b.timeout] + b.reserved;
    var bs := BodyToBytes(b, e).value + rest;
    Regroup(head, o, d, rest);
    OidRoundTrip(b.oid, e, d + rest);
    OctetsRoundTrip(b.descr, e, rest);
    assert (d + rest)[b.descr.Size()..] == rest;
    assert bs[0] == head[0] && bs[1..4] == head[1..];
  }

  lemma UpperBoundDecodes(e: Endian, u: Option<nat>, rest: Bytes)
    requires u.Some? ==> Pack(e, u.value, 4).Some?
    ensures u.Some? ==>
      var bs := Pack(e, u.value, 4).value + rest;
      Number(e, bs[..4]) == u.value && bs[4..] == rest
  {
    if u.Some? {
      NumberOfDigits(e, u.value, 4);
      assert (Pack(e, u.value, 4).value + rest)[..4] == Digits(e, u.value, 4);
    }
  }

  lemma RegisterDecodes(h: Header, b: Body, rest: Bytes)
    requires b.Register? && ContextAnnounced(h, b.context) && b.subtree.WellFormed()
    requires b.upperBound.Some? <==> b.rangeSubid != 0
    requires BodyToBytes(b, h.Order()).Some?
    ensures DecodeRegister(h, BodyToBytes(b, h.Order()).value + rest) == Some(Decoded(Pdu(h, b), rest))
  {
    hide ParseContext, ContextToBytes, OidFromBytes, ObjectIdentifier.ToBytes, Header.Order, Number, Digits, Pow256;
    var e := h.Order();
    var c, f := ContextToBytes(b.context, e).value,
      FourBytes(b.timeout, b.priority, b.rangeSubid, b.rangeReserved).value;
    var s := b.subtree.ToBytes(e).value;
    var u: Bytes := if b.upperBound.Some? then Pack(e, b.upperBound.value, 4).value else [];
    var fields := f + (s + u) + rest;
    assert c + (f + (s + u)) + rest == c + fields;
    ContextDecodes(h, b.context, fields);
    Regroup(f, s, u, rest);
    OidRoundTrip(b.subtree, e, u + rest);
    UpperBoundDecodes(e, b.upperBound, rest);
    assert b.upperBound.None? ==> u + rest == rest;
    assert fields[0] == f[0] && fields[1] == f[1] && fields[2] == f[2] && fields[3] == f[3];
    assert RegisterFields(h, b.context, fields) == Some(Decoded(Pdu(h, b), rest));
  }

  lemma Slices(t: Bytes, r: Bytes, i: Bytes, v: Bytes, rest: Bytes)
    requires |t| == 4 && |r| == 2 && |i| == 2
    ensures var bs := t + r + i + v + rest;
            bs[..4] == t && bs[4..6] == r && bs[6..8] == i && bs[8..] == v + rest
  {
  }

  /** Values are read back by any budget that fits. */
  lemma ValuesDecode(vs: seq<VarBind>, e: Endian, rest: Bytes, budget: int)
    requires ValuesWellFormed(vs) && EncodeAll(VarBindFormat(e), vs).Some? && Fits(VarBindFormat(e), vs, budget)
    ensures DecodeValues(e, EncodeAll(VarBindFormat(e), vs).value + rest, budget) == Some(Items(OnWireAll(vs), rest))
  {
    hide VarBindFormat, EncodeAll, DecodeAll, Reaches, TotalSize, OnWireAll, Lawful;
    FormatsLawful(e);
    ValuesBecome(vs, e);
    ReadBack(VarBindFormat(e), vs, OnWireAll(vs), rest, budget);
  }

  lemma ResponseDecodes(h: Header, b: Body, rest: Bytes)
    requires b.Response? && ValuesWellFormed(b.values) && BodyToBytes(b, h.Order()).Some?
    requires Fits(VarBindFormat(h.Order()), b.values, h.payloadLength - 8)
    ensures DecodeResponse(h, BodyToBytes(b, h.Order()).value + rest) ==
            Some(Decoded(Pdu(h, b.(values := OnWireAll(b.values))), rest))
  {
    hide VarBindFormat, EncodeAll, DecodeValues, Reaches, TotalSize, Header.Order, Number, OnWireAll, Digits, Pow256;
    var e := h.Order();
    var t, r, i := Pack(e, b.sysUpTime, 4).value, Pack(e, b.error, 2).value, Pack(e, b.index, 2).value;
    var v := EncodeAll(VarBindFormat(e), b.values).value;
    ValuesDecode(b.values, e, rest, h.payloadLength - 8);
    NumberOfDigits(e, b.sysUpTime, 4);
    NumberOfDigits(e, b.error, 2);
    NumberOfDigits(e, b.index, 2);
    Slices(t, r, i, v, rest);
  }

  /** The payload length lets the read loop of a request get to its last range. */
  ghost predicate LengthReaches(p: Pdu)
    requires p.body.Get? || p.body.GetNext?
  {
    Reaches(RangeFormat(p.header.Order()), p.body.sr, p.header.payloadLength)
  }

  /** A request decodes to itself exactly when its length fits, or, at the end of the
      buffer, when its length is not too short. */
  lemma RequestDecodes(p: Pdu, rest: Bytes)
    requires p.body.Get? || p.body.GetNext?
    requires p.header.type_ == TypeOf(p.body) && ContextAnnounced(p.header, p.body.context) &&
             RangesWellFormed(p.body.sr)
    requires BodyToBytes(p.body, p.header.Order()).Some?
    ensures DecodeBody(p.header, BodyToBytes(p.body, p.header.Order()).value + rest) == Some(Decoded(p, rest)) <==>
            if rest == [] then LengthReaches(p) else LengthFits(p)
  {
    hide ParseContext, ContextToBytes, RangeFormat, EncodeAll, DecodeAll, Reaches, Header.Order;
    var e := p.header.Order();
    var c, s := ContextToBytes(p.body.context, e).value, EncodeAll(RangeFormat(e), p.body.sr).value;
    assert c + s + rest == c + (s + rest);
    ContextDecodes(p.header, p.body.context, s + rest);
    RangesBecome(p.body.sr, e);
    FormatsLawful(e);
    ReadBack(RangeFormat(e), p.body.sr, p.body.sr, rest, p.header.payloadLength);
  }

  // ---------------------------------------------------------------- whole PDUs

  lemma EmptyFront(bs: Bytes, rest: Bytes)
    ensures bs == [] ==> bs + rest == rest
  {
  }

  lemma BodyDecodes(p: Pdu, rest: Bytes)
    requires Delimited(p) && BodyToBytes(p.body, p.header.Order()).Some?
    ensures DecodeBody(p.header, BodyToBytes(p.body, p.header.Order()).value + rest) == Some(Decoded(OnWire(p), rest))
  {
    hide DecodeOpen, DecodeRegister, DecodeResponse, ParseContext, ContextToBytes, Header.Order, OnWireAll, EncodeAll,
      DecodeRanges, DecodeValues, RangeFormat, Reaches, VarBindFormat;
    var bs := BodyToBytes(p.body, p.header.Order()).value;
    match p.body
    case Open(_, _, _, _) => OpenDecodes(p.header, p.body, rest);
    case Register(_, _, _, _, _, _, _) => RegisterDecodes(p.header, p.body, rest);
    case Get(_, _) => RequestDecodes(p, rest);
    case GetNext(_, _) => RequestDecodes(p, rest);
    case Response(_, _, _, _) => ResponseDecodes(p.header, p.body, rest);
    case Ping(context) => ContextDecodes(p.header, context, rest);
    case _ => EmptyFront(bs, rest);
  }

  lemma DecodeHeaderFirst(p: Pdu, rest: Bytes)
    requires EncodePdu(p).Some?
    ensures Decode(EncodePdu(p).value + rest) ==
            DecodeBody(p.header, BodyToBytes(p.body, p.header.Order()).value + rest)
  {
    hide DecodeBody, BodyToBytes, Header.Order;
    var h, b := p.header.ToBytes().value, BodyToBytes(p.body, p.header.Order()).value;
    assert h + b + rest == h + (b + rest);
    HeaderRoundTrip(p.header, b + rest);
    assert (h + (b + rest))[HEADER_LENGTH..] == b + rest;
  }

  /** Decoding an encoded PDU consumes exactly its own bytes. */
  lemma DecodeEncode(p: Pdu, rest: Bytes)
    requires Delimited(p) && EncodePdu(p).Some?
    ensures Decode(EncodePdu(p).value + rest) == Some(Decoded(OnWire(p), rest))
  {
    DecodeHeaderFirst(p, rest);
    BodyDecodes(p, rest);
  }

  function EncodeStream(ps: seq<Pdu>): Option<Bytes> {
    if ps == [] then Some([])
    else
      var one :- EncodePdu(ps[0]);
      var more :- EncodeStream(ps[1..]);
      Some(one + more)
  }

  function OnWireStream(ps: seq<Pdu>): (r: seq<Pdu>)
    ensures |r| == |ps|
    ensures forall i :: 0 <= i < |ps| ==> r[i] == OnWire(ps[i])
  {
    seq(|ps|, i requires 0 <= i < |ps| => OnWire(ps[i]))
  }

  /** Decoding the concatenation of any encoded PDUs, of any kinds and byte orders, gives
      them all back in order and uses up the buffer. */
  lemma {:induction false} StreamInverse(ps: seq<Pdu>)
    requires forall i :: 0 <= i < |ps| ==> Delimited(ps[i])
    requires EncodeStream(ps).Some?
    ensures DecodeStream(EncodeStream(ps).value) == Stream(OnWireStream(ps), true)
  {
    hide EncodePdu, Decode, OnWire, Delimited;
    if ps != [] {
      var more := EncodeStream(ps[1..]).value;
      StreamInverse(ps[1..]);
      DecodeEncode(ps[0], more);
      assert OnWireStream(ps) == [OnWire(ps[0])] + OnWireStream(ps[1..]);
    }
  }

  /** A Get or GetNext PDU can be followed by another PDU exactly when its length fits; at
      the end of the buffer its length need only not be too short. */
  lemma RequestDelimitedIff(p: Pdu, rest: Bytes)
    requires p.body.Get? || p.body.GetNext?
    requires p.header.type_ == TypeOf(p.body) && ContextAnnounced(p.header, p.body.context) &&
             RangesWellFormed(p.body.sr)
    requires EncodePdu(p).Some?
    ensures Decode(EncodePdu(p).value + rest) == Some(Decoded(p, rest)) <==>
            if rest == [] then LengthReaches(p) else LengthFits(p)
  {
    hide DecodeBody, BodyToBytes, Decode, LengthFits, LengthReaches;
    DecodeHeaderFirst(p, rest);
    EncodedBody(p);
    RequestDecodes(p, rest);
  }

  lemma EncodedBody(p: Pdu)
    requires EncodePdu(p).Some?
    ensures BodyToBytes(p.body, p.header.Order()).Some?
    ensures |EncodePdu(p).value| == HEADER_LENGTH + |BodyToBytes(p.body, p.header.Order()).value|
  {
  }

  // ---------------------------------------------------------------- lengths

  /** What the encoded PDU carries after its header; `payload_length` in the constructors. */
  function PayloadLength(p: Pdu): Option<nat> {
    var b :- BodyToBytes(p.body, p.header.Order());
    Some(|b|)
  }

  /** For a request whose header states its payload length: without a context the length
      fits, with one it never does, because the read loop does not count the context. */
  lemma StatedLength(p: Pdu)
    requires p.body.Get? || p.body.GetNext?
    requires RangesWellFormed(p.body.sr) && ContextAnnounced(p.header, p.body.context) && EncodePdu(p).Some?
    requires p.header.payloadLength == PayloadLength(p).value
    ensures LengthFits(p) <==> p.body.context.None?
    ensures LengthReaches(p)
  {
    PayloadOfRequest(p);
  }

  lemma RangesTotal(sr: seq<SearchRange>, e: Endian)
    requires RangesWellFormed(sr) && EncodeAll(RangeFormat(e), sr).Some?
    ensures |EncodeAll(RangeFormat(e), sr).value| == TotalSize(RangeFormat(e), sr)
    ensures forall n :: n >= TotalSize(RangeFormat(e), sr) ==> Reaches(RangeFormat(e), sr, n)
  {
    hide RangeFormat, EncodeAll, TotalSize, Lawful, AllBecome;
    var f := RangeFormat(e);
    FormatsLawful(e);
    RangesBecome(sr, e);
    EncodedLength(f, sr, sr);
    if sr != [] {
      BecomesPositive(f, sr, sr);
      LastSize(f, sr);
    }
  }

  lemma ContextSize(c: Option<OctetString>, e: Endian)
    requires (c.Some? ==> c.value.WellFormed()) && ContextToBytes(c, e).Some?
    ensures |ContextToBytes(c, e).value| == if c.Some? then c.value.Size() else 0
  {
    if c.Some? { OctetsRoundTrip(c.value, e, []); }
  }

  lemma PayloadOfRequest(p: Pdu)
    requires p.body.Get? || p.body.GetNext?
    requires RangesWellFormed(p.body.sr) && (p.body.context.Some? ==> p.body.context.value.WellFormed()) &&
             EncodePdu(p).Some?
    ensures PayloadLength(p).value == TotalSize(RangeFormat(p.header.Order()), p.body.sr) +
              (if p.body.context.Some? then p.body.context.value.Size() else 0)
    ensures forall n :: n >= PayloadLength(p).value ==> Reaches(RangeFormat(p.header.Order()), p.body.sr, n)
  {
    hide RangeFormat, Header.Order, Header.ToBytes, EncodeAll, TotalSize, Reaches, ContextToBytes, OctetString.Size;
    var e := p.header.Order();
    RangesTotal(p.body.sr, e);
    ContextSize(p.body.context, e);
  }

  /** A request built locally (`GetPDU` with `oids`): one range per OID, ending at its
      increment, and a length that counts the header too.  A header announcing a context
      makes the constructor fail. */
  function MakeGet(h: Header, oids: seq<ObjectIdentifier>): Option<Pdu> {
    if h.NonDefaultContext() then None
    else
      var sr :- PointRanges(oids);
      var p := Pdu(h.(type_ := GET), Get(None, sr));
      var bytes :- EncodePdu(p);
      Some(p.(header := p.header.(payloadLength := |bytes|)))
  }

  function PointRanges(oids: seq<ObjectIdentifier>): (r: Option<seq<SearchRange>>)
    ensures r.Some? && (forall i :: 0 <= i < |oids| ==> oids[i].WellFormed()) ==> RangesWellFormed(r.value)
  {
    if oids == [] then Some([])
    else
      var end :- oids[0].Inc();
      var more :- PointRanges(oids[1..]);
      Some([SearchRange(oids[0], end)] + more)
  }

  lemma {:induction false} PointRange(oids: seq<ObjectIdentifier>, i: nat)
    requires PointRanges(oids).Some? && i < |oids|
    ensures |PointRanges(oids).value| == |oids|
    ensures var (sr, subids) := (PointRanges(oids).value[i], oids[i].subids);
      sr.start == oids[i] && subids != [] && |sr.end.subids| == |subids| &&
      sr.end == oids[i].(subids := sr.end.subids) &&
      forall j :: 0 <= j < |subids| ==> sr.end.subids[j] == subids[j] + (if j == |subids| - 1 then 1 else 0)
  {
    if i > 0 { PointRange(oids[1..], i - 1); } else if |oids| > 1 { PointRange(oids[1..], 0); }
  }

  /** The ranges of a locally built request: each goes from a name up to the same name with its
      last sub-id one higher. */
  lemma LocalGetRanges(h: Header, oids: seq<ObjectIdentifier>, i: nat)
    requires MakeGet(h, oids).Some? && i < |oids|
    ensures MakeGet(h, oids).value.body.Get? && |MakeGet(h, oids).value.body.sr| == |oids|
    ensures var (sr, subids) := (MakeGet(h, oids).value.body.sr[i], oids[i].subids);
      sr.start == oids[i] && subids != [] && |sr.end.subids| == |subids| &&
      forall j :: 0 <= j < |subids| ==> sr.end.subids[j] == subids[j] + (if j == |subids| - 1 then 1 else 0)
  {
    hide EncodePdu, PointRanges;
    PointRange(oids, i);
  }

  /** A locally built request states 20 bytes too many: it decodes to itself at the end of a
      buffer, and never does when anything follows it. */
  lemma LocalGetOverstates(h: Header, oids: seq<ObjectIdentifier>, rest: Bytes)
    requires forall i :: 0 <= i < |oids| ==> oids[i].WellFormed()
    requires MakeGet(h, oids).Some? && EncodePdu(MakeGet(h, oids).value).Some?
    ensures var p := MakeGet(h, oids).value;
      p.header.payloadLength == PayloadLength(p).value + HEADER_LENGTH &&
      (Decode(EncodePdu(p).value + rest) == Some(Decoded(p, rest)) <==> rest == [])
  {
    var p := MakeGet(h, oids).value;
    EncodedBody(Pdu(h.(type_ := GET), p.body));
    PayloadOfRequest(p);
    RequestDelimitedIff(p, rest);
  }

  // ---------------------------------------------------------------- PDUs that are not delimited

  lemma DecodeAfterHeader(h: Header, bs: Bytes)
    requires h.ToBytes().Some?
    ensures Decode(h.ToBytes().value + bs) == DecodeBody(h, bs)
  {
    hide DecodeBody, Header.Order;
    HeaderRoundTrip(h, bs);
    assert (h.ToBytes().value + bs)[HEADER_LENGTH..] == bs;
  }

  /** A Close PDU always leaves its own four payload bytes in front of what follows. */
  lemma CloseLeavesPayload(h: Header, payload: Bytes, rest: Bytes)
    requires h.type_ == CLOSE && h.ToBytes().Some? && |payload| == 4
    ensures Decode(h.ToBytes().value + (payload + rest)) ==
            Some(Decoded(Pdu(h.(payloadLength := 4), Close(payload[0], payload[1..])), payload + rest))
  {
    DecodeAfterHeader(h, payload + rest);
    assert (payload + rest)[1..4] == payload[1..];
  }

  /** A TestSet PDU leaves what follows it if and only if nothing does: whatever its length
      says, it reads on to the end of the buffer. */
  lemma TestSetDelimitedIff(h: Header, c: Option<OctetString>, vs: seq<VarBind>, rest: Bytes)
    requires h.type_ == TEST_SET && h.ToBytes().Some? && ContextAnnounced(h, c) && ContextToBytes(c, h.Order()).Some?
    requires ValuesWellFormed(vs) && EncodeAll(VarBindFormat(h.Order()), vs).Some?
    ensures var payload := ContextToBytes(c, h.Order()).value + EncodeAll(VarBindFormat(h.Order()), vs).value;
      Decode(h.ToBytes().value + (payload + rest)) == Some(Decoded(Pdu(h, TestSet(c)), rest)) <==> rest == []
  {
    hide Decode, ParseContext, ContextToBytes, DecodeValues, EncodeAll, VarBindFormat, Header.Order, Reaches, Lawful;
    var e := h.Order();
    var cs, bs := ContextToBytes(c, e).value, EncodeAll(VarBindFormat(e), vs).value;
    assert cs + bs + rest == cs + (bs + rest);
    DecodeAfterHeader(h, cs + bs + rest);
    ContextDecodes(h, c, bs + rest);
    if rest == [] {
      FormatsLawful(e);
      ValuesBecome(vs, e);
      EncodedLength(VarBindFormat(e), vs, OnWireAll(vs));
      TotalFits(VarBindFormat(e), vs, OnWireAll(vs));
      assert bs + rest == bs;
      ValuesDecode(vs, e, rest, |bs|);
    }
  }
}

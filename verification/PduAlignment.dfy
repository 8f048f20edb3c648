/** Everything put on the wire is a whole number of four-byte words. */
module PduAlignment {
  import opened Common
  import opened Struct
  import opened Encodings
  import opened ItemLoops
  import opened Pdus
  import opened PduTheory

  predicate Words(bs: Bytes) {
    |bs| % 4 == 0
  }

  lemma WordsJoin(a: Bytes, b: Bytes)
    requires Words(a) && Words(b)
    ensures Words(a + b)
  {
  }

  lemma OidAligned(o: ObjectIdentifier, e: Endian)
    ensures o.ToBytes(e).Some? ==> Words(o.ToBytes(e).value)
  {
  }

  lemma OctetsAligned(o: OctetString, e: Endian)
    ensures o.ToBytes(e).Some? ==> Words(o.ToBytes(e).value)
  {
    hide Pow256, Digits;
    if o.ToBytes(e).Some? { assert |o.ToBytes(e).value| == 4 + (o.length + Pad4(o.length)); }
  }

  lemma ContextAligned(c: Option<OctetString>, e: Endian)
    ensures ContextToBytes(c, e).Some? ==> Words(ContextToBytes(c, e).value)
  {
    if c.Some? { OctetsAligned(c.value, e); }
  }

  lemma DataAligned(v: VarBind, e: Endian)
    ensures v.DataBytes(e).Some? ==> Words(v.DataBytes(e).value)
  {
    hide ObjectIdentifier.ToBytes, OctetString.ToBytes, Pow256, Digits;
    match v.data
    case Str(s) => OctetsAligned(s, e);
    case Name(o) => OidAligned(o, e);
    case _ =>
  }

  lemma BindingAligned(v: VarBind, e: Endian)
    ensures v.ToBytes(e).Some? ==> Words(v.ToBytes(e).value)
  {
    hide ObjectIdentifier.ToBytes, VarBind.DataBytes, Pow256, Digits, Words;
    if v.ToBytes(e).Some? {
      var head := Pack(e, v.type_.Code(), 2).value + Pack(e, v.reserved, 2).value;
      OidAligned(v.name, e);
      DataAligned(v, e);
      WordsJoin(v.name.ToBytes(e).value, v.DataBytes(e).value);
      FourIsAWord(head);
      WordsJoin(head, v.name.ToBytes(e).value + v.DataBytes(e).value);
    }
  }

  lemma FourIsAWord(bs: Bytes)
    ensures |bs| == 0 || |bs| == 4 || |bs| == 8 ==> Words(bs)
  {
  }

  lemma OpenAligned(b: Body, e: Endian)
    requires b.Open? && BodyToBytes(b, e).Some?
    ensures Words(BodyToBytes(b, e).value)
  {
    hide ObjectIdentifier.ToBytes, OctetString.ToBytes, Words;
    var head, o, d := [b.timeout] + Fit(3, b.reserved), b.oid.ToBytes(e).value, b.descr.ToBytes(e).value;
    OidAligned(b.oid, e);
    OctetsAligned(b.descr, e);
    FourIsAWord(head);
    WordsJoin(o, d);
    WordsJoin(head, o + d);
  }

  lemma RegisterAligned(b: Body, e: Endian)
    requires b.Register? && BodyToBytes(b, e).Some?
    ensures Words(BodyToBytes(b, e).value)
  {
    hide ObjectIdentifier.ToBytes, ContextToBytes, Words, Pow256, Digits;
    var c, f := ContextToBytes(b.context, e).value,
      FourBytes(b.timeout, b.priority, b.rangeSubid, b.rangeReserved).value;
    var s := b.subtree.ToBytes(e).value;
    var u: Bytes := if b.upperBound.Some? then Pack(e, b.upperBound.value, 4).value else [];
    ContextAligned(b.context, e);
    OidAligned(b.subtree, e);
    FourIsAWord(f);
    FourIsAWord(u);
    WordsJoin(s, u);
    WordsJoin(f, s + u);
    WordsJoin(c, f + (s + u));
  }

  lemma RequestAligned(b: Body, e: Endian)
    requires (b.Get? || b.GetNext?) && BodyToBytes(b, e).Some?
    ensures Words(BodyToBytes(b, e).value)
  {
    hide ContextToBytes, EncodeAll, RangeFormat, Words;
    ContextAligned(b.context, e);
    RangesAligned(b.sr, e);
    WordsJoin(ContextToBytes(b.context, e).value, EncodeAll(RangeFormat(e), b.sr).value);
  }

  lemma ResponseAligned(b: Body, e: Endian)
    requires b.Response? && BodyToBytes(b, e).Some?
    ensures Words(BodyToBytes(b, e).value)
  {
    hide EncodeAll, VarBindFormat, Words, Pow256, Digits;
    var head := Pack(e, b.sysUpTime, 4).value + Pack(e, b.error, 2).value + Pack(e, b.index, 2).value;
    ValuesAligned(b.values, e);
    FourIsAWord(head);
    WordsJoin(head, EncodeAll(VarBindFormat(e), b.values).value);
  }

  lemma BodyAligned(b: Body, e: Endian)
    requires BodyToBytes(b, e).Some?
    ensures Words(BodyToBytes(b, e).value)
  {
    hide EncodeAll, RangeFormat, VarBindFormat, ObjectIdentifier.ToBytes, OctetString.ToBytes, Pack, Words;
    match b
    case Open(_, _, _, _) => OpenAligned(b, e);
    case Register(_, _, _, _, _, _, _) => RegisterAligned(b, e);
    case Get(_, _) => RequestAligned(b, e);
    case GetNext(_, _) => RequestAligned(b, e);
    case TestSet(context) => ContextAligned(context, e);
    case Ping(context) => ContextAligned(context, e);
    case Response(_, _, _, _) => ResponseAligned(b, e);
    case _ => FourIsAWord(BodyToBytes(b, e).value);
  }

  /** Every encoded PDU, and its payload, is a whole number of four-byte words, as section 6.1
      of RFC 2741 states of payload lengths. */
  lemma PdusAligned(p: Pdu)
    requires EncodePdu(p).Some?
    ensures |EncodePdu(p).value| % 4 == 0
    ensures PayloadLength(p).value % 4 == 0
  {
    hide BodyToBytes, Header.Order;
    BodyAligned(p.body, p.header.Order());
  }

  lemma RangesAligned(sr: seq<SearchRange>, e: Endian)
    ensures EncodeAll(RangeFormat(e), sr).Some? ==> Words(EncodeAll(RangeFormat(e), sr).value)
  {
    hide ObjectIdentifier.ToBytes;
    forall r | r in sr ensures r.ToBytes(e).Some? ==> Words(r.ToBytes(e).value) {
      OidAligned(r.start, e);
      OidAligned(r.end, e);
    }
    ItemsAligned(RangeFormat(e), sr);
  }

  lemma ValuesAligned(vs: seq<VarBind>, e: Endian)
    ensures EncodeAll(VarBindFormat(e), vs).Some? ==> Words(EncodeAll(VarBindFormat(e), vs).value)
  {
    hide VarBind.ToBytes;
    forall v | v in vs ensures v.ToBytes(e).Some? ==> Words(v.ToBytes(e).value) { BindingAligned(v, e); }
    ItemsAligned(VarBindFormat(e), vs);
  }
}

/** Exactly what can be put on the wire. */
module Encodable {
  import opened Common
  import opened OidOrder
  import opened Struct
  import opened Encodings
  import opened ItemLoops
  import opened Pdus

  ghost predicate EncodableOid(o: ObjectIdentifier) {
    o.nSubid < 256 && o.prefix < 256 && o.inclusive < 256 && o.reserved < 256 &&
    forall i :: 0 <= i < |o.subids| ==> o.subids[i] < 0x1_0000_0000
  }

  /** A name that can be compressed and encoded. */
  ghost predicate FittingName(x: Oid) {
    FromIterable(x).Some? && EncodableOid(FromIterable(x).value)
  }

  lemma {:induction false} SubidsEncode(e: Endian, subids: Oid)
    ensures PackSubids(e, subids).Some? <==> forall i :: 0 <= i < |subids| ==> subids[i] < 0x1_0000_0000
  {
    Widths();
    if subids != [] { SubidsEncode(e, subids[1..]); }
  }

  lemma OidEncodes(o: ObjectIdentifier, e: Endian)
    ensures o.ToBytes(e).Some? <==> EncodableOid(o)
  {
    SubidsEncode(e, o.subids);
  }

  lemma HeaderEncodes(h: Header)
    ensures h.ToBytes().Some? <==>
      h.version < 256 && h.type_ < 256 && h.flags < 256 && h.reserved < 256 && h.sessionId < 0x1_0000_0000 &&
      h.transactionId < 0x1_0000_0000 && h.packetId < 0x1_0000_0000 && h.payloadLength < 0x1_0000_0000
  {
    Widths();
  }

  // ---------------------------------------------------------------- bindings

  /** Data of the kind its type calls for fits: integers always do, being masked. */
  ghost predicate EncodableData(v: VarBind) {
    && (v.type_.Octets() ==> v.data.Str? && v.data.s.length < 0x1_0000_0000)
    && (v.type_.OBJECT_IDENTIFIER? ==> v.data.Name? && EncodableOid(v.data.o))
  }

  ghost predicate EncodableBinding(v: VarBind) {
    v.reserved < 0x1_0000 && EncodableOid(v.name) && EncodableData(v)
  }

  lemma DataEncodes(v: VarBind, e: Endian)
    requires v.WellFormed()
    ensures v.DataBytes(e).Some? <==> EncodableData(v)
  {
    hide ObjectIdentifier.ToBytes, EncodableOid, Pow256, Digits;
    Widths();
    match v.data
    case Name(o) => OidEncodes(o, e);
    case _ =>
  }

  lemma BindingEncodes(v: VarBind, e: Endian)
    requires v.WellFormed()
    ensures v.ToBytes(e).Some? <==> EncodableBinding(v)
  {
    hide ObjectIdentifier.ToBytes, VarBind.DataBytes, EncodableOid, EncodableData, Pow256, Digits;
    Widths();
    OidEncodes(v.name, e);
    DataEncodes(v, e);
  }

  lemma {:induction false} AllEncode<T>(f: Format<T>, xs: seq<T>)
    ensures EncodeAll(f, xs).Some? <==> forall i :: 0 <= i < |xs| ==> f.encode(xs[i]).Some?
  {
    if xs != [] { AllEncode(f, xs[1..]); }
  }

  ghost predicate EncodableBindings(vs: seq<VarBind>) {
    forall i :: 0 <= i < |vs| ==> EncodableBinding(vs[i])
  }

  lemma BindingsEncode(vs: seq<VarBind>, e: Endian)
    requires forall i :: 0 <= i < |vs| ==> vs[i].WellFormed()
    ensures EncodeAll(VarBindFormat(e), vs).Some? <==> EncodableBindings(vs)
  {
    hide VarBind.ToBytes, EncodableBinding;
    AllEncode(VarBindFormat(e), vs);
    forall i | 0 <= i < |vs| ensures vs[i].ToBytes(e).Some? <==> EncodableBinding(vs[i]) { BindingEncodes(vs[i], e); }
  }

  // ---------------------------------------------------------------- headers that were received

  lemma {:induction false} NumberFits(e: Endian, bs: Bytes)
    ensures Number(e, bs) < Pow256(|bs|)
    decreases |bs|
  {
    if bs != [] { NumberFits(e, if e.Little? then bs[1..] else bs[..|bs| - 1]); }
  }

  lemma HeaderReencodes(bs: Bytes)
    requires |bs| >= HEADER_LENGTH
    ensures HeaderFromBytes(bs).ToBytes().Some?
  {
    var h := HeaderFromBytes(bs);
    var e := h.Order();
    NumberFits(e, bs[4..8]);
    NumberFits(e, bs[8..12]);
    NumberFits(e, bs[12..16]);
    NumberFits(e, bs[16..20]);
  }

  /** The header of a decoded PDU is the one at the head of the buffer, except for the length
      of a Close PDU. */
  lemma DecodedHeader(bs: Bytes)
    requires Decode(bs).Some?
    ensures |bs| >= HEADER_LENGTH
    ensures var h := Decode(bs).value.pdu.header;
      h == HeaderFromBytes(bs) || h == HeaderFromBytes(bs).(payloadLength := 4)
  {
    hide HeaderFromBytes, OidFromBytes, DecodeRanges, DecodeValues, ParseContext, OctetsFromBytes;
  }

  /** Every header received can be sent again. */
  lemma {:induction false} ReceivedHeaders(bs: Bytes, p: Pdu)
    requires p in DecodeStream(bs).pdus
    ensures p.header.ToBytes().Some?
    decreases |bs|
  {
    hide Decode, Header.ToBytes;
    if p == Decode(bs).value.pdu {
      DecodedHeader(bs);
      HeaderReencodes(bs);
      HeaderEncodes(HeaderFromBytes(bs));
      HeaderEncodes(HeaderFromBytes(bs).(payloadLength := 4));
    } else {
      ReceivedHeaders(Decode(bs).value.trailing, p);
    }
  }
}

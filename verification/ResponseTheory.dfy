/** Which requests obtain a response: exactly those whose lookups return, whose bindings can be
    put on the wire and whose response is not too long; over a table that fits the wire, all. */
module ResponseTheory {
  import opened Common
  import opened OidOrder
  import opened Struct
  import opened Encodable
  import opened Encodings
  import opened ItemLoops
  import opened Pdus
  import opened PduTheory
  import opened Session
  import opened SessionTheory
  import M = Mib
  import T = MibTheory
  import W = MibWalk

  // ---------------------------------------------------------------- lookups return

  lemma ValueReturns(t: M.MibTable, p: Oid, k: Oid)
    requires T.WellTyped(t) && p in t.entries && t.entries[p].Call(k).Some?
    ensures M.FromTypecast(t.entries[p].valueType, p + k, t.entries[p].Call(k).value).Returned?
  {
    assert T.Typed(t.entries[p]);
  }

  lemma GetReturns(t: M.MibTable, p: Oid, key: Oid)
    requires T.WellTyped(t) && p in t.entries && p <= key
    ensures M.GetValue(t.entries[p], key).Returned? && M.GetNextValue(t.entries[p], key).Returned?
  {
    hide M.FromTypecast, T.WellTyped;
    var e, k := t.entries[p], key[|p|..];
    assert key == p + k && key[..|p|] == p;
    if e.Call(k).Some? { ValueReturns(t, p, k); }
    if e.Next(k).Some? && e.Call(e.Next(k).value).Some? { ValueReturns(t, p, e.Next(k).value); }
  }

  lemma {:induction false} ScanReturns(t: M.MibTable, cols: seq<Oid>, end: Oid)
    requires T.WellTyped(t) && forall p :: p in cols ==> p in t.entries
    ensures M.Scan(t, cols, end).Returned?
  {
    hide M.FromTypecast, T.WellTyped;
    if cols != [] {
      var e := t.entries[cols[0]];
      assert cols[0][..|cols[0]|] == cols[0];
      if e.First().Some? && e.Call(e.First().value).Some? { ValueReturns(t, cols[0], e.First().value); }
      ScanReturns(t, cols[1..], end);
    }
  }

  /** On a well-typed table no lookup raises. */
  lemma LookupReturns(t: M.MibTable, next: bool, sr: SearchRange)
    requires T.WellTyped(t)
    ensures AnswerOne(t, next, sr).Some?
  {
    hide M.GetValue, M.GetNextValue, M.Scan, T.WellTyped;
    var key := sr.start.ToTuple();
    if M.FindParentPrefix(t, key).Some? { GetReturns(t, M.FindParentPrefix(t, key).value, key); }
    ScanReturns(t, M.Remaining(t, key), sr.end.ToTuple());
  }

  lemma {:induction false} LookupsReturn(t: M.MibTable, next: bool, srs: seq<SearchRange>)
    requires T.WellTyped(t)
    ensures AnswerAll(t, next, srs).Some?
  {
    hide AnswerOne, T.WellTyped;
    if srs != [] {
      LookupsReturn(t, next, srs[..|srs| - 1]);
      LookupReturns(t, next, srs[|srs| - 1]);
    }
  }

  // ---------------------------------------------------------------- responses encode

  function SizeOf(vs: seq<VarBind>): nat {
    if vs == [] then 0 else vs[0].Size() + SizeOf(vs[1..])
  }

  lemma {:induction false} SizeIsTotal(vs: seq<VarBind>, e: Endian)
    ensures SizeOf(vs) == TotalSize(VarBindFormat(e), vs)
  {
    hide VarBind.Size;
    if vs != [] { SizeIsTotal(vs[1..], e); }
  }

  /** A response to the request can be put on the wire. */
  ghost predicate Answerable(t: M.MibTable, p: Pdu) {
    (p.body.Get? || p.body.GetNext?) &&
    var values := AnswerAll(t, p.body.GetNext?, p.body.sr);
    values.Some? && EncodableBindings(values.value) && 8 + SizeOf(values.value) < 0x1_0000_0000
  }

  lemma BodyEncodes(vs: seq<VarBind>, e: Endian)
    requires ValuesWellFormed(vs)
    ensures BodyToBytes(Response(0, 0, 0, vs), e).Some? <==> EncodableBindings(vs)
    ensures EncodableBindings(vs) ==> |BodyToBytes(Response(0, 0, 0, vs), e).value| == 8 + SizeOf(vs)
  {
    hide VarBindFormat, EncodeAll, TotalSize, EncodableBindings, SizeOf, Pow256, Digits;
    Widths();
    BindingsEncode(vs, e);
    SizeIsTotal(vs, e);
    if EncodableBindings(vs) {
      ValuesBecome(vs, e);
      EncodedLength(VarBindFormat(e), vs, OnWireAll(vs));
    }
  }

  lemma ResponseEncodes(h: Header, vs: seq<VarBind>)
    requires h.ToBytes().Some? && ValuesWellFormed(vs)
    ensures var p := WithLength(Pdu(h.(type_ := RESPONSE), Response(0, 0, 0, vs)));
      (p.Some? && EncodePdu(p.value).Some?) <==> EncodableBindings(vs) && 8 + SizeOf(vs) < 0x1_0000_0000
  {
    hide BodyToBytes, EncodableBindings, SizeOf, ValuesWellFormed;
    BodyEncodes(vs, h.Order());
    HeaderEncodes(h);
    HeaderEncodes(h.(type_ := RESPONSE));
    HeaderEncodes(h.(type_ := RESPONSE, payloadLength := 8 + SizeOf(vs)));
    HeaderSize(h, vs);
  }

  lemma HeaderSize(h: Header, vs: seq<VarBind>)
    ensures var p := Pdu(h.(type_ := RESPONSE), Response(0, 0, 0, vs));
      WithLength(p).Some? <==> p.header.ToBytes().Some? && BodyToBytes(p.body, h.Order()).Some?
    ensures var p := Pdu(h.(type_ := RESPONSE), Response(0, 0, 0, vs));
      WithLength(p).Some? ==>
        WithLength(p).value == Pdu(h.(type_ := RESPONSE, payloadLength := |BodyToBytes(p.body, h.Order()).value|),
          p.body)
  {
    hide BodyToBytes, Header.ToBytes;
  }

  /** A request obtains a response if and only if it is answerable. */
  lemma AnswerableIff(t: M.MibTable, p: Pdu)
    requires (p.body.Get? || p.body.GetNext?) && p.header.ToBytes().Some?
    requires RangesWellFormed(p.body.sr) && SoundHandlers(t)
    ensures ResponseBytes(t, p).Some? <==> Answerable(t, p)
  {
    hide AnswerOne, SoundHandlers, EncodePdu, EncodableBindings, WithLength, Header.ToBytes;
    var next, sr := p.body.GetNext?, p.body.sr;
    if AnswerAll(t, next, sr).Some? {
      var values := AnswerAll(t, next, sr).value;
      forall j | 0 <= j < |sr| ensures values[j].WellFormed() { AnswerWellFormed(t, next, sr[j]); }
      ResponseEncodes(p.header, values);
    }
  }

  lemma {:induction false} EncodedPdu(ps: seq<Pdu>, i: nat)
    requires EncodeStream(ps).Some? && i < |ps|
    ensures EncodePdu(ps[i]).Some?
  {
    hide EncodePdu;
    if i > 0 { EncodedPdu(ps[1..], i - 1); }
  }

  lemma {:induction false} ResponsesUpTo(t: M.MibTable, ps: seq<Pdu>, i: nat)
    requires i < |ps|
    ensures i < |Responses(t, ps)| <==> forall j :: 0 <= j <= i ==> ResponseBytes(t, ps[j]).Some?
    decreases i
  {
    hide ResponseBytes;
    if i > 0 {
      ResponsesUpTo(t, ps[1..], i - 1);
      assert forall j :: 1 <= j <= i ==> ps[j] == ps[1..][j - 1];
      assert forall j :: 0 <= j <= i - 1 ==> ps[1..][j] == ps[j + 1];
    }
  }

  /** The i-th request of a chunk is answered if and only if it and all before it are
      answerable. */
  lemma AnsweredIff(t: M.MibTable, ps: seq<Pdu>, i: nat)
    requires forall j :: 0 <= j < |ps| ==> Request(ps[j])
    requires EncodeStream(ps).Some? && SoundHandlers(t) && i < |ps|
    ensures i < |Responses(t, ps)| <==> forall j :: 0 <= j <= i ==> Answerable(t, ps[j])
  {
    hide ResponseBytes, Answerable, SoundHandlers, EncodeStream, Responses;
    ResponsesUpTo(t, ps, i);
    forall j | 0 <= j <= i ensures ResponseBytes(t, ps[j]).Some? <==> Answerable(t, ps[j]) {
      EncodedPdu(ps, j);
      AnswerableIff(t, ps[j]);
    }
  }

  /** From bytes to bytes: if a request of a chunk and all before it are answerable, the
      response to it is written in its place, and decodes to the table's answers under the
      request's identifiers. */
  lemma EndToEnd(c: Conn, t: M.MibTable, ps: seq<Pdu>, i: nat)
    requires forall j :: 0 <= j < |ps| ==> Request(ps[j])
    requires EncodeStream(ps).Some? && SoundHandlers(t)
    requires i < |ps| && forall j :: 0 <= j <= i ==> Answerable(t, ps[j])
    ensures var c' := Receive(c, t, EncodeStream(ps).value);
      c.sent <= c'.sent && AnsweredAt(c, c', t, ps, i)
  {
    hide Receive, EncodeStream, Request, Answerable, Responses, SoundHandlers, AnsweredAt;
    AnsweredIff(t, ps, i);
    WrittenResponse(c, t, ps, i);
  }

  /** All n requests of a chunk are answered if and only if each is answerable. */
  lemma AllAnsweredIff(c: Conn, t: M.MibTable, ps: seq<Pdu>)
    requires forall j :: 0 <= j < |ps| ==> Request(ps[j])
    requires EncodeStream(ps).Some? && SoundHandlers(t)
    ensures |Receive(c, t, EncodeStream(ps).value).sent| == |c.sent| + |ps| <==>
            forall j :: 0 <= j < |ps| ==> Answerable(t, ps[j])
  {
    hide Receive, EncodeStream, Delimited, Answerable, SoundHandlers, Responses;
    RequestsAnswered(c, t, ps);
    assert |Responses(t, ps)| <= |ps|;
    if ps != [] { AnsweredIff(t, ps, |ps| - 1); }
  }

  // ---------------------------------------------------------------- tables that fit the wire

  /** Data that fits the wire, with strings of at most `limit` octets. */
  ghost predicate FittingData(type_: ValueType, raw: M.Raw, limit: nat) {
    match M.CastData(type_, raw)
    case Some(Str(s)) => s.length <= limit
    case Some(Name(o)) => EncodableOid(o)
    case _ => true
  }

  /** Names and values of the table fit the wire. */
  ghost predicate FitsWire(t: M.MibTable, limit: nat) {
    && T.WellTyped(t) && SoundHandlers(t)
    && forall p, k :: p in t.entries && t.entries[p].Call(k).Some? ==>
         FittingName(p + k) && FittingData(t.entries[p].valueType, t.entries[p].Call(k).value, limit)
  }

  lemma ValueFits(t: M.MibTable, limit: nat, p: Oid, x: Oid, vb: VarBind)
    requires FitsWire(t, limit) && limit < 0x1_0000_0000 && W.ValueAt(t, p, x, vb)
    ensures EncodableBinding(vb) && vb.Size() <= limit + 2060
  {
    hide EncodableOid;
    assert x == p + x[|p|..];
    assert FittingName(x) && FittingData(vb.type_, t.entries[p].Call(x[|p|..]).value, limit);
    ValueWellFormed(t, p, x, vb);
    NameSize(vb.name);
    if vb.data.Name? { NameSize(vb.data.o); }
  }

  lemma NameSize(o: ObjectIdentifier)
    requires EncodableOid(o)
    ensures o.Size() <= 1024
  {
  }

  /** Every answer to a range whose start can be encoded can be encoded, and is bounded. */
  lemma AnswerFits(t: M.MibTable, limit: nat, next: bool, sr: SearchRange)
    requires FitsWire(t, limit) && limit < 0x1_0000_0000 && EncodableOid(sr.start)
    ensures AnswerOne(t, next, sr).Some?
    ensures EncodableBinding(AnswerOne(t, next, sr).value) && AnswerOne(t, next, sr).value.Size() <= limit + 2060
  {
    hide M.FromTypecast, FitsWire, EncodableOid, T.WellTyped;
    assert T.WellTyped(t) by { FitsTyped(t, limit); }
    LookupReturns(t, next, sr);
    NameSize(sr.start);
    var key := sr.start.ToTuple();
    if next {
      hide M.GetNextResult;
      if M.GetNextResult(t, sr).value != M.EndOfView(sr) {
        var p, x := W.AnswerOrigin(t, sr);
        ValueFits(t, limit, p, x, M.GetNextResult(t, sr).value);
      }
    } else if M.FindParentPrefix(t, key).Some? {
      var p := M.FindParentPrefix(t, key).value;
      if M.GetValue(t.entries[p], key).value.Some? { ValueFits(t, limit, p, key, M.Get(t, sr).value); }
    }
  }

  lemma FitsTyped(t: M.MibTable, limit: nat)
    requires FitsWire(t, limit)
    ensures T.WellTyped(t) && SoundHandlers(t)
  {
  }

  lemma {:induction false} SizeBounded(vs: seq<VarBind>, bound: nat)
    requires forall i :: 0 <= i < |vs| ==> vs[i].Size() <= bound
    ensures SizeOf(vs) <= |vs| * bound
  {
    hide VarBind.Size;
    if vs != [] {
      SizeBounded(vs[1..], bound);
      assert |vs| * bound == bound + |vs[1..]| * bound;
    }
  }

  lemma EncodedStarts(p: Pdu, i: nat)
    requires (p.body.Get? || p.body.GetNext?) && EncodePdu(p).Some? && i < |p.body.sr|
    ensures EncodableOid(p.body.sr[i].start)
  {
    hide ObjectIdentifier.ToBytes, ContextToBytes, Header.ToBytes, Header.Order, EncodableOid;
    var e := p.header.Order();
    EncodedItems(RangeFormat(e), p.body.sr, i);
    OidEncodes(p.body.sr[i].start, e);
  }

  /** So few ranges that a response with strings of at most `limit` octets stays below 2^32
      bytes. */
  ghost predicate RangesWithin(p: Pdu, limit: nat) {
    (p.body.Get? || p.body.GetNext?) && 8 + |p.body.sr| * (limit + 2060) < 0x1_0000_0000
  }

  /** Over a table that fits the wire a request is answerable unless it has so many ranges that
      its response could exceed 2^32 bytes. */
  lemma FitsAnswerable(t: M.MibTable, limit: nat, p: Pdu)
    requires FitsWire(t, limit) && limit < 0x1_0000_0000
    requires EncodePdu(p).Some? && RangesWithin(p, limit)
    ensures Answerable(t, p)
  {
    hide FitsWire, EncodePdu, AnswerOne, EncodableBinding, EncodableOid, SizeOf, VarBind.Size, T.WellTyped;
    var next, sr := p.body.GetNext?, p.body.sr;
    FitsTyped(t, limit);
    LookupsReturn(t, next, sr);
    var values := AnswerAll(t, next, sr).value;
    forall i | 0 <= i < |sr| ensures EncodableBinding(values[i]) && values[i].Size() <= limit + 2060 {
      EncodedStarts(p, i);
      AnswerFits(t, limit, next, sr[i]);
    }
    SizeBounded(values, limit + 2060);
  }

  /** A chunk of n requests over a table that fits the wire makes the connection write exactly n
      responses, in order, each with its request's identifiers and the table's answers. */
  lemma EveryRequestAnswered(c: Conn, t: M.MibTable, limit: nat, ps: seq<Pdu>)
    requires forall j :: 0 <= j < |ps| ==> Request(ps[j])
    requires forall j :: 0 <= j < |ps| ==> RangesWithin(ps[j], limit)
    requires EncodeStream(ps).Some? && FitsWire(t, limit) && limit < 0x1_0000_0000
    ensures var c' := Receive(c, t, EncodeStream(ps).value);
      |c'.sent| == |c.sent| + |ps| && c.sent <= c'.sent && forall i :: 0 <= i < |ps| ==> AnsweredAt(c, c', t, ps, i)
  {
    hide Receive, EncodeStream, Decode, Request, Answerable, FitsWire, SoundHandlers, Responses, EncodePdu,
      AnsweredAt, RangesWithin;
    FitsTyped(t, limit);
    forall j | 0 <= j < |ps| ensures Answerable(t, ps[j]) {
      EncodedPdu(ps, j);
      FitsAnswerable(t, limit, ps[j]);
    }
    AllAnsweredIff(c, t, ps);
    RequestsAnswered(c, t, ps);
    forall i | 0 <= i < |ps| ensures AnsweredAt(c, Receive(c, t, EncodeStream(ps).value), t, ps, i) {
      EndToEnd(c, t, ps, i);
    }
  }

  /** The answer to one range is the one section 7.2.3 of RFC 2741 asks for, and exactly when. */
  ghost predicate ExactlyAnswered(t: M.MibTable, request: Pdu, sr: SearchRange, vb: VarBind) {
    if request.body.Get?
    then T.ExactGet(t, sr, Returned(vb)) <==> !exists p :: T.ValuedScalarAbove(t, p, sr.start.ToTuple())
    else T.Exact(t, sr, Returned(vb)) <==> !T.Overrun(t, sr) && !T.ScalarTail(t, sr)
  }

  /** Over an orderly table every binding of a response, as it left the connection, is such an
      answer with its integer reduced to the width of its type. */
  lemma ResponsesExact(t: M.MibTable, request: Pdu, response: Pdu, j: nat)
    requires T.Orderly(t) && T.Nameable(t) && Answers(t, request, response) && j < |request.body.sr|
    ensures exists vb: VarBind ::
              response.body.values[j] == vb.OnWire() && ExactlyAnswered(t, request, request.body.sr[j], vb)
  {
    hide M.Get, M.GetNextResult, T.Orderly, T.Nameable, T.Exact, T.ExactGet, T.Overrun, T.ScalarTail,
      T.ValuedScalarAbove, VarBind.OnWire;
    var sr := request.body.sr[j];
    T.GetExactness(t, sr);
    T.GetNextExactness(t, sr);
    var vb := TableAnswer(t, request, sr).value;
    assert ExactlyAnswered(t, request, sr, vb);
  }
}

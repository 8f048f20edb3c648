/** Requests end to end, and what every run of a connection keeps. */
module SessionTheory {
  import opened Common
  import opened OidOrder
  import opened Struct
  import opened Encodable
  import opened Encodings
  import opened ItemLoops
  import opened Pdus
  import opened PduTheory
  import opened Session
  import M = Mib
  import T = MibTheory
  import W = MibWalk

  // ---------------------------------------------------------------- requests end to end

  ghost predicate Request(p: Pdu) {
    (p.body.Get? || p.body.GetNext?) && Delimited(p)
  }

  /** The responses to the requests before the first that raises. */
  function Responses(t: M.MibTable, ps: seq<Pdu>): (r: seq<Bytes>)
    ensures |r| <= |ps|
    ensures |r| == |ps| <==> forall i :: 0 <= i < |ps| ==> ResponseBytes(t, ps[i]).Some?
    ensures forall i :: 0 <= i < |r| ==> ResponseBytes(t, ps[i]) == Some(r[i])
  {
    if ps == [] || ResponseBytes(t, ps[0]).None? then []
    else [ResponseBytes(t, ps[0]).value] + Responses(t, ps[1..])
  }

  lemma HandleRequest(c: Conn, t: M.MibTable, p: Pdu)
    requires p.body.Get? || p.body.GetNext?
    ensures Handle(c, t, p) == match ResponseBytes(t, p)
                               case Some(b) => Step(c.(sent := c.sent + [b]), true)
                               case None => Step(c, false)
  {
  }

  lemma {:induction false} ProcessRequests(c: Conn, t: M.MibTable, ps: seq<Pdu>)
    requires forall p :: p in ps ==> p.body.Get? || p.body.GetNext?
    ensures Process(c, t, ps) == c.(sent := c.sent + Responses(t, ps))
    decreases |ps|
  {
    hide ResponseBytes, Handle;
    assert c.sent + [] == c.sent;
    if ps != [] {
      var p, more := ps[0], Responses(t, ps[1..]);
      HandleRequest(c, t, p);
      if ResponseBytes(t, p).Some? {
        var b := ResponseBytes(t, p).value;
        ProcessRequests(c.(sent := c.sent + [b]), t, ps[1..]);
        assert c.sent + [b] + more == c.sent + ([b] + more);
      }
    }
  }

  /** A chunk of encoded requests makes the connection write the response to each, in
      order, up to the first whose lookup or encoding raises. */
  lemma RequestsAnswered(c: Conn, t: M.MibTable, ps: seq<Pdu>)
    requires forall i :: 0 <= i < |ps| ==> Request(ps[i])
    requires EncodeStream(ps).Some?
    ensures Receive(c, t, EncodeStream(ps).value) == c.(counter := c.counter + 1, sent := c.sent + Responses(t, ps))
  {
    hide Responses, Process, DecodeStream, EncodeStream, Delimited;
    StreamInverse(ps);
    assert OnWireStream(ps) == ps;
    forall p | p in ps ensures p.body.Get? || p.body.GetNext? {
      var i :| 0 <= i < |ps| && ps[i] == p;
      assert Request(ps[i]);
    }
    ProcessRequests(c.(counter := c.counter + 1), t, ps);
  }

  /** The header that `WithLength` completes makes a response delimited. */
  lemma ResponseDelimited(h: Header, values: seq<VarBind>)
    requires ValuesWellFormed(values) && WithLength(Pdu(h.(type_ := RESPONSE), Response(0, 0, 0, values))).Some?
    ensures Delimited(WithLength(Pdu(h.(type_ := RESPONSE), Response(0, 0, 0, values))).value)
  {
    hide Header.ToBytes, VarBindFormat, EncodeAll, TotalSize, Reaches;
    var p := Pdu(h.(type_ := RESPONSE), Response(0, 0, 0, values));
    var f := VarBindFormat(p.header.Order());
    FormatsLawful(p.header.Order());
    EncodedBody(p);
    ValuesBecome(values, p.header.Order());
    EncodedLength(f, values, OnWireAll(values));
    TotalFits(f, values, OnWireAll(values));
  }

  /** Stating its length does not change how long the PDU is. */
  lemma LengthStated(p: Pdu)
    requires WithLength(p).Some? && EncodePdu(WithLength(p).value).Some?
    ensures |EncodePdu(WithLength(p).value).value| == |EncodePdu(p).value|
    ensures WithLength(p).value == p.(header := p.header.(payloadLength := |EncodePdu(p).value| - 20))
  {
    hide BodyToBytes;
    EncodedBody(p);
    EncodedBody(WithLength(p).value);
  }

  /** What a written response says: it decodes to a Response PDU that carries the request's
      identifiers and one binding per search range, the table's answer as seen on the wire. */
  lemma ResponseMeaning(t: M.MibTable, p: Pdu, rest: Bytes)
    requires p.body.Get? || p.body.GetNext?
    requires ResponseBytes(t, p).Some? && ValuesWellFormed(AnswerAll(t, p.body.GetNext?, p.body.sr).value)
    ensures var d := Decode(ResponseBytes(t, p).value + rest);
      d.Some? && d.value.trailing == rest &&
      var q := d.value.pdu;
      q.body == Response(0, 0, 0, OnWireAll(AnswerAll(t, p.body.GetNext?, p.body.sr).value)) &&
      q.header == p.header.(type_ := 18, payloadLength := |ResponseBytes(t, p).value| - 20)
  {
    hide Decode, EncodePdu, AnswerAll, Delimited;
    var values := AnswerAll(t, p.body.GetNext?, p.body.sr).value;
    ResponseDelimited(p.header, values);
    LengthStated(Pdu(p.header.(type_ := RESPONSE), Response(0, NO_AGENT_X_ERROR, 0, values)));
    DecodeEncode(ResponseTo(t, p).value, rest);
  }

  /** Handlers that return an encoded object identifier return a consistent one. */
  ghost predicate SoundHandlers(t: M.MibTable) {
    forall p, k :: p in t.entries ==>
      match t.entries[p].Call(k)
      case Some(Encoded(o)) => o.WellFormed()
      case _ => true
  }

  lemma ValueWellFormed(t: M.MibTable, p: Oid, x: Oid, vb: VarBind)
    requires SoundHandlers(t) && W.ValueAt(t, p, x, vb)
    ensures vb.WellFormed()
  {
    CompressionExact(x);
    match t.entries[p].Call(x[|p|..]).value
    case Tuple(o) => if FromIterable(o).Some? { CompressionExact(o); }
    case Encoded(o) =>
    case _ =>
  }

  lemma AnswerWellFormed(t: M.MibTable, next: bool, sr: SearchRange)
    requires SoundHandlers(t) && sr.WellFormed() && AnswerOne(t, next, sr).Some?
    ensures AnswerOne(t, next, sr).value.WellFormed()
  {
    hide M.FromTypecast, SoundHandlers;
    var key := sr.start.ToTuple();
    if next {
      hide M.GetNextResult;
      if M.GetNextResult(t, sr).value != M.EndOfView(sr) {
        var p, x := W.AnswerOrigin(t, sr);
        ValueWellFormed(t, p, x, M.GetNextResult(t, sr).value);
      }
    } else if M.FindParentPrefix(t, key).Some? {
      var p := M.FindParentPrefix(t, key).value;
      if M.GetValue(t.entries[p], key).value.Some? {
        ValueWellFormed(t, p, key, M.Get(t, sr).value);
      }
    }
  }

  /** What the table answers to one range of a request. */
  function TableAnswer(t: M.MibTable, request: Pdu, sr: SearchRange): Outcome<VarBind> {
    if request.body.Get? then M.Get(t, sr) else M.GetNextResult(t, sr)
  }

  /** `response` is free of errors and carries, for each search range of the request in order,
      the table's answer (that of Get to a Get PDU, that of GetNext to a GetNext PDU), integers
      reduced to their wire width. */
  ghost predicate Answers(t: M.MibTable, request: Pdu, response: Pdu) {
    && (request.body.Get? || request.body.GetNext?)
    && response.body.Response?
    && response.body.sysUpTime == 0 && response.body.error == 0 && response.body.index == 0
    && |response.body.values| == |request.body.sr|
    && forall j :: 0 <= j < |request.body.sr| ==>
         TableAnswer(t, request, request.body.sr[j]).Returned? &&
         response.body.values[j] == TableAnswer(t, request, request.body.sr[j]).value.OnWire()
  }

  lemma ResponseAnswers(t: M.MibTable, p: Pdu, q: Pdu)
    requires (p.body.Get? || p.body.GetNext?) && AnswerAll(t, p.body.GetNext?, p.body.sr).Some?
    requires q.body == Response(0, 0, 0, OnWireAll(AnswerAll(t, p.body.GetNext?, p.body.sr).value))
    ensures Answers(t, p, q)
  {
    hide M.Get, M.GetNextResult, VarBind.OnWire;
    var next, sr := p.body.GetNext?, p.body.sr;
    forall j | 0 <= j < |sr|
      ensures TableAnswer(t, p, sr[j]).Returned? && q.body.values[j] == TableAnswer(t, p, sr[j]).value.OnWire()
    {
      assert AnswerOne(t, next, sr[j]) == Some(AnswerAll(t, next, sr).value[j]);
    }
  }

  /** The response to request `i` is the next but `i` written, and says what the table answers. */
  ghost predicate AnsweredAt(c: Conn, c': Conn, t: M.MibTable, ps: seq<Pdu>, i: nat) {
    && i < |ps| && |c'.sent| > |c.sent| + i
    && var d := Decode(c'.sent[|c.sent| + i]);
       d.Some? && d.value.trailing == [] && Answers(t, ps[i], d.value.pdu) &&
       d.value.pdu.header == ps[i].header.(type_ := 18, payloadLength := |c'.sent[|c.sent| + i]| - 20)
  }

  lemma WrittenResponse(c: Conn, t: M.MibTable, ps: seq<Pdu>, i: nat)
    requires forall j :: 0 <= j < |ps| ==> Request(ps[j])
    requires EncodeStream(ps).Some? && SoundHandlers(t)
    requires i < |Responses(t, ps)|
    ensures c.sent <= Receive(c, t, EncodeStream(ps).value).sent
    ensures AnsweredAt(c, Receive(c, t, EncodeStream(ps).value), t, ps, i)
  {
    hide Receive, EncodeStream, Decode, ResponseBytes, Delimited, SoundHandlers, Answers, AnswerAll;
    RequestsAnswered(c, t, ps);
    var p := ps[i];
    assert Request(p);
    WellFormedAnswers(t, p);
    ResponseMeaning(t, p, []);
    var b := ResponseBytes(t, p).value;
    ResponseAnswers(t, p, Decode(b + []).value.pdu);
    assert b + [] == b;
    assert (c.sent + Responses(t, ps))[|c.sent| + i] == b;
  }

  lemma WellFormedAnswers(t: M.MibTable, p: Pdu)
    requires Request(p) && SoundHandlers(t) && ResponseBytes(t, p).Some?
    ensures AnswerAll(t, p.body.GetNext?, p.body.sr).Some?
    ensures ValuesWellFormed(AnswerAll(t, p.body.GetNext?, p.body.sr).value)
  {
    var next, sr := p.body.GetNext?, p.body.sr;
    forall j | 0 <= j < |sr| ensures AnswerAll(t, next, sr).value[j].WellFormed() { AnswerWellFormed(t, next, sr[j]); }
  }

  // ---------------------------------------------------------------- error codes

  /** What a Response does by its error code: none at all once there is a session; else 0 opens
      it, 256 (openFailed) leaves everything as it is, 266 (parseError) closes the transport, and
      any other raises. */
  lemma ErrorCodes(c: Conn, t: M.MibTable, p: Pdu)
    requires p.body.Response?
    ensures c.sessionId != -1 ==> Handle(c, t, p) == Step(c, true)
    ensures c.sessionId == -1 ==>
      match p.body.error
      case 0 => Handle(c, t, p) == Establish(c, t, p.header) && Handle(c, t, p).conn.sessionId == p.header.sessionId
      case 256 => Handle(c, t, p) == Step(c, true)
      case 266 => Handle(c, t, p) == Step(c.(closing := true), true)
      case _ => Handle(c, t, p) == Step(c, false)
  {
    hide Registrations;
  }

  /** A PDU of any other kind than Response, Get and GetNext raises and has no effect. */
  lemma OthersRaise(c: Conn, t: M.MibTable, p: Pdu)
    requires !p.body.Response? && !p.body.Get? && !p.body.GetNext?
    ensures Handle(c, t, p) == Step(c, false)
  {
  }

  // ---------------------------------------------------------------- registrations

  lemma {:induction false} RegistrationAt(h: Header, subtrees: seq<Oid>, idx: nat, i: nat)
    requires idx <= |subtrees| && i < |Registrations(h, subtrees, idx)|
    ensures idx + i < |subtrees| &&
            RegisterBytes(h, idx + i, subtrees[idx + i]) == Some(Registrations(h, subtrees, idx)[i])
    decreases i
  {
    hide RegisterBytes;
    if i > 0 { RegistrationAt(h, subtrees, idx + 1, i - 1); }
  }

  lemma {:induction false} RegistrationsComplete(h: Header, subtrees: seq<Oid>, idx: nat)
    requires idx <= |subtrees|
    ensures |Registrations(h, subtrees, idx)| == |subtrees| - idx <==>
            forall i :: idx <= i < |subtrees| ==> RegisterBytes(h, i, subtrees[i]).Some?
    decreases |subtrees| - idx
  {
    hide RegisterBytes;
    if idx < |subtrees| { RegistrationsComplete(h, subtrees, idx + 1); }
  }

  /** A subtree is registered exactly when its position is a byte, its OID can be put on
      the wire, and the header announces no context. */
  lemma RegisterEncodes(h: Header, idx: nat, subtree: Oid)
    requires h.ToBytes().Some?
    ensures RegisterBytes(h, idx, subtree).Some? <==>
      !h.NonDefaultContext() && idx < 256 && FittingName(subtree)
  {
    hide ObjectIdentifier.ToBytes;
    if !h.NonDefaultContext() && FromIterable(subtree).Some? {
      var o := FromIterable(subtree).value;
      var e := h.Order();
      OidEncodes(o, e);
      CompressionExact(subtree);
      if o.ToBytes(e).Some? { OidRoundTrip(o, e, []); }
      HeaderEncodes(h);
      HeaderEncodes(h.(type_ := REGISTER));
      HeaderEncodes(h.(type_ := REGISTER, payloadLength := 4 + o.Size()));
      var p := Pdu(h.(type_ := REGISTER), Register(None, DEFAULT_PDU_TIMEOUT, idx, 0, 0, o, None));
      assert BodyToBytes(p.body, e).Some? <==> idx < 256 && o.ToBytes(e).Some?;
    }
  }

  /** What a registration says: a Register PDU with the header of the response, for that
      subtree, with the default timeout, its position in the list as priority, no range and no
      context, and its true length. */
  lemma RegisterMeaning(h: Header, idx: nat, subtree: Oid, rest: Bytes)
    requires RegisterBytes(h, idx, subtree).Some?
    ensures var d := Decode(RegisterBytes(h, idx, subtree).value + rest);
      d.Some? && d.value.trailing == rest &&
      var q := d.value.pdu;
      q.header == h.(type_ := 3, payloadLength := |RegisterBytes(h, idx, subtree).value| - 20) &&
      q.body.Register? && q.body == Register(None, 5, idx, 0, 0, q.body.subtree, None) &&
      T.Named(q.body.subtree, subtree)
  {
    hide Decode, EncodePdu, T.Named;
    T.NameExact(subtree);
    CompressionExact(subtree);
    var oid := FromIterable(subtree).value;
    LengthStated(Pdu(h.(type_ := REGISTER), Register(None, DEFAULT_PDU_TIMEOUT, idx, 0, 0, oid, None)));
    DecodeEncode(RegisterPdu(h, idx, subtree).value, rest);
  }
}

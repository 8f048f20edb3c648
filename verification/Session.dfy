/** One AgentX connection (`ax_interface/protocol.py`, and `make_response` of
    `pdu_implementations.py`). */
module Session {
  import opened Common
  import opened OidOrder
  import opened Struct
  import opened Encodings
  import opened Pdus
  import M = Mib

  const DEFAULT_PDU_TIMEOUT := 5
  const NO_AGENT_X_ERROR := 0
  const OPEN_FAILED := 256
  const PARSE_ERROR := 266

  // ---------------------------------------------------------------- responses

  function AnswerOne(t: M.MibTable, next: bool, sr: SearchRange): Option<VarBind> {
    match if next then M.GetNextResult(t, sr) else M.Get(t, sr)
    case Returned(vb) => Some(vb)
    case Raised => None
  }

  /** One binding per search range, in order; `None` if a lookup raises. */
  function AnswerAll(t: M.MibTable, next: bool, srs: seq<SearchRange>): (r: Option<seq<VarBind>>)
    ensures r.Some? ==> |r.value| == |srs|
    ensures r.Some? ==> forall i :: 0 <= i < |srs| ==> AnswerOne(t, next, srs[i]) == Some(r.value[i])
  {
    if srs == [] then Some([])
    else
      var front :- AnswerAll(t, next, srs[..|srs| - 1]);
      var last :- AnswerOne(t, next, srs[|srs| - 1]);
      Some(front + [last])
  }

  /** `make_response`: only Get and GetNext PDUs have one.  The response takes over the
      request's header, except for type and length. */
  function ResponseTo(t: M.MibTable, p: Pdu): Option<Pdu> {
    if p.body.Get? || p.body.GetNext? then
      var values :- AnswerAll(t, p.body.GetNext?, p.body.sr);
      WithLength(Pdu(p.header.(type_ := RESPONSE), Response(0, NO_AGENT_X_ERROR, 0, values)))
    else None
  }

  /** A PDU under construction takes its length from encoding it. */
  function WithLength(p: Pdu): Option<Pdu> {
    var bytes :- EncodePdu(p);
    Some(p.(header := p.header.(payloadLength := |bytes| - HEADER_LENGTH)))
  }

  function ResponseBytes(t: M.MibTable, p: Pdu): Option<Bytes> {
    var r :- ResponseTo(t, p);
    EncodePdu(r)
  }

  // ---------------------------------------------------------------- registration

  /** The Register PDU for the `idx`-th subtree.  A header that announces a context makes
      the constructor look for one in an empty payload, and fail. */
  function RegisterPdu(h: Header, idx: nat, subtree: Oid): Option<Pdu> {
    if h.NonDefaultContext() then None
    else
      var oid :- FromIterable(subtree);
      WithLength(Pdu(h.(type_ := REGISTER), Register(None, DEFAULT_PDU_TIMEOUT, idx, 0, 0, oid, None)))
  }

  function RegisterBytes(h: Header, idx: nat, subtree: Oid): Option<Bytes> {
    var p :- RegisterPdu(h, idx, subtree);
    EncodePdu(p)
  }

  /** The registrations written before one fails, from the `idx`-th subtree on. */
  function Registrations(h: Header, subtrees: seq<Oid>, idx: nat): (r: seq<Bytes>)
    requires idx <= |subtrees|
    ensures |r| <= |subtrees| - idx
    decreases |subtrees| - idx
  {
    if idx == |subtrees| || RegisterBytes(h, idx, subtrees[idx]).None? then []
    else [RegisterBytes(h, idx, subtrees[idx]).value] + Registrations(h, subtrees, idx + 1)
  }

  // ---------------------------------------------------------------- the connection

  const NO_SESSION := -1

  /** The protocol object's fields, the PDUs written to the transport since the Open PDU of
      the handshake, and whether the transport was told to close. */
  datatype Conn = Conn(sessionId: int, counter: nat, sent: seq<Bytes>, closing: bool)

  /** The new state, and whether processing goes on (no exception). */
  datatype Step = Step(conn: Conn, ok: bool)

  function Establish(c: Conn, t: M.MibTable, h: Header): Step {
    var regs := Registrations(h, t.prefixes, 0);
    Step(c.(sessionId := h.sessionId, sent := c.sent + regs), |regs| == |t.prefixes|)
  }

  /** `parse_response`. */
  function HandleResponse(c: Conn, t: M.MibTable, p: Pdu): Step
    requires p.body.Response?
  {
    if c.sessionId != NO_SESSION then Step(c, true)
    else if p.body.error == PARSE_ERROR then Step(c.(closing := true), true)
    else if p.body.error == OPEN_FAILED then Step(c, true)
    else if p.body.error == NO_AGENT_X_ERROR then Establish(c, t, p.header)
    else Step(c, false)
  }

  function Handle(c: Conn, t: M.MibTable, p: Pdu): Step {
    if p.body.Response? then HandleResponse(c, t, p)
    else
      match ResponseBytes(t, p)
      case Some(b) => Step(c.(sent := c.sent + [b]), true)
      case None => Step(c, false)
  }

  /** The decoded PDUs of a chunk, up to the first that fails. */
  function Process(c: Conn, t: M.MibTable, ps: seq<Pdu>): Conn
    decreases |ps|
  {
    if ps == [] then c
    else
      var s := Handle(c, t, ps[0]);
      if s.ok then Process(s.conn, t, ps[1..]) else s.conn
  }

  function Receive(c: Conn, t: M.MibTable, data: Bytes): Conn {
    Process(c.(counter := c.counter + 1), t, DecodeStream(data).pdus)
  }

  // ---------------------------------------------------------------- the protocol object

  method MakeResponse(t: M.MibTable, p: Pdu) returns (r: Option<Pdu>)
    ensures r == ResponseTo(t, p)
  {
    hide M.GetNextResult, M.Get;
    if !(p.body.Get? || p.body.GetNext?) { return None; }
    var srs, next := p.body.sr, p.body.GetNext?;
    var values: seq<VarBind> := [];
    for i := 0 to |srs|
      invariant AnswerAll(t, next, srs[..i]) == Some(values)
      invariant AnswerAll(t, next, srs).Some? ==> forall j :: 0 <= j < |srs| ==> AnswerOne(t, next, srs[j]).Some?
    {
      assert srs[..i + 1][..i] == srs[..i];
      var vb: Outcome<VarBind>;
      if next { vb := M.GetNext(t, srs[i]); } else { vb := M.Get(t, srs[i]); }
      if vb.Raised? { return None; }
      values := values + [vb.value];
    }
    assert srs[..|srs|] == srs;
    r := WithLength(Pdu(p.header.(type_ := RESPONSE), Response(0, NO_AGENT_X_ERROR, 0, values)));
  }

  class AgentX {
    var sessionId: int
    var counter: nat
    var sent: seq<Bytes>
    var closing: bool

    ghost function View(): Conn
      reads this
    {
      Conn(sessionId, counter, sent, closing)
    }

    constructor ()
      ensures View() == Conn(NO_SESSION, 0, [], false)
    {
      sessionId, counter, sent, closing := NO_SESSION, 0, [], false;
    }

    method RegisterSubtrees(t: M.MibTable, h: Header) returns (ok: bool)
      modifies this
      ensures Step(View(), ok) == Establish(old(View()), t, h)
    {
      hide RegisterBytes;
      sessionId := h.sessionId;
      ghost var regs: seq<Bytes> := [];
      for i := 0 to |t.prefixes|
        invariant sessionId == h.sessionId && counter == old(counter) && closing == old(closing)
        invariant sent == old(sent) + regs && |regs| == i
        invariant regs + Registrations(h, t.prefixes, i) == Registrations(h, t.prefixes, 0)
      {
        var b := RegisterBytes(h, i, t.prefixes[i]);
        if b.None? { return false; }
        sent := sent + [b.value];
        regs := regs + [b.value];
      }
      return true;
    }

    method ParseResponse(t: M.MibTable, p: Pdu) returns (ok: bool)
      requires p.body.Response?
      modifies this
      ensures Step(View(), ok) == HandleResponse(old(View()), t, p)
    {
      if sessionId == NO_SESSION {
        if p.body.error == PARSE_ERROR {
          closing := true;
        } else if p.body.error == OPEN_FAILED {
        } else if p.body.error == NO_AGENT_X_ERROR {
          ok := RegisterSubtrees(t, p.header);
          return ok;
        } else {
          return false;
        }
      }
      return true;
    }

    method DataReceived(t: M.MibTable, data: Bytes)
      modifies this
      ensures View() == Receive(old(View()), t, data)
    {
      hide Decode, ResponseTo, EncodePdu, HandleResponse;
      counter := counter + 1;
      var rest := data;
      while rest != []
        invariant Process(View(), t, DecodeStream(rest).pdus) == Receive(old(View()), t, data)
        decreases |rest|
      {
        var d := Decode(rest);
        if d.None? { return; }
        var ok;
        if d.value.pdu.body.Response? {
          ok := ParseResponse(t, d.value.pdu);
        } else {
          var response := MakeResponse(t, d.value.pdu);
          var bytes := if response.Some? then EncodePdu(response.value) else None;
          ok := bytes.Some?;
          if ok { sent := sent + [bytes.value]; }
        }
        if !ok { return; }
        rest := d.value.trailing;
      }
    }
  }
}

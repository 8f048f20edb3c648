/** What every run of a connection over arbitrary bytes keeps: the first error-free Response it
    handles opens the session, and nothing else registers. */
module SessionRuns {
  import opened Common
  import opened OidOrder
  import opened Struct
  import opened Encodable
  import opened Encodings
  import opened Pdus
  import opened Session
  import opened SessionTheory
  import M = Mib
  import T = MibTheory

  /** The type code in a written PDU. */
  predicate HasType(b: Bytes, code: nat) {
    |b| >= HEADER_LENGTH && b[1] == code
  }

  ghost predicate AllResponses(log: seq<Bytes>) {
    forall i :: 0 <= i < |log| ==> HasType(log[i], RESPONSE)
  }

  lemma ResponseHasType(t: M.MibTable, p: Pdu)
    requires ResponseBytes(t, p).Some?
    ensures HasType(ResponseBytes(t, p).value, RESPONSE)
  {
    hide AnswerAll, BodyToBytes, Header.Order;
    HeaderType(ResponseTo(t, p).value);
  }

  lemma HeaderType(p: Pdu)
    requires EncodePdu(p).Some?
    ensures HasType(EncodePdu(p).value, p.header.type_)
  {
    hide BodyToBytes, Header.Order, Pack;
  }

  // ---------------------------------------------------------------- what was handled

  /** A chunk, with the table as it is when the chunk arrives. */
  type Input = (M.MibTable, Bytes)

  /** A PDU that was handled, with the subtrees the table had then. */
  type Event = (Pdu, seq<Oid>)

  /** The PDUs of a chunk that are handled: up to and with the first whose handling fails. */
  function EventsOf(c: Conn, t: M.MibTable, ps: seq<Pdu>): seq<Event>
    decreases |ps|
  {
    if ps == [] then []
    else
      var s := Handle(c, t, ps[0]);
      [(ps[0], t.prefixes)] + if s.ok then EventsOf(s.conn, t, ps[1..]) else []
  }

  function Run(c: Conn, inputs: seq<Input>): Conn {
    if inputs == [] then c
    else
      var last := inputs[|inputs| - 1];
      Receive(Run(c, inputs[..|inputs| - 1]), last.0, last.1)
  }

  /** Everything handled in a run, in order. */
  function Events(c: Conn, inputs: seq<Input>): seq<Event> {
    if inputs == [] then []
    else
      var front := inputs[..|inputs| - 1];
      Events(c, front) + ChunkEvents(Run(c, front), inputs[|inputs| - 1])
  }

  function ChunkEvents(c: Conn, input: Input): seq<Event> {
    EventsOf(c.(counter := c.counter + 1), input.0, DecodeStream(input.1).pdus)
  }

  /** Error-free Response PDUs. */
  predicate Opens(p: Pdu) {
    p.body.Response? && p.body.error == NO_AGENT_X_ERROR
  }

  /** The first error-free Response handled. */
  function Opening(events: seq<Event>): Option<Event> {
    if events == [] then None
    else
      var front := Opening(events[..|events| - 1]);
      if front.Some? then front
      else if Opens(events[|events| - 1].0) then Some(events[|events| - 1]) else None
  }

  lemma {:induction false} OpeningAt(events: seq<Event>) returns (n: nat)
    requires Opening(events).Some?
    ensures n < |events| && events[n] == Opening(events).value && Opens(events[n].0)
    ensures forall i :: 0 <= i < n ==> !Opens(events[i].0)
  {
    hide Opens;
    var front := events[..|events| - 1];
    if Opening(front).Some? {
      n := OpeningAt(front);
      assert forall i :: 0 <= i < n ==> events[i] == front[i];
    } else {
      n := |events| - 1;
      NothingOpens(front);
      assert forall i :: 0 <= i < n ==> events[i] == front[i];
    }
  }

  lemma {:induction false} NothingOpens(events: seq<Event>)
    ensures Opening(events).None? <==> forall i :: 0 <= i < |events| ==> !Opens(events[i].0)
  {
    hide Opens;
    if events != [] {
      var front := events[..|events| - 1];
      NothingOpens(front);
      assert forall i :: 0 <= i < |front| ==> events[i] == front[i];
    }
  }

  lemma {:induction false} OpeningKept(events: seq<Event>, more: seq<Event>)
    requires Opening(events).Some?
    ensures Opening(events + more) == Opening(events)
    decreases |more|
  {
    if more == [] {
      assert events + more == events;
    } else {
      assert (events + more)[..|events + more| - 1] == events + more[..|more| - 1];
      OpeningKept(events, more[..|more| - 1]);
    }
  }

  // ---------------------------------------------------------------- safety

  /** Until the first error-free Response there is no session and only responses were written;
      that Response sets the session id and writes one block of registrations; after it again
      only responses were written. */
  ghost predicate SafeLog(c: Conn, events: seq<Event>, before: seq<Bytes>, after: seq<Bytes>) {
    && AllResponses(before) && AllResponses(after)
    && match Opening(events)
       case None => c.sessionId == NO_SESSION && c.sent == before
       case Some((p, subtrees)) =>
         c.sessionId == p.header.sessionId && c.sent == before + Registrations(p.header, subtrees, 0) + after
  }

  ghost predicate Safe(c: Conn, events: seq<Event>) {
    exists before, after :: SafeLog(c, events, before, after)
  }

  lemma OneMore(events: seq<Event>, e: Event)
    ensures Opening(events + [e]) ==
      if Opening(events).Some? then Opening(events) else if Opens(e.0) then Some(e) else None
  {
    assert (events + [e])[..|events|] == events;
  }

  lemma HandleSafe(c: Conn, events: seq<Event>, t: M.MibTable, p: Pdu)
    requires Safe(c, events)
    ensures Safe(Handle(c, t, p).conn, events + [(p, t.prefixes)])
  {
    hide ResponseBytes, Registrations, Opening;
    var before, after :| SafeLog(c, events, before, after);
    var c', events' := Handle(c, t, p).conn, events + [(p, t.prefixes)];
    OneMore(events, (p, t.prefixes));
    if !p.body.Response? && ResponseBytes(t, p).Some? {
      var b := ResponseBytes(t, p).value;
      ResponseHasType(t, p);
      if Opening(events).None? {
        assert SafeLog(c', events', before + [b], after);
      } else {
        var block := Registrations(Opening(events).value.0.header, Opening(events).value.1, 0);
        assert c.sent + [b] == before + block + (after + [b]);
        assert SafeLog(c', events', before, after + [b]);
      }
    } else if Opening(events).None? && Opens(p) {
      var regs := Registrations(p.header, t.prefixes, 0);
      assert c.sent + regs == c.sent + regs + [];
      assert SafeLog(c', events', c.sent, []);
    } else {
      assert SafeLog(c', events', before, after);
    }
  }

  lemma {:induction false} ProcessSafe(c: Conn, events: seq<Event>, t: M.MibTable, ps: seq<Pdu>)
    requires Safe(c, events)
    ensures Safe(Process(c, t, ps), events + EventsOf(c, t, ps))
    decreases |ps|
  {
    hide Handle, Safe;
    if ps == [] {
      assert events + [] == events;
    } else {
      var s, e := Handle(c, t, ps[0]), (ps[0], t.prefixes);
      HandleSafe(c, events, t, ps[0]);
      if s.ok {
        ProcessSafe(s.conn, events + [e], t, ps[1..]);
        assert events + [e] + EventsOf(s.conn, t, ps[1..]) == events + ([e] + EventsOf(s.conn, t, ps[1..]));
      } else {
        assert [e] + [] == [e];
      }
    }
  }

  const INITIAL := Conn(NO_SESSION, 0, [], false)

  /** In every run, over arbitrary bytes and changing tables: the session is unset if and only
      if no error-free Response was handled; the first one handled sets it and causes the one
      block of registrations; all else that was written is responses. */
  lemma {:induction false} SessionSafety(inputs: seq<Input>)
    ensures Safe(Run(INITIAL, inputs), Events(INITIAL, inputs))
    ensures Run(INITIAL, inputs).sessionId == NO_SESSION <==> Opening(Events(INITIAL, inputs)).None?
    decreases |inputs|
  {
    hide Process, DecodeStream, EventsOf;
    if inputs == [] {
      assert SafeLog(INITIAL, [], [], []);
    } else {
      hide Safe;
      var front, last := inputs[..|inputs| - 1], inputs[|inputs| - 1];
      var c := Run(INITIAL, front);
      SessionSafety(front);
      CounterSafe(c, Events(INITIAL, front));
      ProcessSafe(c.(counter := c.counter + 1), Events(INITIAL, front), last.0, DecodeStream(last.1).pdus);
    }
    SafeSession(Run(INITIAL, inputs), Events(INITIAL, inputs));
  }

  lemma CounterSafe(c: Conn, events: seq<Event>)
    requires Safe(c, events)
    ensures Safe(c.(counter := c.counter + 1), events)
  {
    var before, after :| SafeLog(c, events, before, after);
    assert SafeLog(c.(counter := c.counter + 1), events, before, after);
  }

  lemma SafeSession(c: Conn, events: seq<Event>)
    requires Safe(c, events)
    ensures c.sessionId == NO_SESSION <==> Opening(events).None?
    ensures Opening(events).Some? ==> c.sessionId == Opening(events).value.0.header.sessionId
  {
  }

  /** Once set, the session id never changes, whatever arrives. */
  lemma SessionKept(inputs: seq<Input>, n: nat)
    requires n <= |inputs| && Run(INITIAL, inputs[..n]).sessionId != NO_SESSION
    ensures Run(INITIAL, inputs).sessionId == Run(INITIAL, inputs[..n]).sessionId
  {
    hide Run, Events, Opening, Safe;
    SessionSafety(inputs);
    SessionSafety(inputs[..n]);
    SafeSession(Run(INITIAL, inputs), Events(INITIAL, inputs));
    SafeSession(Run(INITIAL, inputs[..n]), Events(INITIAL, inputs[..n]));
    var more := EventsAppend(inputs, n);
    OpeningKept(Events(INITIAL, inputs[..n]), more);
  }

  lemma {:induction false} EventsAppend(inputs: seq<Input>, n: nat) returns (more: seq<Event>)
    requires n <= |inputs|
    ensures Events(INITIAL, inputs) == Events(INITIAL, inputs[..n]) + more
    decreases |inputs|
  {
    hide Run, ChunkEvents;
    if n == |inputs| {
      more := [];
      assert inputs[..n] == inputs;
    } else {
      var front := inputs[..|inputs| - 1];
      var m := EventsAppend(front, n);
      assert front[..n] == inputs[..n];
      more := m + ChunkEvents(Run(INITIAL, front), inputs[|inputs| - 1]);
    }
  }

  // ---------------------------------------------------------------- the block of registrations

  lemma {:induction false} HandledPdus(c: Conn, t: M.MibTable, ps: seq<Pdu>, e: Event)
    requires e in EventsOf(c, t, ps)
    ensures e.0 in ps && e.1 == t.prefixes
    decreases |ps|
  {
    hide Handle;
    if e != (ps[0], t.prefixes) { HandledPdus(Handle(c, t, ps[0]).conn, t, ps[1..], e); }
  }

  /** Whatever was handled was decoded from a chunk. */
  lemma {:induction false} HandledReceived(c: Conn, inputs: seq<Input>, e: Event)
    requires e in Events(c, inputs)
    ensures exists k :: 0 <= k < |inputs| && e.0 in DecodeStream(inputs[k].1).pdus && e.1 == inputs[k].0.prefixes
    decreases |inputs|
  {
    hide DecodeStream, EventsOf, Run;
    var front, last := inputs[..|inputs| - 1], inputs[|inputs| - 1];
    if e in Events(c, front) {
      HandledReceived(c, front, e);
      var k :| 0 <= k < |front| && e.0 in DecodeStream(front[k].1).pdus && e.1 == front[k].0.prefixes;
      assert inputs[k] == front[k];
    } else {
      var c' := Run(c, front);
      HandledPdus(c'.(counter := c'.counter + 1), last.0, DecodeStream(last.1).pdus, e);
      assert inputs[|inputs| - 1] == last;
    }
  }

  /** A registration under the header of the opening response: of one subtree, with the default
      timeout and its position as priority. */
  ghost predicate RegistersAs(b: Bytes, h: Header, priority: nat, subtree: Oid) {
    var d := Decode(b);
    d.Some? && d.value.trailing == [] &&
    var q := d.value.pdu;
    q.header == h.(type_ := 3, payloadLength := |b| - 20) &&
    q.body.Register? && q.body == Register(None, 5, priority, 0, 0, q.body.subtree, None) &&
    T.Named(q.body.subtree, subtree)
  }

  /** In every run whose opening Response announces no context, over at most 256 subtrees whose
      names fit the wire, the block has exactly one registration per subtree, with priorities
      0, 1, ... in list order; and only then, unless there are no subtrees at all. */
  lemma RegistrationBlock(inputs: seq<Input>)
    requires Opening(Events(INITIAL, inputs)).Some?
    ensures var (p, subtrees) := Opening(Events(INITIAL, inputs)).value;
      var block := Registrations(p.header, subtrees, 0);
      && (|block| == |subtrees| <==>
            subtrees == [] ||
            (!p.header.NonDefaultContext() && |subtrees| <= 256 && forall i :: 0 <= i < |subtrees| ==>
              FittingName(subtrees[i])))
      && forall i :: 0 <= i < |block| ==> RegistersAs(block[i], p.header, i, subtrees[i])
  {
    hide Registrations, Events, DecodeStream, FittingName, RegisterBytes, RegistersAs;
    var events := Events(INITIAL, inputs);
    var (p, subtrees) := Opening(events).value;
    var n := OpeningAt(events);
    HandledReceived(INITIAL, inputs, (p, subtrees));
    var k :| 0 <= k < |inputs| && p in DecodeStream(inputs[k].1).pdus && subtrees == inputs[k].0.prefixes;
    ReceivedHeaders(inputs[k].1, p);
    BlockComplete(p.header, subtrees);
    forall i | 0 <= i < |Registrations(p.header, subtrees, 0)|
      ensures RegistersAs(Registrations(p.header, subtrees, 0)[i], p.header, i, subtrees[i])
    {
      BlockAt(p.header, subtrees, i);
    }
  }

  lemma BlockComplete(h: Header, subtrees: seq<Oid>)
    requires h.ToBytes().Some?
    ensures |Registrations(h, subtrees, 0)| == |subtrees| <==>
      subtrees == [] ||
      (!h.NonDefaultContext() && |subtrees| <= 256 && forall i :: 0 <= i < |subtrees| ==> FittingName(subtrees[i]))
  {
    hide Registrations, FittingName, RegisterBytes, Header.ToBytes;
    RegistrationsComplete(h, subtrees, 0);
    forall i | 0 <= i < |subtrees|
      ensures RegisterBytes(h, i, subtrees[i]).Some? <==> !h.NonDefaultContext() && i < 256 && FittingName(subtrees[i])
    {
      RegisterEncodes(h, i, subtrees[i]);
    }
    if subtrees != [] { assert RegisterBytes(h, 0, subtrees[0]).Some? ==> !h.NonDefaultContext(); }
    if |subtrees| > 256 { assert RegisterBytes(h, 256, subtrees[256]).None?; }
  }

  lemma BlockAt(h: Header, subtrees: seq<Oid>, i: nat)
    requires i < |Registrations(h, subtrees, 0)|
    ensures i < |subtrees| && RegistersAs(Registrations(h, subtrees, 0)[i], h, i, subtrees[i])
  {
    hide Registrations, Decode, EncodePdu, RegisterBytes, T.Named;
    RegistrationAt(h, subtrees, 0, i);
    var b := RegisterBytes(h, i, subtrees[i]).value;
    RegisterMeaning(h, i, subtrees[i], []);
    assert b + [] == b;
  }
}

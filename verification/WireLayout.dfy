/** Where everything stands on the wire, in plain arithmetic on byte positions (sections 5 and 6
    of RFC 2741): what a decoder returns is what these positions say, and so is what the encoders
    write. */
module WireLayout {
  import opened Common
  import opened OidOrder
  import opened Struct
  import opened Encodings
  import opened ItemLoops
  import opened Pdus
  import opened PduTheory

  // ---------------------------------------------------------------- integers

  function At(bs: Bytes, i: nat): nat
    requires i < |bs|
  {
    bs[i]
  }

  /** Two, four and eight bytes from position `i` on; `network` puts the most significant byte
      first, and otherwise the least significant byte is first. */
  function Short(bs: Bytes, i: nat, network: bool): nat
    requires i + 2 <= |bs|
  {
    if network then At(bs, i) * 0x100 + At(bs, i + 1) else At(bs, i) + At(bs, i + 1) * 0x100
  }

  function Long(bs: Bytes, i: nat, network: bool): nat
    requires i + 4 <= |bs|
  {
    if network then At(bs, i) * 0x100_0000 + At(bs, i + 1) * 0x1_0000 + At(bs, i + 2) * 0x100 + At(bs, i + 3)
    else At(bs, i) + At(bs, i + 1) * 0x100 + At(bs, i + 2) * 0x1_0000 + At(bs, i + 3) * 0x100_0000
  }

  function Quad(bs: Bytes, i: nat, network: bool): nat
    requires i + 8 <= |bs|
  {
    if network then Long(bs, i, true) * 0x1_0000_0000 + Long(bs, i + 4, true)
    else Long(bs, i, false) + Long(bs, i + 4, false) * 0x1_0000_0000
  }

  lemma NumberStep(e: Endian, bs: Bytes)
    requires bs != []
    ensures Number(e, bs) ==
            if e.Little? then bs[0] + 256 * Number(e, bs[1..]) else bs[|bs| - 1] + 256 * Number(e, bs[..|bs| - 1])
    ensures |bs| == 1 ==> Number(e, bs) == bs[0]
  {
  }

  lemma NumberOfTwo(e: Endian, bs: Bytes)
    requires |bs| == 2
    ensures Number(e, bs) == Short(bs, 0, e.Big?)
  {
    hide Number;
    NumberStep(e, bs);
    NumberStep(e, bs[1..]);
    NumberStep(e, bs[..1]);
  }

  lemma NumberOfFour(e: Endian, bs: Bytes)
    requires |bs| == 4
    ensures Number(e, bs) == Long(bs, 0, e.Big?)
  {
    hide Number;
    NumberStep(e, bs);
    if e.Little? {
      NumberStep(e, bs[1..]);
      assert bs[1..][1..] == bs[2..];
      NumberOfTwo(e, bs[2..]);
    } else {
      NumberStep(e, bs[..3]);
      assert bs[..3][..2] == bs[..2];
      NumberOfTwo(e, bs[..2]);
    }
  }

  /** Four bytes more at the end that is most significant. */
  lemma FourMore(e: Endian, bs: Bytes)
    requires |bs| == 8
    ensures Number(e, bs) ==
            if e.Little? then bs[0] + 256 * (bs[1] + 256 * (bs[2] + 256 * (bs[3] + 256 * Number(e, bs[4..]))))
            else bs[7] + 256 * (bs[6] + 256 * (bs[5] + 256 * (bs[4] + 256 * Number(e, bs[..4]))))
  {
    hide Number;
    NumberStep(e, bs);
    if e.Little? {
      NumberStep(e, bs[1..]);
      NumberStep(e, bs[2..]);
      NumberStep(e, bs[3..]);
      assert bs[1..][1..] == bs[2..] && bs[2..][1..] == bs[3..] && bs[3..][1..] == bs[4..];
    } else {
      NumberStep(e, bs[..7]);
      NumberStep(e, bs[..6]);
      NumberStep(e, bs[..5]);
      assert bs[..7][..6] == bs[..6] && bs[..6][..5] == bs[..5] && bs[..5][..4] == bs[..4];
    }
  }

  lemma NumberOfEight(e: Endian, bs: Bytes)
    requires |bs| == 8
    ensures Number(e, bs) == Quad(bs, 0, e.Big?)
  {
    hide Number;
    FourMore(e, bs);
    if e.Little? { NumberOfFour(e, bs[4..]); } else { NumberOfFour(e, bs[..4]); }
  }

  lemma ReadTwo(e: Endian, bs: Bytes, i: nat)
    requires i + 2 <= |bs|
    ensures Number(e, bs[i..i + 2]) == Short(bs, i, e.Big?)
  {
    NumberOfTwo(e, bs[i..i + 2]);
  }

  lemma ReadFour(e: Endian, bs: Bytes, i: nat)
    requires i + 4 <= |bs|
    ensures Number(e, bs[i..i + 4]) == Long(bs, i, e.Big?)
  {
    NumberOfFour(e, bs[i..i + 4]);
  }

  lemma ReadEight(e: Endian, bs: Bytes, i: nat)
    requires i + 8 <= |bs|
    ensures Number(e, bs[i..i + 8]) == Quad(bs, i, e.Big?)
  {
    NumberOfEight(e, bs[i..i + 8]);
  }

  // ---------------------------------------------------------------- object identifiers

  /** At `i`: the number of sub-ids, the prefix, the include flag and the reserved byte, then four
      bytes for each sub-id. */
  ghost predicate OidAt(bs: Bytes, i: nat, network: bool, o: ObjectIdentifier) {
    && i + 4 <= |bs| && i + 4 + 4 * At(bs, i) <= |bs|
    && o.nSubid == |o.subids| == At(bs, i)
    && o.prefix == At(bs, i + 1) && o.inclusive == At(bs, i + 2) && o.reserved == At(bs, i + 3)
    && forall j :: 0 <= j < |o.subids| ==> o.subids[j] == Long(bs, i + 4 + 4 * j, network)
  }

  lemma {:induction false} SubidsRead(e: Endian, bs: Bytes, n: nat, j: nat)
    requires |bs| == 4 * n && j < n
    ensures UnpackSubids(e, bs, n)[j] == Long(bs, 4 * j, e.Big?)
    decreases n
  {
    hide Number;
    ReadFour(e, bs, 0);
    if j > 0 { SubidsRead(e, bs[4..], n - 1, j - 1); }
  }

  /** The decoder returns exactly the identifier that stands there. */
  lemma OidRead(bs: Bytes, e: Endian, o: ObjectIdentifier)
    ensures OidFromBytes(bs, e) == Some(o) <==> OidAt(bs, 0, e.Big?, o)
  {
    if |bs| >= 4 && |bs| >= 4 + 4 * At(bs, 0) {
      var n := At(bs, 0);
      var fields := bs[4..4 + 4 * n];
      forall j | 0 <= j < n ensures UnpackSubids(e, fields, n)[j] == Long(bs, 4 + 4 * j, e.Big?) {
        SubidsRead(e, fields, n, j);
      }
      if OidAt(bs, 0, e.Big?, o) { assert o.subids == UnpackSubids(e, fields, n); }
    }
  }

  /** The name that stands there: a prefix x that is not zero means 1.3.6.1.x. */
  lemma NameAt(bs: Bytes, i: nat, network: bool, o: ObjectIdentifier)
    requires OidAt(bs, i, network, o)
    ensures o.ToTuple() == (if At(bs, i + 1) == 0 then [] else [1, 3, 6, 1, At(bs, i + 1)]) + o.subids
  {
  }

  lemma OidMoves(bs: Bytes, k: nat, i: nat, network: bool, o: ObjectIdentifier)
    requires k <= |bs|
    ensures OidAt(bs[k..], i, network, o) <==> OidAt(bs, k + i, network, o)
  {
    hide Long;
    if k + i + 4 <= |bs| && k + i + 4 + 4 * At(bs, k + i) <= |bs| {
      forall j | 0 <= j < At(bs, k + i)
        ensures Long(bs[k..], i + 4 + 4 * j, network) == Long(bs, k + i + 4 + 4 * j, network)
      {
        LongMoves(bs, k, i + 4 + 4 * j, network);
      }
    }
  }

  lemma LongMoves(bs: Bytes, k: nat, i: nat, network: bool)
    requires k + i + 4 <= |bs|
    ensures Long(bs[k..], i, network) == Long(bs, k + i, network)
  {
  }

  // ---------------------------------------------------------------- octet strings

  /** At `i`: the length in four bytes, the octets, and padding up to a multiple of four. */
  ghost predicate OctetsAt(bs: Bytes, i: nat, network: bool, s: OctetString) {
    && i + 4 <= |bs|
    && s.length == |s.octets| == Long(bs, i, network)
    && |s.padding| < 4 && (s.length + |s.padding|) % 4 == 0
    && i + 4 + s.length + |s.padding| <= |bs|
    && s.octets == bs[i + 4..i + 4 + s.length]
    && s.padding == bs[i + 4 + s.length..i + 4 + s.length + |s.padding|]
  }

  lemma PadUnique(length: nat, pad: nat)
    requires pad < 4
    ensures (length + pad) % 4 == 0 <==> pad == Pad4(length)
  {
  }

  lemma OctetsRead(bs: Bytes, e: Endian, s: OctetString)
    ensures OctetsFromBytes(bs, e) == Some(s) <==> OctetsAt(bs, 0, e.Big?, s)
  {
    hide Number, Long, Pad4;
    if |bs| >= 4 {
      ReadFour(e, bs, 0);
      assert bs[0..4] == bs[..4];
      if |s.padding| < 4 { PadUnique(Long(bs, 0, e.Big?), |s.padding|); }
    }
  }

  lemma OctetsMoves(bs: Bytes, k: nat, i: nat, network: bool, s: OctetString)
    requires k <= |bs|
    ensures OctetsAt(bs[k..], i, network, s) <==> OctetsAt(bs, k + i, network, s)
  {
    hide Long;
    if k + i + 4 <= |bs| {
      LongMoves(bs, k, i, network);
      var from, end := i + 4 + s.length, i + 4 + s.length + |s.padding|;
      if k + end <= |bs| {
        assert bs[k..][i + 4..from] == bs[k + i + 4..k + from];
        assert bs[k..][from..end] == bs[k + from..k + end];
      }
    }
  }

  // ---------------------------------------------------------------- bindings and ranges

  /** The type codes of section 5.4. */
  lemma TypeCodes()
    ensures INTEGER.Code() == 2 && OCTET_STRING.Code() == 4 && NULL.Code() == 5 && OBJECT_IDENTIFIER.Code() == 6
    ensures IP_ADDRESS.Code() == 64 && COUNTER_32.Code() == 65 && GAUGE_32.Code() == 66 && TIME_TICKS.Code() == 67
    ensures OPAQUE.Code() == 68 && COUNTER_64.Code() == 70
    ensures NO_SUCH_OBJECT.Code() == 128 && NO_SUCH_INSTANCE.Code() == 129 && END_OF_MIB_VIEW.Code() == 130
    ensures forall c, t :: TypeFromCode(c) == Some(t) <==> t.Code() == c
  {
    forall c, t ensures TypeFromCode(c) == Some(t) <==> t.Code() == c { TypeRoundTrip(t); }
  }

  ghost predicate DataAt(bs: Bytes, i: nat, network: bool, type_: ValueType, data: Data) {
    match type_
    case INTEGER | COUNTER_32 | GAUGE_32 | TIME_TICKS => i + 4 <= |bs| && data == Num(Long(bs, i, network))
    case COUNTER_64 => i + 8 <= |bs| && data == Num(Quad(bs, i, network))
    case OBJECT_IDENTIFIER => data.Name? && OidAt(bs, i, network, data.o)
    case IP_ADDRESS | OPAQUE | OCTET_STRING => data.Str? && OctetsAt(bs, i, network, data.s)
    case NULL | NO_SUCH_OBJECT | NO_SUCH_INSTANCE | END_OF_MIB_VIEW => data == Nothing
  }

  /** At `i`: the type code and the reserved field in two bytes each, the name, and the data. */
  ghost predicate BindingAt(bs: Bytes, i: nat, network: bool, v: VarBind) {
    && i + 4 <= |bs|
    && v.type_.Code() == Short(bs, i, network) && v.reserved == Short(bs, i + 2, network)
    && OidAt(bs, i + 4, network, v.name)
    && DataAt(bs, i + 8 + 4 * |v.name.subids|, network, v.type_, v.data)
  }

  ghost predicate RangeAt(bs: Bytes, i: nat, network: bool, sr: SearchRange) {
    OidAt(bs, i, network, sr.start) && OidAt(bs, i + 4 + 4 * |sr.start.subids|, network, sr.end)
  }

  lemma DataRead(bs: Bytes, i: nat, e: Endian, t: ValueType, d: Data)
    requires i <= |bs|
    ensures UnpackData(t, bs[i..], e) == Some(d) <==> DataAt(bs, i, e.Big?, t, d)
  {
    hide OidFromBytes, OctetsFromBytes, OidAt, OctetsAt, Number, Long, Quad;
    var tail := bs[i..];
    if |tail| >= 4 {
      ReadFour(e, bs, i);
      assert tail[..4] == bs[i..i + 4];
    }
    if |tail| >= 8 {
      ReadEight(e, bs, i);
      assert tail[..8] == bs[i..i + 8];
    }
    if d.Name? {
      OidRead(tail, e, d.o);
      OidMoves(bs, i, 0, e.Big?, d.o);
    }
    if d.Str? {
      OctetsRead(tail, e, d.s);
      OctetsMoves(bs, i, 0, e.Big?, d.s);
    }
  }

  /** The decoder returns exactly the binding that stands there. */
  lemma BindingRead(bs: Bytes, k: nat, e: Endian, v: VarBind)
    requires k <= |bs|
    ensures VarBindFromBytes(bs[k..], e) == Some(v) <==> BindingAt(bs, k, e.Big?, v)
  {
    hide OidFromBytes, OidAt, UnpackData, DataAt, Number, Short, TypeFromCode, ValueType.Code;
    var tail := bs[k..];
    if |tail| >= 4 {
      ReadTwo(e, bs, k);
      ReadTwo(e, bs, k + 2);
      assert tail[..2] == bs[k..k + 2] && tail[2..4] == bs[k + 2..k + 4];
      NameRead(bs, k + 4, e, v.name);
      assert tail[4..] == bs[k + 4..];
      TypeCodes();
      if OidFromBytes(tail[4..], e) == Some(v.name) {
        var n := 4 + v.name.Size();
        assert tail[n..] == bs[k + n..];
        DataRead(bs, k + n, e, v.type_, v.data);
      }
    }
  }

  lemma NameRead(bs: Bytes, k: nat, e: Endian, o: ObjectIdentifier)
    requires k <= |bs|
    ensures OidFromBytes(bs[k..], e) == Some(o) <==> OidAt(bs, k, e.Big?, o)
  {
    hide OidFromBytes, OidAt;
    OidRead(bs[k..], e, o);
    OidMoves(bs, k, 0, e.Big?, o);
  }

  lemma RangeRead(bs: Bytes, k: nat, e: Endian, sr: SearchRange)
    requires k <= |bs|
    ensures RangeFromBytes(bs[k..], e) == Some(sr) <==> RangeAt(bs, k, e.Big?, sr)
  {
    hide OidFromBytes, OidAt;
    NameRead(bs, k, e, sr.start);
    if OidFromBytes(bs[k..], e) == Some(sr.start) {
      var n := sr.start.Size();
      assert bs[k..][n..] == bs[k + n..];
      NameRead(bs, k + n, e, sr.end);
    }
  }

  /** What an encoded binding puts on the wire: its fields in their places, integers reduced to
      the width of their type. */
  lemma BindingWritten(v: VarBind, e: Endian, rest: Bytes)
    requires v.WellFormed() && v.ToBytes(e).Some?
    ensures var bs := v.ToBytes(e).value + rest;
      && BindingAt(bs, 0, e.Big?, v.OnWire())
      && OidAt(bs, 4, e.Big?, v.name)
      && var i := 8 + 4 * |v.name.subids|;
         match v.type_
         case INTEGER | COUNTER_32 | GAUGE_32 | TIME_TICKS =>
           i + 4 <= |bs| && Long(bs, i, e.Big?) == v.data.n % 0x1_0000_0000
         case COUNTER_64 => i + 8 <= |bs| && Quad(bs, i, e.Big?) == v.data.n % 0x1_0000_0000_0000_0000
         case _ => v.OnWire() == v
  {
    hide VarBindFromBytes, OidAt, OctetsAt, Long, Quad, ValueType.Code, VarBind.ToBytes;
    var bs := v.ToBytes(e).value + rest;
    VarBindRoundTrip(v, e, rest);
    assert bs[0..] == bs;
    BindingRead(bs, 0, e, v.OnWire());
  }

  // ---------------------------------------------------------------- PDUs

  /** Bit 4 of the flags is NETWORK_BYTE_ORDER, bit 3 NON_DEFAULT_CONTEXT. */
  predicate Network(flags: nat) {
    flags / 16 % 2 == 1
  }

  ghost predicate HeaderAt(bs: Bytes, h: Header) {
    && |bs| >= 20
    && h.version == At(bs, 0) && h.type_ == At(bs, 1) && h.flags == At(bs, 2) && h.reserved == At(bs, 3)
    && var network := Network(At(bs, 2));
       h.sessionId == Long(bs, 4, network) && h.transactionId == Long(bs, 8, network) &&
       h.packetId == Long(bs, 12, network) && h.payloadLength == Long(bs, 16, network)
  }

  lemma HeaderRead(bs: Bytes, h: Header)
    requires |bs| >= 20
    ensures HeaderFromBytes(bs) == h <==> HeaderAt(bs, h)
    ensures h.Order().Big? <==> Network(h.flags)
  {
    hide Number, Long;
    var e := HeaderFromBytes(bs).Order();
    ReadFour(e, bs, 4);
    ReadFour(e, bs, 8);
    ReadFour(e, bs, 12);
    ReadFour(e, bs, 16);
  }

  /** The header of every PDU that is written, of whatever kind. */
  lemma HeaderWritten(p: Pdu)
    requires EncodePdu(p).Some?
    ensures HeaderAt(EncodePdu(p).value, p.header)
  {
    hide BodyToBytes, HeaderFromBytes, HeaderAt, Header.Order;
    HeaderRoundTrip(p.header, BodyToBytes(p.body, p.header.Order()).value);
    HeaderRead(EncodePdu(p).value, p.header);
  }

  ghost predicate RangesAt(bs: Bytes, i: nat, network: bool, srs: seq<SearchRange>)
    decreases |srs|
  {
    srs == [] || (RangeAt(bs, i, network, srs[0]) && RangesAt(bs, i + srs[0].Size(), network, srs[1..]))
  }

  ghost predicate BindingsAt(bs: Bytes, i: nat, network: bool, vs: seq<VarBind>)
    decreases |vs|
  {
    vs == [] || (BindingAt(bs, i, network, vs[0]) && BindingsAt(bs, i + vs[0].Size(), network, vs[1..]))
  }

  lemma FirstItem<T(!new)>(f: Format<T>, bs: Bytes, budget: int)
    requires Lawful(f) && bs != [] && budget > 0 && DecodeAll(f, bs, budget).Some?
    ensures f.decode(bs).Some? && f.size(f.decode(bs).value) <= |bs|
    ensures var one := f.decode(bs).value;
      var more := DecodeAll(f, bs[f.size(one)..], budget - f.size(one));
      more.Some? && DecodeAll(f, bs, budget).value.items == [one] + more.value.items
  {
  }

  lemma NoItems<T(!new)>(f: Format<T>, bs: Bytes, budget: int)
    requires Lawful(f) && (bs == [] || budget <= 0)
    ensures DecodeAll(f, bs, budget) == Some(Items([], bs))
  {
  }

  lemma RangesFormat(bs: Bytes, e: Endian)
    ensures Lawful(RangeFormat(e))
    ensures forall budget :: DecodeRanges(e, bs, budget) == DecodeAll(RangeFormat(e), bs, budget)
    ensures RangeFormat(e).decode(bs) == RangeFromBytes(bs, e)
    ensures RangeFromBytes(bs, e).Some? ==>
              RangeFormat(e).size(RangeFromBytes(bs, e).value) == RangeFromBytes(bs, e).value.Size()
  {
    FormatsLawful(e);
  }

  /** One turn of the read loop: what the first item is, and what the other turns read. */
  lemma RangesTurn(bs: Bytes, e: Endian, budget: int) returns (one: SearchRange)
    requires bs != [] && budget > 0 && DecodeRanges(e, bs, budget).Some?
    ensures RangeFromBytes(bs, e) == Some(one) && one.Size() <= |bs|
    ensures var more := DecodeRanges(e, bs[one.Size()..], budget - one.Size());
      more.Some? && DecodeRanges(e, bs, budget).value.items == [one] + more.value.items
  {
    hide *;
    RangesFormat(bs, e);
    FirstItem(RangeFormat(e), bs, budget);
    one := RangeFromBytes(bs, e).value;
    RangesFormat(bs[one.Size()..], e);
  }

  lemma RangesEnd(bs: Bytes, e: Endian, budget: int)
    requires bs == [] || budget <= 0
    ensures DecodeRanges(e, bs, budget) == Some(Items([], bs))
  {
    FormatsLawful(e);
    NoItems(RangeFormat(e), bs, budget);
  }

  lemma {:induction false} RangesRead(bs: Bytes, k: nat, e: Endian, budget: int)
    requires k <= |bs| && DecodeRanges(e, bs[k..], budget).Some?
    ensures RangesAt(bs, k, e.Big?, DecodeRanges(e, bs[k..], budget).value.items)
    decreases |bs| - k
  {
    hide RangeFromBytes, RangeAt, SearchRange.Size, DecodeRanges;
    if k < |bs| && budget > 0 {
      var one := RangesTurn(bs[k..], e, budget);
      RangeRead(bs, k, e, one);
      assert bs[k..][one.Size()..] == bs[k + one.Size()..];
      RangesRead(bs, k + one.Size(), e, budget - one.Size());
    } else {
      RangesEnd(bs[k..], e, budget);
    }
  }

  lemma BindingsFormat(bs: Bytes, e: Endian)
    ensures Lawful(VarBindFormat(e))
    ensures forall budget :: DecodeValues(e, bs, budget) == DecodeAll(VarBindFormat(e), bs, budget)
    ensures VarBindFormat(e).decode(bs) == VarBindFromBytes(bs, e)
    ensures VarBindFromBytes(bs, e).Some? ==>
              VarBindFormat(e).size(VarBindFromBytes(bs, e).value) == VarBindFromBytes(bs, e).value.Size()
  {
    FormatsLawful(e);
  }

  /** One turn of the read loop: what the first item is, and what the other turns read. */
  lemma BindingsTurn(bs: Bytes, e: Endian, budget: int) returns (one: VarBind)
    requires bs != [] && budget > 0 && DecodeValues(e, bs, budget).Some?
    ensures VarBindFromBytes(bs, e) == Some(one) && one.Size() <= |bs|
    ensures var more := DecodeValues(e, bs[one.Size()..], budget - one.Size());
      more.Some? && DecodeValues(e, bs, budget).value.items == [one] + more.value.items
  {
    hide *;
    BindingsFormat(bs, e);
    FirstItem(VarBindFormat(e), bs, budget);
    one := VarBindFromBytes(bs, e).value;
    BindingsFormat(bs[one.Size()..], e);
  }

  lemma BindingsEnd(bs: Bytes, e: Endian, budget: int)
    requires bs == [] || budget <= 0
    ensures DecodeValues(e, bs, budget) == Some(Items([], bs))
  {
    FormatsLawful(e);
    NoItems(VarBindFormat(e), bs, budget);
  }

  lemma {:induction false} BindingsRead(bs: Bytes, k: nat, e: Endian, budget: int)
    requires k <= |bs| && DecodeValues(e, bs[k..], budget).Some?
    ensures BindingsAt(bs, k, e.Big?, DecodeValues(e, bs[k..], budget).value.items)
    decreases |bs| - k
  {
    hide VarBindFromBytes, BindingAt, VarBind.Size, DecodeValues;
    if k < |bs| && budget > 0 {
      var one := BindingsTurn(bs[k..], e, budget);
      BindingRead(bs, k, e, one);
      assert bs[k..][one.Size()..] == bs[k + one.Size()..];
      BindingsRead(bs, k + one.Size(), e, budget - one.Size());
    } else {
      BindingsEnd(bs[k..], e, budget);
    }
  }

  /** The context, if the flags announce one, stands right after the header. */
  ghost predicate ContextAt(bs: Bytes, network: bool, c: Option<OctetString>)
    requires |bs| >= 20
  {
    if At(bs, 2) / 8 % 2 == 1 then c.Some? && OctetsAt(bs, 20, network, c.value) else c.None?
  }

  function AfterContext(c: Option<OctetString>): nat {
    if c.None? then 20 else 24 + |c.value.octets| + |c.value.padding|
  }

  lemma ContextRead(h: Header, bs: Bytes, c: Option<OctetString>, rest: Bytes)
    requires HeaderAt(bs, h) && ParseContext(h, bs[20..]) == Some((c, rest))
    ensures ContextAt(bs, Network(h.flags), c) && AfterContext(c) <= |bs| && rest == bs[AfterContext(c)..]
  {
    hide OctetsFromBytes, OctetsAt;
    HeaderRead(bs, h);
    if c.Some? {
      OctetsRead(bs[20..], h.Order(), c.value);
      OctetsMoves(bs, 20, 0, Network(h.flags), c.value);
    }
  }

  ghost predicate OpenAt(bs: Bytes, network: bool, b: Body) {
    && b.Open? && |bs| >= 24
    && b.timeout == At(bs, 20) && b.reserved == bs[21..24] && OidAt(bs, 24, network, b.oid)
    && OctetsAt(bs, 28 + 4 * |b.oid.subids|, network, b.descr)
  }

  ghost predicate RegisterAt(bs: Bytes, network: bool, b: Body)
    requires |bs| >= 20
  {
    && b.Register? && ContextAt(bs, network, b.context)
    && var i := AfterContext(b.context);
       && i + 4 <= |bs|
       && b.timeout == At(bs, i) && b.priority == At(bs, i + 1)
       && b.rangeSubid == At(bs, i + 2) && b.rangeReserved == At(bs, i + 3)
       && OidAt(bs, i + 4, network, b.subtree)
       && var j := i + 8 + 4 * |b.subtree.subids|;
          if At(bs, i + 2) == 0 then b.upperBound.None?
          else j + 4 <= |bs| && b.upperBound == Some(Long(bs, j, network))
  }

  ghost predicate ResponseAt(bs: Bytes, network: bool, b: Body) {
    && b.Response? && |bs| >= 28
    && b.sysUpTime == Long(bs, 20, network) && b.error == Short(bs, 24, network) && b.index == Short(bs, 26, network)
    && BindingsAt(bs, 28, network, b.values)
  }

  /** The payload, by the type code of the header (section 6.1). */
  ghost predicate BodyAt(bs: Bytes, network: bool, b: Body)
    requires |bs| >= 20
  {
    match At(bs, 1)
    case 1 => OpenAt(bs, network, b)
    case 2 => b.Close? && |bs| >= 24 && b.reason == At(bs, 20) && b.reasonReserved == bs[21..24]
    case 3 => RegisterAt(bs, network, b)
    case 5 => b.Get? && ContextAt(bs, network, b.context) && RangesAt(bs, AfterContext(b.context), network, b.sr)
    case 6 => b.GetNext? && ContextAt(bs, network, b.context) && RangesAt(bs, AfterContext(b.context), network, b.sr)
    case 8 => b.TestSet? && ContextAt(bs, network, b.context)
    case 9 => b.CommitSet?
    case 10 => b.UndoSet?
    case 11 => b.CleanupSet?
    case 13 => b.Ping? && ContextAt(bs, network, b.context)
    case 18 => ResponseAt(bs, network, b)
    case _ => false
  }

  /** Of a Close PDU the length is set to 4 whatever the header says. */
  ghost predicate PduAt(bs: Bytes, p: Pdu) {
    && |bs| >= 20
    && var network := Network(At(bs, 2));
       && HeaderAt(bs, if At(bs, 1) == 2 then p.header.(payloadLength := Long(bs, 16, network)) else p.header)
       && (At(bs, 1) == 2 ==> p.header.payloadLength == 4)
       && BodyAt(bs, network, p.body)
  }

  lemma OpenRead(h: Header, bs: Bytes)
    requires HeaderAt(bs, h) && DecodeOpen(h, bs[20..]).Some?
    ensures DecodeOpen(h, bs[20..]).value.pdu.header == h
    ensures OpenAt(bs, Network(h.flags), DecodeOpen(h, bs[20..]).value.pdu.body)
  {
    hide OidFromBytes, OctetsFromBytes, OidAt, OctetsAt, Header.Order;
    HeaderRead(bs, h);
    var e, tail := h.Order(), bs[20..];
    assert tail[4..] == bs[24..] && tail[1..4] == bs[21..24];
    var o := OidFromBytes(tail[4..], e).value;
    NameRead(bs, 24, e, o);
    var n := 24 + o.Size();
    assert tail[4 + o.Size()..] == bs[n..];
    var d := OctetsFromBytes(bs[n..], e).value;
    OctetsRead(bs[n..], e, d);
    OctetsMoves(bs, n, 0, e.Big?, d);
  }

  lemma RegisterRead(h: Header, bs: Bytes)
    requires HeaderAt(bs, h) && DecodeRegister(h, bs[20..]).Some?
    ensures DecodeRegister(h, bs[20..]).value.pdu.header == h
    ensures RegisterAt(bs, Network(h.flags), DecodeRegister(h, bs[20..]).value.pdu.body)
  {
    hide ParseContext, OidFromBytes, OidAt, Header.Order, Number, Long, ContextAt;
    HeaderRead(bs, h);
    var e := h.Order();
    var (c, fields) := ParseContext(h, bs[20..]).value;
    ContextRead(h, bs, c, fields);
    var i := AfterContext(c);
    assert fields == bs[i..] && fields[4..] == bs[i + 4..];
    var o := OidFromBytes(fields[4..], e).value;
    NameRead(bs, i + 4, e, o);
    var j := i + 4 + o.Size();
    assert fields[4 + o.Size()..] == bs[j..];
    if fields[2] != 0 {
      ReadFour(e, bs, j);
      assert bs[j..][..4] == bs[j..j + 4];
    }
  }

  lemma ResponseRead(h: Header, bs: Bytes)
    requires HeaderAt(bs, h) && DecodeResponse(h, bs[20..]).Some?
    ensures DecodeResponse(h, bs[20..]).value.pdu.header == h
    ensures ResponseAt(bs, Network(h.flags), DecodeResponse(h, bs[20..]).value.pdu.body)
  {
    hide DecodeValues, BindingsAt, Header.Order, Number, Long, Short;
    HeaderRead(bs, h);
    var e, tail := h.Order(), bs[20..];
    assert tail[8..] == bs[28..];
    ReadFour(e, bs, 20);
    ReadTwo(e, bs, 24);
    ReadTwo(e, bs, 26);
    assert tail[..4] == bs[20..24] && tail[4..6] == bs[24..26] && tail[6..8] == bs[26..28];
    BindingsRead(bs, 28, e, h.payloadLength - 8);
  }

  lemma ContextBodyRead(h: Header, bs: Bytes)
    requires HeaderAt(bs, h) && h.type_ in {5, 6, 8, 13} && DecodeBody(h, bs[20..]).Some?
    ensures DecodeBody(h, bs[20..]).value.pdu.header == h
    ensures BodyAt(bs, Network(h.flags), DecodeBody(h, bs[20..]).value.pdu.body)
  {
    hide ParseContext, ContextAt, DecodeRanges, DecodeValues, RangesAt, Header.Order;
    HeaderRead(bs, h);
    var (c, rest) := ParseContext(h, bs[20..]).value;
    ContextRead(h, bs, c, rest);
    if h.type_ == 5 || h.type_ == 6 { RangesRead(bs, AfterContext(c), h.Order(), h.payloadLength); }
  }

  /** Whatever the bytes: if a PDU is decoded from them, it is the one that stands there. */
  lemma DecodedLayout(bs: Bytes)
    requires Decode(bs).Some?
    ensures PduAt(bs, Decode(bs).value.pdu)
  {
    hide HeaderFromBytes, DecodeOpen, DecodeRegister, DecodeResponse, ParseContext, DecodeRanges, DecodeValues,
      OpenAt, RegisterAt, ResponseAt, ContextAt, RangesAt, Header.Order, Long;
    var h := HeaderFromBytes(bs);
    HeaderRead(bs, h);
    match h.type_
    case 1 => OpenRead(h, bs);
    case 2 => assert bs[20..][1..4] == bs[21..24];
    case 3 => RegisterRead(h, bs);
    case 5 => ContextBodyRead(h, bs);
    case 6 => ContextBodyRead(h, bs);
    case 8 => ContextBodyRead(h, bs);
    case 13 => ContextBodyRead(h, bs);
    case 18 => ResponseRead(h, bs);
    case _ =>
  }

  /** What `EncodePdu` writes stands in these places too. */
  lemma EncodedLayout(p: Pdu, rest: Bytes)
    requires Delimited(p) && EncodePdu(p).Some?
    ensures PduAt(EncodePdu(p).value + rest, OnWire(p))
  {
    hide Decode, Delimited, EncodePdu, OnWire, PduAt;
    DecodeEncode(p, rest);
    DecodedLayout(EncodePdu(p).value + rest);
  }

  lemma OrderIsFlag(h: Header)
    ensures h.Order().Big? <==> Network(h.flags)
  {
  }

  /** Close, CommitSet, UndoSet and CleanupSet PDUs are written as bare headers, and a TestSet PDU
      as header and context. */
  lemma BareWritten(p: Pdu)
    requires EncodePdu(p).Some? && !(p.body.Open? || p.body.Register? || p.body.Get? || p.body.GetNext?)
    requires !(p.body.Ping? || p.body.Response?)
    ensures |EncodePdu(p).value| >= 20 && HeaderAt(EncodePdu(p).value, p.header)
    ensures match p.body
            case TestSet(Some(c)) =>
              c.WellFormed() ==> OctetsAt(EncodePdu(p).value, 20, Network(p.header.flags), c) &&
                                 |EncodePdu(p).value| == 24 + |c.octets| + |c.padding|
            case _ => |EncodePdu(p).value| == 20
  {
    hide HeaderAt, OctetsAt, Header.Order, Header.ToBytes, OctetString.ToBytes;
    HeaderWritten(p);
    var bs := EncodePdu(p).value;
    match p.body
    case TestSet(Some(c)) =>
      if c.WellFormed() {
        var e := p.header.Order();
        OctetsRoundTrip(c, e, []);
        assert c.ToBytes(e).value + [] == c.ToBytes(e).value == bs[20..];
        OctetsRead(bs[20..], e, c);
        OctetsMoves(bs, 20, 0, e.Big?, c);
        OrderIsFlag(p.header);
      }
    case _ =>
  }
}

/** The data encodings of section 5 of RFC 2741 (`ax_interface/encodings.py`).
    `None` stands for the `struct.error`, `ValueError`, `TypeError` or `IndexError` that
    the Python code raises at the same place. */
module Encodings {
  import opened Common
  import opened OidOrder
  import opened Struct

  const INTERNET_PREFIX: Oid := [1, 3, 6, 1]

  // ---------------------------------------------------------------- padding

  function Pad4(length: nat): (r: nat)
    ensures r < 4 && (length + r) % 4 == 0
  {
    (4 - length % 4) % 4
  }

  // ---------------------------------------------------------------- object identifiers

  datatype ObjectIdentifier = ObjectIdentifier(nSubid: nat, prefix: nat, inclusive: nat, reserved: nat, subids: Oid) {

    function Size(): nat {
      4 + 4 * nSubid
    }

    function ToTuple(): Oid {
      (if prefix == 0 then [] else INTERNET_PREFIX + [prefix]) + subids
    }

    /** Last sub-identifier plus one; an identifier without sub-ids raises IndexError. */
    function Inc(): Option<ObjectIdentifier> {
      if subids == [] then None
      else Some(this.(subids := subids[..|subids| - 1] + [subids[|subids| - 1] + 1]))
    }

    function ToBytes(e: Endian): Option<Bytes> {
      if nSubid < 256 && prefix < 256 && inclusive < 256 && reserved < 256 then
        var tail :- PackSubids(e, subids);
        Some([nSubid, prefix, inclusive, reserved] + tail)
      else None
    }

    predicate WellFormed() {
      nSubid == |subids|
    }
  }

  const NULL_OID := ObjectIdentifier(0, 0, 0, 0, [])

  /** Compresses a leading 1.3.6.1.x; 1.3.6.1 itself has no fifth sub-id and raises. */
  function FromIterable(t: Oid): Option<ObjectIdentifier> {
    if INTERNET_PREFIX <= t then
      if |t| == 4 then None else Some(ObjectIdentifier(|t| - 5, t[4], 0, 0, t[5..]))
    else Some(ObjectIdentifier(|t|, 0, 0, 0, t))
  }

  function PackSubids(e: Endian, subids: Oid): (r: Option<Bytes>)
    ensures r.Some? ==> |r.value| == 4 * |subids|
  {
    if subids == [] then Some([])
    else
      var head :- Pack(e, subids[0], 4);
      var tail :- PackSubids(e, subids[1..]);
      Some(head + tail)
  }

  function UnpackSubids(e: Endian, bs: Bytes, n: nat): (r: Oid)
    requires |bs| == 4 * n
    ensures |r| == n
  {
    if n == 0 then [] else [Number(e, bs[..4])] + UnpackSubids(e, bs[4..], n - 1)
  }

  function OidFromBytes(bs: Bytes, e: Endian): (r: Option<ObjectIdentifier>)
    ensures r.Some? ==> r.value.WellFormed() && r.value.Size() <= |bs|
  {
    if |bs| < 4 then None else
    var n: nat := bs[0];
    if |bs| < 4 + 4 * n then None
    else Some(ObjectIdentifier(n, bs[1], bs[2], bs[3], UnpackSubids(e, bs[4..4 + 4 * n], n)))
  }

  /** Compression loses the name exactly under 1.3.6.1.0 (a zero prefix means "none"). */
  lemma CompressionExact(t: Oid)
    requires FromIterable(t).Some?
    ensures FromIterable(t).value.WellFormed()
    ensures FromIterable(t).value.ToTuple() == t <==> !(INTERNET_PREFIX + [0] <= t)
  {
    var o := FromIterable(t).value;
    if INTERNET_PREFIX <= t {
      assert t == INTERNET_PREFIX + [t[4]] + t[5..];
      if t[4] == 0 {
        assert |o.ToTuple()| == |t| - 5;
      } else {
        assert (INTERNET_PREFIX + [0])[4] == 0;
      }
    } else {
      assert INTERNET_PREFIX + [0] <= t ==> INTERNET_PREFIX <= t;
    }
  }

  lemma {:induction false} SubidsRoundTrip(e: Endian, subids: Oid)
    requires PackSubids(e, subids).Some?
    ensures UnpackSubids(e, PackSubids(e, subids).value, |subids|) == subids
  {
    if subids != [] {
      SubidsRoundTrip(e, subids[1..]);
      NumberOfDigits(e, subids[0], 4);
      var bs := PackSubids(e, subids).value;
      assert bs[..4] == Pack(e, subids[0], 4).value;
      assert bs[4..] == PackSubids(e, subids[1..]).value;
    }
  }

  lemma OidRoundTrip(o: ObjectIdentifier, e: Endian, rest: Bytes)
    requires o.WellFormed() && o.ToBytes(e).Some?
    ensures |o.ToBytes(e).value| == o.Size()
    ensures OidFromBytes(o.ToBytes(e).value + rest, e) == Some(o)
  {
    SubidsRoundTrip(e, o.subids);
    var tail := PackSubids(e, o.subids).value;
    var bs := o.ToBytes(e).value + rest;
    assert bs[0] == o.nSubid && bs[1] == o.prefix && bs[2] == o.inclusive && bs[3] == o.reserved;
    assert bs[4..4 + 4 * o.nSubid] == tail;
  }

  // ---------------------------------------------------------------- search ranges

  datatype SearchRange = SearchRange(start: ObjectIdentifier, end: ObjectIdentifier) {

    function Size(): nat {
      start.Size() + end.Size()
    }

    function ToBytes(e: Endian): Option<Bytes> {
      var a :- start.ToBytes(e);
      var b :- end.ToBytes(e);
      Some(a + b)
    }

    predicate WellFormed() {
      start.WellFormed() && end.WellFormed()
    }
  }

  function RangeFromBytes(bs: Bytes, e: Endian): (r: Option<SearchRange>)
    ensures r.Some? ==> r.value.WellFormed() && 8 <= r.value.Size() <= |bs|
  {
    var start :- OidFromBytes(bs, e);
    var end :- OidFromBytes(bs[start.Size()..], e);
    Some(SearchRange(start, end))
  }

  lemma RangeRoundTrip(sr: SearchRange, e: Endian, rest: Bytes)
    requires sr.WellFormed() && sr.ToBytes(e).Some?
    ensures |sr.ToBytes(e).value| == sr.Size()
    ensures RangeFromBytes(sr.ToBytes(e).value + rest, e) == Some(sr)
  {
    hide OidFromBytes, ObjectIdentifier.ToBytes;
    var a, b := sr.start.ToBytes(e).value, sr.end.ToBytes(e).value;
    OidRoundTrip(sr.start, e, b + rest);
    OidRoundTrip(sr.end, e, rest);
    assert a + b + rest == a + (b + rest);
    assert (a + (b + rest))[|a|..] == b + rest;
  }

  // ---------------------------------------------------------------- octet strings

  datatype OctetString = OctetString(length: nat, octets: Bytes, padding: Bytes) {

    function Size(): nat {
      4 + length + Pad4(length)
    }

    function ToBytes(e: Endian): Option<Bytes> {
      var head :- Pack(e, length, 4);
      Some(head + Fit(length, octets) + Fit(Pad4(length), padding))
    }

    predicate WellFormed() {
      |octets| == length && |padding| == Pad4(length)
    }
  }

  function OctetsFromString(s: Bytes): (r: OctetString)
    ensures r.WellFormed()
  {
    OctetString(|s|, s, Zeros(Pad4(|s|)))
  }

  function OctetsFromBytes(bs: Bytes, e: Endian): (r: Option<OctetString>)
    ensures r.Some? ==> r.value.WellFormed() && r.value.Size() <= |bs|
  {
    var n :- Unpack(e, bs, 4);
    if |bs| < 4 + n + Pad4(n) then None
    else Some(OctetString(n, bs[4..4 + n], bs[4 + n..4 + n + Pad4(n)]))
  }

  lemma OctetsRoundTrip(o: OctetString, e: Endian, rest: Bytes)
    requires o.WellFormed() && o.ToBytes(e).Some?
    ensures |o.ToBytes(e).value| == o.Size()
    ensures OctetsFromBytes(o.ToBytes(e).value + rest, e) == Some(o)
  {
    var head := Pack(e, o.length, 4).value;
    var bs := o.ToBytes(e).value + rest;
    assert bs == head + (o.octets + o.padding + rest);
    UnpackPack(e, o.length, 4, o.octets + o.padding + rest);
    assert bs[4..4 + o.length] == o.octets;
    assert bs[4 + o.length..4 + o.length + Pad4(o.length)] == o.padding;
  }

  // ---------------------------------------------------------------- variable bindings

  datatype ValueType =
    | INTEGER | OCTET_STRING | NULL | OBJECT_IDENTIFIER | IP_ADDRESS | COUNTER_32 | GAUGE_32
    | TIME_TICKS | OPAQUE | COUNTER_64 | NO_SUCH_OBJECT | NO_SUCH_INSTANCE | END_OF_MIB_VIEW
  {
    function Code(): nat {
      match this
      case INTEGER => 2
      case OCTET_STRING => 4
      case NULL => 5
      case OBJECT_IDENTIFIER => 6
      case IP_ADDRESS => 64
      case COUNTER_32 => 65
      case GAUGE_32 => 66
      case TIME_TICKS => 67
      case OPAQUE => 68
      case COUNTER_64 => 70
      case NO_SUCH_OBJECT => 128
      case NO_SUCH_INSTANCE => 129
      case END_OF_MIB_VIEW => 130
    }

    predicate FourByte() {
      INTEGER? || COUNTER_32? || GAUGE_32? || TIME_TICKS?
    }

    predicate Octets() {
      IP_ADDRESS? || OPAQUE? || OCTET_STRING?
    }

    predicate Empty() {
      NULL? || NO_SUCH_OBJECT? || NO_SUCH_INSTANCE? || END_OF_MIB_VIEW?
    }
  }

  function TypeFromCode(c: nat): Option<ValueType> {
    match c
    case 2 => Some(INTEGER)
    case 4 => Some(OCTET_STRING)
    case 5 => Some(NULL)
    case 6 => Some(OBJECT_IDENTIFIER)
    case 64 => Some(IP_ADDRESS)
    case 65 => Some(COUNTER_32)
    case 66 => Some(GAUGE_32)
    case 67 => Some(TIME_TICKS)
    case 68 => Some(OPAQUE)
    case 70 => Some(COUNTER_64)
    case 128 => Some(NO_SUCH_OBJECT)
    case 129 => Some(NO_SUCH_INSTANCE)
    case 130 => Some(END_OF_MIB_VIEW)
    case _ => None
  }

  datatype Data = Num(n: int) | Str(s: OctetString) | Name(o: ObjectIdentifier) | Nothing

  datatype VarBind = VarBind(type_: ValueType, reserved: nat, name: ObjectIdentifier, data: Data) {

    function Size(): nat {
      4 + name.Size() +
      if type_.FourByte() then 4
      else if type_.COUNTER_64? then 8
      else if type_.Empty() then 0
      else match data case Str(s) => s.Size() case Name(o) => o.Size() case _ => 0
    }

    function DataBytes(e: Endian): Option<Bytes> {
      if type_.FourByte() then
        if data.Num? then Pack(e, data.n % 0x1_0000_0000, 4) else None
      else if type_.COUNTER_64? then
        if data.Num? then Pack(e, data.n % 0x1_0000_0000_0000_0000, 8) else None
      else if type_.Empty() then Some([])
      else match data
        case Str(s) => s.ToBytes(e)
        case Name(o) => o.ToBytes(e)
        case _ => None
    }

    function ToBytes(e: Endian): Option<Bytes> {
      var t :- Pack(e, type_.Code(), 2);
      var r :- Pack(e, reserved, 2);
      var n :- name.ToBytes(e);
      var d :- DataBytes(e);
      Some(t + r + (n + d))
    }

    /** The data is of the kind its type calls for. */
    predicate WellFormed() {
      && name.WellFormed()
      && if type_.FourByte() || type_.COUNTER_64? then data.Num?
         else if type_.Empty() then data.Nothing?
         else if type_.Octets() then data.Str? && data.s.WellFormed()
         else data.Name? && data.o.WellFormed()
    }

    /** What the other side sees: integers are reduced to the width of their type. */
    function OnWire(): VarBind {
      if type_.FourByte() && data.Num? then this.(data := Num(data.n % 0x1_0000_0000))
      else if type_.COUNTER_64? && data.Num? then this.(data := Num(data.n % 0x1_0000_0000_0000_0000))
      else this
    }
  }

  function UnpackData(t: ValueType, bs: Bytes, e: Endian): Option<Data> {
    if t.FourByte() then
      var n :- Unpack(e, bs, 4);
      Some(Num(n))
    else if t.COUNTER_64? then
      var n :- Unpack(e, bs, 8);
      Some(Num(n))
    else if t.OBJECT_IDENTIFIER? then
      var o :- OidFromBytes(bs, e);
      Some(Name(o))
    else if t.Octets() then
      var s :- OctetsFromBytes(bs, e);
      Some(Str(s))
    else Some(Nothing)
  }

  function VarBindFromBytes(bs: Bytes, e: Endian): (r: Option<VarBind>)
    ensures r.Some? ==> r.value.WellFormed() && 8 <= r.value.Size() <= |bs|
  {
    if |bs| < 4 then None else
    var code, reserved := Number(e, bs[..2]), Number(e, bs[2..4]);
    var name :- OidFromBytes(bs[4..], e);
    var t :- TypeFromCode(code);
    var d :- UnpackData(t, bs[4 + name.Size()..], e);
    Some(VarBind(t, reserved, name, d))
  }

  lemma DataRoundTrip(v: VarBind, e: Endian, rest: Bytes)
    requires v.WellFormed() && v.DataBytes(e).Some?
    ensures UnpackData(v.type_, v.DataBytes(e).value + rest, e) == Some(v.OnWire().data)
    ensures |v.DataBytes(e).value| == v.Size() - 4 - v.name.Size()
  {
    if v.type_.FourByte() {
      UnpackPack(e, v.data.n % 0x1_0000_0000, 4, rest);
    } else if v.type_.COUNTER_64? {
      UnpackPack(e, v.data.n % 0x1_0000_0000_0000_0000, 8, rest);
    } else if v.type_.OBJECT_IDENTIFIER? {
      OidRoundTrip(v.data.o, e, rest);
    } else if v.type_.Octets() {
      OctetsRoundTrip(v.data.s, e, rest);
    }
  }

  lemma TypeRoundTrip(t: ValueType)
    ensures TypeFromCode(t.Code()) == Some(t)
  {
  }

  lemma TwoFields(e: Endian, x: nat, y: nat, rest: Bytes)
    requires Pack(e, x, 2).Some? && Pack(e, y, 2).Some?
    ensures var bs := Pack(e, x, 2).value + Pack(e, y, 2).value + rest;
            Number(e, bs[..2]) == x && Number(e, bs[2..4]) == y
  {
    NumberOfDigits(e, x, 2);
    NumberOfDigits(e, y, 2);
    var bs := Pack(e, x, 2).value + Pack(e, y, 2).value + rest;
    assert bs[..2] == Digits(e, x, 2) && bs[2..4] == Digits(e, y, 2);
  }

  /** Slicing a buffer made of a head, a name, data and a rest. */
  lemma Regroup(h: Bytes, n: Bytes, d: Bytes, rest: Bytes)
    ensures h + (n + d) + rest == h + (n + (d + rest))
    ensures (h + (n + d) + rest)[..|h|] == h
    ensures (h + (n + d) + rest)[|h|..] == n + (d + rest)
    ensures (h + (n + d) + rest)[|h| + |n|..] == d + rest
  {
  }

  /** Encoding then decoding any of the thirteen kinds of binding gives it back, with its
      integer reduced to the wire width, whatever follows it in the buffer. */
  lemma VarBindRoundTrip(v: VarBind, e: Endian, rest: Bytes)
    requires v.WellFormed() && v.ToBytes(e).Some?
    ensures VarBindFromBytes(v.ToBytes(e).value + rest, e) == Some(v.OnWire())
    ensures |v.ToBytes(e).value| == v.Size() == v.OnWire().Size()
  {
    hide OidFromBytes, ObjectIdentifier.ToBytes, UnpackData, VarBind.DataBytes, Number, Digits, Pow256, TypeFromCode;
    var code := v.type_.Code();
    var h := Pack(e, code, 2).value + Pack(e, v.reserved, 2).value;
    var n, d := v.name.ToBytes(e).value, v.DataBytes(e).value;
    var bs := v.ToBytes(e).value + rest;
    Regroup(h, n, d, rest);
    OidRoundTrip(v.name, e, d + rest);
    DataRoundTrip(v, e, rest);
    TwoFields(e, code, v.reserved, n + (d + rest));
    TypeRoundTrip(v.type_);
    assert OidFromBytes(bs[4..], e) == Some(v.name);
    assert bs[4 + v.name.Size()..] == d + rest;
  }

  /** Every encoded binding and range is a whole number of 4-byte words
      (section 6.1 of RFC 2741). */
  lemma EncodingsAligned(v: VarBind, sr: SearchRange)
    ensures v.WellFormed() ==> v.Size() % 4 == 0
    ensures sr.Size() % 4 == 0
  {
    if v.WellFormed() && v.data.Str? {
      assert v.data.s.Size() == 4 + (v.data.s.length + Pad4(v.data.s.length));
    }
  }
}

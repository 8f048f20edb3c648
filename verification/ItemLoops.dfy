/** The loops that write and read the items of a PDU one after the other.  The search
    ranges of a request, the bindings of a response and those of a test-set are written and
    read by loops of the same shape, given here once for any item format. */
module ItemLoops {
  import opened Common
  import opened Struct

  datatype Format<!T> = Format(encode: T -> Option<Bytes>, decode: Bytes -> Option<T>, size: T -> nat)

  /** A decoded item accounts for at least one byte, and for no more than there are. */
  ghost predicate Lawful<T(!new)>(f: Format<T>) {
    forall bs :: f.decode(bs).Some? ==> 0 < f.size(f.decode(bs).value) <= |bs|
  }

  // ---------------------------------------------------------------- writing

  function EncodeAll<T>(f: Format<T>, xs: seq<T>): Option<Bytes> {
    if xs == [] then Some([])
    else
      var one :- f.encode(xs[0]);
      var more :- EncodeAll(f, xs[1..]);
      Some(one + more)
  }

  function Join(front: Bytes, more: Option<Bytes>): Option<Bytes> {
    if more.None? then None else Some(front + more.value)
  }

  method WriteItems<T>(f: Format<T>, xs: seq<T>) returns (r: Option<Bytes>)
    ensures r == EncodeAll(f, xs)
  {
    var ret: Bytes := [];
    assert Join(ret, EncodeAll(f, xs)) == EncodeAll(f, xs) by {
      if EncodeAll(f, xs).Some? { assert [] + EncodeAll(f, xs).value == EncodeAll(f, xs).value; }
    }
    for i := 0 to |xs|
      invariant EncodeAll(f, xs) == Join(ret, EncodeAll(f, xs[i..]))
    {
      var one := f.encode(xs[i]);
      if one.None? { return None; }
      if EncodeAll(f, xs[i + 1..]).Some? {
        assert ret + (one.value + EncodeAll(f, xs[i + 1..]).value) == ret + one.value + EncodeAll(f, xs[i + 1..]).value;
      }
      ret := ret + one.value;
    }
    assert ret + [] == ret;
    return Some(ret);
  }

  // ---------------------------------------------------------------- reading

  /** What a read loop collected and what it left. */
  datatype Items<T> = Items(items: seq<T>, trailing: Bytes)

  function After<T>(front: seq<T>, more: Option<Items<T>>): Option<Items<T>> {
    if more.None? then None else Some(Items(front + more.value.items, more.value.trailing))
  }

  /** As long as bytes are left and fewer than `budget` have been read. */
  function DecodeAll<T(!new)>(f: Format<T>, bs: Bytes, budget: int): (r: Option<Items<T>>)
    requires Lawful(f)
    ensures r.Some? ==> |r.value.trailing| <= |bs|
    decreases |bs|
  {
    if bs == [] || budget <= 0 then Some(Items([], bs))
    else
      var one :- f.decode(bs);
      After([one], DecodeAll(f, bs[f.size(one)..], budget - f.size(one)))
  }

  lemma NothingBefore<T>(more: Option<Items<T>>)
    ensures After([], more) == more
  {
    if more.Some? { assert [] + more.value.items == more.value.items; }
  }

  lemma NothingAfter<T>(front: seq<T>, trailing: Bytes)
    ensures After(front, Some(Items([], trailing))) == Some(Items(front, trailing))
    ensures After(front, None) == None
  {
    assert front + [] == front;
  }

  lemma OneMore<T>(front: seq<T>, x: T, more: Option<Items<T>>)
    ensures After(front, After([x], more)) == After(front + [x], more)
  {
    if more.Some? { assert front + ([x] + more.value.items) == front + [x] + more.value.items; }
  }

  method ReadItems<T(!new)>(f: Format<T>, payload: Bytes, budget: int) returns (r: Option<Items<T>>)
    requires Lawful(f)
    ensures r == DecodeAll(f, payload, budget)
  {
    hide After;
    var trailing, bytesRead, items := payload, 0, [];
    NothingBefore(DecodeAll(f, payload, budget));
    while trailing != [] && bytesRead < budget
      invariant DecodeAll(f, payload, budget) == After(items, DecodeAll(f, trailing, budget - bytesRead))
      decreases |trailing|
    {
      var one := f.decode(trailing);
      NothingAfter(items, trailing);
      if one.None? { return None; }
      var size := f.size(one.value);
      OneMore(items, one.value, DecodeAll(f, trailing[size..], budget - bytesRead - size));
      items := items + [one.value];
      trailing, bytesRead := trailing[size..], bytesRead + size;
    }
    NothingAfter(items, trailing);
    return Some(Items(items, trailing));
  }

  // ---------------------------------------------------------------- round trip

  /** `y` is what decoding the encoded `x` gives, whatever follows. */
  ghost predicate Becomes<T(!new)>(f: Format<T>, x: T, y: T) {
    && f.encode(x).Some?
    && |f.encode(x).value| == f.size(x) == f.size(y)
    && forall rest :: f.decode(f.encode(x).value + rest) == Some(y)
  }

  ghost predicate AllBecome<T(!new)>(f: Format<T>, xs: seq<T>, ys: seq<T>) {
    |xs| == |ys| && forall i :: 0 <= i < |xs| ==> Becomes(f, xs[i], ys[i])
  }

  function TotalSize<T>(f: Format<T>, xs: seq<T>): nat {
    if xs == [] then 0 else f.size(xs[0]) + TotalSize(f, xs[1..])
  }

  lemma {:induction false} EncodedLength<T(!new)>(f: Format<T>, xs: seq<T>, ys: seq<T>)
    requires AllBecome(f, xs, ys)
    ensures EncodeAll(f, xs).Some? && |EncodeAll(f, xs).value| == TotalSize(f, xs)
  {
    if xs != [] {
      assert Becomes(f, xs[0], ys[0]);
      EncodedLength(f, xs[1..], ys[1..]);
    }
  }

  /** A byte budget lets the read loop get to the last of these items... */
  predicate Reaches<T>(f: Format<T>, xs: seq<T>, budget: int) {
    xs != [] ==> TotalSize(f, xs[..|xs| - 1]) < budget
  }

  /** ...and stops it right there. */
  predicate Fits<T>(f: Format<T>, xs: seq<T>, budget: int) {
    Reaches(f, xs, budget) && budget <= TotalSize(f, xs)
  }

  lemma BudgetTail<T>(f: Format<T>, xs: seq<T>, budget: int)
    requires xs != [] && forall i :: 0 <= i < |xs| ==> f.size(xs[i]) > 0
    ensures Reaches(f, xs, budget) <==> budget > 0 && Reaches(f, xs[1..], budget - f.size(xs[0]))
  {
    if |xs| > 1 {
      assert xs[..|xs| - 1][1..] == xs[1..][..|xs| - 2];
    } else {
      assert xs[..0] == [] && xs[1..] == [];
    }
  }

  lemma BecomesPositive<T(!new)>(f: Format<T>, xs: seq<T>, ys: seq<T>)
    requires Lawful(f) && AllBecome(f, xs, ys)
    ensures forall i :: 0 <= i < |xs| ==> f.size(xs[i]) > 0
  {
    forall i | 0 <= i < |xs| ensures f.size(xs[i]) > 0 {
      assert Becomes(f, xs[i], ys[i]);
      assert f.decode(f.encode(xs[i]).value + []).Some?;
    }
  }

  lemma DecodeOne<T(!new)>(f: Format<T>, bs: Bytes, y: T, budget: int)
    requires Lawful(f) && bs != [] && budget > 0 && f.decode(bs) == Some(y)
    ensures 0 < f.size(y) <= |bs|
    ensures DecodeAll(f, bs, budget) == After([y], DecodeAll(f, bs[f.size(y)..], budget - f.size(y)))
  {
  }

  /** One turn of the read loop over the encoded items. */
  lemma ReadTurn<T(!new)>(f: Format<T>, xs: seq<T>, ys: seq<T>, rest: Bytes, budget: int)
    requires Lawful(f) && AllBecome(f, xs, ys) && xs != [] && EncodeAll(f, xs).Some? && budget > 0
    ensures EncodeAll(f, xs[1..]).Some?
    ensures DecodeAll(f, EncodeAll(f, xs).value + rest, budget) ==
            After([ys[0]], DecodeAll(f, EncodeAll(f, xs[1..]).value + rest, budget - f.size(xs[0])))
  {
    hide DecodeAll, After;
    assert Becomes(f, xs[0], ys[0]);
    var one, more := f.encode(xs[0]).value, EncodeAll(f, xs[1..]).value;
    var bs := one + (more + rest);
    assert f.decode(bs) == Some(ys[0]);
    hide AllBecome, Becomes, Lawful;
    assert one + more + rest == bs;
    assert bs != [] by { NonEmpty(f, bs); }
    DecodeOne(f, bs, ys[0], budget);
    assert bs[f.size(ys[0])..] == more + rest;
  }

  lemma NonEmpty<T(!new)>(f: Format<T>, bs: Bytes)
    requires Lawful(f) && f.decode(bs).Some?
    ensures bs != []
  {
  }

  lemma AfterFirst<T>(ys: seq<T>, more: Option<Items<T>>, rest: Bytes)
    requires ys != []
    ensures After([ys[0]], more) == Some(Items(ys, rest)) <==> more == Some(Items(ys[1..], rest))
  {
    assert ys == [ys[0]] + ys[1..];
    if more.Some? { assert ([ys[0]] + more.value.items)[1..] == more.value.items; }
  }

  lemma TailBecomes<T(!new)>(f: Format<T>, xs: seq<T>, ys: seq<T>)
    requires AllBecome(f, xs, ys) && xs != []
    ensures AllBecome(f, xs[1..], ys[1..])
  {
  }

  /** The read loop gives the items back and leaves what follows them exactly when the
      budget fits; if nothing follows, too large a budget does no harm. */
  lemma {:induction false} ReadBack<T(!new)>(f: Format<T>, xs: seq<T>, ys: seq<T>, rest: Bytes, budget: int)
    requires Lawful(f) && AllBecome(f, xs, ys) && EncodeAll(f, xs).Some?
    ensures DecodeAll(f, EncodeAll(f, xs).value + rest, budget) == Some(Items(ys, rest)) <==>
            Reaches(f, xs, budget) && (rest == [] || budget <= TotalSize(f, xs))
  {
    hide DecodeAll, Lawful, Becomes, After, Reaches;
    if xs == [] {
      ReadNone(f, rest, budget);
    } else {
      BecomesPositive(f, xs, ys);
      BudgetTail(f, xs, budget);
      if budget <= 0 {
        NoBudget(f, EncodeAll(f, xs).value + rest, budget);
      } else {
        ReadTurn(f, xs, ys, rest, budget);
        TailBecomes(f, xs, ys);
        ReadBack(f, xs[1..], ys[1..], rest, budget - f.size(xs[0]));
        AfterFirst(ys, DecodeAll(f, EncodeAll(f, xs[1..]).value + rest, budget - f.size(xs[0])), rest);
      }
    }
  }

  lemma NoBudget<T(!new)>(f: Format<T>, bs: Bytes, budget: int)
    requires Lawful(f) && budget <= 0
    ensures DecodeAll(f, bs, budget) == Some(Items([], bs))
  {
  }

  lemma ReadNone<T(!new)>(f: Format<T>, rest: Bytes, budget: int)
    requires Lawful(f)
    ensures Reaches(f, [], budget)
    ensures DecodeAll(f, [] + rest, budget) == Some(Items([], rest)) <==> rest == [] || budget <= 0
  {
    assert [] + rest == rest;
  }

  lemma {:induction false} LastSize<T>(f: Format<T>, xs: seq<T>)
    requires xs != []
    ensures TotalSize(f, xs) == TotalSize(f, xs[..|xs| - 1]) + f.size(xs[|xs| - 1])
  {
    if |xs| > 1 {
      LastSize(f, xs[1..]);
      assert xs[..|xs| - 1][1..] == xs[1..][..|xs| - 2];
    } else {
      assert xs[..0] == [] && xs[1..] == [];
    }
  }

  lemma TotalFits<T(!new)>(f: Format<T>, xs: seq<T>, ys: seq<T>)
    requires Lawful(f) && AllBecome(f, xs, ys)
    ensures Fits(f, xs, TotalSize(f, xs))
  {
    if xs != [] {
      BecomesPositive(f, xs, ys);
      LastSize(f, xs);
    }
  }

  lemma {:induction false} ItemsAligned<T(!new)>(f: Format<T>, xs: seq<T>)
    requires forall x :: x in xs && f.encode(x).Some? ==> |f.encode(x).value| % 4 == 0
    ensures EncodeAll(f, xs).Some? ==> |EncodeAll(f, xs).value| % 4 == 0
  {
    if xs != [] { ItemsAligned(f, xs[1..]); }
  }
}

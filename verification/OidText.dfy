/** Object identifiers as text: `ObjectIdentifier.__str__` in `encodings.py` and
    `is_valid_oid` and `oid2tuple` in `util.py`. */
module OidText {
  import opened Common
  import opened Encodings
  import opened OidOrder

  predicate Digit(c: char) {
    '0' <= c <= '9'
  }

  // ---------------------------------------------------------------- printing

  /** `str` of a natural number. */
  function Decimal(n: nat): string {
    if n < 10 then [(n as char) + '0'] else Decimal(n / 10) + [((n % 10) as char) + '0']
  }

  function Decimals(subIds: Oid): seq<string> {
    seq(|subIds|, i requires 0 <= i < |subIds| => Decimal(subIds[i]))
  }

  /** `'.'.join`. */
  function Join(parts: seq<string>): string {
    if parts == [] then "" else if |parts| == 1 then parts[0] else parts[0] + "." + Join(parts[1..])
  }

  function Show(subIds: Oid): string {
    if subIds == [] then "" else "." + Join(Decimals(subIds))
  }

  /** `str` of an identifier. */
  function Str(o: ObjectIdentifier): string {
    Show(o.ToTuple())
  }

  // ---------------------------------------------------------------- reading

  /** The regular expression `\d+`. */
  predicate Number(s: string) {
    s != "" && forall i :: 0 <= i < |s| ==> Digit(s[i])
  }

  /** The regular expression `(\d+\.)*\d+`. */
  predicate Dotted(s: string)
    decreases |s|
  {
    Number(s) || exists i :: 0 <= i < |s| && s[i] == '.' && Number(s[..i]) && Dotted(s[i + 1..])
  }

  predicate ValidOid(s: string, dotPrefix: bool) {
    Dotted(s) || (dotPrefix && s != "" && s[0] == '.' && Dotted(s[1..]))
  }

  function DigitValue(c: char): nat
    requires Digit(c)
  {
    (c - '0') as nat
  }

  /** `int` of a string of digits. */
  function Value(s: string): nat
    requires forall i :: 0 <= i < |s| ==> Digit(s[i])
  {
    if s == "" then 0 else 10 * Value(s[..|s| - 1]) + DigitValue(s[|s| - 1])
  }

  predicate NoDot(s: string, n: nat)
    requires n <= |s|
  {
    forall i :: 0 <= i < n ==> s[i] != '.'
  }

  function FirstDot(s: string): (i: nat)
    ensures i <= |s| && NoDot(s, i) && (i < |s| ==> s[i] == '.')
  {
    if s == "" || s[0] == '.' then 0 else FirstDot(s[1..]) + 1
  }

  /** `split('.')`. */
  function Split(s: string): (parts: seq<string>)
    ensures parts != []
    decreases |s|
  {
    var i := FirstDot(s);
    if i == |s| then [s] else [s[..i]] + Split(s[i + 1..])
  }

  predicate AllNumbers(parts: seq<string>) {
    forall i :: 0 <= i < |parts| ==> Number(parts[i])
  }

  function Values(parts: seq<string>): Oid
    requires AllNumbers(parts)
  {
    seq(|parts|, i requires 0 <= i < |parts| => Value(parts[i]))
  }

  /** The text after the dot that may precede it. */
  function Groups(s: string, dotPrefix: bool): string {
    if dotPrefix && s != "" && s[0] == '.' then s[1..] else s
  }

  /** None for the ValueError an invalid text raises. */
  function Oid2Tuple(s: string, dotPrefix: bool): Option<Oid> {
    if s == "" then Some([])
    else if !ValidOid(s, dotPrefix) then None
    else
      ValidParts(s, dotPrefix);
      Some((if dotPrefix && s[0] != '.' then INTERNET_PREFIX else []) + Values(Split(Groups(s, dotPrefix))))
  }

  // ---------------------------------------------------------------- what is accepted

  /** The pattern accepts exactly the texts whose parts between dots are all numbers. */
  lemma {:induction false} DottedIff(s: string)
    ensures Dotted(s) <==> AllNumbers(Split(s))
    decreases |s|
  {
    var i := FirstDot(s);
    if i == |s| {
      assert s[..i] == s;
      NoDotDotted(s);
    } else {
      DottedIff(s[i + 1..]);
      DottedAtDot(s, i);
      AllNumbersCons(s[..i], Split(s[i + 1..]));
    }
  }

  lemma ValidParts(s: string, dotPrefix: bool)
    ensures ValidOid(s, dotPrefix) <==> AllNumbers(Split(Groups(s, dotPrefix)))
  {
    if s != "" && s[0] == '.' { DottedAtDot(s, 0); }
    DottedIff(Groups(s, dotPrefix));
  }

  lemma NoDotDotted(s: string)
    requires NoDot(s, |s|)
    ensures Dotted(s) <==> AllNumbers([s])
  {
    assert Number(s) <==> AllNumbers([s]) by { assert [s][0] == s; }
  }

  lemma DottedAtDot(s: string, i: nat)
    requires i < |s| && NoDot(s, i) && s[i] == '.'
    ensures Dotted(s) <==> Number(s[..i]) && Dotted(s[i + 1..])
  {
    if Dotted(s) {
      assert !Number(s);
      var j :| 0 <= j < |s| && s[j] == '.' && Number(s[..j]) && Dotted(s[j + 1..]);
      assert forall k :: 0 <= k < j ==> Digit(s[..j][k]) && s[..j][k] == s[k];
      assert i == j;
    }
  }

  lemma AllNumbersCons(head: string, tail: seq<string>)
    ensures AllNumbers([head] + tail) <==> Number(head) && AllNumbers(tail)
  {
    var parts := [head] + tail;
    assert parts[0] == head;
    assert forall i :: 0 <= i < |tail| ==> parts[i + 1] == tail[i];
  }

  // ---------------------------------------------------------------- round trips

  lemma {:induction false} ValueOfDecimal(n: nat)
    ensures Number(Decimal(n)) && Value(Decimal(n)) == n
  {
    if n >= 10 {
      ValueOfDecimal(n / 10);
      assert Decimal(n)[..|Decimal(n)| - 1] == Decimal(n / 10);
    }
  }

  lemma SplitAtDot(head: string, tail: string)
    requires Number(head)
    ensures Split(head + "." + tail) == [head] + Split(tail)
  {
    var s := head + "." + tail;
    var i := FirstDot(s);
    assert s[|head|] == '.' && s[..|head|] == head && s[|head| + 1..] == tail;
    assert forall k :: 0 <= k < |head| ==> Digit(head[k]) && s[k] == head[k];
  }

  lemma {:induction false} SplitJoin(parts: seq<string>)
    requires parts != [] && AllNumbers(parts)
    ensures Split(Join(parts)) == parts
  {
    if |parts| == 1 {
      assert parts[0][..|parts[0]|] == parts[0];
      var i := FirstDot(parts[0]);
      assert i < |parts[0]| ==> Digit(parts[0][i]);
    } else {
      SplitAtDot(parts[0], Join(parts[1..]));
      SplitJoin(parts[1..]);
    }
  }

  /** Printing without the leading dot and splitting gives back the sub-ids. */
  lemma {:induction false} Reading(subIds: Oid)
    requires subIds != []
    ensures var s := Join(Decimals(subIds));
      Dotted(s) && Split(s) == Decimals(subIds) && AllNumbers(Split(s)) && Values(Split(s)) == subIds
  {
    forall i | 0 <= i < |subIds| ensures Number(Decimals(subIds)[i]) && Value(Decimals(subIds)[i]) == subIds[i] {
      ValueOfDecimal(subIds[i]);
    }
    SplitJoin(Decimals(subIds));
    DottedIff(Join(Decimals(subIds)));
  }

  /** Every identifier, the null one too, is read back from its text, and every text but the
      null identifier's is a valid one. */
  lemma StrRead(o: ObjectIdentifier)
    ensures Oid2Tuple(Str(o), true) == Some(o.ToTuple())
    ensures ValidOid(Str(o), true) <==> o.ToTuple() != []
  {
    var subIds := o.ToTuple();
    if subIds != [] {
      Reading(subIds);
      assert Show(subIds)[1..] == Join(Decimals(subIds));
      assert [] + subIds == subIds;
    }
  }

  /** Without its dot the text is read literally or below 1.3.6.1, as asked for; with its dot
      it is refused where no dot is expected. */
  lemma ReadWithoutDot(subIds: Oid)
    requires subIds != []
    ensures Oid2Tuple(Show(subIds)[1..], false) == Some(subIds)
    ensures Oid2Tuple(Show(subIds)[1..], true) == Some(INTERNET_PREFIX + subIds)
    ensures Oid2Tuple(Show(subIds), false) == None
  {
    var s := Join(Decimals(subIds));
    Reading(subIds);
    assert Show(subIds)[1..] == s && [] + subIds == subIds;
    if s[0] == '.' { DottedAtDot(s, 0); }
    DottedAtDot(Show(subIds), 0);
  }

  lemma JoinMore(part: string, parts: seq<string>)
    requires parts != []
    ensures Join([part] + parts) == part + "." + Join(parts)
  {
    assert ([part] + parts)[1..] == parts;
  }

  lemma JoinOne(part: string)
    ensures Join([part]) == part
  {
  }

  /** Joining undoes splitting. */
  lemma {:induction false} JoinSplit(s: string)
    ensures Join(Split(s)) == s
    decreases |s|
  {
    hide Join;
    var i := FirstDot(s);
    if i < |s| {
      JoinSplit(s[i + 1..]);
      JoinMore(s[..i], Split(s[i + 1..]));
    } else {
      JoinOne(s);
    }
  }

  /** A text is valid if and only if it is some numbers with dots between them, after a dot
      where one is expected. */
  lemma ValidIff(s: string, dotPrefix: bool)
    ensures ValidOid(s, dotPrefix) <==>
            exists parts: seq<string> :: parts != [] && AllNumbers(parts) &&
              (s == Join(parts) || (dotPrefix && s == "." + Join(parts)))
  {
    DottedIff(s);
    JoinSplit(s);
    if s != "" {
      DottedIff(s[1..]);
      JoinSplit(s[1..]);
      if s[0] == '.' { assert s == "." + Join(Split(s[1..])); }
    }
    forall parts: seq<string> | parts != [] && AllNumbers(parts)
      ensures Dotted(Join(parts))
    {
      SplitJoin(parts);
      DottedIff(Join(parts));
    }
    if exists parts: seq<string> :: parts != [] && AllNumbers(parts) &&
        dotPrefix && s == "." + Join(parts) {
      var parts: seq<string> :| parts != [] && AllNumbers(parts) && dotPrefix && s == "." + Join(parts);
      assert s[1..] == Join(parts);
    }
  }
}

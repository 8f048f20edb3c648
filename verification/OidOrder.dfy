/** Object identifiers as tuples of sub-identifiers, in the order Python gives tuples,
    and the sorted-list operations (`sorted`, `bisect`, `insort`) used on lists of them. */
module OidOrder {
  import opened Common

  type Oid = seq<nat>

  /** Python's `a < b` on tuples; a proper prefix is smaller.  (`a <= b` on `Oid`s is
      Dafny's prefix relation.) */
  predicate Less(a: Oid, b: Oid) {
    if b == [] then false
    else if a == [] then true
    else a[0] < b[0] || (a[0] == b[0] && Less(a[1..], b[1..]))
  }

  predicate AtMost(a: Oid, b: Oid) {
    !Less(b, a)
  }

  lemma {:induction false} Irreflexive(a: Oid)
    ensures !Less(a, a)
  {
    if a != [] { Irreflexive(a[1..]); }
  }

  lemma {:induction false} Transitive(a: Oid, b: Oid, c: Oid)
    requires Less(a, b) && Less(b, c)
    ensures Less(a, c)
  {
    if a != [] && a[0] == b[0] == c[0] { Transitive(a[1..], b[1..], c[1..]); }
  }

  lemma {:induction false} Trichotomy(a: Oid, b: Oid)
    ensures a == b || Less(a, b) || Less(b, a)
    ensures !(Less(a, b) && Less(b, a))
  {
    if a != [] && b != [] && a[0] == b[0] {
      Trichotomy(a[1..], b[1..]);
      if a[1..] == b[1..] { assert a == [a[0]] + a[1..] == b; }
    }
  }

  /** The two mixed forms of transitivity. */
  lemma AtMostThenLess(a: Oid, b: Oid, c: Oid)
    requires AtMost(a, b) && Less(b, c)
    ensures Less(a, c)
  {
    Trichotomy(a, b);
    if a != b { Transitive(a, b, c); }
  }

  lemma LessThenAtMost(a: Oid, b: Oid, c: Oid)
    requires Less(a, b) && AtMost(b, c)
    ensures Less(a, c)
  {
    Trichotomy(b, c);
    if b != c { Transitive(a, b, c); }
  }

  /** A common prefix does not influence the comparison. */
  lemma {:induction false} SamePrefix(p: Oid, a: Oid, b: Oid)
    ensures Less(p + a, p + b) <==> Less(a, b)
  {
    if p == [] {
      assert p + a == a && p + b == b;
    } else {
      assert (p + a)[1..] == p[1..] + a && (p + b)[1..] == p[1..] + b;
      SamePrefix(p[1..], a, b);
    }
  }

  lemma {:induction false} PrefixAtMost(p: Oid, k: Oid)
    ensures AtMost(p, p + k)
    ensures k != [] ==> Less(p, p + k)
  {
    assert p + [] == p;
    SamePrefix(p, k, []);
    SamePrefix(p, [], k);
  }

  /** An OID is not below any of its prefixes. */
  lemma NoPrefixAbove(p: Oid, x: Oid)
    requires p <= x
    ensures AtMost(p, x)
    ensures p != x ==> Less(p, x)
  {
    assert x == p + x[|p|..];
    PrefixAtMost(p, x[|p|..]);
  }

  lemma CommonExtension(p: Oid, q: Oid, x: Oid)
    requires p <= x && q <= x
    ensures p <= q || q <= p
  {
    if |p| <= |q| { assert p <= q; } else { assert q <= p; }
  }

  /** Everything between a prefix and one of its extensions is itself an extension. */
  lemma {:induction false} Sandwich(p: Oid, x: Oid, k: Oid)
    requires AtMost(p, x) && AtMost(x, p + k)
    ensures p <= x
  {
    if p != [] {
      assert x != [];
      assert (p + k)[1..] == p[1..] + k;
      Sandwich(p[1..], x[1..], k);
    }
  }

  /** Two columns neither of which contains the other do not interleave. */
  lemma {:induction false} ColumnsSeparate(p: Oid, q: Oid, k: Oid, j: Oid)
    requires Less(p, q) && !(p <= q)
    ensures Less(p + k, q + j)
  {
    assert p != [] && q != [];
    if p[0] == q[0] {
      assert (p + k)[1..] == p[1..] + k && (q + j)[1..] == q[1..] + j;
      ColumnsSeparate(p[1..], q[1..], k, j);
    }
  }

  // ---------------------------------------------------------------- sorted lists

  ghost predicate Sorted(s: seq<Oid>) {
    forall i, j :: 0 <= i < j < |s| ==> AtMost(s[i], s[j])
  }

  /** `bisect.bisect_right` on a sorted list: the insertion point after every element
      that is not above `x`. */
  function Bisect(s: seq<Oid>, x: Oid): (i: nat)
    ensures i <= |s|
  {
    if s == [] || Less(x, s[0]) then 0 else 1 + Bisect(s[1..], x)
  }

  lemma {:induction false} BisectSplits(s: seq<Oid>, x: Oid)
    requires Sorted(s)
    ensures forall j :: 0 <= j < Bisect(s, x) ==> AtMost(s[j], x)
    ensures forall j :: Bisect(s, x) <= j < |s| ==> Less(x, s[j])
  {
    if s != [] {
      if Less(x, s[0]) {
        forall j | 0 <= j < |s| ensures Less(x, s[j]) {
          if j > 0 { LessThenAtMost(x, s[0], s[j]); }
        }
      } else {
        BisectSplits(s[1..], x);
        forall j | 0 <= j < |s| ensures if j < Bisect(s, x) then AtMost(s[j], x) else Less(x, s[j]) {
          if j > 0 { assert s[j] == s[1..][j - 1]; }
        }
      }
    }
  }

  /** The `get_next` of every list-backed updater: the element at the insertion point. */
  function NextIn(s: seq<Oid>, x: Oid): Option<Oid> {
    var right := Bisect(s, x);
    if right == |s| then None else Some(s[right])
  }

  /** On a sorted list it is the least element after `x`. */
  lemma NextInIsNext(s: seq<Oid>, x: Oid)
    requires Sorted(s)
    ensures match NextIn(s, x)
            case Some(e) => e in s && Less(x, e) && forall y :: y in s && Less(x, y) ==> AtMost(e, y)
            case None => forall y :: y in s ==> !Less(x, y)
  {
    BisectSplits(s, x);
    var b := Bisect(s, x);
    forall y | y in s && Less(x, y) ensures b < |s| && AtMost(s[b], y) {
      var i :| 0 <= i < |s| && s[i] == y;
      if b < i { assert AtMost(s[b], s[i]); } else { Irreflexive(y); }
    }
  }

  /** `bisect.insort_right`. */
  function Insort(s: seq<Oid>, x: Oid): (r: seq<Oid>)
    ensures |r| == |s| + 1
  {
    s[..Bisect(s, x)] + [x] + s[Bisect(s, x)..]
  }

  /** Inserting between what is not above and what is not below. */
  lemma InsertedSorted(low: seq<Oid>, x: Oid, high: seq<Oid>)
    requires Sorted(low + high)
    requires forall i :: 0 <= i < |low| ==> AtMost(low[i], x)
    requires forall i :: 0 <= i < |high| ==> AtMost(x, high[i])
    ensures Sorted(low + [x] + high)
  {
    hide Less, AtMost;
    var s, r, n := low + high, low + [x] + high, |low|;
    forall i, j | 0 <= i < j < |r| ensures AtMost(r[i], r[j]) {
      if i != n && j != n {
        var i', j' := if i < n then i else i - 1, if j < n then j else j - 1;
        assert r[i] == s[i'] && r[j] == s[j'];
      }
    }
  }

  lemma InsortKeepsSorted(s: seq<Oid>, x: Oid)
    requires Sorted(s)
    ensures Sorted(Insort(s, x))
    ensures multiset(Insort(s, x)) == multiset(s) + multiset{x}
  {
    hide Less, Bisect;
    BisectSplits(s, x);
    var b := Bisect(s, x);
    assert s == s[..b] + s[b..];
    forall i | 0 <= i < |s[b..]| ensures AtMost(x, s[b..][i]) { Trichotomy(x, s[b + i]); }
    InsertedSorted(s[..b], x, s[b..]);
  }

  /** Python's `sorted`. */
  function Sort(s: seq<Oid>): (r: seq<Oid>)
    ensures |r| == |s|
  {
    if s == [] then [] else Insort(Sort(s[..|s| - 1]), s[|s| - 1])
  }

  lemma {:induction false} SortSorts(s: seq<Oid>)
    ensures Sorted(Sort(s))
    ensures multiset(Sort(s)) == multiset(s)
    ensures forall x :: x in Sort(s) <==> x in s
  {
    if s != [] {
      var front := s[..|s| - 1];
      SortSorts(front);
      InsortKeepsSorted(Sort(front), s[|s| - 1]);
      assert s == front + [s[|s| - 1]];
    }
    forall x ensures x in Sort(s) <==> x in s {
      assert x in Sort(s) <==> x in multiset(Sort(s));
      assert x in s <==> x in multiset(s);
    }
  }

  lemma FirstIsLeast(s: seq<Oid>, x: Oid)
    requires Sorted(s) && x in multiset(s)
    ensures s != [] && AtMost(s[0], x)
  {
    assert x in s;
    var i :| 0 <= i < |s| && s[i] == x;
    if i == 0 { Irreflexive(x); }
  }

  lemma TailContents(s: seq<Oid>)
    requires s != []
    ensures multiset(s[1..]) == multiset(s) - multiset{s[0]} && s[0] in multiset(s)
  {
    assert s == [s[0]] + s[1..];
  }

  /** A sorted list is determined by what it contains. */
  lemma {:induction false} SortedUnique(s: seq<Oid>, t: seq<Oid>)
    requires Sorted(s) && Sorted(t) && multiset(s) == multiset(t)
    ensures s == t
  {
    hide Less, Sorted;
    if s == [] {
      assert |t| == |multiset(t)| == 0;
    } else {
      TailContents(s);
      FirstIsLeast(t, s[0]);
      TailContents(t);
      FirstIsLeast(s, t[0]);
      Trichotomy(s[0], t[0]);
      TailSorted(s);
      TailSorted(t);
      SortedUnique(s[1..], t[1..]);
      assert s == [s[0]] + s[1..] && t == [t[0]] + t[1..];
    }
  }

  lemma TailSorted(s: seq<Oid>)
    requires Sorted(s) && s != []
    ensures Sorted(s[1..])
  {
    hide Less;
  }
}

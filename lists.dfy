/**
 * The two IList operations the picker relies on: IndexOf (first position of an
 * element by equality, -1 when absent) and Remove (delete the first element
 * equal to the argument, if any), together with the fold that applies Remove
 * once per removed item.
 */
module Lists {

  /** IList.IndexOf: the first position of x in s, or -1 when x does not occur. */
  function IndexOf<X(==)>(s: seq<X>, x: X): (r: int)
    ensures -1 <= r < |s|
    ensures r == -1 <==> x !in s
    ensures 0 <= r ==> s[r] == x && x !in s[..r]
  {
    if s == [] then -1
    else if s[0] == x then 0
    else
      var k := IndexOf(s[1..], x);
      if k == -1 then -1
      else
        assert s[..k + 1] == [s[0]] + s[1..][..k];
        k + 1
  }

  /** IList.Remove: deletes the first element equal to x; s is returned as it is when x is absent. */
  function RemoveFirst<X(==)>(s: seq<X>, x: X): (r: seq<X>)
    ensures |r| == if x in s then |s| - 1 else |s|
  {
    if s == [] then []
    else if s[0] == x then s[1..]
    else [s[0]] + RemoveFirst(s[1..], x)
  }

  /** Remove cuts s exactly at the position IndexOf reports, and changes nothing when x is absent. */
  lemma RemoveFirstAt<X>(s: seq<X>, x: X)
    ensures x !in s ==> RemoveFirst(s, x) == s
    ensures x in s ==> RemoveFirst(s, x) == s[..IndexOf(s, x)] + s[IndexOf(s, x) + 1..]
  {
    if x in s {
      RemoveFirstPresent(s, x, IndexOf(s, x));
    } else {
      RemoveFirstAbsent(s, x);
    }
  }

  lemma {:induction false} RemoveFirstAbsent<X>(s: seq<X>, x: X)
    requires x !in s
    ensures RemoveFirst(s, x) == s
  {
    if s != [] {
      assert s == [s[0]] + s[1..];
      RemoveFirstAbsent(s[1..], x);
    }
  }

  lemma {:induction false} RemoveFirstPresent<X>(s: seq<X>, x: X, k: nat)
    requires k < |s| && s[k] == x && x !in s[..k]
    ensures RemoveFirst(s, x) == s[..k] + s[k + 1..]
  {
    if k > 0 {
      assert s[0] == s[..k][0];
      var t := s[1..];
      assert t[..k - 1] == s[1..k];
      RemoveFirstPresent(t, x, k - 1);
      assert s[..k] == [s[0]] + t[..k - 1];
      assert s[k + 1..] == t[k..];
    }
  }

  /** Remove takes away one occurrence of x and nothing else. */
  lemma {:induction false} RemoveFirstMultiset<X>(s: seq<X>, x: X)
    ensures multiset(RemoveFirst(s, x)) == multiset(s) - multiset{x}
  {
    if s == [] {
    } else if s[0] == x {
      assert s == [s[0]] + s[1..];
    } else {
      RemoveFirstMultiset(s[1..], x);
      assert s == [s[0]] + s[1..];
    }
  }

  /** Remove applied once for each element of xs, in order. */
  function RemoveEach<X(==)>(s: seq<X>, xs: seq<X>): (r: seq<X>)
    ensures |s| - |xs| <= |r| <= |s|
  {
    if xs == [] then s
    else RemoveFirst(RemoveEach(s, xs[..|xs| - 1]), xs[|xs| - 1])
  }

  /** Applying Remove for every element of xs takes away exactly the multiset xs. */
  lemma {:induction false} RemoveEachMultiset<X>(s: seq<X>, xs: seq<X>)
    ensures multiset(RemoveEach(s, xs)) == multiset(s) - multiset(xs)
  {
    if xs != [] {
      var init, last := xs[..|xs| - 1], xs[|xs| - 1];
      var r0 := RemoveEach(s, init);
      RemoveEachMultiset(s, init);
      RemoveFirstMultiset(r0, last);
      assert xs == init + [last];
      MultisetStep(multiset(s), multiset(init), multiset(r0), multiset(RemoveFirst(r0, last)), multiset(xs), last);
    }
  }

  lemma MultisetStep<X>(ms: multiset<X>, mi: multiset<X>, mr: multiset<X>, mf: multiset<X>, mx: multiset<X>, last: X)
    requires mr == ms - mi && mf == mr - multiset{last} && mx == mi + multiset{last}
    ensures mf == ms - mx
  {
    MultisetDifferenceTwice(ms, mi, multiset{last});
  }

  lemma MultisetDifferenceTwice<X>(a: multiset<X>, b: multiset<X>, c: multiset<X>)
    ensures a - b - c == a - (b + c)
  {
    forall y
      ensures (a - b - c)[y] == (a - (b + c))[y]
    {
    }
  }
}

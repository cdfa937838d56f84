// Lists, and lists of lists.
module Sequences {

  // The members of the lists, one list after the other.
  function Concat<A>(lists: seq<seq<A>>): seq<A> {
    if lists == [] then [] else Concat(lists[..|lists| - 1]) + lists[|lists| - 1]
  }

  lemma ConcatAppend<A>(lists: seq<seq<A>>, last: seq<A>)
    ensures Concat(lists + [last]) == Concat(lists) + last
  {
    assert (lists + [last])[..|lists|] == lists;
  }

  lemma ConcatNone<A>(lists: seq<seq<A>>)
    ensures Concat(lists[..0]) == []
  {
  }

  lemma ConcatNext<A>(lists: seq<seq<A>>, i: nat)
    requires i < |lists|
    ensures Concat(lists[..i + 1]) == Concat(lists[..i]) + lists[i]
  {
    ConcatAppend(lists[..i], lists[i]);
    assert lists[..i + 1] == lists[..i] + [lists[i]];
  }

  lemma {:induction false} ConcatSplit<A>(a: seq<seq<A>>, b: seq<seq<A>>)
    ensures Concat(a + b) == Concat(a) + Concat(b)
  {
    hide Concat;
    if b == [] {
      ConcatNone(b);
      assert a + b == a && b[..0] == b;
    } else {
      var c, last := b[..|b| - 1], b[|b| - 1];
      assert b == c + [last] && a + b == (a + c) + [last];
      ConcatSplit(a, c);
      ConcatAppend(c, last);
      ConcatAppend(a + c, last);
    }
  }

  lemma ConcatFour<A>(a: seq<A>, b: seq<A>, c: seq<A>, d: seq<A>)
    ensures Concat([a, b, c, d]) == a + b + c + d
  {
    ConcatAppend([], a);
    ConcatAppend([a], b);
    ConcatAppend([a, b], c);
    ConcatAppend([a, b, c], d);
    assert [] + [a] == [a] && [a] + [b] == [a, b] && [a, b] + [c] == [a, b, c] && [a, b, c] + [d] == [a, b, c, d];
  }

  lemma {:induction false} ConcatEmpty<A>(lists: seq<seq<A>>)
    ensures Concat(lists) == [] <==> forall i :: 0 <= i < |lists| ==> lists[i] == []
  {
    if lists != [] {
      ConcatEmpty(lists[..|lists| - 1]);
      assert forall i :: 0 <= i < |lists| - 1 ==> lists[..|lists| - 1][i] == lists[i];
    }
  }

  lemma SameMembers<A>(s: seq<A>, t: seq<A>)
    requires multiset(s) == multiset(t)
    ensures |s| == |t| && forall x :: x in s <==> x in t
  {
    assert forall x :: x in s <==> x in multiset(s);
    assert forall x :: x in t <==> x in multiset(t);
    assert |s| == |multiset(s)| && |t| == |multiset(t)|;
  }

  lemma MultisetInsert<A>(s: seq<A>, x: A, p: nat)
    requires p <= |s|
    ensures multiset(s[..p] + [x] + s[p..]) == multiset(s) + multiset{x}
  {
    assert s == s[..p] + s[p..];
  }

  // What occurs at two places counts twice, and the other way round.
  lemma CountTwice<A>(s: seq<A>, i: nat, j: nat)
    requires i < j < |s| && s[i] == s[j]
    ensures multiset(s)[s[i]] >= 2
  {
    assert s == s[..j] + s[j..];
    assert s[i] in s[..j] && s[j] in s[j..];
    assert s[i] in multiset(s[..j]) && s[i] in multiset(s[j..]);
  }

  lemma TwoPlaces<A>(s: seq<A>, x: A) returns (i: nat, j: nat)
    requires multiset(s)[x] >= 2
    ensures i < j < |s| && s[i] == s[j] == x
  {
    assert x in multiset(s);
    i :| 0 <= i < |s| && s[i] == x;
    var rest := s[..i] + s[i + 1..];
    assert s == s[..i] + [x] + s[i + 1..];
    assert x in multiset(rest);
    var k :| 0 <= k < |rest| && rest[k] == x;
    if k < i {
      i, j := k, i;
    } else {
      j := k + 1;
    }
  }
}

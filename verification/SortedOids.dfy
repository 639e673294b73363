/** Ids in strictly increasing order: what sorting and dropping duplicates gives. */
module SortedOids {
  import opened Objects
  import opened Seqs

  ghost predicate Ascending(s: seq<Oid>) {
    forall i, j | 0 <= i < j < |s| :: s[i] < s[j]
  }

  /** Sorts and drops duplicates. */
  method SortedDistinct(s: seq<Oid>) returns (t: seq<Oid>)
    ensures Ascending(t) && forall x :: x in t <==> x in s
  {
    t := [];
    for i := 0 to |s|
      invariant Ascending(t) && forall x :: x in t <==> x in s[..i]
    {
      var k := 0;
      while k < |t| && t[k] < s[i]
        invariant k <= |t| && forall j | 0 <= j < k :: t[j] < s[i]
      {
        k := k + 1;
      }
      TakeNext(s, i);
      if k == |t| || t[k] != s[i] {
        t := InsertAt(t, k, s[i]);
      }
    }
    TakeAll(s);
  }

  function InsertAt(t: seq<Oid>, k: nat, x: Oid): (r: seq<Oid>)
    requires k <= |t| && Ascending(t)
    requires forall j | 0 <= j < k :: t[j] < x
    requires k < |t| ==> x < t[k]
    ensures Ascending(r) && forall y :: y in r <==> y == x || y in t
  {
    InsertedMembers(t, k, x);
    t[..k] + [x] + t[k..]
  }

  /** Two lists in order with the same members are the same list, so comparing files compares sets. */
  lemma {:induction false} SameMembersSameList(a: seq<Oid>, b: seq<Oid>)
    requires Ascending(a) && Ascending(b) && forall x :: x in a <==> x in b
    ensures a == b
  {
    FirstIsMember(a);
    FirstIsMember(b);
    if a != [] && b != [] {
      assert a == [a[0]] + a[1..] && b == [b[0]] + b[1..];
      assert a[0] == b[0];
      forall x
        ensures x in a[1..] <==> x in b[1..]
      {
        assert x in a[1..] <==> x in a && x != a[0];
        assert x in b[1..] <==> x in b && x != b[0];
      }
      SameMembersSameList(a[1..], b[1..]);
    }
  }
}

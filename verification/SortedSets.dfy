/** Python's sorted() on a set of addresses. */
module SortedSets {
  import opened Wrappers

  ghost predicate Ascending(q: seq<int>) {
    forall i, j :: 0 <= i < j < |q| ==> q[i] < q[j]
  }

  ghost predicate SortedCopy(q: seq<int>, s: set<int>) {
    Ascending(q) && forall a :: a in q <==> a in s
  }

  /** a placed into an ascending sequence. */
  function Insert(q: seq<int>, a: int): (r: seq<int>)
    requires Ascending(q)
    ensures Ascending(r)
    ensures forall b :: b in r <==> b == a || b in q
  {
    if q == [] then [a]
    else if a < q[0] then [a] + q
    else if a == q[0] then q
    else
      var rest := Insert(q[1..], a);
      assert forall b :: b in rest ==> q[0] < b;
      assert q == [q[0]] + q[1..];
      [q[0]] + rest
  }

  method Sorted(s: set<int>) returns (q: seq<int>)
    ensures SortedCopy(q, s)
  {
    var all := Enumerate(s);
    q := [];
    for i := 0 to |all|
      invariant Ascending(q)
      invariant forall a :: a in q <==> a in all[..i]
    {
      q := Insert(q, all[i]);
    }
  }
}

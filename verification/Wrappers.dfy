/** Small helpers shared by the modules. */
module Wrappers {
  /** Used where the modelled code returns None, null or nullopt. */
  datatype Option<+T> = None | Some(value: T)

  /** The elements of a set in some order: Python iterates a set in an unspecified order. */
  method Enumerate<T(==)>(s: set<T>) returns (q: seq<T>)
    ensures forall a :: a in q <==> a in s
  {
    q := [];
    var rest := s;
    while rest != {}
      invariant forall a :: a in s <==> a in q || a in rest
      decreases rest
    {
      var a :| a in rest;
      q, rest := q + [a], rest - {a};
    }
  }
}

/** A query `where` clause over a table, as a filter that keeps the rows (in
    their order, with their multiplicity) that satisfy a condition. */
module Query {

  function Where<T(!new)>(q: seq<T>, p: T -> bool): (r: seq<T>)
    ensures |r| <= |q|
    ensures forall x :: x in r <==> x in q && p(x)
    ensures forall x :: p(x) ==> multiset(r)[x] == multiset(q)[x]
    ensures forall x :: !p(x) ==> multiset(r)[x] == 0
  {
    if q == [] then []
    else
      assert q == [q[0]] + q[1..];
      if p(q[0]) then [q[0]] + Where(q[1..], p) else Where(q[1..], p)
  }
}

/** The calls a `map` callback issues over an array, in element order, when the
    callback issues one call for some elements and none for the others: `f`
    gives the call's arguments, or None for an element it skips. */
module FilterMap {
  import opened Wrappers

  function Defined<A, B>(xs: seq<A>, f: A -> Option<B>): seq<B>
  {
    if xs == [] then []
    else
      var rest := Defined(xs[1..], f);
      match f(xs[0])
      case None => rest
      case Some(y) => [y] + rest
  }

  /** One element contributes its result when it has one, and nothing otherwise ... */
  lemma DefinedSingle<A, B>(x: A, f: A -> Option<B>)
    ensures f(x).None? ==> Defined([x], f) == []
    ensures f(x).Some? ==> Defined([x], f) == [f(x).value]
  {
    assert [x][1..] == [];
  }

  /** ... and the results for a concatenation are the results of each part, in
      order. */
  lemma {:induction false} DefinedAppend<A, B>(a: seq<A>, b: seq<A>, f: A -> Option<B>)
    ensures Defined(a + b, f) == Defined(a, f) + Defined(b, f)
    decreases |a|
  {
    if a == [] {
      assert a + b == b;
    } else {
      assert (a + b)[0] == a[0];
      assert (a + b)[1..] == a[1..] + b;
      DefinedAppend(a[1..], b, f);
    }
  }

  /** Growing the input by one element at the end. */
  lemma DefinedSnoc<A, B>(xs: seq<A>, x: A, f: A -> Option<B>)
    ensures f(x).None? ==> Defined(xs + [x], f) == Defined(xs, f)
    ensures f(x).Some? ==> Defined(xs + [x], f) == Defined(xs, f) + [f(x).value]
  {
    DefinedAppend(xs, [x], f);
    DefinedSingle(x, f);
  }

  /** At most one result per element; a value is a result iff some element maps
      to it; there are no results iff no element has one. */
  lemma {:induction false} DefinedExactly<A, B>(xs: seq<A>, f: A -> Option<B>)
    ensures |Defined(xs, f)| <= |xs|
    ensures forall y :: y in Defined(xs, f) <==> exists i :: 0 <= i < |xs| && f(xs[i]) == Some(y)
    ensures Defined(xs, f) == [] <==> forall i :: 0 <= i < |xs| ==> f(xs[i]).None?
    decreases |xs|
  {
    if xs != [] {
      var tail := xs[1..];
      DefinedExactly(tail, f);
      forall y ensures y in Defined(xs, f) <==> exists i :: 0 <= i < |xs| && f(xs[i]) == Some(y)
      {
        if y in Defined(xs, f) && f(xs[0]) != Some(y) {
          assert y in Defined(tail, f);
          var j :| 0 <= j < |tail| && f(tail[j]) == Some(y);
          assert xs[j + 1] == tail[j];
        }
        if exists i :: 0 <= i < |xs| && f(xs[i]) == Some(y) {
          var i :| 0 <= i < |xs| && f(xs[i]) == Some(y);
          if i > 0 {
            assert tail[i - 1] == xs[i];
          }
        }
      }
      if forall i :: 0 <= i < |xs| ==> f(xs[i]).None? {
        forall i | 0 <= i < |tail| ensures f(tail[i]).None? {
          assert tail[i] == xs[i + 1];
        }
      }
    }
  }
}

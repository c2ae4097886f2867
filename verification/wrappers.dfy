/** The optional value used wherever the source may or may not produce a result. */
module Wrappers {

  datatype Option<+T> = None | Some(value: T)

  /** The values of the `Some` entries of `xs`, in order. */
  function Somes<T>(xs: seq<Option<T>>): (r: seq<T>)
    ensures |r| <= |xs|
    decreases |xs|
  {
    if |xs| == 0 then []
    else (if xs[0].Some? then [xs[0].value] else []) + Somes(xs[1..])
  }

  lemma {:induction false} SomesAppend<T>(a: seq<Option<T>>, b: seq<Option<T>>)
    ensures Somes(a + b) == Somes(a) + Somes(b)
    decreases |a|
  {
    if |a| == 0 {
      assert a + b == b;
    } else {
      var head: seq<T> := if a[0].Some? then [a[0].value] else [];
      assert (a + b)[0] == a[0];
      assert (a + b)[1..] == a[1..] + b;
      assert Somes(a + b) == head + Somes(a[1..] + b);
      SomesAppend(a[1..], b);
      assert Somes(a) == head + Somes(a[1..]);
    }
  }

  /** When every entry is a `Some`, nothing is dropped. */
  lemma {:induction false} SomesOfSomes<T>(xs: seq<Option<T>>, ys: seq<T>)
    requires |xs| == |ys|
    requires forall i :: 0 <= i < |xs| ==> xs[i] == Some(ys[i])
    ensures Somes(xs) == ys
    decreases |xs|
  {
    if |xs| > 0 {
      SomesOfSomes(xs[1..], ys[1..]);
      assert ys == [ys[0]] + ys[1..];
    }
  }
}

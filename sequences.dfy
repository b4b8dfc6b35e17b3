/** Sequence helpers shared by the layout, the encoder and the shape renderer. */
module Sequences {

  function Min(a: int, b: int): int { if a <= b then a else b }

  function Max(a: int, b: int): int { if a <= b then b else a }

  /** `n * [x]` in the source: n copies of x. */
  function Repeat<T>(x: T, n: nat): (r: seq<T>)
    ensures |r| == n
    ensures forall i :: 0 <= i < n ==> r[i] == x
  {
    if n == 0 then [] else Repeat(x, n - 1) + [x]
  }

  /** The concatenation of all rows, in order. */
  function Flatten<T>(rows: seq<seq<T>>): seq<T>
  {
    if rows == [] then [] else rows[0] + Flatten(rows[1..])
  }

  lemma {:induction false} FlattenAppend<T>(a: seq<seq<T>>, b: seq<seq<T>>)
    ensures Flatten(a + b) == Flatten(a) + Flatten(b)
  {
    if a == [] {
      assert a + b == b;
    } else {
      assert (a + b)[1..] == a[1..] + b;
      FlattenAppend(a[1..], b);
    }
  }

  /** `max(map(len, rows))`, with 0 for no rows. */
  function MaxLen<T>(rows: seq<seq<T>>): (m: nat)
    ensures forall i :: 0 <= i < |rows| ==> |rows[i]| <= m
    ensures rows == [] ==> m == 0
    ensures rows != [] ==> exists i :: 0 <= i < |rows| && |rows[i]| == m
  {
    if rows == [] then 0
    else
      var rest := MaxLen(rows[1..]);
      assert forall i :: 1 <= i < |rows| ==> rows[i] == rows[1..][i - 1];
      if |rows[0]| >= rest then |rows[0]|
      else
        assert exists i :: 0 <= i < |rows[1..]| && |rows[1..][i]| == rest;
        var i :| 0 <= i < |rows[1..]| && |rows[1..][i]| == rest;
        assert |rows[i + 1]| == rest;
        rest
  }

  /** The total length of the rows is at most their count times the longest one. */
  lemma {:induction false} FlattenLengthBound<T>(rows: seq<seq<T>>, width: nat)
    requires forall i :: 0 <= i < |rows| ==> |rows[i]| <= width
    ensures |Flatten(rows)| <= |rows| * width
  {
    if rows != [] {
      assert forall i :: 0 <= i < |rows[1..]| ==> rows[1..][i] == rows[i + 1];
      FlattenLengthBound(rows[1..], width);
    }
  }

  function Sum(xs: seq<nat>): nat
  {
    if xs == [] then 0 else xs[0] + Sum(xs[1..])
  }

  lemma {:induction false} SumAppend(a: seq<nat>, b: seq<nat>)
    ensures Sum(a + b) == Sum(a) + Sum(b)
  {
    if a == [] {
      assert a + b == b;
    } else {
      assert (a + b)[1..] == a[1..] + b;
      SumAppend(a[1..], b);
    }
  }
}

/**
  Two rows over time, as the sequences of their values: when the first value of one and the
  last value of the other were ever stored together.
*/
module TwoRows {
  predicate Changes<V(==)>(x: seq<V>, k: nat) {
    k + 1 < |x| && x[k] != x[k + 1]
  }

  /** Before step m a change of x is followed by one of y. */
  ghost predicate Crossed<V>(x: seq<V>, y: seq<V>, m: nat) {
    exists a: nat, b: nat :: a < b < m && Changes(x, a) && Changes(y, b)
  }

  /** No value comes back once it was left. */
  ghost predicate NoReturn<V>(x: seq<V>) {
    forall a: nat, b: nat, c: nat :: a <= b <= c < |x| && x[a] == x[c] ==> x[b] == x[a]
  }

  /** A step changes one row at most. */
  ghost predicate OneAtATime<V>(x: seq<V>, y: seq<V>) {
    |x| == |y| && forall k: nat :: !(Changes(x, k) && Changes(y, k))
  }

  ghost predicate MeetAt<V>(x: seq<V>, y: seq<V>, m: nat, k: nat)
    requires m < |x| == |y|
  {
    k <= m && x[k] == x[0] && y[k] == y[m]
  }

  ghost predicate Meet<V>(x: seq<V>, y: seq<V>, m: nat)
    requires m < |x| == |y|
  {
    exists k :: MeetAt(x, y, m, k)
  }

  lemma {:induction false} Unchanged<V>(x: seq<V>, m: nat)
    requires m < |x| && forall a: nat :: a < m ==> !Changes(x, a)
    ensures x[m] == x[0]
  {
    if m > 0 {
      Unchanged(x, m - 1);
      assert !Changes(x, m - 1);
    }
  }

  lemma {:induction false} UncrossedMeet<V>(x: seq<V>, y: seq<V>, m: nat)
    requires m < |x| && OneAtATime(x, y) && !Crossed(x, y, m)
    ensures Meet(x, y, m)
  {
    if m == 0 {
      assert MeetAt(x, y, 0, 0);
    } else if Changes(y, m - 1) {
      Unchanged(x, m);
      assert MeetAt(x, y, m, m);
    } else {
      UncrossedMeet(x, y, m - 1);
      var k :| MeetAt(x, y, m - 1, k);
      assert MeetAt(x, y, m, k);
    }
  }

  lemma CrossedNeverMeet<V>(x: seq<V>, y: seq<V>, m: nat, k: nat)
    requires m < |x| == |y| && NoReturn(x) && NoReturn(y) && Crossed(x, y, m)
    ensures !MeetAt(x, y, m, k)
  {
    var a: nat, b: nat :| a < b < m && Changes(x, a) && Changes(y, b);
    assert x[a] == x[0] ==> x[a + 1] != x[0];
    assert y[b] != y[b + 1];
  }

  /** The first value of x and the last of y met if and only if no change of x was followed by one of y. */
  lemma MeetExactly<V>(x: seq<V>, y: seq<V>, m: nat)
    requires m < |x| && OneAtATime(x, y)
    ensures !Crossed(x, y, m) ==> Meet(x, y, m)
    ensures NoReturn(x) && NoReturn(y) ==> (Meet(x, y, m) <==> !Crossed(x, y, m))
  {
    if !Crossed(x, y, m) {
      UncrossedMeet(x, y, m);
    } else if NoReturn(x) && NoReturn(y) {
      forall k: nat ensures !MeetAt(x, y, m, k) { CrossedNeverMeet(x, y, m, k); }
    }
  }
}

/** What several modules share: optional results, word sizes, and counting. */
module Common {

  datatype Option<T> = None | Some(value: T)

  datatype Tid = Tid(id: nat)

  const WORD32 := 0x1_0000_0000
  const WORD64 := 0x1_0000_0000_0000_0000
  const SIZE_MAX := WORD64 - 1

  function Min(a: int, b: int): int { if a <= b then a else b }

  // Addition of size_t values.
  function AddSizes(a: nat, b: nat): (sum: nat)
    ensures a + b <= SIZE_MAX ==> sum == a + b
  {
    (a + b) % WORD64
  }

  // ----- finite sets -----

  lemma {:induction false} SubsetSize<T>(a: set<T>, b: set<T>)
    requires a <= b
    ensures |a| <= |b|
    ensures |a| == |b| ==> a == b
  {
    assert b == a + (b - a);
  }

  // A set has subsets of every size up to its own.
  lemma {:induction false} PickSome<T>(a: set<T>, n: nat) returns (b: set<T>)
    requires n <= |a|
    ensures b <= a && |b| == n
  {
    if n == 0 {
      b := {};
    } else {
      var x :| x in a;
      b := PickSome(a - {x}, n - 1);
      b := b + {x};
    }
  }

  // ----- how many elements of a sequence have a property -----

  function Count<T>(s: seq<T>, p: T -> bool): nat {
    if s == [] then 0 else Count(s[..|s| - 1], p) + if p(s[|s| - 1]) then 1 else 0
  }

  lemma {:induction false} CountUpdate<T>(s: seq<T>, p: T -> bool, i: nat, x: T)
    requires i < |s|
    ensures Count(s[i := x], p) == Count(s, p) + (if p(x) then 1 else 0) - (if p(s[i]) then 1 else 0)
    ensures p(s[i]) ==> Count(s, p) > 0
  {
    var n := |s| - 1;
    if i == n {
      assert s[i := x][..n] == s[..n];
    } else {
      assert s[i := x][..n] == s[..n][i := x];
      CountUpdate(s[..n], p, i, x);
    }
  }

  lemma {:induction false} CountBounds<T>(s: seq<T>, p: T -> bool)
    ensures Count(s, p) <= |s|
    ensures Count(s, p) == |s| <==> forall i :: 0 <= i < |s| ==> p(s[i])
    ensures Count(s, p) == 0 <==> forall i :: 0 <= i < |s| ==> !p(s[i])
  {
    if s != [] {
      var n := |s| - 1;
      CountBounds(s[..n], p);
      assert forall i :: 0 <= i < n ==> s[..n][i] == s[i];
    }
  }

  ghost function Positions<T>(s: seq<T>, p: T -> bool): set<nat> {
    set i: nat | i < |s| && p(s[i])
  }

  // The count is the number of positions.
  lemma {:induction false} CountPositions<T>(s: seq<T>, p: T -> bool)
    ensures Count(s, p) == |Positions(s, p)|
  {
    if s == [] {
      assert Positions(s, p) == {};
    } else {
      var n := |s| - 1;
      CountPositions(s[..n], p);
      var lower := Positions(s[..n], p);
      assert Positions(s, p) == if p(s[n]) then lower + {n} else lower;
    }
  }
}

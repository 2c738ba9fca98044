// Minima, maxima and the sizes of sets.
module Numbers {
  function Min(a: int, b: int): (n: int) { if a <= b then a else b }

  function Max(a: int, b: int): (n: int) { if a >= b then a else b }

  function MinOf(s: set<nat>): (m: nat)
    requires s != {}
    ensures m in s && forall x :: x in s ==> m <= x
  {
    MinExists(s);
    var m :| m in s && forall x :: x in s ==> m <= x;
    m
  }

  lemma {:induction false} MinExists(s: set<nat>)
    requires s != {}
    ensures exists m :: m in s && forall x :: x in s ==> m <= x
    decreases s
  {
    var y :| y in s;
    var below := set x | x in s && x < y;
    assert forall x :: x in s ==> x in below || y <= x;
    if below != {} {
      assert y !in below;
      MinExists(below);
      var m :| m in below && forall x :: x in below ==> m <= x;
      assert m in s && forall x :: x in s ==> m <= x;
    }
  }

  lemma SubsetSize<T>(a: set<T>, b: set<T>)
    requires a <= b
    ensures |a| <= |b|
  {
    assert b == a + (b - a);
  }

  // The numbers from a up to, not including, b.
  ghost function Range(a: nat, b: nat): (s: set<nat>)
    ensures forall i :: i in s <==> a <= i < b
  {
    if a < b then Range(a, b - 1) + {b - 1} else {}
  }

  lemma {:induction false} RangeSize(a: nat, b: nat)
    requires a <= b
    ensures |Range(a, b)| == b - a
    decreases b
  {
    if a < b {
      RangeSize(a, b - 1);
    }
  }

  ghost function Elements<T>(s: seq<T>): (e: set<T>) { set x | x in s }

  lemma {:induction false} ElementsSize<T>(s: seq<T>)
    ensures |Elements(s)| <= |s|
  {
    if |s| > 0 {
      var init, last := s[..|s| - 1], s[|s| - 1];
      ElementsSize(init);
      assert s == init + [last];
      assert Elements(s) == Elements(init) + {last};
    }
  }
}

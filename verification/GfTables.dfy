// The exp/log tables of src/fec.cpp and the field operations that read them.
module GfTables {
  import opened Numbers
  import opened ByteStrings
  import opened Gf256

  // ---- 2 generates every non-zero element ----

  lemma {:induction false} GenNonZero(i: nat)
    ensures Gen(i) != 0
  {
    if i > 0 {
      GenNonZero(i - 1);
      if TimesTwo(Gen(i - 1)) == 0 {
        assert TimesTwo(0) == 0;
        TimesTwoInjective(Gen(i - 1), 0);
      }
    }
  }

  lemma {:induction false} GenInjective(i: nat, j: nat)
    requires i < j < 255
    ensures Gen(i) != Gen(j)
    decreases i
  {
    hide TimesTwo;
    if i == 0 {
      GeneratorOrder();
    } else {
      GenInjective(i - 1, j - 1);
      if Gen(i) == Gen(j) {
        TimesTwoInjective(Gen(i - 1), Gen(j - 1));
      }
    }
  }

  ghost function GenSet(n: nat): (s: set<nat>) { set i | 0 <= i < n :: Gen(i) as nat }

  lemma {:induction false} GenSetSize(n: nat)
    requires n <= 255
    ensures |GenSet(n)| == n
  {
    hide Gen;
    if n > 0 {
      GenSetSize(n - 1);
      assert GenSet(n) == GenSet(n - 1) + {Gen(n - 1) as nat};
      forall i | 0 <= i < n - 1
        ensures Gen(i) != Gen(n - 1)
      {
        GenInjective(i, n - 1);
      }
    }
  }

  lemma EqualSets<T>(s: set<T>, t: set<T>)
    requires s <= t && |s| == |t|
    ensures s == t
  {
    assert |t| == |s| + |t - s| by { assert t == s + (t - s); }
    assert t - s == {};
  }

  lemma GenSurjective(x: Byte)
    requires x != 0
    ensures exists i: nat :: i < 255 && Gen(i) == x
  {
    hide Gen;
    GenSetSize(255);
    RangeSize(1, 256);
    forall y | y in GenSet(255)
      ensures y in Range(1, 256)
    {
      var i :| 0 <= i < 255 && y == Gen(i) as nat;
      GenNonZero(i);
    }
    EqualSets(GenSet(255), Range(1, 256));
    assert x in GenSet(255);
  }

  ghost function Log(x: Byte): (i: nat)
    requires x != 0
    ensures i < 255 && Gen(i) == x
  {
    GenSurjective(x);
    var i: nat :| i < 255 && Gen(i) == x;
    i
  }

  lemma GenPeriod(i: nat)
    ensures Gen(i + 255) == Gen(i)
  {
    hide Gen;
    GenMul(i, 255);
    GeneratorOrder();
    MulOne(Gen(i));
  }

  lemma {:induction false} GenMod(i: nat)
    ensures Gen(i) == Gen(i % 255)
    decreases i
  {
    hide Gen;
    if i >= 255 {
      GenMod(i - 255);
      GenPeriod(i - 255);
    }
  }

  // ---- the field has inverses and no zero divisors ----

  lemma NoZeroDivisors(a: Byte, b: Byte)
    requires a != 0 && b != 0
    ensures Mul(a, b) != 0
  {
    hide Mul;
    hide Gen;
    GenMul(Log(a), Log(b));
    GenNonZero(Log(a) + Log(b));
  }

  function Pow(a: Byte, e: nat): (b: Byte)
  {
    if e == 0 then 1 else Mul(a, Pow(a, e - 1))
  }

  lemma PowUnfold(a: Byte, e: nat)
    ensures Pow(a, e) == if e == 0 then 1 else Mul(a, Pow(a, e - 1))
  {
    hide Mul;
  }

  lemma {:induction false} PowOfGen(i: nat, e: nat)
    ensures Pow(Gen(i), e) == Gen(i * e)
    decreases e
  {
    hide Mul, Gen, Pow;
    PowUnfold(Gen(i), e);
    if e > 0 {
      PowOfGen(i, e - 1);
      GenMul(i, i * (e - 1));
      assert i + i * (e - 1) == i * e;
    } else {
      GenFirst();
      assert i * e == 0;
    }
  }

  // ---- the tables ----

  datatype Tables = Tables(exp: seq<Byte>, log: seq<Byte>)
  {
    ghost predicate Valid()
    {
      && |exp| == 512
      && |log| == 256
      && (forall i :: 0 <= i < 512 ==> exp[i] == Gen(i))
      && (forall i :: 0 <= i < 255 ==> log[Gen(i)] == i)
    }
  }

  // The constructor of GfTables.
  method BuildTables() returns (t: Tables)
    ensures t.Valid() && t.log[0] == 0
  {
    hide Gen, TimesTwo;
    var exp := new Byte[512](_ => 0);
    var log := new Byte[256](_ => 0);
    var x: Byte := 1;
    GenFirst();
    for i := 0 to 255
      invariant x == Gen(i)
      invariant forall k :: 0 <= k < i ==> exp[k] == Gen(k)
      invariant forall k :: 0 <= k < i ==> log[Gen(k)] == k
      invariant log[0] == 0
    {
      GenFresh(i);
      exp[i] := x;
      log[x] := i;
      x := TimesTwo(x);
      GenNext(i);
    }
    for i := 255 to 512
      invariant forall k :: 0 <= k < i ==> exp[k] == Gen(k)
      invariant forall k :: 0 <= k < 255 ==> log[Gen(k)] == k
      invariant log[0] == 0
    {
      GenPeriod(i - 255);
      exp[i] := exp[i - 255];
    }
    t := Tables(exp[..], log[..]);
  }

  lemma GenFirst()
    ensures Gen(0) == 1
  {}

  lemma GenNext(i: nat)
    ensures Gen(i + 1) == TimesTwo(Gen(i))
  {}

  lemma GenFresh(i: nat)
    requires i < 255
    ensures Gen(i) != 0
    ensures forall k :: 0 <= k < i ==> Gen(k) != Gen(i)
  {
    hide Gen;
    GenNonZero(i);
    forall k | 0 <= k < i
      ensures Gen(k) != Gen(i)
    {
      GenInjective(k, i);
    }
  }

  // What the tables hold for a non-zero element.
  lemma LogExp(t: Tables, a: Byte)
    requires t.Valid() && a != 0
    ensures t.log[a] < 255 && Gen(t.log[a]) == a
  {
    hide Gen;
    var i := Log(a);
    assert t.log[Gen(i)] == i;
  }

  lemma MulByLog(t: Tables, a: Byte, b: Byte)
    requires t.Valid() && a != 0 && b != 0
    ensures t.log[a] as int + t.log[b] as int < 512
    ensures t.exp[t.log[a] as int + t.log[b] as int] == Mul(a, b)
  {
    hide Mul;
    hide Gen;
    LogExp(t, a);
    LogExp(t, b);
    GenMul(t.log[a], t.log[b]);
  }

  lemma PowByLog(t: Tables, a: Byte, e: nat)
    requires t.Valid() && a != 0
    ensures t.exp[(t.log[a] * e) % 255] == Pow(a, e)
  {
    hide Mul;
    hide Gen;
    LogExp(t, a);
    PowOfGen(t.log[a], e);
    GenMod(t.log[a] * e);
  }

  lemma InvByLog(t: Tables, a: Byte)
    requires t.Valid() && a != 0
    ensures Mul(a, t.exp[255 - t.log[a]]) == 1
  {
    hide Mul;
    hide Gen;
    LogExp(t, a);
    GenMul(t.log[a], 255 - t.log[a]);
    GeneratorOrder();
  }

  function GfMul(t: Tables, a: Byte, b: Byte): (r: Byte)
    requires t.Valid()
    ensures r == Mul(a, b)
  {
    if a == 0 || b == 0 then
      MulZero(a);
      MulZero(b);
      0
    else
      MulByLog(t, a, b);
      t.exp[t.log[a] as int + t.log[b] as int]
  }

  function GfPow(t: Tables, a: Byte, e: nat): (r: Byte)
    requires t.Valid()
    ensures r == Pow(a, e)
  {
    if e == 0 then 1
    else if a == 0 then
      MulZero(Pow(a, e - 1));
      0
    else
      PowByLog(t, a, e);
      t.exp[(t.log[a] * e) % 255]
  }

  function GfInv(t: Tables, a: Byte): (r: Byte)
    requires t.Valid() && a != 0
    ensures Mul(a, r) == 1
  {
    LogExp(t, a);
    InvByLog(t, a);
    t.exp[255 - t.log[a]]
  }

  // Coefficient of data fragment dataIndex in parity fragment parityIndex.
  function Coef(t: Tables, parityIndex: nat, dataIndex: nat): (r: Byte)
    requires t.Valid()
    ensures r == Pow((dataIndex + 1) % 256, parityIndex)
  {
    GfPow(t, (dataIndex + 1) % 256, parityIndex)
  }
}

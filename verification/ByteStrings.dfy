// Bytes, and numbers written as bytes.
module ByteStrings {
  import opened Gf2Poly
  import opened DivMod

  type Byte = x: int | 0 <= x < 256
  type Bytes = seq<Byte>

  const U16: nat := 0x1_0000
  const U32: nat := 0x1_0000_0000
  const U64: nat := 0x1_0000_0000_0000_0000

  function Zeros(n: nat): (r: Bytes)
    ensures |r| == n
  {
    seq(n, _ => 0)
  }

  // The first n pieces, joined.
  ghost function Concat(pieces: seq<Bytes>, n: nat): (s: Bytes)
    requires n <= |pieces|
  {
    if n == 0 then [] else Concat(pieces, n - 1) + pieces[n - 1]
  }

  function XorByte(a: Byte, b: Byte): (r: Byte)
  {
    XorUnder256(a, b);
    Xor(a, b)
  }

  lemma XorUnder256(a: Byte, b: Byte)
    ensures Xor(a, b) < 256
  {
    KnownPowers();
    XorRange(a, b, 8);
  }

  // Little-endian value.
  function Le(s: Bytes): (n: nat)
  {
    if |s| == 0 then 0 else s[0] + 256 * Le(s[1..])
  }

  // 2^(8 n)
  ghost function Pow256(n: nat): (p: nat)
    ensures p >= 1
  {
    Pow2(8 * n)
  }

  lemma LeOne(x: Byte)
    ensures Le([x]) == x
  {}

  lemma {:induction false} LeInjective(x: Bytes, y: Bytes)
    requires |x| == |y| && Le(x) == Le(y)
    ensures x == y
  {
    if |x| > 0 {
      LeInjective(x[1..], y[1..]);
      assert x == [x[0]] + x[1..] && y == [y[0]] + y[1..];
    }
  }

  lemma LeCons(data: Bytes)
    requires |data| > 0
    ensures Le(data) == data[0] as int + 256 * Le(data[1..])
  {}

  // The next byte up.
  lemma LeAppend(s: Bytes, i: nat)
    requires i < |s|
    ensures Le(s[..i + 1]) == Le(s[..i]) + Pow256(i) * s[i]
  {
    hide Pow256, Le;
    LeSplit(s[..i + 1], i);
    assert s[..i + 1][..i] == s[..i] && s[..i + 1][i..] == [s[i]];
    LeOne(s[i]);
  }

  lemma Pow256Next(n: nat)
    ensures Pow256(0) == 1 && Pow256(n + 1) == 256 * Pow256(n)
  {
    Pow2Plus(8, 8 * n);
    assert Pow2(8) == 256;
  }

  lemma {:induction false} LeBound(s: Bytes)
    ensures Le(s) < Pow256(|s|)
  {
    hide Pow256;
    if |s| > 0 {
      LeBound(s[1..]);
      Pow256Next(|s| - 1);
    } else {
      Pow256Next(0);
    }
  }

  lemma {:induction false} LeSplit(s: Bytes, i: nat)
    requires i <= |s|
    ensures Le(s) == Le(s[..i]) + Pow256(i) * Le(s[i..])
    decreases i
  {
    if i == 0 {
      assert s[0..] == s;
    } else {
      hide Pow256, Le;
      LeSplit(s[1..], i - 1);
      assert s[1..][..i - 1] == s[..i][1..] && s[1..][i - 1..] == s[i..];
      Pow256Next(i - 1);
      LeCons(s);
      LeCons(s[..i]);
      Regroup(Le(s[..i][1..]), Pow256(i - 1), Le(s[i..]));
    }
  }

  lemma Regroup(low: nat, p: nat, high: nat)
    ensures 256 * (low + p * high) == 256 * low + (256 * p) * high
  {}

  // The bytes i..j are the digits i..j of the number.
  lemma LeSlice(s: Bytes, i: nat, j: nat)
    requires i <= j <= |s|
    ensures Le(s[i..j]) == Le(s) / Pow256(i) % Pow256(j - i)
  {
    hide Pow256, Le;
    LeSplit(s, i);
    LeBound(s[..i]);
    Unique(Le(s), Pow256(i), Le(s[i..]), Le(s[..i]));
    LeSplit(s[i..], j - i);
    assert s[i..][..j - i] == s[i..j];
    LeBound(s[i..j]);
    Unique(Le(s[i..]), Pow256(j - i), Le(s[i..][j - i..]), Le(s[i..j]));
  }

  // A number is determined by its digits.
  lemma {:induction false} LeOfDigits(s: Bytes, n: nat)
    requires forall i :: 0 <= i < |s| ==> s[i] == n / Pow256(i) % 256
    requires n < Pow256(|s|)
    ensures Le(s) == n
  {
    if |s| == 0 {
      Pow256Next(0);
    } else {
      hide Pow256;
      Pow256Next(0);
      Pow256Next(|s| - 1);
      assert n / 256 < Pow256(|s| - 1);
      forall i | 0 <= i < |s| - 1
        ensures s[1..][i] == n / 256 / Pow256(i) % 256
      {
        Pow256Next(i);
        Split(n, 256, Pow256(i));
        assert s[1..][i] == s[i + 1];
      }
      LeOfDigits(s[1..], n / 256);
      assert n / 1 % 256 == n % 256;
    }
  }

  lemma ByteOfLe(s: Bytes, q: nat)
    requires q < |s|
    ensures s[q] as int == Le(s) / Pow2(8 * q) % 256
  {
    hide Pow2, Le;
    KnownPowers();
    LeSlice(s, q, q + 1);
    assert s[q..q + 1] == [s[q]];
    LeOne(s[q]);
  }

  // One bit of the number is one bit of one byte.
  lemma LeBit(s: Bytes, q: nat, j: nat)
    requires q < |s| && j < 8
    ensures Le(s) / Pow2(8 * q + j) % 2 == s[q] / Pow2(j) % 2
  {
    hide Pow2, Le;
    ByteOfLe(s, q);
    var n := Le(s) / Pow2(8 * q);
    Pow2Plus(8 * q, j);
    Split(Le(s), Pow2(8 * q), Pow2(j));
    BitOfLowByte(n, j);
  }

  lemma BitOfLowByte(n: nat, j: nat)
    requires j < 8
    ensures n % 256 / Pow2(j) % 2 == n / Pow2(j) % 2
  {
    hide Pow2;
    KnownPowers();
    SmallPowers();
    Pow2Plus(j, 8 - j);
    CutThenDivide(n, Pow2(j), Pow2(8 - j));
    Pow2Plus(1, 7 - j);
    CutTwice(n / Pow2(j), 2, Pow2(7 - j));
  }

  // ---- big-endian fields ----

  lemma FieldSizes()
    ensures Pow256(2) == 0x1_0000 && Pow256(4) == 0x1_0000_0000 && Pow256(8) == 0x1_0000_0000_0000_0000
  {
    KnownPowers();
  }

  // n bytes, the most significant first; what does not fit is cut off.
  function Be(v: nat, n: nat): (b: Bytes)
    ensures |b| == n
  {
    if n == 0 then [] else Be(v / 256, n - 1) + [v % 256]
  }

  function FromBe(b: Bytes): (n: nat)
  {
    if |b| == 0 then 0 else 256 * FromBe(b[..|b| - 1]) + b[|b| - 1]
  }

  lemma {:induction false} BeRoundTrip(v: nat, n: nat)
    requires v < Pow256(n)
    ensures FromBe(Be(v, n)) == v
    decreases n
  {
    hide Pow256;
    if n == 0 {
      Pow256Next(0);
    } else {
      Pow256Next(n - 1);
      BeRoundTrip(v / 256, n - 1);
      assert Be(v, n)[..n - 1] == Be(v / 256, n - 1);
    }
  }

  // Each byte is one digit of the number.
  lemma {:induction false} BeDigit(v: nat, n: nat, i: nat)
    requires i < n
    ensures Be(v, n)[i] == v / Pow256(n - 1 - i) % 256
    decreases n
  {
    hide Pow256;
    Pow256Next(n - 1 - i);
    if i < n - 1 {
      BeDigit(v / 256, n - 1, i);
      Pow256Next(n - 2 - i);
      Split(v, 256, Pow256(n - 2 - i));
    } else {
      assert v / 1 == v;
    }
  }

  lemma {:induction false} FromBeBound(b: Bytes)
    ensures FromBe(b) < Pow256(|b|)
  {
    hide Pow256;
    if |b| > 0 {
      FromBeBound(b[..|b| - 1]);
      Pow256Next(|b| - 1);
    } else {
      Pow256Next(0);
    }
  }

  // Fields of one width with the same value have the same bytes.
  lemma {:induction false} BeOfFromBe(b: Bytes)
    ensures Be(FromBe(b), |b|) == b
  {
    if |b| > 0 {
      BeOfFromBe(b[..|b| - 1]);
      assert b == b[..|b| - 1] + [b[|b| - 1]];
    }
  }

  lemma {:induction false} FromBeZeros(b: Bytes)
    requires forall i :: 0 <= i < |b| ==> b[i] == 0
    ensures FromBe(b) == 0
  {
    if |b| > 0 { FromBeZeros(b[..|b| - 1]); }
  }
}

// Big-endian fields inside a byte buffer, written and read as the serializers do.
module WireFields {
  import opened ByteStrings
  import opened Crc32

  type Half = x: int | 0 <= x < 0x1_0000

  function GetWord(b: Bytes, off: nat): (v: Word)
    requires off + 4 <= |b|
  {
    FieldSizes();
    FromBeBound(b[off..off + 4]);
    FromBe(b[off..off + 4])
  }

  function GetHalf(b: Bytes, off: nat): (v: Half)
    requires off + 2 <= |b|
  {
    FieldSizes();
    FromBeBound(b[off..off + 2]);
    FromBe(b[off..off + 2])
  }

  // A field depends on its own bytes only.
  lemma SameWord(a: Bytes, b: Bytes, off: nat)
    requires off + 4 <= |a| && off + 4 <= |b| && forall k :: off <= k < off + 4 ==> a[k] == b[k]
    ensures GetWord(a, off) == GetWord(b, off)
  {
    assert a[off..off + 4] == b[off..off + 4];
  }

  lemma SameHalf(a: Bytes, b: Bytes, off: nat)
    requires off + 2 <= |a| && off + 2 <= |b| && forall k :: off <= k < off + 2 ==> a[k] == b[k]
    ensures GetHalf(a, off) == GetHalf(b, off)
  {
    assert a[off..off + 2] == b[off..off + 2];
  }

  method StoreWord(p: array<Byte>, off: nat, v: Word)
    requires off + 4 <= p.Length
    modifies p
    ensures GetWord(p[..], off) == v
    ensures forall k :: 0 <= k < off || off + 4 <= k < p.Length ==> p[k] == old(p[k])
  {
    forall i | 0 <= i < 4 { p[off + i] := Be(v, 4)[i]; }
    assert p[..][off..off + 4] == Be(v, 4);
    FieldSizes();
    BeRoundTrip(v, 4);
  }

  method StoreHalf(p: array<Byte>, off: nat, v: Half)
    requires off + 2 <= p.Length
    modifies p
    ensures GetHalf(p[..], off) == v
    ensures forall k :: 0 <= k < off || off + 2 <= k < p.Length ==> p[k] == old(p[k])
  {
    forall i | 0 <= i < 2 { p[off + i] := Be(v, 2)[i]; }
    assert p[..][off..off + 2] == Be(v, 2);
    FieldSizes();
    BeRoundTrip(v, 2);
  }

  // The bytes of a field are its value, the most significant first.
  lemma WordAt(b: Bytes, off: nat)
    requires off + 4 <= |b|
    ensures b[off..off + 4] == Be(GetWord(b, off), 4)
  {
    BeOfFromBe(b[off..off + 4]);
  }

  lemma HalfAt(b: Bytes, off: nat)
    requires off + 2 <= |b|
    ensures b[off..off + 2] == Be(GetHalf(b, off), 2)
  {
    BeOfFromBe(b[off..off + 2]);
  }

  // And it determines them.
  lemma WordBytes(a: Bytes, b: Bytes, off: nat)
    requires off + 4 <= |a| && off + 4 <= |b| && GetWord(a, off) == GetWord(b, off)
    ensures forall k :: off <= k < off + 4 ==> a[k] == b[k]
  {
    var x, y := a[off..off + 4], b[off..off + 4];
    BeOfFromBe(x);
    BeOfFromBe(y);
    assert forall k :: off <= k < off + 4 ==> a[k] == x[k - off] == y[k - off] == b[k];
  }

  lemma HalfBytes(a: Bytes, b: Bytes, off: nat)
    requires off + 2 <= |a| && off + 2 <= |b| && GetHalf(a, off) == GetHalf(b, off)
    ensures forall k :: off <= k < off + 2 ==> a[k] == b[k]
  {
    var x, y := a[off..off + 2], b[off..off + 2];
    BeOfFromBe(x);
    BeOfFromBe(y);
    assert forall k :: off <= k < off + 2 ==> a[k] == x[k - off] == y[k - off] == b[k];
  }
}

// Bytes, little-endian integers and slices at a position (mcpack/number.go).
module Bytes {
  type byte = n: nat | n < 256
  type bytes = seq<byte>

  // ---- Little-endian integers -------------------------------------------------

  function Pow256(k: nat): (p: nat)
    ensures p > 0
  {
    if k == 0 then 1 else 256 * Pow256(k - 1)
  }

  // The k low bytes of n, least significant first: what the PutUint functions store.
  // Higher bytes are dropped, as the Go conversions drop them.
  function LE(n: nat, k: nat): (s: bytes)
    ensures |s| == k
  {
    if k == 0 then [] else [n % 256] + LE(n / 256, k - 1)
  }

  function FromLE(s: bytes): nat {
    if s == [] then 0 else s[0] + 256 * FromLE(s[1..])
  }

  // Reading back what was stored gives the number modulo the width.
  lemma {:induction false} FromLEofLE(n: nat, k: nat)
    requires n < Pow256(k)
    ensures FromLE(LE(n, k)) == n
  {
    if k > 0 {
      FromLEofLE(n / 256, k - 1);
      assert LE(n, k)[1..] == LE(n / 256, k - 1);
    }
  }

  lemma {:induction false} LEofFromLE(s: bytes)
    ensures FromLE(s) < Pow256(|s|)
    ensures LE(FromLE(s), |s|) == s
  {
    if s != [] {
      LEofFromLE(s[1..]);
      assert s == [s[0]] + s[1..];
    }
  }

  lemma Widths()
    ensures Pow256(1) == 0x100
    ensures Pow256(2) == 0x1_0000
    ensures Pow256(4) == 0x1_0000_0000
    ensures Pow256(8) == 0x1_0000_0000_0000_0000
  {
    assert Pow256(2) == 256 * Pow256(1);
    assert Pow256(3) == 256 * Pow256(2);
    assert Pow256(4) == 256 * Pow256(3);
    assert Pow256(5) == 256 * Pow256(4);
    assert Pow256(6) == 256 * Pow256(5);
    assert Pow256(7) == 256 * Pow256(6);
  }

  // ---- Fixed widths and two's complement --------------------------------------

  datatype Width = W8 | W16 | W32 | W64 {
    function Modulus(): (m: nat)
      ensures m > 0
    {
      match this
      case W8 => 0x100
      case W16 => 0x1_0000
      case W32 => 0x1_0000_0000
      case W64 => 0x1_0000_0000_0000_0000
    }

    predicate Unsigned(n: int) {
      0 <= n < Modulus()
    }

    predicate Signed(n: int) {
      -(Modulus() as int) <= 2 * n < Modulus()
    }

    // Conversion to the unsigned type of this width.
    function Wrap(n: int): (u: nat)
      ensures Unsigned(u)
    {
      n % Modulus()
    }

    // Conversion to the signed type of this width.
    function WrapSigned(n: int): int {
      var u := Wrap(n);
      if 2 * u < Modulus() then u else u - Modulus()
    }

    // Every number of the type survives the trip through its representation.
    lemma WrapSignedIdentity(n: int)
      requires Signed(n)
      ensures WrapSigned(n) == WrapSigned(Wrap(n)) == n
    {
      var m: int := Modulus();
      ModInRange(n, m);
      ModInRange(Wrap(n), m);
    }
  }

  lemma ModInRange(n: int, m: int)
    requires m > 0 && -m <= n < m
    ensures n % m == if n < 0 then n + m else n
  {
    var q := n / m;
    assert q * m + n % m == n;
    assert q >= 1 ==> q * m >= m;
    assert q <= -2 ==> q * m <= -2 * m;
  }

  // ---- A piece of data at a position ------------------------------------------

  predicate At(data: bytes, off: nat, piece: bytes) {
    off + |piece| <= |data| && data[off..off + |piece|] == piece
  }

  lemma ConcatAssociates(a: bytes, b: bytes, c: bytes)
    ensures a + (b + c) == (a + b) + c
  {
  }

  lemma AtConcat(data: bytes, off: nat, a: bytes, b: bytes)
    ensures At(data, off, a + b) <==> At(data, off, a) && At(data, off + |a|, b)
  {
    if At(data, off, a + b) {
      var w := data[off..off + |a + b|];
      assert a == w[..|a|] == data[off..off + |a|];
      assert b == w[|a|..] == data[off + |a|..off + |a| + |b|];
    }
    if At(data, off, a) && At(data, off + |a|, b) {
      assert data[off..off + |a + b|] == data[off..off + |a|] + data[off + |a|..off + |a| + |b|];
    }
  }

  lemma AtSlice(data: bytes, off: nat, piece: bytes)
    requires At(data, off, piece)
    ensures off + |piece| <= |data| && data[off..off + |piece|] == piece
  {
  }

  lemma AtStart(data: bytes)
    ensures At(data, 0, data)
  {
  }

  // Storing a 32-bit number in four steps, lowest byte first (PutInt32, PutUint32).
  method PutUint32(a: array<byte>, at: nat, v: nat)
    requires at + 4 <= a.Length
    modifies a
    ensures a[at..at + 4] == LE(v, 4)
    ensures a[..at] == old(a[..at]) && a[at + 4..] == old(a[at + 4..])
  {
    a[at] := v % 256;
    a[at + 1] := v / 0x100 % 256;
    a[at + 2] := v / 0x1_0000 % 256;
    a[at + 3] := v / 0x100_0000 % 256;
    LE4(v);
  }

  lemma LE4(v: nat)
    ensures LE(v, 4) == [v % 256, v / 0x100 % 256, v / 0x1_0000 % 256, v / 0x100_0000 % 256]
  {
    var v1, v2, v3 := v / 256, v / 256 / 256, v / 256 / 256 / 256;
    assert LE(v3, 1) == [v3 % 256];
    assert LE(v2, 2) == [v2 % 256] + LE(v3, 1);
    assert LE(v1, 3) == [v1 % 256] + LE(v2, 2);
    assert LE(v, 4) == [v % 256] + LE(v1, 3);
    assert v2 == v / 0x1_0000 && v3 == v / 0x100_0000;
  }

  method PutUint64(a: array<byte>, at: nat, v: nat)
    requires at + 8 <= a.Length
    modifies a
    ensures a[at..at + 8] == LE(v, 8)
    ensures a[..at] == old(a[..at]) && a[at + 8..] == old(a[at + 8..])
  {
    PutUint32(a, at, v);
    PutUint32(a, at + 4, v / 0x1_0000_0000);
    LE8(v);
    assert a[at..at + 8] == a[at..at + 4] + a[at + 4..at + 8];
    assert a[at..at + 4] == a[..at + 4][at..];
  }

  lemma LE8(v: nat)
    ensures LE(v, 8) == LE(v, 4) + LE(v / 0x1_0000_0000, 4)
  {
    var v1, v2, v3, v4 := v / 256, v / 256 / 256, v / 256 / 256 / 256, v / 256 / 256 / 256 / 256;
    assert v4 == v / 0x1_0000_0000;
    assert LE(v, 8) == [v % 256] + LE(v1, 7);
    assert LE(v1, 7) == [v1 % 256] + LE(v2, 6);
    assert LE(v2, 6) == [v2 % 256] + LE(v3, 5);
    assert LE(v3, 5) == [v3 % 256] + LE(v4, 4);
    assert LE(v3, 1) == [v3 % 256];
    assert LE(v2, 2) == [v2 % 256] + LE(v3, 1);
    assert LE(v1, 3) == [v1 % 256] + LE(v2, 2);
    assert LE(v, 4) == [v % 256] + LE(v1, 3);
  }
}

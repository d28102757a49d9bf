/** Byte strings, fixed-width integers in both byte orders, and the running checksum. */
module Bytes {
  type byte = x: int | 0 <= x < 256
  type u32 = x: int | 0 <= x < 0x1_0000_0000
  type u64 = x: int | 0 <= x < 0x1_0000_0000_0000_0000
  type Bytes = seq<byte>

  const U64_MAX: nat := 0xffff_ffff_ffff_ffff

  /** The next sequence number; a 64-bit counter wraps. */
  function Succ(sequence: u64): u64 {
    if sequence == U64_MAX then 0 else sequence + 1
  }

  lemma SuccWraps(sequence: u64)
    ensures Succ(sequence) == (sequence + 1) % 0x1_0000_0000_0000_0000
  {
  }

  /** 256 to the n. */
  function Pow256(n: nat): (p: nat)
    ensures p >= 1
  {
    if n == 0 then 1 else 256 * Pow256(n - 1)
  }

  /** The n low-order bytes of v, most significant first; higher bits are cut off as a C cast does. */
  function PutBE(n: nat, v: nat): (s: Bytes)
    ensures |s| == n
  {
    if n == 0 then [] else PutBE(n - 1, v / 256) + [v % 256]
  }

  /** The number whose big-endian digits are s. */
  function GetBE(s: Bytes): nat {
    if s == [] then 0 else 256 * GetBE(s[..|s| - 1]) + s[|s| - 1]
  }

  lemma {:induction false} GetBEBound(s: Bytes)
    ensures GetBE(s) < Pow256(|s|)
  {
    if s != [] {
      GetBEBound(s[..|s| - 1]);
    }
  }

  /** Reading back what was written gives the number again, when it fits. */
  lemma {:induction false} GetPutBE(n: nat, v: nat)
    requires v < Pow256(n)
    ensures GetBE(PutBE(n, v)) == v
  {
    if n != 0 {
      GetPutBE(n - 1, v / 256);
      assert PutBE(n, v)[..n - 1] == PutBE(n - 1, v / 256);
    }
  }

  /** Writing the number read gives the same bytes: the encoding is canonical. */
  lemma {:induction false} PutGetBE(s: Bytes)
    ensures PutBE(|s|, GetBE(s)) == s
  {
    if s != [] {
      PutGetBE(s[..|s| - 1]);
      assert s == s[..|s| - 1] + [s[|s| - 1]];
    }
  }

  lemma PowSum(m: nat, n: nat)
    ensures Pow256(m + n) == Pow256(m) * Pow256(n)
    decreases m
  {
    if m > 0 {
      PowSum(m - 1, n);
      assert Pow256(m + n) == 256 * (Pow256(m - 1) * Pow256(n));
    }
  }

  /** The first byte weighs most: big-endian, digit by digit. */
  lemma {:induction false} GetBEFirst(s: Bytes)
    requires s != []
    ensures GetBE(s) == s[0] * Pow256(|s| - 1) + GetBE(s[1..])
  {
    var n := |s| - 1;
    if n > 0 {
      GetBEFirst(s[..n]);
      assert s[..n][1..] == s[1..][..n - 1];
      assert 256 * (s[0] * Pow256(n - 1)) == s[0] * Pow256(n);
    } else {
      assert s[..0] == [] && s[1..] == [];
    }
  }

  /** Digit i of n written: what is left of v after the n - 1 - i lower bytes, modulo 256. */
  lemma {:induction false} PutBEDigit(n: nat, v: nat, i: nat)
    requires i < n
    ensures PutBE(n, v)[i] == v / Pow256(n - 1 - i) % 256
  {
    if i < n - 1 {
      PutBEDigit(n - 1, v / 256, i);
      DivTwice(v, Pow256(n - 2 - i));
    }
  }

  lemma DivTwice(v: nat, d: nat)
    requires d > 0
    ensures v / 256 / d == v / (256 * d)
  {
    var q, r := v / 256 / d, v / 256 % d;
    assert v / 256 == q * d + r;
    assert v == 256 * (q * d + r) + v % 256 == q * (256 * d) + (256 * r + v % 256);
    assert 256 * r + v % 256 < 256 * d;
    DivUnique(v, 256 * d, q, 256 * r + v % 256);
  }

  lemma DivUnique(v: nat, d: nat, q: nat, r: nat)
    requires v == q * d + r && r < d
    ensures v / d == q
  {
    var k := v / d - q;
    assert v == v / d * d + v % d;
    assert k * d == v / d * d - q * d;
    LargeMultiple(k, d);
  }

  lemma LargeMultiple(k: int, d: int)
    requires d > 0
    ensures k > 0 ==> k * d >= d
    ensures k < 0 ==> k * d <= -d
  {
    if k > 0 {
      assert (k - 1) * d >= 0;
    } else if k < 0 {
      assert (-k - 1) * d >= 0;
    }
  }

  function Put32(v: nat): (s: Bytes)
    ensures |s| == 4
  {
    PutBE(4, v)
  }

  function Put64(v: nat): (s: Bytes)
    ensures |s| == 8
  {
    PutBE(8, v)
  }

  lemma Pow256Widths()
    ensures Pow256(2) == 0x1_0000
    ensures Pow256(4) == 0x1_0000_0000
    ensures Pow256(8) == 0x1_0000_0000_0000_0000
  {
    assert Pow256(2) == 256 * Pow256(1);
    assert Pow256(4) == 256 * Pow256(3) == 256 * 256 * Pow256(2);
    assert Pow256(6) == 256 * Pow256(5) == 256 * 256 * Pow256(4);
    assert Pow256(8) == 256 * Pow256(7) == 256 * 256 * Pow256(6);
  }

  /** The unsigned number in the four bytes at the given offset. */
  function Be32(b: Bytes, at: nat): (v: u32)
    requires at + 4 <= |b|
  {
    Pow256Widths();
    GetBEBound(b[at..at + 4]);
    GetBE(b[at..at + 4])
  }

  /** The unsigned number in the eight bytes at the given offset. */
  function Be64(b: Bytes, at: nat): (v: u64)
    requires at + 8 <= |b|
  {
    Pow256Widths();
    GetBEBound(b[at..at + 8]);
    GetBE(b[at..at + 8])
  }

  lemma Be32At(b: Bytes, at: nat, v: u32)
    requires at + 4 <= |b|
    ensures Be32(b, at) == v <==> b[at..at + 4] == Put32(v)
  {
    Pow256Widths();
    GetPutBE(4, v);
    PutGetBE(b[at..at + 4]);
  }

  lemma Be64At(b: Bytes, at: nat, v: u64)
    requires at + 8 <= |b|
    ensures Be64(b, at) == v <==> b[at..at + 8] == Put64(v)
  {
    Pow256Widths();
    GetPutBE(8, v);
    PutGetBE(b[at..at + 8]);
  }

  function Reversed(s: Bytes): (r: Bytes)
    ensures |r| == |s|
    ensures forall i :: 0 <= i < |s| ==> r[i] == s[|s| - 1 - i]
  {
    if s == [] then [] else Reversed(s[1..]) + [s[0]]
  }

  lemma ReversedTwice(s: Bytes)
    ensures Reversed(Reversed(s)) == s
  {
  }

  /** The n low-order bytes of v, least significant first: the layout of a packed struct field. */
  function PutLE(n: nat, v: nat): (s: Bytes)
    ensures |s| == n
  {
    Reversed(PutBE(n, v))
  }

  function GetLE(s: Bytes): nat {
    GetBE(Reversed(s))
  }

  lemma LittleEndianBack(s: Bytes)
    ensures PutLE(|s|, GetLE(s)) == s
  {
    ReversedTwice(s);
    PutGetBE(Reversed(s));
  }

  lemma LittleEndianRoundTrip(n: nat, v: nat)
    requires v < Pow256(n)
    ensures GetLE(PutLE(n, v)) == v
  {
    ReversedTwice(PutBE(n, v));
    GetPutBE(n, v);
  }

  /** A byte-at-a-time 32-bit checksum: everything CRC-32 is to this program. */
  datatype Crc = Crc(step: (u32, byte) -> u32) {
    /** The checksum of data, continued from seed. */
    function Fold(seed: u32, data: Bytes): u32 {
      if data == [] then seed else step(Fold(seed, data[..|data| - 1]), data[|data| - 1])
    }

    /** The one-shot checksum. */
    function Of(data: Bytes): u32 {
      Fold(0, data)
    }

    /** The empty string leaves the seed, and each byte in turn is one step: this determines the checksum. */
    lemma FoldByte(seed: u32, data: Bytes, b: byte)
      ensures Of([]) == 0 && Fold(seed, []) == seed && Fold(seed, data + [b]) == step(Fold(seed, data), b)
    {
      assert (data + [b])[..|data|] == data;
    }

    /** Different sums stay different over one byte, and different bytes part equal sums: true of CRC-32. */
    ghost predicate Sharp() {
      && (forall c: u32, d: u32, b: byte :: c != d ==> step(c, b) != step(d, b))
      && (forall c: u32, a: byte, b: byte :: a != b ==> step(c, a) != step(c, b))
    }

    lemma {:induction false} PartedStays(c: u32, d: u32, data: Bytes)
      requires Sharp() && c != d
      ensures Fold(c, data) != Fold(d, data)
      decreases |data|
    {
      if data != [] { PartedStays(c, d, data[..|data| - 1]); }
    }

    /** One changed byte changes the checksum. */
    lemma OneByteChanges(data: Bytes, i: nat, b: byte)
      requires Sharp() && i < |data| && data[i] != b
      ensures Of(data[i := b]) != Of(data)
    {
      var front, back := data[..i], data[i + 1..];
      assert data == front + [data[i]] + back && data[i := b] == front + [b] + back;
      FoldByte(0, front, data[i]);
      FoldByte(0, front, b);
      FoldConcat(0, front + [data[i]], back);
      FoldConcat(0, front + [b], back);
      PartedStays(Fold(0, front + [data[i]]), Fold(0, front + [b]), back);
    }

    /** Feeding two chunks one after the other is feeding their concatenation. */
    lemma {:induction false} FoldConcat(seed: u32, a: Bytes, b: Bytes)
      ensures Fold(seed, a + b) == Fold(Fold(seed, a), b)
      decreases |b|
    {
      if b == [] {
        assert a + b == a;
      } else {
        var b' := b[..|b| - 1];
        FoldConcat(seed, a, b');
        assert (a + b)[..|a + b| - 1] == a + b';
      }
    }
  }

  /** One byte changed in a text and its trailing checksum makes them disagree. */
  lemma ChangedSum(crc: Crc, f: Bytes, m: nat, i: nat, b: byte)
    requires crc.Sharp() && |f| == m + 4 && f[m..] == Put32(crc.Of(f[..m])) && i < |f| && f[i] != b
    ensures f[i := b][m..] != Put32(crc.Of(f[i := b][..m]))
  {
    hide Put32, Crc.Of, Crc.Sharp;
    var g := f[i := b];
    if i < m {
      crc.OneByteChanges(f[..m], i, b);
      assert g[..m] == f[..m][i := b] && g[m..] == f[m..];
      Be32At(f, m, crc.Of(f[..m]));
      Be32At(f, m, crc.Of(g[..m]));
      assert f[m..m + 4] == f[m..];
    } else {
      assert g[..m] == f[..m];
      assert g[m..][i - m] != f[m..][i - m];
    }
  }
}

/**
 The CRC-32 of WAL frames and the FNV-1a digest of search results.  Both fold a byte
 stream through a step that is injective in the state and in the byte, so changing one
 byte of a stream always changes the result.
 */
module Checksums {

  type Byte = x: nat | x < 256

  const TWO_31: nat := 0x8000_0000
  const TWO_32: nat := 0x1_0000_0000
  const TWO_64: nat := 0x1_0000_0000_0000_0000

  type Word32 = x: nat | x < 0x1_0000_0000

  type Word64 = x: nat | x < 0x1_0000_0000_0000_0000

  // ----- Bitwise exclusive-or on naturals -----

  /** Bitwise exclusive-or. */
  function Xor(m: nat, n: nat): nat {
    if m == 0 && n == 0 then 0 else 2 * Xor(m / 2, n / 2) + (m + n) % 2
  }

  function Pow2(k: nat): nat { if k == 0 then 1 else 2 * Pow2(k - 1) }

  lemma {:induction false} XorBelow(m: nat, n: nat, k: nat)
    requires m < Pow2(k) && n < Pow2(k)
    ensures Xor(m, n) < Pow2(k)
  {
    if m != 0 || n != 0 { XorBelow(m / 2, n / 2, k - 1); }
  }

  lemma SameParity(m: nat, n: nat, a: nat, p: nat, q: nat)
    requires 2 * p + (m + a) % 2 == 2 * q + (n + a) % 2
    ensures p == q && m % 2 == n % 2
  {
  }

  lemma FromHalves(m: nat, n: nat)
    requires m / 2 == n / 2 && m % 2 == n % 2
    ensures m == n
  {
  }

  lemma XorUnfold(m: nat, n: nat)
    ensures Xor(m, n) == 2 * Xor(m / 2, n / 2) + (m + n) % 2
  {
  }

  lemma {:induction false} XorInjectiveLeft(m: nat, n: nat, a: nat)
    requires Xor(m, a) == Xor(n, a)
    ensures m == n
    decreases m + n + a
  {
    if m != 0 || n != 0 || a != 0 {
      XorUnfold(m, a);
      XorUnfold(n, a);
      SameParity(m, n, a, Xor(m / 2, a / 2), Xor(n / 2, a / 2));
      XorInjectiveLeft(m / 2, n / 2, a / 2);
      FromHalves(m, n);
    }
  }

  lemma {:induction false} XorCommutes(m: nat, n: nat)
    ensures Xor(m, n) == Xor(n, m)
  {
    if m != 0 || n != 0 { XorCommutes(m / 2, n / 2); }
  }

  lemma Pow2Octet(k: nat)
    ensures Pow2(k + 8) == 256 * Pow2(k)
  {
    assert Pow2(k + 2) == 2 * Pow2(k + 1) == 4 * Pow2(k);
    assert Pow2(k + 4) == 2 * Pow2(k + 3) == 4 * Pow2(k + 2);
    assert Pow2(k + 6) == 2 * Pow2(k + 5) == 4 * Pow2(k + 4);
    assert Pow2(k + 8) == 2 * Pow2(k + 7) == 4 * Pow2(k + 6);
  }

  lemma WordSizes()
    ensures Pow2(8) == 256 && Pow2(31) == TWO_31 && Pow2(32) == TWO_32 && Pow2(64) == TWO_64
  {
    assert Pow2(0) == 1;
    Pow2Octet(0);
    Pow2Octet(8);
    Pow2Octet(16);
    Pow2Octet(24);
    Pow2Octet(32);
    Pow2Octet(40);
    Pow2Octet(48);
    Pow2Octet(56);
  }

  /** A bit set only in the wider operand survives. */
  lemma {:induction false} XorKeepsHighBit(m: nat, n: nat, k: nat)
    requires m < Pow2(k) <= n < Pow2(k + 1)
    ensures Pow2(k) <= Xor(m, n)
  {
    if k > 0 { XorKeepsHighBit(m / 2, n / 2, k - 1); }
  }

  function Xor32(x: Word32, y: Word32): Word32 {
    WordSizes();
    XorBelow(x, y, 32);
    Xor(x, y)
  }

  function Xor64(x: Word64, y: Word64): Word64 {
    WordSizes();
    XorBelow(x, y, 64);
    Xor(x, y)
  }

  lemma XorInjectiveRight(x: nat, a: nat, b: nat)
    requires Xor(x, a) == Xor(x, b)
    ensures a == b
  {
    XorCommutes(x, a);
    XorCommutes(x, b);
    XorInjectiveLeft(a, b, x);
  }

  // ----- Folding a stream -----

  /** Folds a byte stream through a step function. */
  function Fold<S, B>(step: (S, B) -> S, init: S, bytes: seq<B>): S {
    if bytes == [] then init else step(Fold(step, init, bytes[..|bytes| - 1]), bytes[|bytes| - 1])
  }

  lemma {:induction false} FoldConcat<S, B>(step: (S, B) -> S, init: S, a: seq<B>, b: seq<B>)
    ensures Fold(step, init, a + b) == Fold(step, Fold(step, init, a), b)
  {
    if b == [] {
      assert a + b == a;
    } else {
      var n := |b| - 1;
      FoldConcat(step, init, a, b[..n]);
      assert (a + b)[..|a + b| - 1] == a + b[..n];
    }
  }

  function Iterate<S>(f: S -> S, x: S, n: nat): S {
    if n == 0 then x else f(Iterate(f, x, n - 1))
  }

  ghost predicate InjectiveStep<S(!new), B(!new)>(step: (S, B) -> S) {
    && (forall x, y, b :: step(x, b) == step(y, b) ==> x == y)
    && (forall x, a, b :: step(x, a) == step(x, b) ==> a == b)
  }

  lemma {:induction false} IterateInjective<S(!new)>(f: S -> S, x: S, y: S, n: nat)
    requires forall a, b :: f(a) == f(b) ==> a == b
    requires Iterate(f, x, n) == Iterate(f, y, n)
    ensures x == y
  {
    if n > 0 { IterateInjective(f, x, y, n - 1); }
  }

  ghost predicate DifferOnlyAt<B>(s: seq<B>, t: seq<B>, k: nat) {
    |s| == |t| && k < |s| && s[k] != t[k] && s[..k] == t[..k] && s[k + 1..] == t[k + 1..]
  }

  lemma DifferOnlyShrinks<B>(s: seq<B>, t: seq<B>, k: nat)
    requires DifferOnlyAt(s, t, k)
    ensures k + 1 < |s| ==> s[|s| - 1] == t[|t| - 1] && DifferOnlyAt(s[..|s| - 1], t[..|t| - 1], k)
    ensures k + 1 == |s| ==> s[..|s| - 1] == t[..|t| - 1]
  {
    if k + 1 < |s| {
      assert s[|s| - 1] == s[k + 1..][|s| - k - 2];
      assert s[..|s| - 1][..k] == s[..k] && t[..|t| - 1][..k] == t[..k];
      assert s[..|s| - 1][k + 1..] == s[k + 1..][..|s| - k - 2];
      assert t[..|t| - 1][k + 1..] == t[k + 1..][..|t| - k - 2];
    }
  }

  lemma {:induction false} FoldDetectsOneByte<S(!new), B(!new)>(
    step: (S, B) -> S, init: S, s: seq<B>, t: seq<B>, k: nat)
    requires InjectiveStep(step)
    requires DifferOnlyAt(s, t, k)
    ensures Fold(step, init, s) != Fold(step, init, t)
    decreases |s|
  {
    DifferOnlyShrinks(s, t, k);
    var n := |s| - 1;
    if k < n { FoldDetectsOneByte(step, init, s[..n], t[..n], k); }
  }

  // ----- CRC-32 (reflected polynomial 0xEDB88320) -----

  const POLYNOMIAL: Word32 := 0xEDB8_8320

  function CrcBit(crc: Word32): Word32 {
    if crc % 2 == 1 then Xor32(crc / 2, POLYNOMIAL) else crc / 2
  }

  function CrcStep(crc: Word32, b: Byte): Word32 {
    Iterate(CrcBit, Xor32(crc, b), 8)
  }

  const CRC_INIT: Word32 := 0xFFFF_FFFF

  /** The checksum of a byte string: the complement of the folded state. */
  function Crc(bytes: seq<Byte>): Word32 { 0xFFFF_FFFF - Fold(CrcStep, CRC_INIT, bytes) }

  /** The source's nested loops compute the fold. */
  method Crc32(bytes: seq<Byte>) returns (r: Word32)
    ensures r == Crc(bytes)
  {
    var crc: Word32 := CRC_INIT;
    for i := 0 to |bytes|
      invariant crc == Fold(CrcStep, CRC_INIT, bytes[..i])
    {
      crc := Xor32(crc, bytes[i]);
      ghost var start := crc;
      for j := 0 to 8
        invariant crc == Iterate(CrcBit, start, j)
      {
        crc := CrcBit(crc);
      }
      assert bytes[..i + 1][..i] == bytes[..i];
    }
    assert bytes[..|bytes|] == bytes;
    r := 0xFFFF_FFFF - crc;
  }

  /** The polynomial's top bit records which branch was taken, so a bit step can be undone. */
  lemma CrcBitInjective(a: Word32, b: Word32)
    requires CrcBit(a) == CrcBit(b)
    ensures a == b
  {
    WordSizes();
    if a % 2 == 1 { XorKeepsHighBit(a / 2, POLYNOMIAL, 31); }
    if b % 2 == 1 { XorKeepsHighBit(b / 2, POLYNOMIAL, 31); }
    if a % 2 == 1 && b % 2 == 1 { XorInjectiveLeft(a / 2, b / 2, POLYNOMIAL); }
  }

  lemma CrcStepInjective()
    ensures InjectiveStep(CrcStep)
  {
    forall a: Word32, b: Word32 | CrcBit(a) == CrcBit(b) ensures a == b { CrcBitInjective(a, b); }
    forall x: Word32, y: Word32, b: Byte | CrcStep(x, b) == CrcStep(y, b) ensures x == y {
      IterateInjective(CrcBit, Xor32(x, b), Xor32(y, b), 8);
      XorInjectiveLeft(x, y, b);
    }
    forall x: Word32, a: Byte, b: Byte | CrcStep(x, a) == CrcStep(x, b) ensures a == b {
      IterateInjective(CrcBit, Xor32(x, a), Xor32(x, b), 8);
      XorInjectiveRight(x, a, b);
    }
  }

  /** No single-byte change goes unnoticed by the CRC. */
  lemma CrcDetectsOneByte(s: seq<Byte>, t: seq<Byte>, k: nat)
    requires DifferOnlyAt(s, t, k)
    ensures Crc(s) != Crc(t)
  {
    CrcStepInjective();
    FoldDetectsOneByte(CrcStep, CRC_INIT, s, t, k);
  }

  // ----- FNV-1a, 64 bit -----

  function FnvStep(digest: Word64, b: Byte): Word64 {
    (Xor64(digest, b) * 0x0100_0000_01b3) % TWO_64
  }

  const FNV_OFFSET: Word64 := 0xcbf2_9ce4_8422_2325

  function Fnv(bytes: seq<Byte>): Word64 { Fold(FnvStep, FNV_OFFSET, bytes) }

  /** One hit contributes its document id, chunk id and the eight little-endian bytes of its score. */
  datatype Hit = Hit(documentId: seq<Byte>, chunkId: seq<Byte>, scoreBits: seq<Byte>) {
    function Bytes(): seq<Byte> { documentId + chunkId + scoreBits }
  }

  function HitBytes(hits: seq<Hit>): seq<Byte> {
    if hits == [] then [] else HitBytes(hits[..|hits| - 1]) + hits[|hits| - 1].Bytes()
  }

  method ResultDigest(hits: seq<Hit>) returns (digest: Word64)
    ensures digest == Fnv(HitBytes(hits))
  {
    digest := FNV_OFFSET;
    for i := 0 to |hits|
      invariant digest == Fnv(HitBytes(hits[..i]))
    {
      digest := DigestBytes(digest, hits[i].Bytes());
      assert hits[..i + 1][..i] == hits[..i];
      FoldConcat(FnvStep, FNV_OFFSET, HitBytes(hits[..i]), hits[i].Bytes());
    }
    assert hits[..|hits|] == hits;
  }

  method DigestBytes(start: Word64, bytes: seq<Byte>) returns (digest: Word64)
    ensures digest == Fold(FnvStep, start, bytes)
  {
    digest := start;
    for j := 0 to |bytes|
      invariant digest == Fold(FnvStep, start, bytes[..j])
    {
      digest := FnvStep(digest, bytes[j]);
      assert bytes[..j + 1][..j] == bytes[..j];
    }
    assert bytes[..|bytes|] == bytes;
  }

  /** The multiplier is odd: 0xce965057aff6957b inverts it modulo 2^64, so multiplying loses nothing. */
  lemma MulPrimeInjective(x: Word64, y: Word64)
    requires (x * 0x0100_0000_01b3) % TWO_64 == (y * 0x0100_0000_01b3) % TWO_64
    ensures x == y
  {
    var m := (x * 0x0100_0000_01b3) / TWO_64 - (y * 0x0100_0000_01b3) / TWO_64;
    assert (x - y) * 0x0100_0000_01b3 == m * TWO_64;
    assert 0x0100_0000_01b3 * 0xce96_5057_aff6_957b == 1 + 0xce_9650_590f * TWO_64;
    assert x - y == TWO_64 * (m * 0xce96_5057_aff6_957b - 0xce_9650_590f * (x - y));
  }

  lemma FnvStepInjective()
    ensures InjectiveStep(FnvStep)
  {
    forall x: Word64, y: Word64, b: Byte | FnvStep(x, b) == FnvStep(y, b) ensures x == y {
      MulPrimeInjective(Xor64(x, b), Xor64(y, b));
      XorInjectiveLeft(x, y, b);
    }
    forall x: Word64, a: Byte, b: Byte | FnvStep(x, a) == FnvStep(x, b) ensures a == b {
      MulPrimeInjective(Xor64(x, a), Xor64(x, b));
      XorInjectiveRight(x, a, b);
    }
  }

  /** Two result streams that differ in exactly one byte print different digests. */
  lemma FnvDetectsOneByte(s: seq<Byte>, t: seq<Byte>, k: nat)
    requires DifferOnlyAt(s, t, k)
    ensures Fnv(s) != Fnv(t)
  {
    FnvStepInjective();
    FoldDetectsOneByte(FnvStep, FNV_OFFSET, s, t, k);
  }

  lemma DifferInContext<B>(x: seq<B>, s: seq<B>, t: seq<B>, y: seq<B>, k: nat)
    requires DifferOnlyAt(s, t, k)
    ensures DifferOnlyAt(x + s + y, x + t + y, |x| + k)
  {
    var a, b, n := x + s + y, x + t + y, |x| + k;
    assert a[..n] == x + s[..k] && b[..n] == x + t[..k];
    assert a[n + 1..] == s[k + 1..] + y && b[n + 1..] == t[k + 1..] + y;
  }

  lemma {:induction false} HitBytesSplit(hits: seq<Hit>, h: nat)
    requires h < |hits|
    ensures HitBytes(hits) == HitBytes(hits[..h]) + hits[h].Bytes() + HitBytes(hits[h + 1..])
  {
    var n := |hits| - 1;
    if h == n {
      assert hits[h + 1..] == [];
    } else {
      HitBytesSplit(hits[..n], h);
      assert hits[..n][..h] == hits[..h] && hits[h + 1..][..n - h - 1] == hits[..n][h + 1..];
      assert HitBytes(hits[h + 1..]) == HitBytes(hits[..n][h + 1..]) + hits[n].Bytes();
    }
  }

  /** One hit with one byte changed in its document id, its chunk id or its score. */
  ghost predicate OneByteOff(a: Hit, b: Hit, k: nat) {
    || (DifferOnlyAt(a.documentId, b.documentId, k) && b == a.(documentId := b.documentId))
    || (DifferOnlyAt(a.chunkId, b.chunkId, k) && b == a.(chunkId := b.chunkId))
    || (DifferOnlyAt(a.scoreBits, b.scoreBits, k) && b == a.(scoreBits := b.scoreBits))
  }

  /** Where in the bytes of three parts a changed byte of one of them is. */
  lemma PartDiffers(a: seq<Byte>, b: seq<Byte>, c: seq<Byte>, t: seq<Byte>, k: nat)
    ensures DifferOnlyAt(a, t, k) ==> DifferOnlyAt(a + b + c, t + b + c, k)
    ensures DifferOnlyAt(b, t, k) ==> DifferOnlyAt(a + b + c, a + t + c, |a| + k)
    ensures DifferOnlyAt(c, t, k) ==> DifferOnlyAt(a + b + c, a + b + t, |a + b| + k)
  {
    if DifferOnlyAt(a, t, k) { FirstDiffers(a, b, c, t, k); }
    if DifferOnlyAt(b, t, k) { DifferInContext(a, b, t, c, k); }
    if DifferOnlyAt(c, t, k) { LastDiffers(a + b, c, t, k); }
  }

  lemma FirstDiffers(a: seq<Byte>, b: seq<Byte>, c: seq<Byte>, t: seq<Byte>, k: nat)
    requires DifferOnlyAt(a, t, k)
    ensures DifferOnlyAt(a + b + c, t + b + c, k)
  {
    DifferInContext([], a, t, b + c, k);
    assert [] + a + (b + c) == a + b + c && [] + t + (b + c) == t + b + c;
  }

  lemma LastDiffers(x: seq<Byte>, c: seq<Byte>, t: seq<Byte>, k: nat)
    requires DifferOnlyAt(c, t, k)
    ensures DifferOnlyAt(x + c, x + t, |x| + k)
  {
    DifferInContext(x, c, t, [], k);
    assert x + c + [] == x + c && x + t + [] == x + t;
  }

  lemma HitDiffers(a: Hit, b: Hit, k: nat) returns (at: nat)
    requires OneByteOff(a, b, k)
    ensures DifferOnlyAt(a.Bytes(), b.Bytes(), at)
  {
    if DifferOnlyAt(a.documentId, b.documentId, k) && b == a.(documentId := b.documentId) {
      PartDiffers(a.documentId, a.chunkId, a.scoreBits, b.documentId, k);
      at := k;
    } else if DifferOnlyAt(a.chunkId, b.chunkId, k) && b == a.(chunkId := b.chunkId) {
      PartDiffers(a.documentId, a.chunkId, a.scoreBits, b.chunkId, k);
      at := |a.documentId| + k;
    } else {
      PartDiffers(a.documentId, a.chunkId, a.scoreBits, b.scoreBits, k);
      at := |a.documentId + a.chunkId| + k;
    }
  }

  /** Every part of every hit reaches the digest: a changed byte in any of them changes it. */
  lemma EveryPartCounts(hits: seq<Hit>, h: nat, b: Hit, k: nat)
    requires h < |hits| && OneByteOff(hits[h], b, k)
    ensures Fnv(HitBytes(hits)) != Fnv(HitBytes(hits[h := b]))
  {
    var other := hits[h := b];
    HitBytesSplit(hits, h);
    HitBytesSplit(other, h);
    assert other[..h] == hits[..h] && other[h + 1..] == hits[h + 1..];
    var at := HitDiffers(hits[h], b, k);
    DifferInContext(HitBytes(hits[..h]), hits[h].Bytes(), b.Bytes(), HitBytes(hits[h + 1..]), at);
    FnvDetectsOneByte(HitBytes(hits), HitBytes(other), |HitBytes(hits[..h])| + at);
  }
}

/**
 Content digests: incremental hashing over short reads, the hex form of a digest, and the
 content-addressed blob names built from it.  The hash itself is known only as an
 incremental function with 32-byte results.
 */
module Digests {
  import opened Prelude
  import opened Checksums

  type Data = seq<Byte>

  // ----- Hashing -----

  /** A hasher: the state after some bytes, absorbing more, and the final digest. */
  datatype Sha = Sha(absorbed: Data -> nat, update: (nat, Data) -> nat, finish: nat -> Data) {
    ghost predicate Incremental() {
      && (forall a, b :: update(absorbed(a), b) == absorbed(a + b))
      && (forall s :: |finish(s)| == 32)
    }

    /** The buffered hash. */
    function HexOf(data: Data): string {
      Hex(finish(absorbed(data)))
    }
  }

  function Concat(chunks: seq<Data>): Data {
    if chunks == [] then [] else Concat(chunks[..|chunks| - 1]) + chunks[|chunks| - 1]
  }

  /**
   A reader, as the sizes its successive reads return: every read before the first empty one
   delivers some bytes, and the first empty one is the end of the stream.
   */
  function Delivered(bursts: seq<Data>): (chunks: seq<Data>)
    ensures forall i | 0 <= i < |chunks| :: chunks[i] != []
  {
    if bursts == [] || bursts[0] == [] then [] else [bursts[0]] + Delivered(bursts[1..])
  }

  lemma {:induction false} DeliveredPrefix(bursts: seq<Data>, n: nat)
    requires n <= |bursts| && (forall i | 0 <= i < n :: bursts[i] != []) && (n < |bursts| ==> bursts[n] == [])
    ensures Delivered(bursts) == bursts[..n]
  {
    if n > 0 {
      DeliveredPrefix(bursts[1..], n - 1);
      assert bursts[..n] == [bursts[0]] + bursts[1..][..n - 1];
    }
  }

  /** However the reads fall, the streamed hash is the buffered one and the count is the length. */
  method HashReader(sha: Sha, bursts: seq<Data>) returns (digest: string, total: nat)
    requires sha.Incremental()
    ensures digest == sha.HexOf(Concat(Delivered(bursts)))
    ensures total == |Concat(Delivered(bursts))|
  {
    var hasher, i := sha.absorbed([]), 0;
    total := 0;
    while i < |bursts| && bursts[i] != []
      invariant i <= |bursts| && forall j | 0 <= j < i :: bursts[j] != []
      invariant hasher == sha.absorbed(Concat(bursts[..i]))
      invariant total == |Concat(bursts[..i])|
    {
      assert bursts[..i + 1][..i] == bursts[..i];
      hasher := sha.update(hasher, bursts[i]);
      total := total + |bursts[i]|;
      i := i + 1;
    }
    DeliveredPrefix(bursts, i);
    digest := Hex(sha.finish(hasher));
  }

  // ----- Hex -----

  const DIGITS: string := "0123456789abcdef"

  function HexByte(b: Byte): (h: string)
    ensures |h| == 2 && h[0] in DIGITS && h[1] in DIGITS
  {
    [DIGITS[b / 16], DIGITS[b % 16]]
  }

  function Hex(data: Data): (h: string)
    ensures |h| == 2 * |data|
  {
    if data == [] then "" else HexByte(data[0]) + Hex(data[1..])
  }

  lemma DigitsDistinct(i: nat, j: nat)
    requires i < 16 && j < 16 && DIGITS[i] == DIGITS[j]
    ensures i == j
  {
  }

  lemma HexByteInjective(a: Byte, b: Byte)
    requires HexByte(a) == HexByte(b)
    ensures a == b
  {
    assert HexByte(a)[0] == HexByte(b)[0] && HexByte(a)[1] == HexByte(b)[1];
    DigitsDistinct(a / 16, b / 16);
    DigitsDistinct(a % 16, b % 16);
  }

  lemma PairSplit(x: string, y: string, s: string, t: string)
    requires |x| == |y| == 2 && x + s == y + t
    ensures x == y && s == t
  {
    assert x == (x + s)[..2] && y == (y + t)[..2] && s == (x + s)[2..] && t == (y + t)[2..];
  }

  lemma {:induction false} HexInjective(a: Data, b: Data)
    requires Hex(a) == Hex(b)
    ensures a == b
  {
    assert |a| == |b|;
    if a != [] {
      PairSplit(HexByte(a[0]), HexByte(b[0]), Hex(a[1..]), Hex(b[1..]));
      HexByteInjective(a[0], b[0]);
      HexInjective(a[1..], b[1..]);
      assert a == [a[0]] + a[1..] && b == [b[0]] + b[1..];
    }
  }

  predicate ValidDigest(s: string) {
    |s| == 64 && forall i | 0 <= i < |s| :: s[i] in DIGITS
  }

  lemma {:induction false} HexChars(data: Data, i: nat)
    requires i < |Hex(data)|
    ensures Hex(data)[i] in DIGITS
  {
    if i >= 2 { HexChars(data[1..], i - 2); }
  }

  /** The hex of any digest names a valid blob. */
  lemma HexIsValid(sha: Sha, data: Data)
    requires sha.Incremental()
    ensures ValidDigest(sha.HexOf(data))
  {
    var d := sha.finish(sha.absorbed(data));
    forall i | 0 <= i < |Hex(d)| ensures Hex(d)[i] in DIGITS { HexChars(d, i); }
  }

  // ----- Blob names -----

  const BLOB_PREFIX: string := "blobs/sha256"

  datatype NameError = Malformed

  function BlobName(sha256: string): Result<string, NameError> {
    if ValidDigest(sha256) then Ok(BLOB_PREFIX + "/" + sha256[..2] + "/" + sha256) else Err(Malformed)
  }

  function StripPrefix(s: string, prefix: string): (r: Option<string>)
    ensures r.Some? ==> s == prefix + r.value
    ensures r.None? ==> !(prefix <= s)
  {
    if prefix <= s then Some(s[|prefix|..]) else None
  }

  /** Position of the first slash. */
  function FirstSlash(s: string): (k: Option<nat>)
    ensures k.Some? ==> k.value < |s| && s[k.value] == '/' && '/' !in s[..k.value]
    ensures k.None? ==> '/' !in s
  {
    if s == "" then None
    else if s[0] == '/' then Some(0)
    else
      var k := FirstSlash(s[1..]);
      if k.None? then None else
        assert s[..k.value + 1] == [s[0]] + s[1..][..k.value];
        Some(k.value + 1)
  }

  /** The part below the prefix: fan-out directory, slash, digest. */
  function ParseFanOut(below: string): Result<string, NameError> {
    var slash := FirstSlash(below);
    if slash.None? then Err(Malformed)
    else
      var fanOut, sha256 := below[..slash.value], below[slash.value + 1..];
      if !ValidDigest(sha256) || fanOut != sha256[..2] then Err(Malformed) else Ok(sha256)
  }

  function ParseBlobName(name: string): Result<string, NameError> {
    var rest := StripPrefix(name, BLOB_PREFIX);
    if rest.None? then Err(Malformed)
    else
      var below := StripPrefix(rest.value, "/");
      if below.None? then Err(Malformed) else ParseFanOut(below.value)
  }

  lemma StripAppended(prefix: string, rest: string)
    ensures StripPrefix(prefix + rest, prefix) == Some(rest)
  {
    assert prefix <= prefix + rest;
    assert (prefix + rest)[|prefix|..] == rest;
  }

  lemma FirstSlashAfter(front: string, rest: string)
    requires '/' !in front
    ensures FirstSlash(front + "/" + rest) == Some(|front|)
  {
    var s := front + "/" + rest;
    var k := FirstSlash(s);
    assert s[|front|] == '/';
    assert forall i | 0 <= i < |front| :: s[i] == front[i];
    assert k.Some?;
    assert k.value >= |front|;
    assert forall i | 0 <= i < k.value :: s[i] in s[..k.value];
  }

  lemma NoSlash(sha256: string)
    requires ValidDigest(sha256)
    ensures '/' !in sha256[..2]
  {
    assert sha256[0] in DIGITS && sha256[1] in DIGITS;
    assert '/' !in DIGITS;
  }

  lemma FanOutInverts(sha256: string)
    requires ValidDigest(sha256)
    ensures ParseFanOut(sha256[..2] + "/" + sha256) == Ok(sha256)
  {
    var fan := sha256[..2];
    var below := fan + "/" + sha256;
    NoSlash(sha256);
    FirstSlashAfter(fan, sha256);
    assert below[..2] == fan && below[3..] == sha256;
  }

  lemma ParsedFanOut(below: string)
    requires ParseFanOut(below).Ok?
    ensures var sha256 := ParseFanOut(below).value; ValidDigest(sha256) && below == sha256[..2] + "/" + sha256
  {
    var k := FirstSlash(below).value;
    assert below == below[..k] + "/" + below[k + 1..];
  }

  lemma NameShape(sha256: string)
    requires ValidDigest(sha256)
    ensures BlobName(sha256) == Ok(BLOB_PREFIX + ("/" + (sha256[..2] + "/" + sha256)))
  {
    var fan, prefix := sha256[..2], BLOB_PREFIX;
    assert prefix + "/" + fan + "/" + sha256 == prefix + ("/" + (fan + "/" + sha256));
  }

  lemma ParseInvertsName(sha256: string)
    requires ValidDigest(sha256)
    ensures ParseBlobName(BlobName(sha256).value) == Ok(sha256)
  {
    var below := sha256[..2] + "/" + sha256;
    NameShape(sha256);
    StripAppended(BLOB_PREFIX, "/" + below);
    StripAppended("/", below);
    FanOutInverts(sha256);
  }

  lemma ParsedIsNamed(name: string)
    requires ParseBlobName(name).Ok?
    ensures BlobName(ParseBlobName(name).value) == Ok(name)
  {
    var below := StripPrefix(StripPrefix(name, BLOB_PREFIX).value, "/").value;
    ParsedFanOut(below);
    NameShape(ParseFanOut(below).value);
  }

  /** The two are mutual inverses: parsing accepts exactly the names a valid digest gets. */
  lemma BlobNamesExact(name: string, sha256: string)
    ensures ParseBlobName(name) == Ok(sha256) <==> BlobName(sha256) == Ok(name)
  {
    if BlobName(sha256).Ok? { ParseInvertsName(sha256); }
    if ParseBlobName(name).Ok? { ParsedIsNamed(name); }
  }
}

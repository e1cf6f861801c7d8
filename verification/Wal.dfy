/**
 The write-ahead log's byte format: a fixed header followed by CRC-framed records.  The
 scan tolerates what a crash leaves at the tail and refuses interior corruption.
 */
module Wal {
  import opened Prelude
  import opened Checksums
  import opened Framing

  /** "EELWAL01" followed by the big-endian schema version 1. */
  const HEADER: seq<Byte> := [0x45, 0x45, 0x4C, 0x57, 0x41, 0x4C, 0x30, 0x31, 0, 0, 0, 1]
  const HEADER_LEN: nat := 12
  const NEWLINE: Byte := 10
  const LSN_KEY: string := "lsn"

  // ----- Records -----

  /** A JSON value, of which the format itself only ever inspects unsigned integers. */
  datatype Json = UInt(n: nat) | Other(text: string)

  type Object = map<string, Json>

  datatype Record = Record(op: seq<Byte>, payload: Object, lsn: Option<nat>)

  /** The JSON serialiser, assumed to read back what it wrote, and the frame checksum. */
  datatype Codec = Codec(encode: Object -> seq<Byte>, decode: seq<Byte> -> Option<Object>, crc: seq<Byte> -> Word32) {
    ghost predicate Sound() {
      forall o :: decode(encode(o)) == Some(o)
    }

    ghost predicate DetectsOneByte() {
      forall s: seq<Byte>, t: seq<Byte>, k: nat :: DifferOnlyAt(s, t, k) ==> crc(s) != crc(t)
    }
  }

  /** The checksum the log uses notices every single-byte change. */
  lemma RealChecksum(encode: Object -> seq<Byte>, decode: seq<Byte> -> Option<Object>)
    ensures Codec(encode, decode, Crc).DetectsOneByte()
  {
    forall s: seq<Byte>, t: seq<Byte>, k: nat | DifferOnlyAt(s, t, k) ensures Crc(s) != Crc(t) {
      CrcDetectsOneByte(s, t, k);
    }
  }

  datatype WalError = Corrupt(message: string)

  type WalResult<T> = Result<T, WalError>

  /** Big-endian digits in base 256. */
  function BigEndian(n: nat, width: nat): (r: seq<Byte>)
    ensures |r| == width
    decreases width, n
  {
    if width == 0 then [] else BigEndian(n / 256, width - 1) + [n % 256]
  }

  function FromBigEndian(b: seq<Byte>): nat {
    if b == [] then 0 else FromBigEndian(b[..|b| - 1]) * 256 + b[|b| - 1]
  }

  lemma {:induction false} BigEndianRoundTrip(n: nat, width: nat)
    requires n < Pow2(8 * width)
    ensures FromBigEndian(BigEndian(n, width)) == n
  {
    if width > 0 {
      Pow2Octet(8 * (width - 1));
      BigEndianRoundTrip(n / 256, width - 1);
      assert BigEndian(n, width)[..width - 1] == BigEndian(n / 256, width - 1);
    }
  }

  lemma {:induction false} FromBigEndianInjective(a: seq<Byte>, b: seq<Byte>)
    requires |a| == |b|
    requires FromBigEndian(a) == FromBigEndian(b)
    ensures a == b
  {
    if a != [] {
      var n := |a| - 1;
      FromBigEndianInjective(a[..n], b[..n]);
      assert a == a[..n] + [a[n]] && b == b[..n] + [b[n]];
    }
  }

  function Be32(n: Word32): (r: seq<Byte>)
    ensures |r| == 4
  {
    BigEndian(n, 4)
  }

  function FromBe32(b: seq<Byte>): nat
    requires |b| == 4
  {
    FromBigEndian(b)
  }

  lemma Be32RoundTrip(n: Word32)
    ensures FromBe32(Be32(n)) == n
  {
    WordSizes();
    BigEndianRoundTrip(n, 4);
  }

  function EncodeBody(c: Codec, r: Record): WalResult<seq<Byte>> {
    if r.op == [] || NEWLINE in r.op then Err(Corrupt("WAL record op must be non-empty and newline-free"))
    else if r.lsn.None? && LSN_KEY in r.payload then
      Err(Corrupt("unstamped WAL record payload must not carry a root-level lsn key"))
    else
      var stamped := if r.lsn.Some? then r.payload[LSN_KEY := UInt(r.lsn.value)] else r.payload;
      Ok(r.op + [NEWLINE] + c.encode(stamped))
  }

  function FindNewline(body: seq<Byte>): (k: Option<nat>)
    ensures k.Some? ==> k.value < |body| && body[k.value] == NEWLINE && NEWLINE !in body[..k.value]
    ensures k.None? ==> NEWLINE !in body
  {
    if body == [] then None
    else if body[0] == NEWLINE then Some(0)
    else
      var k := FindNewline(body[1..]);
      if k.None? then None else
        assert body[..k.value + 1] == [body[0]] + body[1..][..k.value];
        Some(k.value + 1)
  }

  function DecodeBody(c: Codec, body: seq<Byte>): WalResult<Record> {
    var newline := FindNewline(body);
    if newline.None? then Err(Corrupt("WAL record body is missing its op header"))
    else
      var payload := c.decode(body[newline.value + 1..]);
      if payload.None? then Err(Corrupt("WAL record payload must be a JSON object"))
      else
        var o := payload.value;
        var lsn := if LSN_KEY in o && o[LSN_KEY].UInt? then Some(o[LSN_KEY].n) else None;
        Ok(Record(body[..newline.value], o - {LSN_KEY}, lsn))
  }

  /** The operations that can be logged: named, and without a line break in the name. */
  predicate Loggable(op: seq<Byte>) {
    op != [] && NEWLINE !in op
  }

  /**
   Exactly the records with a loggable operation are encoded, unless they are unstamped and carry a
   root-level `lsn` key.  A record comes back as written exactly when its own payload has no such
   key; a stamped record that carries one is accepted and loses it.
   */
  lemma BodyRoundTrip(c: Codec, r: Record)
    requires c.Sound()
    ensures EncodeBody(c, r).Ok? <==> Loggable(r.op) && (r.lsn.Some? || LSN_KEY !in r.payload)
    ensures EncodeBody(c, r).Ok? ==>
              && DecodeBody(c, EncodeBody(c, r).value).Ok?
              && (DecodeBody(c, EncodeBody(c, r).value) == Ok(r) <==> LSN_KEY !in r.payload)
  {
    if EncodeBody(c, r).Ok? { EncodedComesBack(c, r); }
  }

  lemma EncodedComesBack(c: Codec, r: Record)
    requires c.Sound()
    requires EncodeBody(c, r).Ok?
    ensures DecodeBody(c, EncodeBody(c, r).value).Ok?
    ensures DecodeBody(c, EncodeBody(c, r).value) == Ok(r) <==> LSN_KEY !in r.payload
  {
    var stamped := if r.lsn.Some? then r.payload[LSN_KEY := UInt(r.lsn.value)] else r.payload;
    var body := r.op + [NEWLINE] + c.encode(stamped);
    var k := FindNewline(body);
    assert body[|r.op|] == NEWLINE;
    assert k.Some?;
    assert forall i | 0 <= i < |r.op| :: body[i] == r.op[i];
    assert k.value == |r.op|;
    assert body[..k.value] == r.op && body[k.value + 1..] == c.encode(stamped);
    if LSN_KEY !in r.payload { assert stamped - {LSN_KEY} == r.payload; }
  }

  // ----- Frames -----

  /** `[u32 length][body][u32 crc]`; the cast to u32 truncates a body of 4 GiB or more. */
  function FrameOf(c: Codec, body: seq<Byte>): (f: seq<Byte>)
    ensures |f| == |body| + 8
  {
    var head := Be32(|body| % TWO_32) + body;
    head + Be32(c.crc(head))
  }

  /** Records that encode and are read back unchanged. */
  predicate Encodable(c: Codec, r: Record) {
    EncodeBody(c, r).Ok? && |EncodeBody(c, r).value| < TWO_32 && LSN_KEY !in r.payload
  }

  function Frame(c: Codec, r: Record): (f: seq<Byte>)
    requires Encodable(c, r)
    ensures |f| >= 10
  {
    FrameOf(c, EncodeBody(c, r).value)
  }

  predicate AllEncodable(c: Codec, rs: seq<Record>) {
    forall i | 0 <= i < |rs| :: Encodable(c, rs[i])
  }

  function FrameList(c: Codec, rs: seq<Record>): (fs: seq<seq<Byte>>)
    requires AllEncodable(c, rs)
    ensures |fs| == |rs|
  {
    seq(|rs|, i requires 0 <= i < |rs| => Frame(c, rs[i]))
  }

  function Frames(c: Codec, rs: seq<Record>): seq<Byte>
    requires AllEncodable(c, rs)
  {
    Joined(FrameList(c, rs))
  }

  /** The bytes of a log holding exactly these records. */
  function Image(c: Codec, rs: seq<Record>): (d: seq<Byte>)
    requires AllEncodable(c, rs)
    ensures |d| >= HEADER_LEN
  {
    HEADER + Frames(c, rs)
  }

  lemma FrameListAppend(c: Codec, rs: seq<Record>, r: Record)
    requires AllEncodable(c, rs) && Encodable(c, r)
    ensures AllEncodable(c, rs + [r])
    ensures FrameList(c, rs + [r]) == FrameList(c, rs) + [Frame(c, r)]
  {
  }

  lemma ImageAppend(c: Codec, rs: seq<Record>, r: Record)
    requires AllEncodable(c, rs) && Encodable(c, r)
    ensures AllEncodable(c, rs + [r])
    ensures Image(c, rs + [r]) == Image(c, rs) + Frame(c, r)
  {
    FrameListAppend(c, rs, r);
    JoinedAppend(FrameList(c, rs), Frame(c, r));
    HeaderAppend(Frames(c, rs), Frame(c, r));
  }

  lemma HeaderAppend(frames: seq<Byte>, frame: seq<Byte>)
    ensures HEADER + (frames + frame) == HEADER + frames + frame
  {
  }

  // ----- Scanning -----

  datatype Checked = Short | BadCrc(last: bool) | Good(body: seq<Byte>)

  /** Checks length and checksum of the frame at the front. */
  function CheckFrame(c: Codec, d: seq<Byte>): (f: Checked)
    ensures f.Good? ==> |f.body| + 8 <= |d|
  {
    if |d| < 4 then Short
    else
      var frameEnd := 4 + FromBe32(d[..4]);
      var crcEnd := frameEnd + 4;
      if crcEnd > |d| then Short
      else if c.crc(d[..frameEnd]) != FromBe32(d[frameEnd..crcEnd]) then BadCrc(crcEnd == |d|)
      else Good(d[4..frameEnd])
  }

  /** A torn or checksum-failing trailing frame ends the log; any other bad frame is an error. */
  function ReadFront(c: Codec, d: seq<Byte>): (f: Front<Record, WalError>)
    ensures f.One? ==> 0 < f.size <= |d|
  {
    match CheckFrame(c, d)
    case Short => Torn
    case BadCrc(last) => if last then Torn else Bad(Corrupt("WAL record failed CRC32 (interior corruption)"))
    case Good(body) =>
      var record := DecodeBody(c, body);
      if record.Err? then Bad(record.error) else One(record.value, |body| + 8)
  }

  function Reader(c: Codec): seq<Byte> -> Front<Record, WalError> {
    d => ReadFront(c, d)
  }

  const REFUSAL: WalError := Corrupt("short header, bad magic or unsupported WAL schema version")

  function ScanBytes(c: Codec, data: seq<Byte>): WalResult<Scan<Record>> {
    ScanWith(Reader(c), HEADER, REFUSAL, data)
  }

  /** The crash-tolerant file reader: an absent or sub-header file is an empty log. */
  function ReadFile(c: Codec, file: Option<seq<Byte>>): WalResult<Scan<Record>> {
    if file.None? then Ok(Scan([], 0, 0))
    else if |file.value| < HEADER_LEN then Ok(Scan([], 0, |file.value|))
    else ScanBytes(c, file.value)
  }

  method ScanRecords(c: Codec, data: seq<Byte>) returns (r: WalResult<Scan<Record>>)
    ensures r == ScanBytes(c, data)
  {
    r := ScanStream(Reader(c), HEADER, REFUSAL, data);
  }

  lemma CheckGoodFrame(c: Codec, body: seq<Byte>, rest: seq<Byte>)
    requires |body| < TWO_32
    ensures CheckFrame(c, FrameOf(c, body) + rest) == Good(body)
  {
    assert |body| % TWO_32 == |body|;
    var head := Be32(|body|) + body;
    var sum := Be32(c.crc(head));
    var d := head + sum + rest;
    assert d[..4] == Be32(|body|);
    Be32RoundTrip(|body|);
    assert d[..4 + |body|] == head;
    assert d[4 + |body|..8 + |body|] == sum;
    Be32RoundTrip(c.crc(head));
    assert d[4..4 + |body|] == body;
  }

  /** A frame reads back if and only if its body is below 4 GiB; a longer one declares only its length modulo 2^32. */
  lemma FrameReadsBack(c: Codec, body: seq<Byte>, rest: seq<Byte>)
    ensures CheckFrame(c, FrameOf(c, body) + rest) == Good(body) <==> |body| < TWO_32
  {
    if |body| < TWO_32 {
      CheckGoodFrame(c, body, rest);
    } else {
      var d, n := FrameOf(c, body) + rest, |body| % TWO_32;
      assert d[..4] == Be32(n);
      Be32RoundTrip(n);
      assert CheckFrame(c, d).Good? ==> |CheckFrame(c, d).body| == n;
    }
  }

  lemma ReadGoodFrame(c: Codec, r: Record, rest: seq<Byte>)
    requires c.Sound() && Encodable(c, r)
    ensures ReadFront(c, Frame(c, r) + rest) == One(r, |Frame(c, r)|)
  {
    CheckGoodFrame(c, EncodeBody(c, r).value, rest);
    BodyRoundTrip(c, r);
  }

  lemma {:induction false} FramesChain(c: Codec, rs: seq<Record>, tail: seq<Byte>)
    requires c.Sound() && AllEncodable(c, rs)
    ensures Chain(Reader(c), FrameList(c, rs), rs, tail)
  {
    if rs != [] {
      FramesChain(c, rs[1..], tail);
      var fs := FrameList(c, rs);
      assert fs[1..] == FrameList(c, rs[1..]);
      assert Joined(fs) + tail == Frame(c, rs[0]) + (Joined(fs[1..]) + tail);
      ReadGoodFrame(c, rs[0], Joined(fs[1..]) + tail);
    }
  }

  // ----- What a crash leaves behind -----

  /** A possibly empty, incomplete beginning of some record's frame. */
  ghost predicate TornTail(c: Codec, t: seq<Byte>) {
    t == [] || exists r :: Encodable(c, r) && t < Frame(c, r)
  }

  lemma CheckTornFrame(c: Codec, body: seq<Byte>, t: seq<Byte>)
    requires |body| < TWO_32 && t < FrameOf(c, body)
    ensures CheckFrame(c, t) == Short
  {
    if |t| >= 4 {
      assert t[..4] == FrameOf(c, body)[..4] == Be32(|body|);
      Be32RoundTrip(|body|);
    }
  }

  lemma TornReadsTorn(c: Codec, t: seq<Byte>)
    requires TornTail(c, t) && t != []
    ensures ReadFront(c, t) == Torn
  {
    var r :| Encodable(c, r) && t < Frame(c, r);
    CheckTornFrame(c, EncodeBody(c, r).value, t);
  }

  lemma ScanFramesThen(c: Codec, rs: seq<Record>, tail: seq<Byte>, data: seq<Byte>)
    requires c.Sound() && AllEncodable(c, rs) && data == Image(c, rs) + tail
    ensures tail == [] || ReadFront(c, tail) == Torn ==> ScanBytes(c, data) == Ok(Scan(rs, |Image(c, rs)|, |data|))
    ensures tail != [] && ReadFront(c, tail).Bad? ==> ScanBytes(c, data).Err?
  {
    FramesChain(c, rs, tail);
    ScanJoined(Reader(c), HEADER, REFUSAL, FrameList(c, rs), rs, Image(c, rs), tail, data);
  }

  /** A log of complete frames followed by a torn one reads as exactly the complete records. */
  lemma ScanWithTornTail(c: Codec, rs: seq<Record>, t: seq<Byte>)
    requires c.Sound() && AllEncodable(c, rs) && TornTail(c, t)
    ensures ScanBytes(c, Image(c, rs) + t) == Ok(Scan(rs, |Image(c, rs)|, |Image(c, rs) + t|))
  {
    if t != [] { TornReadsTorn(c, t); }
    ScanFramesThen(c, rs, t, Image(c, rs) + t);
  }

  /** How many of the records lie wholly within the first `k` bytes of their image. */
  function CompleteWithin(c: Codec, rs: seq<Record>, k: nat): (m: nat)
    requires AllEncodable(c, rs)
    ensures m <= |rs|
  {
    if k < HEADER_LEN then 0 else Whole(FrameList(c, rs), k - HEADER_LEN)
  }

  lemma FrameListTake(c: Codec, rs: seq<Record>, m: nat)
    requires AllEncodable(c, rs) && m <= |rs|
    ensures FrameList(c, rs)[..m] == FrameList(c, rs[..m])
  {
  }

  lemma LeftoverTorn(c: Codec, rs: seq<Record>, k: nat)
    requires AllEncodable(c, rs) && k <= |Frames(c, rs)|
    ensures TornTail(c, Leftover(FrameList(c, rs), k))
  {
    var fs := FrameList(c, rs);
    CutShape(fs, k);
    var m := Whole(fs, k);
    if m < |fs| { assert Encodable(c, rs[m]) && Leftover(fs, k) < Frame(c, rs[m]); }
  }

  /**
   A crash that keeps any prefix of the log loses only the records it cut into: the reader
   never errs, returns exactly the records whose frames are whole, and reports where they end.
   */
  lemma CrashPrefixRecovers(c: Codec, rs: seq<Record>, k: nat)
    requires c.Sound() && AllEncodable(c, rs) && k <= |Image(c, rs)|
    ensures var m := CompleteWithin(c, rs, k);
            ReadFile(c, Some(Image(c, rs)[..k])) ==
            Ok(if k < HEADER_LEN then Scan([], 0, k) else Scan(rs[..m], |Image(c, rs[..m])|, k))
  {
    if k >= HEADER_LEN {
      var m := CompleteWithin(c, rs, k);
      CutBehindHeader(HEADER, FrameList(c, rs), k);
      FrameListTake(c, rs, m);
      LeftoverTorn(c, rs, k - HEADER_LEN);
      ScanWithTornTail(c, rs[..m], Leftover(FrameList(c, rs), k - HEADER_LEN));
    }
  }

  // ----- Segments: complete immutable blobs -----

  function EncodeSegment(c: Codec, rs: seq<Record>): WalResult<seq<Byte>> {
    if rs == [] then Err(Corrupt("a WAL segment requires at least one record"))
    else if exists i | 0 <= i < |rs| :: EncodeBody(c, rs[i]).Err? then Err(Corrupt("a record could not be encoded"))
    else
      Ok(HEADER + Joined(seq(|rs|, i requires 0 <= i < |rs| && EncodeBody(c, rs[i]).Ok? =>
        FrameOf(c, EncodeBody(c, rs[i]).value))))
  }

  function DecodeSegment(c: Codec, data: seq<Byte>): WalResult<seq<Record>> {
    var scan := ScanBytes(c, data);
    if scan.Err? then Err(scan.error)
    else if scan.value.validLen != scan.value.totalLen then
      Err(Corrupt("WAL segment has a torn or corrupt trailing frame"))
    else if scan.value.records == [] then Err(Corrupt("WAL segment holds no records"))
    else Ok(scan.value.records)
  }

  lemma SegmentRoundTrip(c: Codec, rs: seq<Record>)
    requires c.Sound() && AllEncodable(c, rs) && rs != []
    ensures EncodeSegment(c, rs).Ok?
    ensures DecodeSegment(c, EncodeSegment(c, rs).value) == Ok(rs)
  {
    var encoded := seq(|rs|, i requires 0 <= i < |rs| && EncodeBody(c, rs[i]).Ok? =>
      FrameOf(c, EncodeBody(c, rs[i]).value));
    assert encoded == FrameList(c, rs);
    ScanWithTornTail(c, rs, []);
    assert Image(c, rs) + [] == Image(c, rs);
  }

  /** Exactly the non-empty lists of records that each encode make a segment. */
  lemma SegmentsExactly(c: Codec, rs: seq<Record>)
    ensures EncodeSegment(c, rs).Ok? <==> rs != [] && forall i | 0 <= i < |rs| :: EncodeBody(c, rs[i]).Ok?
  {
  }

  /**
   A truncated segment is refused unless the cut falls exactly on a frame boundary after the
   first record; then it decodes, silently, to fewer records.
   */
  lemma TruncatedSegment(c: Codec, rs: seq<Record>, k: nat)
    requires c.Sound() && AllEncodable(c, rs) && k <= |Image(c, rs)|
    ensures var m := CompleteWithin(c, rs, k);
            var r := DecodeSegment(c, Image(c, rs)[..k]);
            (r.Ok? <==> m > 0 && k == |Image(c, rs[..m])|) && (r.Ok? ==> r.value == rs[..m])
  {
    CrashPrefixRecovers(c, rs, k);
  }

  // ----- Single-byte corruption -----

  /** A change in one byte falls in the first part or in the second. */
  lemma DifferInPart(a: seq<Byte>, b: seq<Byte>, f: seq<Byte>, p: nat)
    requires DifferOnlyAt(a + b, f, p)
    ensures |f| == |a| + |b|
    ensures p < |a| ==> DifferOnlyAt(a, f[..|a|], p) && f[|a|..] == b
    ensures p >= |a| ==> f[..|a|] == a && DifferOnlyAt(b, f[|a|..], p - |a|)
  {
    var good, n := a + b, |a|;
    assert forall i | 0 <= i < |f| && i != p :: f[i] == good[i] by {
      forall i | 0 <= i < |f| && i != p ensures f[i] == good[i] {
        if i < p {
          assert f[..p][i] == good[..p][i];
        } else {
          assert f[p + 1..][i - p - 1] == good[p + 1..][i - p - 1];
        }
      }
    }
  }

  /** A sum with one byte changed is another number. */
  lemma SumChanges(sum: seq<Byte>, f: seq<Byte>, p: nat)
    requires |sum| == 4 && DifferOnlyAt(sum, f, p)
    ensures |f| == 4 && FromBe32(f) != FromBe32(sum)
  {
    assert f[p] != sum[p];
    if FromBe32(f) == FromBe32(sum) { FromBigEndianInjective(f, sum); }
  }

  /** A frame whose length is right and whose head and sum disagree fails its check. */
  lemma CheckMismatch(c: Codec, n: nat, head: seq<Byte>, sum: seq<Byte>, rest: seq<Byte>)
    requires n < TWO_32 && |head| == 4 + n && |sum| == 4 && head[..4] == Be32(n) && c.crc(head) != FromBe32(sum)
    ensures CheckFrame(c, head + sum + rest) == BadCrc(rest == [])
  {
    var d := head + sum + rest;
    assert d[..4] == head[..4];
    Be32RoundTrip(n);
    assert d[..4 + n] == head && d[4 + n..8 + n] == sum;
  }

  lemma CheckCorruptedFrame(c: Codec, body: seq<Byte>, f: seq<Byte>, p: nat, rest: seq<Byte>)
    requires c.DetectsOneByte()
    requires |body| < TWO_32
    requires DifferOnlyAt(FrameOf(c, body), f, p) && 4 <= p
    ensures CheckFrame(c, f + rest) == BadCrc(rest == [])
  {
    FrameParts(c, body);
    var head := Be32(|body|) + body;
    CorruptedParts(c, head, f, p);
    CheckParts(c, |body|, f, rest);
  }

  /** A frame of a body below 4 GiB. */
  lemma FrameParts(c: Codec, body: seq<Byte>)
    requires |body| < TWO_32
    ensures var head := Be32(|body|) + body; FrameOf(c, body) == head + Be32(c.crc(head)) && head[..4] == Be32(|body|)
  {
    assert |body| % TWO_32 == |body|;
  }

  lemma CheckParts(c: Codec, n: nat, f: seq<Byte>, rest: seq<Byte>)
    requires n < TWO_32 && |f| == n + 8 && f[..4 + n][..4] == Be32(n) && c.crc(f[..4 + n]) != FromBe32(f[4 + n..])
    ensures CheckFrame(c, f + rest) == BadCrc(rest == [])
  {
    assert f == f[..4 + n] + f[4 + n..];
    CheckMismatch(c, n, f[..4 + n], f[4 + n..], rest);
  }

  lemma CorruptedParts(c: Codec, head: seq<Byte>, f: seq<Byte>, p: nat)
    requires c.DetectsOneByte() && |head| >= 4 && 4 <= p && DifferOnlyAt(head + Be32(c.crc(head)), f, p)
    ensures |f| == |head| + 4 && f[..|head|][..4] == head[..4] && c.crc(f[..|head|]) != FromBe32(f[|head|..])
  {
    var sum, n := Be32(c.crc(head)), |head|;
    Be32RoundTrip(c.crc(head));
    DifferInPart(head, sum, f, p);
    if p < n {
      assert f[..n][..4] == f[..n][..p][..4] == head[..p][..4];
    } else {
      SumChanges(sum, f[n..], p - n);
    }
  }

  /** Where the frame at the front says it ends. */
  function DeclaredEnd(d: seq<Byte>): nat
    requires |d| >= 4
  {
    8 + FromBe32(d[..4])
  }

  /** The bytes a frame delimits happen to carry their own checksum. */
  predicate SelfConsistent(c: Codec, d: seq<Byte>)
    requires |d| >= 4
  {
    var end := DeclaredEnd(d);
    end <= |d| && c.crc(d[..end - 4]) == FromBe32(d[end - 4..end])
  }

  /** Without that coincidence, the declared end alone decides how the front reads. */
  lemma CheckByDeclaredEnd(c: Codec, d: seq<Byte>)
    requires |d| >= 4 && !SelfConsistent(c, d)
    ensures ReadFront(c, d) ==
            if DeclaredEnd(d) < |d| then Bad(Corrupt("WAL record failed CRC32 (interior corruption)")) else Torn
  {
  }

  /** Behind complete frames: refused when the bad frame ends early, dropped with all that follows otherwise. */
  lemma ScanBadFront(c: Codec, before: seq<Record>, d: seq<Byte>, data: seq<Byte>)
    requires c.Sound() && AllEncodable(c, before) && |d| >= 4 && !SelfConsistent(c, d) && data == Image(c, before) + d
    ensures if DeclaredEnd(d) < |d| then ScanBytes(c, data).Err?
            else ScanBytes(c, data) == Ok(Scan(before, |Image(c, before)|, |data|))
  {
    CheckByDeclaredEnd(c, d);
    ScanFramesThen(c, before, d, data);
  }

  lemma BodyChangeKeepsEnd(c: Codec, body: seq<Byte>, f: seq<Byte>, p: nat, after: seq<Byte>)
    requires c.DetectsOneByte() && |body| < TWO_32
    requires DifferOnlyAt(FrameOf(c, body), f, p) && 4 <= p
    ensures DeclaredEnd(f + after) == |f| && !SelfConsistent(c, f + after)
  {
    assert |body| % TWO_32 == |body|;
    var good := FrameOf(c, body);
    assert (f + after)[..4] == f[..p][..4] == good[..p][..4] == Be32(|body|);
    Be32RoundTrip(|body|);
    CheckCorruptedFrame(c, body, f, p, after);
  }

  lemma LengthChangeMovesEnd(c: Codec, body: seq<Byte>, f: seq<Byte>, p: nat, after: seq<Byte>)
    requires |body| < TWO_32 && DifferOnlyAt(FrameOf(c, body), f, p) && p < 4
    ensures DeclaredEnd(f + after) != |f|
  {
    assert |body| % TWO_32 == |body|;
    var good := FrameOf(c, body);
    assert good[..4] == Be32(|body|) && (f + after)[..4] == f[..4];
    Be32RoundTrip(|body|);
    assert f[..4][p] != good[..4][p];
    if FromBe32(f[..4]) == FromBe32(good[..4]) { FromBigEndianInjective(f[..4], good[..4]); }
  }

  /**
   Changing any one byte of a frame.  Where the frame then says it ends decides: before the end
   of the file the log is refused, otherwise this record and everything after it are dropped
   without an error.  A change behind the length bytes leaves the declared end in place and never
   passes the checksum; a changed length moves the end.
   */
  lemma OneByteCorruption(c: Codec, before: seq<Record>, r: Record, after: seq<Byte>, f: seq<Byte>, p: nat)
    requires c.Sound() && c.DetectsOneByte() && AllEncodable(c, before) && Encodable(c, r)
    requires DifferOnlyAt(Frame(c, r), f, p)
    ensures var d := f + after;
            var scan := ScanBytes(c, Image(c, before) + f + after);
            && (4 <= p ==> DeclaredEnd(d) == |f| && !SelfConsistent(c, d))
            && (p < 4 ==> DeclaredEnd(d) != |f|)
            && (!SelfConsistent(c, d) ==>
                  if DeclaredEnd(d) < |d| then scan.Err?
                  else scan == Ok(Scan(before, |Image(c, before)|, |Image(c, before)| + |d|)))
  {
    var body, d := EncodeBody(c, r).value, f + after;
    if 4 <= p { BodyChangeKeepsEnd(c, body, f, p, after); } else { LengthChangeMovesEnd(c, body, f, p, after); }
    assert Image(c, before) + f + after == Image(c, before) + d;
    if !SelfConsistent(c, d) { ScanBadFront(c, before, d, Image(c, before) + d); }
  }

  lemma TopByteOverruns(b: seq<Byte>)
    requires |b| == 4 && b[0] == 255
    ensures FromBe32(b) >= 255 * 256 * 256 * 256
  {
    var b3, b2, b1 := b[..3], b[..2], b[..1];
    assert b3[..2] == b2 && b2[..1] == b1 && b1[..0] == [];
    assert FromBigEndian(b1) == 255;
    assert FromBigEndian(b2) >= 255 * 256;
    assert FromBigEndian(b3) >= 255 * 256 * 256;
  }

  lemma OverrunIsShort(c: Codec, d: seq<Byte>)
    requires 4 <= |d| < 255 * 256 * 256 * 256 && d[0] == 255
    ensures ReadFront(c, d) == Torn
  {
    assert d[..4][0] == 255;
    TopByteOverruns(d[..4]);
  }

  lemma ShortEndsLog(c: Codec, before: seq<Record>, d: seq<Byte>, data: seq<Byte>)
    requires c.Sound() && AllEncodable(c, before) && ReadFront(c, d) == Torn && data == Image(c, before) + d
    ensures ScanBytes(c, data) == Ok(Scan(before, |Image(c, before)|, |data|))
  {
    ScanFramesThen(c, before, d, data);
  }

  lemma Regroup(a: seq<Byte>, b: seq<Byte>, c: seq<Byte>)
    ensures a + b + c == a + (b + c)
  {
  }

  lemma OverrunEndsLog(c: Codec, before: seq<Record>, image: seq<Byte>, f: seq<Byte>, rest: seq<Byte>)
    requires c.Sound() && AllEncodable(c, before) && image == Image(c, before)
    requires |f| >= 4 && f[0] == 255 && |f| + |rest| < 255 * 256 * 256 * 256
    ensures ScanBytes(c, image + f + rest) == Ok(Scan(before, |image|, |image| + |f| + |rest|))
  {
    OverrunIsShort(c, f + rest);
    Regroup(image, f, rest);
    ShortEndsLog(c, before, f + rest, image + f + rest);
  }

  /**
   An interior input the reader accepts: with the top length byte of one frame set, that record
   and every intact record behind it disappear without an error.
   */
  lemma LengthByteLosesLaterRecords(c: Codec, before: seq<Record>, r: Record, later: seq<Record>, f: seq<Byte>)
    requires c.Sound() && AllEncodable(c, before) && Encodable(c, r) && AllEncodable(c, later)
    requires f == [255] + Frame(c, r)[1..]
    requires |f| + |Frames(c, later)| < 255 * 256 * 256 * 256
    ensures ScanBytes(c, Image(c, before) + f + Frames(c, later))
            == Ok(Scan(before, |Image(c, before)|, |Image(c, before)| + |f| + |Frames(c, later)|))
  {
    OverrunEndsLog(c, before, Image(c, before), f, Frames(c, later));
  }
}

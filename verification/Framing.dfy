/**
 Reading a stream of self-delimiting frames from the front, independently of how one frame
 is encoded: concatenated frames read back as their records, and a cut stream reads back as
 the records of the frames the cut spared.
 */
module Framing {
  import opened Prelude

  /** What a reader finds at the front of a non-empty byte string. */
  datatype Front<+R, +E> = Torn | Bad(error: E) | One(record: R, size: nat)

  /** Records read from the front of a byte string and how many bytes they span. */
  datatype Parsed<+R> = Parsed(records: seq<R>, used: nat)

  function Parse<B, R, E>(front: seq<B> -> Front<R, E>, d: seq<B>): (r: Result<Parsed<R>, E>)
    ensures r.Ok? ==> r.value.used <= |d|
    decreases |d|
  {
    if d == [] then Ok(Parsed([], 0))
    else
      match front(d)
      case Torn => Ok(Parsed([], 0))
      case Bad(error) => Err(error)
      case One(record, size) =>
        if 0 < size <= |d| then Prepend([record], size, Parse(front, d[size..])) else Ok(Parsed([], 0))
  }

  function Prepend<R, E>(rs: seq<R>, used: nat, rest: Result<Parsed<R>, E>): Result<Parsed<R>, E> {
    if rest.Err? then rest else Ok(Parsed(rs + rest.value.records, used + rest.value.used))
  }

  lemma PrependNothing<R, E>(rest: Result<Parsed<R>, E>)
    ensures Prepend([], 0, rest) == rest
  {
    if rest.Ok? { assert [] + rest.value.records == rest.value.records; }
  }

  lemma PrependTwice<R, E>(rs: seq<R>, m: nat, r: R, n: nat, rest: Result<Parsed<R>, E>)
    ensures Prepend(rs, m, Prepend([r], n, rest)) == Prepend(rs + [r], m + n, rest)
  {
    if rest.Ok? { assert rs + ([r] + rest.value.records) == rs + [r] + rest.value.records; }
  }

  /** Reading frame by frame at a moving offset is the recursive parse. */
  method ParseLoop<B, R, E>(front: seq<B> -> Front<R, E>, d: seq<B>) returns (r: Result<Parsed<R>, E>)
    ensures r == Parse(front, d)
  {
    var records: seq<R> := [];
    var offset := 0;
    assert d[0..] == d;
    PrependNothing(Parse(front, d));
    while offset < |d|
      invariant 0 <= offset <= |d|
      invariant Parse(front, d) == Prepend(records, offset, Parse(front, d[offset..]))
    {
      match front(d[offset..])
      case Torn => break;
      case Bad(error) => return Err(error);
      case One(record, size) =>
        if !(0 < size <= |d| - offset) { break; }
        assert d[offset..][size..] == d[offset + size..];
        PrependTwice(records, offset, record, size, Parse(front, d[offset + size..]));
        records := records + [record];
        offset := offset + size;
    }
    assert records + [] == records;
    r := Ok(Parsed(records, offset));
  }

  // ----- Concatenated frames -----

  function Joined<B>(fs: seq<seq<B>>): seq<B> {
    if fs == [] then [] else fs[0] + Joined(fs[1..])
  }

  lemma {:induction false} JoinedAppend<B>(fs: seq<seq<B>>, f: seq<B>)
    ensures Joined(fs + [f]) == Joined(fs) + f
  {
    if fs == [] {
      assert fs + [f] == [f];
      assert Joined([f]) == f + Joined([f][1..]);
    } else {
      JoinedAppend(fs[1..], f);
      assert (fs + [f])[1..] == fs[1..] + [f];
    }
  }

  /** Each frame, with all that follows it, is read as its record. */
  ghost predicate Chain<B, R, E>(front: seq<B> -> Front<R, E>, fs: seq<seq<B>>, rs: seq<R>, tail: seq<B>)
    requires |fs| == |rs|
  {
    fs != [] ==>
      && fs[0] != []
      && front(Joined(fs) + tail) == One(rs[0], |fs[0]|)
      && Chain(front, fs[1..], rs[1..], tail)
  }

  /** Concatenated frames parse to their records, followed by whatever the tail parses to. */
  lemma {:induction false} ParseJoined<B, R, E>(front: seq<B> -> Front<R, E>, fs: seq<seq<B>>, rs: seq<R>, tail: seq<B>)
    requires |fs| == |rs| && Chain(front, fs, rs, tail)
    ensures Parse(front, Joined(fs) + tail) == Prepend(rs, |Joined(fs)|, Parse(front, tail))
    decreases |fs|
  {
    if fs == [] {
      assert Joined(fs) + tail == tail;
      PrependNothing(Parse(front, tail));
    } else {
      ParseJoined(front, fs[1..], rs[1..], tail);
      var d := Joined(fs) + tail;
      assert d[|fs[0]|..] == Joined(fs[1..]) + tail;
      assert rs == [rs[0]] + rs[1..];
      PrependHead(rs[0], |fs[0]|, rs[1..], |Joined(fs[1..])|, Parse(front, tail));
    }
  }

  lemma PrependHead<R, E>(r: R, m: nat, rs: seq<R>, n: nat, rest: Result<Parsed<R>, E>)
    ensures Prepend([r], m, Prepend(rs, n, rest)) == Prepend([r] + rs, m + n, rest)
  {
    if rest.Ok? { assert [r] + (rs + rest.value.records) == [r] + rs + rest.value.records; }
  }

  /** An incomplete frame at the end is left out; an unreadable one in the way fails the whole stream. */
  lemma ParseJoinedTail<B, R, E>(front: seq<B> -> Front<R, E>, fs: seq<seq<B>>, rs: seq<R>, tail: seq<B>)
    requires |fs| == |rs| && Chain(front, fs, rs, tail)
    ensures tail == [] || front(tail) == Torn ==> Parse(front, Joined(fs) + tail) == Ok(Parsed(rs, |Joined(fs)|))
    ensures tail != [] && front(tail).Bad? ==> Parse(front, Joined(fs) + tail).Err?
  {
    ParseJoined(front, fs, rs, tail);
    if tail == [] || front(tail) == Torn {
      assert Parse(front, tail) == Ok(Parsed([], 0));
      assert rs + [] == rs;
    }
  }

  // ----- Streams behind a fixed header -----

  datatype Scan<+R> = Scan(records: seq<R>, validLen: nat, totalLen: nat)

  function ScanWith<B(==), R, E>(
    front: seq<B> -> Front<R, E>, header: seq<B>, refusal: E, data: seq<B>): Result<Scan<R>, E>
  {
    if |data| < |header| || data[..|header|] != header then Err(refusal)
    else
      var p := Parse(front, data[|header|..]);
      if p.Err? then Err(p.error) else Ok(Scan(p.value.records, |header| + p.value.used, |data|))
  }

  /** The scan as the source runs it: check the header, then read frame after frame in a loop. */
  method ScanStream<B(==), R, E>(front: seq<B> -> Front<R, E>, header: seq<B>, refusal: E, data: seq<B>)
    returns (r: Result<Scan<R>, E>)
    ensures r == ScanWith(front, header, refusal, data)
  {
    if |data| < |header| { return Err(refusal); }
    if data[..|header|] != header { return Err(refusal); }
    var p := ParseLoop(front, data[|header|..]);
    r := if p.Err? then Err(p.error) else Ok(Scan(p.value.records, |header| + p.value.used, |data|));
  }

  lemma ScanAfterHeader<B, R, E>(
    front: seq<B> -> Front<R, E>, header: seq<B>, refusal: E, data: seq<B>, d: seq<B>, p: Result<Parsed<R>, E>)
    requires |data| >= |header| && data[..|header|] == header && data[|header|..] == d
    requires p == Parse(front, d)
    ensures p.Err? ==> ScanWith(front, header, refusal, data).Err?
    ensures p.Ok? ==>
              ScanWith(front, header, refusal, data) == Ok(Scan(p.value.records, |header| + p.value.used, |data|))
  {
  }

  lemma HeaderSplit<B>(header: seq<B>, frames: seq<B>, tail: seq<B>, data: seq<B>)
    requires data == header + frames + tail
    ensures |data| == |header| + |frames| + |tail|
    ensures data[..|header|] == header && data[|header|..] == frames + tail
  {
  }

  /** Whole frames behind the header are read in full; the tail is dropped if torn and fatal if bad. */
  lemma ScanJoined<B, R, E>(front: seq<B> -> Front<R, E>, header: seq<B>, refusal: E,
                            fs: seq<seq<B>>, rs: seq<R>, image: seq<B>, tail: seq<B>, data: seq<B>)
    requires |fs| == |rs| && Chain(front, fs, rs, tail)
    requires image == header + Joined(fs) && data == image + tail
    ensures tail == [] || front(tail) == Torn ==>
              ScanWith(front, header, refusal, data) == Ok(Scan(rs, |image|, |data|))
    ensures tail != [] && front(tail).Bad? ==> ScanWith(front, header, refusal, data).Err?
  {
    ParseJoinedTail(front, fs, rs, tail);
    var d := Joined(fs) + tail;
    HeaderSplit(header, Joined(fs), tail, data);
    ScanAfterHeader(front, header, refusal, data, d, Parse(front, d));
  }

  // ----- Cutting a stream -----

  /** How many frames lie wholly within the first `k` bytes. */
  function Whole<B>(fs: seq<seq<B>>, k: nat): (m: nat)
    ensures m <= |fs|
  {
    if fs == [] || k < |fs[0]| then 0 else 1 + Whole(fs[1..], k - |fs[0]|)
  }

  /** What the cut leaves of the first frame it did not keep whole. */
  function Leftover<B>(fs: seq<seq<B>>, k: nat): seq<B> {
    if fs == [] then [] else if k < |fs[0]| then fs[0][..k] else Leftover(fs[1..], k - |fs[0]|)
  }

  /** A cut leaves whole frames followed by an incomplete beginning of the next one. */
  lemma {:induction false} CutShape<B>(fs: seq<seq<B>>, k: nat)
    requires k <= |Joined(fs)|
    ensures Joined(fs)[..k] == Joined(fs[..Whole(fs, k)]) + Leftover(fs, k)
    ensures if Whole(fs, k) < |fs| then Leftover(fs, k) < fs[Whole(fs, k)] else Leftover(fs, k) == []
    decreases |fs|
  {
    if fs != [] && |fs[0]| <= k {
      var m, n := Whole(fs, k), |fs[0]|;
      CutShape(fs[1..], k - n);
      assert fs[..m][1..] == fs[1..][..m - 1];
      assert Joined(fs[..m]) == fs[0] + Joined(fs[1..][..m - 1]);
      assert Joined(fs)[..k] == fs[0] + Joined(fs[1..])[..k - n];
    }
  }

  lemma CutBehindHeader<B>(header: seq<B>, fs: seq<seq<B>>, k: nat)
    requires |header| <= k <= |header| + |Joined(fs)|
    ensures var m := Whole(fs, k - |header|);
            (header + Joined(fs))[..k] == header + Joined(fs[..m]) + Leftover(fs, k - |header|)
  {
    CutShape(fs, k - |header|);
    assert (header + Joined(fs))[..k] == header + Joined(fs)[..k - |header|];
  }
}

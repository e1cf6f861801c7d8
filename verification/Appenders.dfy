/**
 Concurrent WAL appenders, the checkpointer that folds the log, and the exclusive writer,
 as a state machine over the store's files.  The counter lock and the writer lock make each
 critical section atomic except for crashes, so a step is a section cut at any point.
 */
module Appenders {
  import opened Prelude
  import opened Checksums
  import opened Framing
  import opened Wal

  const U64_MAX: nat := TWO_64 - 1

  /** The shared counter file: the last LSN handed out and the log length it was recorded with. */
  datatype Counter = Counter(lsn: nat, walLen: Option<nat>)

  /**
   The files of one index and what clients were told.  `counter` is `None` when the file is
   missing or fails its checksum; `applied` is the larger of the manifest's applied LSN and
   generation; `folded` are the records the committed base contains; `acked` are the records
   whose append returned, in order.
   */
  datatype Store = Store(
    wal: Option<seq<Byte>>,
    counter: Option<Counter>,
    applied: nat,
    folded: set<Record>,
    acked: seq<Record>)

  // ----- The log the steps run on -----

  /**
   The log format as the steps see it: the header, the frame of a record, which records come
   back unchanged, and the crash-tolerant reader.
   */
  datatype Log = Log(
    header: seq<Byte>,
    frame: Record -> WalResult<seq<Byte>>,
    stable: Record -> bool,
    read: Option<seq<Byte>> -> WalResult<Scan<Record>>)
  {
    ghost predicate Lawful() {
      && |header| == HEADER_LEN
      && (forall r | Storable(this, r) :: 4 < |Framed(this, r)|)
      && read(None) == Ok(Scan([], 0, 0))
      && (forall data: seq<Byte> | |data| < HEADER_LEN :: read(Some(data)) == Ok(Scan([], 0, |data|)))
      && (forall data, rs, t | Logged(this, data, rs, t) :: read(Some(data)) == Ok(Scan(rs, |Bytes(this, rs)|, |data|)))
    }
  }

  predicate Storable(c: Log, r: Record) { c.frame(r).Ok? && c.stable(r) }

  function Framed(c: Log, r: Record): seq<Byte>
    requires Storable(c, r)
  {
    c.frame(r).value
  }

  predicate AllStorable(c: Log, rs: seq<Record>) {
    forall i | 0 <= i < |rs| :: Storable(c, rs[i])
  }

  /** The bytes of a log holding exactly these records. */
  function Bytes(c: Log, rs: seq<Record>): (d: seq<Byte>)
    requires AllStorable(c, rs)
    ensures |d| >= |c.header|
  {
    if rs == [] then c.header else Bytes(c, rs[..|rs| - 1]) + Framed(c, rs[|rs| - 1])
  }

  ghost predicate Stamped(rs: seq<Record>) {
    forall i | 0 <= i < |rs| :: rs[i].lsn.Some?
  }

  /** A possibly empty, incomplete beginning of some record's frame. */
  ghost predicate Stub(c: Log, t: seq<Byte>) {
    t == [] || exists r :: Storable(c, r) && t < Framed(c, r)
  }

  /** Complete frames followed by a torn one. */
  ghost predicate Logged(c: Log, data: seq<Byte>, rs: seq<Record>, t: seq<Byte>) {
    AllStorable(c, rs) && Stamped(rs) && Stub(c, t) && data == Bytes(c, rs) + t
  }

  lemma BytesAppend(c: Log, rs: seq<Record>, r: Record)
    requires AllStorable(c, rs) && Storable(c, r)
    ensures AllStorable(c, rs + [r]) && Bytes(c, rs + [r]) == Bytes(c, rs) + Framed(c, r)
  {
    assert (rs + [r])[..|rs|] == rs;
  }

  function EncodeFrame(c: Codec, r: Record): WalResult<seq<Byte>> {
    var body := EncodeBody(c, r);
    if body.Err? then Err(body.error) else Ok(FrameOf(c, body.value))
  }

  function FileLog(c: Codec): Log {
    Log(HEADER, r => EncodeFrame(c, r), r => Encodable(c, r), (file: Option<seq<Byte>>) => ReadFile(c, file))
  }

  lemma {:induction false} FileBytes(c: Codec, rs: seq<Record>)
    requires AllStorable(FileLog(c), rs)
    ensures AllEncodable(c, rs) && Bytes(FileLog(c), rs) == Image(c, rs)
  {
    if rs != [] {
      var n := |rs| - 1;
      FileBytes(c, rs[..n]);
      assert Storable(FileLog(c), rs[n]);
      ImageAppend(c, rs[..n], rs[n]);
      assert rs[..n] + [rs[n]] == rs;
    }
  }

  lemma FileStub(c: Codec, t: seq<Byte>)
    requires Stub(FileLog(c), t)
    ensures TornTail(c, t)
  {
    if t != [] {
      var r :| Storable(FileLog(c), r) && t < Framed(FileLog(c), r);
      assert Encodable(c, r) && t < Frame(c, r);
    }
  }

  /** The storage layer's log file obeys the laws the steps rely on. */
  lemma FileLogLawful(c: Codec)
    requires c.Sound()
    ensures FileLog(c).Lawful()
  {
    var log := FileLog(c);
    forall data, rs, t | Logged(log, data, rs, t)
      ensures log.read(Some(data)) == Ok(Scan(rs, |Bytes(log, rs)|, |data|))
    {
      FileBytes(c, rs);
      FileStub(c, t);
      ScanWithTornTail(c, rs, t);
    }
  }

  // ----- LSNs -----

  function LsnOf(r: Record): nat { r.lsn.GetOr(0) }

  function MaxLsn(rs: seq<Record>): (m: nat)
    ensures forall i | 0 <= i < |rs| :: LsnOf(rs[i]) <= m
  {
    if rs == [] then 0 else Max(MaxLsn(rs[..|rs| - 1]), LsnOf(rs[|rs| - 1]))
  }

  lemma {:induction false} MaxLsnLeast(rs: seq<Record>, bound: nat)
    requires forall i | 0 <= i < |rs| :: LsnOf(rs[i]) <= bound
    ensures MaxLsn(rs) <= bound
  {
    if rs != [] { MaxLsnLeast(rs[..|rs| - 1], bound); }
  }

  // ----- The append critical section -----

  /** Removes a headerless file, cuts a torn tail, and leaves an intact log alone. */
  function RepairTail(wal: Option<seq<Byte>>, validLen: nat, totalLen: nat): Option<seq<Byte>> {
    if wal.None? || validLen == 0 then None
    else if totalLen > validLen && validLen <= |wal.value| then Some(wal.value[..validLen])
    else wal
  }

  datatype Repaired = Repaired(floor: nat, validLen: nat, wal: Option<seq<Byte>>)

  predicate FastPath(s: Store) {
    s.counter.Some? && s.wal.Some? && s.counter.value.walLen == Some(|s.wal.value|) && |s.wal.value| > 0
  }

  /** The tail repair and the LSN floor: O(1) when the file has the recorded length, else a scan. */
  function RepairAndFloor(c: Log, s: Store): WalResult<Repaired> {
    var counterLsn := if s.counter.Some? then s.counter.value.lsn else 0;
    if FastPath(s) then Ok(Repaired(Max(counterLsn, s.applied), |s.wal.value|, s.wal))
    else
      var scan := c.read(s.wal);
      if scan.Err? then Err(scan.error)
      else
        Ok(Repaired(Max(Max(counterLsn, s.applied), MaxLsn(scan.value.records)), scan.value.validLen,
                    RepairTail(s.wal, scan.value.validLen, scan.value.totalLen)))
  }

  /** Where a crash may stop a section: before anything, after the repair, inside the write, at the counter. */
  datatype Cut = Untouched | AfterRepair | InWrite(k: nat) | CounterTorn | Finished

  /** What an append writes: the header first if the file does not exist. */
  function Pending(c: Log, wal: Option<seq<Byte>>, frame: seq<Byte>): seq<Byte> {
    if wal.None? then c.header + frame else frame
  }

  function Written(wal: Option<seq<Byte>>, bytes: seq<Byte>): Option<seq<Byte>> {
    Some(if wal.None? then bytes else wal.value + bytes)
  }

  /** The record an append logs, once its LSN is known. */
  function Minted(op: seq<Byte>, payload: Object, floor: nat): Record {
    Record(op, payload, Some(floor + 1))
  }

  /** The write and the counter update, behind a repaired log. */
  function Publish(c: Log, s: Store, fixed: Repaired, r: Record, frame: seq<Byte>, cut: Cut): Store {
    var repaired := s.(wal := fixed.wal);
    var bytes := Pending(c, fixed.wal, frame);
    match cut
    case Untouched => s
    case AfterRepair => repaired
    case InWrite(k) => repaired.(wal := Written(fixed.wal, bytes[..Min(k, |bytes|)]))
    case CounterTorn => repaired.(wal := Written(fixed.wal, bytes), counter := None)
    case Finished =>
      var newLen := if fixed.validLen == 0 then HEADER_LEN + |frame| else fixed.validLen + |frame|;
      var counter := Counter(LsnOf(r), Some(newLen));
      repaired.(wal := Written(fixed.wal, bytes), counter := Some(counter), acked := s.acked + [r])
  }

  /** The section after the repair: stamp, encode, write. */
  function AppendBehind(c: Log, s: Store, fixed: Repaired, op: seq<Byte>, payload: Object, cut: Cut): Store {
    var r := Minted(op, payload, fixed.floor);
    if cut.Untouched? then s
    else if fixed.floor >= U64_MAX || c.frame(r).Err? then s.(wal := fixed.wal)
    else Publish(c, s, fixed, r, c.frame(r).value, cut)
  }

  function Append(c: Log, s: Store, op: seq<Byte>, payload: Object, cut: Cut): Store {
    var fixed := RepairAndFloor(c, s);
    if fixed.Err? then s else AppendBehind(c, s, fixed.value, op, payload, cut)
  }

  /** Opening an appender scans, repairs, and reseeds the counter. */
  function Open(c: Log, s: Store, cut: Cut): Store {
    var scan := c.read(s.wal);
    if scan.Err? || cut.Untouched? then s
    else
      var repaired := s.(wal := RepairTail(s.wal, scan.value.validLen, scan.value.totalLen));
      var known := if s.counter.Some? then s.counter.value.lsn else 0;
      var seed := Max(known, Max(s.applied, MaxLsn(scan.value.records)));
      if cut.AfterRepair? || cut.InWrite? then repaired
      else if cut.CounterTorn? then repaired.(counter := None)
      else repaired.(counter := Some(Counter(seed, Some(scan.value.validLen))))
  }

  // ----- The fold and the writer -----

  /**
   Folds the log under the exclusive lock: applies the records at or above `from`, commits a
   manifest whose watermark is `watermark`, then removes the log.  The running checkpointer
   uses `from == applied + 1`, a writable open the (possibly lower) base generation.
   */
  ghost predicate FoldAllowed(c: Log, s: Store, from: nat, watermark: nat) {
    && c.read(s.wal).Ok?
    && from <= s.applied + 1
    && s.applied <= watermark
    && forall r | r in c.read(s.wal).value.records :: LsnOf(r) <= watermark
  }

  function Fold(c: Log, s: Store, from: nat, watermark: nat, truncated: bool): Store
    requires c.read(s.wal).Ok?
  {
    var records := c.read(s.wal).value.records;
    s.(applied := watermark,
       folded := s.folded + (set r | r in records && LsnOf(r) >= from),
       wal := if truncated then None else s.wal)
  }

  /** A writer's own append: no repair, no counter, an LSN above everything it knows. */
  function WriterAppend(c: Log, s: Store, r: Record, cut: Cut): Store {
    if c.frame(r).Err? || cut.Untouched? || cut.AfterRepair? then s
    else
      var bytes := Pending(c, s.wal, c.frame(r).value);
      if cut.InWrite? then s.(wal := Written(s.wal, bytes[..Min(cut.k, |bytes|)]))
      else s.(wal := Written(s.wal, bytes), acked := if cut.Finished? then s.acked + [r] else s.acked)
  }

  // ----- The invariant -----

  /** A log a crash may have left: absent, cut inside its header, or complete frames and a torn tail. */
  ghost predicate WellFormed(c: Log, wal: Option<seq<Byte>>) {
    wal.Some? && |wal.value| >= HEADER_LEN ==> exists rs, t :: Logged(c, wal.value, rs, t)
  }

  /** The records a reader of the log sees. */
  function Live(c: Log, s: Store): seq<Record> {
    var scan := c.read(s.wal);
    if scan.Ok? then scan.value.records else []
  }

  /**
   Nothing acknowledged is lost: it is in the committed base or readable in the log; and no
   readable record would be skipped as already folded unless it is.
   */
  ghost predicate Durable(live: seq<Record>, acked: seq<Record>, folded: set<Record>, applied: nat) {
    && (forall r | r in acked :: r in folded || r in live)
    && (forall r | r in live :: r in folded || LsnOf(r) > applied)
  }

  ghost predicate Inv(c: Log, s: Store) {
    WellFormed(c, s.wal) && Durable(Live(c, s), s.acked, s.folded, s.applied)
  }

  function Len(wal: Option<seq<Byte>>): nat { if wal.None? then 0 else |wal.value| }

  /** The log holds no torn bytes. */
  ghost predicate Intact(c: Log, wal: Option<seq<Byte>>) {
    wal.None? || (c.read(wal).Ok? && 0 < c.read(wal).value.validLen == |wal.value|)
  }

  /** Requests the format can carry whatever LSN they get. */
  ghost predicate Acceptable(c: Log, op: seq<Byte>, payload: Object) {
    forall n: nat | n <= U64_MAX :: Storable(c, Record(op, payload, Some(n)))
  }

  lemma LoggedReads(c: Log, data: seq<Byte>, rs: seq<Record>, t: seq<Byte>)
    requires c.Lawful() && Logged(c, data, rs, t)
    ensures c.read(Some(data)) == Ok(Scan(rs, |Bytes(c, rs)|, |data|))
  {
  }

  lemma WellFormedReads(c: Log, wal: Option<seq<Byte>>) returns (rs: seq<Record>, t: seq<Byte>)
    requires c.Lawful() && WellFormed(c, wal)
    ensures c.read(wal).Ok?
    ensures c.read(wal).value.records == rs && Stamped(rs)
    ensures wal.Some? && |wal.value| >= HEADER_LEN ==>
              Logged(c, wal.value, rs, t) && c.read(wal) == Ok(Scan(rs, |Bytes(c, rs)|, |wal.value|))
    ensures !(wal.Some? && |wal.value| >= HEADER_LEN) ==> rs == [] && c.read(wal).value.validLen == 0
  {
    if wal.Some? && |wal.value| >= HEADER_LEN {
      rs, t :| Logged(c, wal.value, rs, t);
      LoggedReads(c, wal.value, rs, t);
    } else {
      rs, t := [], [];
    }
  }

  /** An intact log holding exactly these records. */
  ghost predicate Holds(c: Log, wal: Option<seq<Byte>>, rs: seq<Record>) {
    AllStorable(c, rs) && Stamped(rs) && if wal.None? then rs == [] else wal.value == Bytes(c, rs)
  }

  lemma HoldsReads(c: Log, wal: Option<seq<Byte>>, rs: seq<Record>)
    requires c.Lawful() && Holds(c, wal, rs)
    ensures WellFormed(c, wal)
    ensures c.read(wal) == Ok(Scan(rs, Len(wal), Len(wal)))
  {
    if wal.Some? {
      assert wal.value == Bytes(c, rs) + [];
      assert Logged(c, wal.value, rs, []);
      LoggedReads(c, wal.value, rs, []);
    }
  }

  /** Repairing keeps every readable record and leaves an intact log. */
  lemma RepairExact(c: Log, wal: Option<seq<Byte>>)
    requires c.Lawful() && WellFormed(c, wal)
    ensures c.read(wal).Ok?
    ensures var scan := c.read(wal).value;
            var fixed := RepairTail(wal, scan.validLen, scan.totalLen);
            Holds(c, fixed, scan.records) && scan.validLen == Len(fixed)
  {
    var rs, t := WellFormedReads(c, wal);
    if wal.Some? && |wal.value| >= HEADER_LEN {
      assert wal.value[..|Bytes(c, rs)|] == Bytes(c, rs);
      if t == [] { assert wal.value == Bytes(c, rs); }
    }
  }

  lemma StampedAppend(rs: seq<Record>, r: Record)
    requires Stamped(rs) && r.lsn.Some?
    ensures Stamped(rs + [r])
  {
  }

  lemma WriteWhole(c: Log, wal: Option<seq<Byte>>, rs: seq<Record>, r: Record)
    requires Holds(c, wal, rs) && Storable(c, r) && r.lsn.Some?
    ensures Holds(c, Written(wal, Pending(c, wal, Framed(c, r))), rs + [r])
  {
    var all := rs + [r];
    StampedAppend(rs, r);
    BytesAppend(c, rs, r);
    assert Bytes(c, rs) == if wal.None? then c.header else wal.value;
    assert Written(wal, Pending(c, wal, Framed(c, r))) == Some(Bytes(c, all));
  }

  lemma WritePart(c: Log, wal: Option<seq<Byte>>, rs: seq<Record>, r: Record, k: nat)
    requires c.Lawful() && Holds(c, wal, rs) && Storable(c, r)
    requires k < |Pending(c, wal, Framed(c, r))|
    ensures var after := Written(wal, Pending(c, wal, Framed(c, r))[..k]);
            WellFormed(c, after) && c.read(after).Ok? && c.read(after).value.records == rs
  {
    var frame := Framed(c, r);
    var part := Written(wal, Pending(c, wal, frame)[..k]).value;
    if wal.None? && k >= HEADER_LEN {
      var t := frame[..k - HEADER_LEN];
      assert t < frame;
      assert (c.header + frame)[..k] == c.header + t;
      assert Logged(c, part, [], t);
      LoggedReads(c, part, [], t);
    } else if wal.Some? {
      var t := frame[..k];
      assert t < frame;
      assert Logged(c, part, rs, t);
      LoggedReads(c, part, rs, t);
    }
  }

  // ----- Durability: one step -----

  lemma IntactHolds(c: Log, s: Store)
    requires c.Lawful() && WellFormed(c, s.wal) && Intact(c, s.wal)
    ensures c.read(s.wal).Ok? && Holds(c, s.wal, Live(c, s))
  {
    var rs, t := WellFormedReads(c, s.wal);
    if s.wal.Some? { assert t == []; assert s.wal.value == Bytes(c, rs); }
  }

  /** The O(1) path does not look at the log; it may be believed exactly when nothing in it is torn. */
  ghost predicate Trusts(c: Log, s: Store) {
    FastPath(s) ==> Intact(c, s.wal)
  }

  lemma HoldsIntact(c: Log, wal: Option<seq<Byte>>, rs: seq<Record>)
    requires c.Lawful() && Holds(c, wal, rs)
    ensures Intact(c, wal)
  {
    HoldsReads(c, wal, rs);
  }

  /**
   The section never errs on a well-formed log and its LSN floor is at or above the watermark.  It
   starts from exactly the readable records if and only if the recorded length hides no torn tail.
   */
  lemma FloorExact(c: Log, s: Store)
    requires c.Lawful() && WellFormed(c, s.wal)
    ensures RepairAndFloor(c, s).Ok?
    ensures var fixed := RepairAndFloor(c, s).value;
            && (Holds(c, fixed.wal, Live(c, s)) <==> Trusts(c, s))
            && fixed.validLen == Len(fixed.wal) && s.applied <= fixed.floor
            && (!FastPath(s) ==> MaxLsn(Live(c, s)) <= fixed.floor)
  {
    if FastPath(s) {
      if Intact(c, s.wal) {
        IntactHolds(c, s);
      } else if Holds(c, s.wal, Live(c, s)) {
        HoldsIntact(c, s.wal, Live(c, s));
      }
    } else {
      RepairExact(c, s.wal);
    }
  }

  /** Any cut of a write behind an intact log reads back as the old records, or those and the new one. */
  lemma WrittenReads(c: Log, wal: Option<seq<Byte>>, rs: seq<Record>, r: Record, k: nat)
    requires c.Lawful() && Holds(c, wal, rs) && Storable(c, r) && r.lsn.Some?
    ensures var bytes := Pending(c, wal, Framed(c, r));
            var after := Written(wal, bytes[..Min(k, |bytes|)]);
            && WellFormed(c, after) && c.read(after).Ok?
            && c.read(after).value.records == (if k < |bytes| then rs else rs + [r])
            && (k >= |bytes| ==> after == Written(wal, bytes) && Holds(c, after, rs + [r]))
  {
    var bytes := Pending(c, wal, Framed(c, r));
    if k < |bytes| {
      WritePart(c, wal, rs, r, k);
    } else {
      assert bytes[..|bytes|] == bytes;
      WriteWhole(c, wal, rs, r);
      HoldsReads(c, Written(wal, bytes), rs + [r]);
    }
  }

  /** The record a completed append of this request logs. */
  function Logging(c: Log, s: Store, op: seq<Byte>, payload: Object): Record
    requires RepairAndFloor(c, s).Ok?
  {
    Minted(op, payload, RepairAndFloor(c, s).value.floor)
  }

  /** The readable log is unchanged or has one more record, which alone may be acknowledged. */
  ghost predicate Grown(live: seq<Record>, acked: seq<Record>, live': seq<Record>, acked': seq<Record>, r: Record) {
    && (live' == live || live' == live + [r])
    && (acked' == acked || (acked' == acked + [r] && live' == live + [r]))
  }

  ghost predicate Extends(c: Log, s: Store, after: Store, r: Record) {
    && WellFormed(c, after.wal) && after.applied == s.applied && after.folded == s.folded
    && Grown(Live(c, s), s.acked, Live(c, after), after.acked, r)
  }

  lemma GrownDurable(live: seq<Record>, acked: seq<Record>, live': seq<Record>, acked': seq<Record>, r: Record,
                     folded: set<Record>, applied: nat)
    requires Durable(live, acked, folded, applied) && Grown(live, acked, live', acked', r) && LsnOf(r) > applied
    ensures Durable(live', acked', folded, applied)
  {
  }

  /** A log that reads as these records, with or without the new one. */
  ghost predicate ReadsAs(c: Log, wal: Option<seq<Byte>>, rs: seq<Record>) {
    WellFormed(c, wal) && c.read(wal).Ok? && c.read(wal).value.records == rs
  }

  lemma WrittenReadsAs(c: Log, wal: Option<seq<Byte>>, rs: seq<Record>, r: Record, k: nat)
    requires c.Lawful() && Holds(c, wal, rs) && Storable(c, r) && r.lsn.Some?
    ensures var bytes := Pending(c, wal, Framed(c, r));
            ReadsAs(c, Written(wal, bytes[..Min(k, |bytes|)]), if k < |bytes| then rs else rs + [r])
            && ReadsAs(c, Written(wal, bytes), rs + [r])
  {
    WrittenReads(c, wal, rs, r, k);
    WrittenReads(c, wal, rs, r, |Pending(c, wal, Framed(c, r))|);
  }

  lemma PublishReads(c: Log, s: Store, rs: seq<Record>, fixed: Repaired, r: Record, cut: Cut)
    requires c.Lawful() && Holds(c, fixed.wal, rs) && Storable(c, r) && r.lsn.Some? && !cut.Untouched?
    ensures var after := Publish(c, s, fixed, r, Framed(c, r), cut);
            && (ReadsAs(c, after.wal, rs) || ReadsAs(c, after.wal, rs + [r]))
            && (cut.Finished? ==> ReadsAs(c, after.wal, rs + [r]))
  {
    if cut.AfterRepair? {
      HoldsReads(c, fixed.wal, rs);
    } else {
      WrittenReadsAs(c, fixed.wal, rs, r, if cut.InWrite? then cut.k else 0);
    }
  }

  lemma PublishExact(c: Log, s: Store, fixed: Repaired, r: Record, cut: Cut)
    requires c.Lawful() && WellFormed(c, s.wal)
    requires Holds(c, fixed.wal, Live(c, s)) && fixed.validLen == Len(fixed.wal)
    requires Storable(c, r) && r.lsn.Some?
    ensures Extends(c, s, Publish(c, s, fixed, r, Framed(c, r), cut), r)
  {
    if !cut.Untouched? { PublishReads(c, s, Live(c, s), fixed, r, cut); }
  }

  lemma PublishFinished(c: Log, s: Store, rs: seq<Record>, fixed: Repaired, r: Record)
    requires c.Lawful() && Holds(c, fixed.wal, rs) && fixed.validLen == Len(fixed.wal)
    requires Storable(c, r) && r.lsn.Some?
    ensures var after := Publish(c, s, fixed, r, Framed(c, r), Finished);
            && Holds(c, after.wal, rs + [r])
            && after.counter == Some(Counter(LsnOf(r), Some(Len(after.wal))))
  {
    WriteWhole(c, fixed.wal, rs, r);
  }

  lemma AppendBehindExact(c: Log, s: Store, fixed: Repaired, op: seq<Byte>, payload: Object, cut: Cut)
    requires c.Lawful() && WellFormed(c, s.wal) && Acceptable(c, op, payload)
    requires Holds(c, fixed.wal, Live(c, s)) && fixed.validLen == Len(fixed.wal)
    ensures Extends(c, s, AppendBehind(c, s, fixed, op, payload, cut), Minted(op, payload, fixed.floor))
  {
    if fixed.floor < U64_MAX {
      assert Storable(c, Record(op, payload, Some(fixed.floor + 1)));
      PublishExact(c, s, fixed, Minted(op, payload, fixed.floor), cut);
    } else {
      HoldsReads(c, fixed.wal, Live(c, s));
    }
  }

  /**
   An append cut anywhere mints an LSN the next fold will not skip.  Unless it believes a torn log,
   it leaves the readable log unchanged or extended by its own record and acknowledges only a
   record that is readable.
   */
  lemma AppendExact(c: Log, s: Store, op: seq<Byte>, payload: Object, cut: Cut)
    requires c.Lawful() && WellFormed(c, s.wal) && Acceptable(c, op, payload)
    ensures RepairAndFloor(c, s).Ok?
    ensures LsnOf(Logging(c, s, op, payload)) > s.applied
    ensures Trusts(c, s) ==> Extends(c, s, Append(c, s, op, payload, cut), Logging(c, s, op, payload))
  {
    FloorExact(c, s);
    if Trusts(c, s) { AppendBehindExact(c, s, RepairAndFloor(c, s).value, op, payload, cut); }
  }

  lemma ExtendsKeeps(c: Log, s: Store, after: Store, r: Record)
    requires Inv(c, s) && Extends(c, s, after, r) && LsnOf(r) > s.applied
    ensures Inv(c, after)
  {
    GrownDurable(Live(c, s), s.acked, Live(c, after), after.acked, r, s.folded, s.applied);
  }

  lemma OpenExact(c: Log, s: Store, cut: Cut)
    requires c.Lawful() && WellFormed(c, s.wal)
    ensures var after := Open(c, s, cut);
            && WellFormed(c, after.wal) && Live(c, after) == Live(c, s)
            && (after.wal == s.wal || Holds(c, after.wal, Live(c, s)))
  {
    RepairExact(c, s.wal);
    var scan := c.read(s.wal).value;
    HoldsReads(c, RepairTail(s.wal, scan.validLen, scan.totalLen), scan.records);
  }

  /** A checkpoint contains everything acknowledged so far, so removing the log loses nothing. */
  lemma FoldKeeps(c: Log, s: Store, from: nat, watermark: nat, truncated: bool)
    requires c.Lawful() && Inv(c, s) && FoldAllowed(c, s, from, watermark)
    ensures var after := Fold(c, s, from, watermark, truncated);
            && Inv(c, after)
            && (forall r | r in s.acked :: r in after.folded)
            && (forall r | r in Live(c, s) :: r in after.folded)
  {
  }

  lemma WriterReads(c: Log, s: Store, rs: seq<Record>, r: Record, cut: Cut)
    requires c.Lawful() && Holds(c, s.wal, rs) && Storable(c, r) && r.lsn.Some?
    ensures var after := WriterAppend(c, s, r, cut);
            && (ReadsAs(c, after.wal, rs) || ReadsAs(c, after.wal, rs + [r]))
            && (cut.Finished? ==> ReadsAs(c, after.wal, rs + [r]))
  {
    if cut.Untouched? || cut.AfterRepair? {
      HoldsReads(c, s.wal, rs);
    } else {
      WrittenReadsAs(c, s.wal, rs, r, if cut.InWrite? then cut.k else 0);
    }
  }

  lemma WriterExact(c: Log, s: Store, r: Record, cut: Cut)
    requires c.Lawful() && WellFormed(c, s.wal) && Intact(c, s.wal)
    requires Storable(c, r) && r.lsn.Some?
    ensures Extends(c, s, WriterAppend(c, s, r, cut), r)
  {
    IntactHolds(c, s);
    WriterReads(c, s, Live(c, s), r, cut);
  }

  // ----- Durability: whole runs -----

  datatype Step =
    | AppendStep(op: seq<Byte>, payload: Object, cut: Cut)
    | OpenStep(cut: Cut)
    | FoldStep(from: nat, watermark: nat, truncated: bool)
    | WriterStep(record: Record, cut: Cut)

  function Apply(c: Log, s: Store, step: Step): Store {
    match step
    case AppendStep(op, payload, cut) => Append(c, s, op, payload, cut)
    case OpenStep(cut) => Open(c, s, cut)
    case FoldStep(from, watermark, truncated) => if c.read(s.wal).Ok? then Fold(c, s, from, watermark, truncated) else s
    case WriterStep(r, cut) => WriterAppend(c, s, r, cut)
  }

  /** What each step asks of its caller. */
  ghost predicate Asked(c: Log, s: Store, step: Step) {
    match step
    case AppendStep(op, payload, cut) => Acceptable(c, op, payload)
    case OpenStep(cut) => true
    case FoldStep(from, watermark, truncated) => FoldAllowed(c, s, from, watermark)
    case WriterStep(r, cut) => Storable(c, r) && r.lsn.Some? && LsnOf(r) > Max(s.applied, MaxLsn(Live(c, s)))
  }

  /** A step that starts behind bytes it has not looked at. */
  ghost predicate Blind(c: Log, s: Store, step: Step) {
    (step.AppendStep? && !Trusts(c, s)) || (step.WriterStep? && !Intact(c, s.wal))
  }

  lemma StepKeeps(c: Log, s: Store, step: Step)
    requires c.Lawful() && Inv(c, s) && Asked(c, s, step) && !Blind(c, s, step)
    ensures Inv(c, Apply(c, s, step))
  {
    match step
    case AppendStep(op, payload, cut) =>
      AppendExact(c, s, op, payload, cut);
      ExtendsKeeps(c, s, Append(c, s, op, payload, cut), Logging(c, s, op, payload));
    case OpenStep(cut) => OpenExact(c, s, cut);
    case FoldStep(from, watermark, truncated) => FoldKeeps(c, s, from, watermark, truncated);
    case WriterStep(r, cut) =>
      WriterExact(c, s, r, cut);
      ExtendsKeeps(c, s, WriterAppend(c, s, r, cut), r);
  }

  // ----- LSN order -----

  ghost predicate Increasing(rs: seq<Record>) {
    forall i, j | 0 <= i < j < |rs| :: LsnOf(rs[i]) < LsnOf(rs[j])
  }

  /** The counter of a store on the fast path is at or above every LSN in the log. */
  ghost predicate Covered(c: Log, s: Store) {
    FastPath(s) ==> MaxLsn(Live(c, s)) <= Max(s.counter.value.lsn, s.applied)
  }

  /** Acknowledgements and log are in strict LSN order, and nothing acknowledged is above both log and watermark. */
  ghost predicate Ordered(live: seq<Record>, acked: seq<Record>, top: nat) {
    && Increasing(live) && Increasing(acked)
    && forall i | 0 <= i < |acked| :: LsnOf(acked[i]) <= top
  }

  ghost predicate InOrder(c: Log, s: Store) {
    Ordered(Live(c, s), s.acked, Max(s.applied, MaxLsn(Live(c, s))))
  }

  lemma MaxLsnAppend(rs: seq<Record>, r: Record)
    ensures MaxLsn(rs + [r]) == Max(MaxLsn(rs), LsnOf(r))
  {
    assert (rs + [r])[..|rs|] == rs;
  }

  lemma IncreasingAppend(rs: seq<Record>, r: Record)
    requires Increasing(rs) && forall i | 0 <= i < |rs| :: LsnOf(rs[i]) < LsnOf(r)
    ensures Increasing(rs + [r])
  {
  }

  lemma GrownOrdered(
    live: seq<Record>, acked: seq<Record>, live': seq<Record>, acked': seq<Record>, r: Record, top: nat)
    requires Ordered(live, acked, top) && Grown(live, acked, live', acked', r)
    requires top < LsnOf(r) && forall i | 0 <= i < |live| :: LsnOf(live[i]) <= top
    ensures Ordered(live', acked', if live' == live then top else LsnOf(r))
  {
    IncreasingAppend(live, r);
    IncreasingAppend(acked, r);
  }

  lemma ExtendsInOrder(c: Log, s: Store, after: Store, r: Record)
    requires InOrder(c, s) && Extends(c, s, after, r)
    requires LsnOf(r) > Max(s.applied, MaxLsn(Live(c, s)))
    ensures InOrder(c, after)
  {
    var live, top := Live(c, s), Max(s.applied, MaxLsn(Live(c, s)));
    MaxLsnAppend(live, r);
    GrownOrdered(live, s.acked, Live(c, after), after.acked, r, top);
    if Live(c, after) != live {
      assert Max(s.applied, MaxLsn(Live(c, after))) == LsnOf(r);
    }
  }

  lemma AppendOrder(c: Log, s: Store, op: seq<Byte>, payload: Object, cut: Cut)
    requires c.Lawful() && WellFormed(c, s.wal) && InOrder(c, s) && Acceptable(c, op, payload)
    requires Trusts(c, s) && Covered(c, s)
    ensures InOrder(c, Append(c, s, op, payload, cut))
  {
    FloorExact(c, s);
    AppendExact(c, s, op, payload, cut);
    var after := Append(c, s, op, payload, cut);
    ExtendsInOrder(c, s, after, Logging(c, s, op, payload));
  }

  lemma WriterOrder(c: Log, s: Store, r: Record, cut: Cut)
    requires c.Lawful() && WellFormed(c, s.wal) && InOrder(c, s) && Asked(c, s, WriterStep(r, cut)) && Intact(c, s.wal)
    ensures InOrder(c, WriterAppend(c, s, r, cut))
  {
    WriterExact(c, s, r, cut);
    var after := WriterAppend(c, s, r, cut);
    ExtendsInOrder(c, s, after, r);
  }

  lemma FoldOrder(c: Log, s: Store, from: nat, watermark: nat, truncated: bool)
    requires c.Lawful() && InOrder(c, s) && FoldAllowed(c, s, from, watermark)
    ensures InOrder(c, Fold(c, s, from, watermark, truncated))
  {
    MaxLsnLeast(Live(c, s), watermark);
  }

  lemma OpenOrder(c: Log, s: Store, cut: Cut)
    requires c.Lawful() && WellFormed(c, s.wal) && InOrder(c, s)
    ensures InOrder(c, Open(c, s, cut))
  {
    OpenExact(c, s, cut);
  }

  lemma StepOrder(c: Log, s: Store, step: Step)
    requires c.Lawful() && Inv(c, s) && InOrder(c, s) && Asked(c, s, step) && !Blind(c, s, step)
    requires step.AppendStep? ==> Covered(c, s)
    ensures InOrder(c, Apply(c, s, step))
  {
    match step
    case AppendStep(op, payload, cut) => AppendOrder(c, s, op, payload, cut);
    case OpenStep(cut) => OpenOrder(c, s, cut);
    case FoldStep(from, watermark, truncated) => FoldOrder(c, s, from, watermark, truncated);
    case WriterStep(r, cut) => WriterOrder(c, s, r, cut);
  }

  lemma OrderedStep(c: Log, s: Store, step: Step)
    requires c.Lawful() && Inv(c, s) && InOrder(c, s) && Asked(c, s, step) && !Blind(c, s, step)
    requires step.AppendStep? ==> Covered(c, s)
    ensures Inv(c, Apply(c, s, step)) && InOrder(c, Apply(c, s, step))
  {
    StepKeeps(c, s, step);
    StepOrder(c, s, step);
  }

  /** No step lowers the recorded LSN, and a completed append raises it to its own. */
  lemma CounterNeverFalls(c: Log, s: Store, step: Step)
    requires s.counter.Some? && Apply(c, s, step).counter.Some?
    ensures s.counter.value.lsn <= Apply(c, s, step).counter.value.lsn
  {
  }

  // ----- Marks -----

  /** The recorded length is the end of some complete frame of this log, and the counter covers what precedes it. */
  ghost predicate MarkAt(c: Log, s: Store, mark: nat, lsn: nat, j: nat) {
    && s.wal.Some? && |s.wal.value| >= HEADER_LEN
    && j <= |Live(c, s)| && AllStorable(c, Live(c, s)[..j])
    && mark == |Bytes(c, Live(c, s)[..j])|
    && forall i | 0 <= i < j :: LsnOf(Live(c, s)[i]) <= Max(lsn, s.applied)
  }

  ghost predicate Marked(c: Log, s: Store) {
    s.counter.Some? && s.counter.value.walLen.Some? && s.counter.value.walLen.value > 0 ==>
      exists j: nat :: MarkAt(c, s, s.counter.value.walLen.value, s.counter.value.lsn, j)
  }

  lemma {:induction false} ImageShorter(c: Log, rs: seq<Record>, j: nat)
    requires c.Lawful() && AllStorable(c, rs) && j < |rs|
    ensures |Bytes(c, rs[..j])| < |Bytes(c, rs)|
  {
    var n := |rs| - 1;
    BytesAppend(c, rs[..n], rs[n]);
    assert rs[..n] + [rs[n]] == rs;
    if j < n {
      ImageShorter(c, rs[..n], j);
      assert rs[..n][..j] == rs[..j];
    }
  }

  lemma MarkAtEnd(c: Log, s: Store, lsn: nat, j: nat, rs: seq<Record>, t: seq<Byte>)
    requires c.Lawful() && s.wal.Some? && Logged(c, s.wal.value, rs, t) && Live(c, s) == rs
    requires MarkAt(c, s, |s.wal.value|, lsn, j)
    ensures j == |rs| && t == []
    ensures MaxLsn(rs) <= Max(lsn, s.applied)
  {
    if j < |rs| { ImageShorter(c, rs, j); }
    assert rs[..|rs|] == rs;
    MaxLsnLeast(rs, Max(lsn, s.applied));
  }

  /** With a frame-boundary mark the O(1) path is taken only on an intact, covered log. */
  lemma MarkedTrusts(c: Log, s: Store)
    requires c.Lawful() && WellFormed(c, s.wal) && Marked(c, s)
    ensures Trusts(c, s) && Covered(c, s)
  {
    if FastPath(s) {
      var j: nat :| MarkAt(c, s, |s.wal.value|, s.counter.value.lsn, j);
      var rs, t := WellFormedReads(c, s.wal);
      MarkAtEnd(c, s, s.counter.value.lsn, j, rs, t);
    }
  }

  /** A log that only gained records at its end keeps every older mark. */
  lemma MarkKept(c: Log, s: Store, after: Store)
    requires Marked(c, s) && after.counter == s.counter && after.applied >= s.applied
    requires s.wal.Some? && |s.wal.value| >= HEADER_LEN ==> after.wal.Some? && |after.wal.value| >= HEADER_LEN
    requires Live(c, s) <= Live(c, after)
    ensures Marked(c, after)
  {
    if s.counter.Some? && s.counter.value.walLen.Some? && s.counter.value.walLen.value > 0 {
      var mark, lsn := s.counter.value.walLen.value, s.counter.value.lsn;
      var j: nat :| MarkAt(c, s, mark, lsn, j);
      assert Live(c, after)[..j] == Live(c, s)[..j];
      assert forall i | 0 <= i < j :: Live(c, after)[i] == Live(c, s)[i];
      assert MarkAt(c, after, mark, lsn, j);
    }
  }

  /** A mark set to the end of an intact log by a counter at or above its LSNs is a good one. */
  lemma MarkFresh(c: Log, s: Store, lsn: nat)
    requires c.Lawful() && Holds(c, s.wal, Live(c, s))
    requires s.counter == Some(Counter(lsn, Some(Len(s.wal))))
    requires MaxLsn(Live(c, s)) <= Max(lsn, s.applied)
    ensures Marked(c, s)
  {
    if s.wal.Some? {
      assert Live(c, s)[..|Live(c, s)|] == Live(c, s);
      assert MarkAt(c, s, |s.wal.value|, lsn, |Live(c, s)|);
    }
  }

  /** Behind the repaired log nothing is shorter than its header that was not before. */
  lemma RepairKeepsHeader(c: Log, s: Store)
    requires c.Lawful() && WellFormed(c, s.wal) && RepairAndFloor(c, s).Ok?
    ensures s.wal.Some? && |s.wal.value| >= HEADER_LEN ==>
              var fixed := RepairAndFloor(c, s).value.wal;
              fixed.Some? && |fixed.value| >= HEADER_LEN
  {
    var rs, t := WellFormedReads(c, s.wal);
  }

  lemma FinishedMarks(c: Log, s: Store, rs: seq<Record>, fixed: Repaired, r: Record)
    requires c.Lawful() && Holds(c, fixed.wal, rs) && fixed.validLen == Len(fixed.wal)
    requires Storable(c, r) && r.lsn.Some? && MaxLsn(rs) <= LsnOf(r)
    ensures Marked(c, Publish(c, s, fixed, r, Framed(c, r), Finished))
  {
    var after := Publish(c, s, fixed, r, Framed(c, r), Finished);
    PublishFinished(c, s, rs, fixed, r);
    HoldsReads(c, after.wal, rs + [r]);
    MaxLsnAppend(rs, r);
    MarkFresh(c, after, LsnOf(r));
  }

  lemma UnpublishedKeepsMark(c: Log, s: Store, op: seq<Byte>, payload: Object, cut: Cut)
    requires c.Lawful() && WellFormed(c, s.wal) && Marked(c, s) && Acceptable(c, op, payload) && Trusts(c, s)
    requires Append(c, s, op, payload, cut).counter == s.counter
    requires RepairAndFloor(c, s).Ok?
    ensures Marked(c, Append(c, s, op, payload, cut))
  {
    RepairKeepsHeader(c, s);
    AppendExact(c, s, op, payload, cut);
    MarkKept(c, s, Append(c, s, op, payload, cut));
  }

  lemma AppendKeepsMark(c: Log, s: Store, op: seq<Byte>, payload: Object, cut: Cut)
    requires c.Lawful() && WellFormed(c, s.wal) && Marked(c, s) && Acceptable(c, op, payload)
    ensures Marked(c, Append(c, s, op, payload, cut))
  {
    MarkedTrusts(c, s);
    FloorExact(c, s);
    var fixed := RepairAndFloor(c, s).value;
    if fixed.floor < U64_MAX && (cut.Finished? || cut.CounterTorn?) {
      assert Storable(c, Record(op, payload, Some(fixed.floor + 1)));
      if cut.Finished? { FinishedMarks(c, s, Live(c, s), fixed, Logging(c, s, op, payload)); }
    } else {
      UnpublishedKeepsMark(c, s, op, payload, cut);
    }
  }

  /** Opening an appender makes the mark good again, whatever it was. */
  lemma OpenMarks(c: Log, s: Store)
    requires c.Lawful() && WellFormed(c, s.wal)
    ensures Marked(c, Open(c, s, Finished))
  {
    RepairExact(c, s.wal);
    OpenExact(c, s, Finished);
    var after := Open(c, s, Finished);
    MarkFresh(c, after, after.counter.value.lsn);
  }

  lemma OpenKeepsMark(c: Log, s: Store, cut: Cut)
    requires c.Lawful() && WellFormed(c, s.wal) && Marked(c, s)
    ensures Marked(c, Open(c, s, cut))
  {
    if cut.Finished? {
      OpenMarks(c, s);
    } else {
      var rs, t := WellFormedReads(c, s.wal);
      OpenExact(c, s, cut);
      if !cut.CounterTorn? { MarkKept(c, s, Open(c, s, cut)); }
    }
  }

  // ----- Whole runs -----

  /**
   What can be told from the steps alone.  `Good`: the recorded length is the end of a frame of this
   log.  `Removed`: the log is gone and the recorded length stale.  `Stale`: the log has been written
   to since, so the stale length may equal its own.
   */
  datatype Mark = Good | Removed | Stale

  /** `clean`: no torn bytes can be in the log. */
  datatype Track = Track(mark: Mark, clean: bool)

  /** Whether a step writes a frame or part of one. */
  predicate Writes(cut: Cut) { cut.InWrite? || cut.CounterTorn? || cut.Finished? }

  /** The mark after bytes were written without the counter being brought up to date. */
  function Overtaken(mark: Mark): Mark { if mark.Removed? then Stale else mark }

  /** How a step changes that knowledge; `returned` is whether an append came back to its caller. */
  function Follow(t: Track, step: Step, returned: bool): Track {
    match step
    case AppendStep(_, _, cut) =>
      if returned then Track(Mark.Good, true)
      else if cut.Untouched? then t
      else if Writes(cut) then Track(Overtaken(t.mark), !cut.InWrite?)
      else t.(clean := true)
    case OpenStep(cut) =>
      if cut.Untouched? then t
      else Track(if cut.Finished? || cut.CounterTorn? then Mark.Good else t.mark, true)
    case FoldStep(_, _, truncated) => if truncated then Track(Removed, true) else t
    case WriterStep(_, cut) => if Writes(cut) then Track(Overtaken(t.mark), !cut.InWrite?) else t
  }

  /**
   The discipline: no append behind a log that was removed and then written to by a cut append or a
   writer, until an appender opens or the log is removed again; and no writer behind a write that was
   cut, until an appender repaired it.
   */
  predicate Disciplined(t: Track, step: Step) {
    (step.AppendStep? ==> !t.mark.Stale?) && (step.WriterStep? ==> t.clean)
  }

  ghost predicate Tracked(c: Log, s: Store, t: Track) {
    && Inv(c, s) && InOrder(c, s)
    && (t.mark.Good? ==> Marked(c, s))
    && (t.mark.Removed? ==> s.wal.None?)
    && (t.clean ==> Intact(c, s.wal))
  }

  lemma TrackedTrusts(c: Log, s: Store, t: Track, step: Step)
    requires c.Lawful() && Tracked(c, s, t) && Disciplined(t, step)
    ensures !Blind(c, s, step) && (step.AppendStep? ==> Covered(c, s))
  {
    if step.AppendStep? && t.mark.Good? { MarkedTrusts(c, s); }
  }

  /** Whether an append came back. */
  predicate Returned(s: Store, after: Store) { |after.acked| > |s.acked| }

  lemma PublishedIntact(c: Log, s: Store, rs: seq<Record>, fixed: Repaired, r: Record, cut: Cut)
    requires c.Lawful() && Holds(c, fixed.wal, rs) && Storable(c, r) && r.lsn.Some?
    requires !cut.Untouched? && !cut.InWrite?
    ensures Intact(c, Publish(c, s, fixed, r, Framed(c, r), cut).wal)
  {
    if cut.AfterRepair? {
      HoldsIntact(c, fixed.wal, rs);
    } else {
      WriteWhole(c, fixed.wal, rs, r);
      HoldsIntact(c, Written(fixed.wal, Pending(c, fixed.wal, Framed(c, r))), rs + [r]);
    }
  }

  /** What an append that trusts a sound log leaves: intact unless cut in its write, and marked when it returned. */
  lemma AppendLeaves(c: Log, s: Store, op: seq<Byte>, payload: Object, cut: Cut)
    requires c.Lawful() && WellFormed(c, s.wal) && Acceptable(c, op, payload) && Trusts(c, s) && Covered(c, s)
    ensures var after := Append(c, s, op, payload, cut);
            && (!cut.Untouched? && !cut.InWrite? ==> Intact(c, after.wal))
            && (Returned(s, after) ==> Marked(c, after) && cut.Finished?)
            && (s.wal.None? && !Writes(cut) ==> after.wal.None?)
  {
    FloorExact(c, s);
    var fixed, r := RepairAndFloor(c, s).value, Logging(c, s, op, payload);
    if !cut.Untouched? {
      if fixed.floor < U64_MAX {
        assert Storable(c, Record(op, payload, Some(fixed.floor + 1)));
        if !cut.InWrite? { PublishedIntact(c, s, Live(c, s), fixed, r, cut); }
        if cut.Finished? { FinishedMarks(c, s, Live(c, s), fixed, r); }
      } else {
        HoldsIntact(c, fixed.wal, Live(c, s));
      }
    }
  }

  lemma AppendTracked(c: Log, s: Store, t: Track, op: seq<Byte>, payload: Object, cut: Cut)
    requires c.Lawful() && Tracked(c, s, t) && Acceptable(c, op, payload) && !t.mark.Stale?
    ensures var after, step := Append(c, s, op, payload, cut), AppendStep(op, payload, cut);
            Tracked(c, after, Follow(t, step, Returned(s, after)))
  {
    var step := AppendStep(op, payload, cut);
    TrackedTrusts(c, s, t, step);
    OrderedStep(c, s, step);
    AppendLeaves(c, s, op, payload, cut);
    if t.mark.Good? { AppendKeepsMark(c, s, op, payload, cut); }
  }

  lemma OpenTracked(c: Log, s: Store, t: Track, cut: Cut)
    requires c.Lawful() && Tracked(c, s, t)
    ensures Tracked(c, Open(c, s, cut), Follow(t, OpenStep(cut), false))
  {
    OrderedStep(c, s, OpenStep(cut));
    if !cut.Untouched? {
      RepairExact(c, s.wal);
      HoldsIntact(c, RepairTail(s.wal, c.read(s.wal).value.validLen, c.read(s.wal).value.totalLen), Live(c, s));
    }
    if cut.Finished? { OpenMarks(c, s); }
    if t.mark.Good? { OpenKeepsMark(c, s, cut); }
  }

  lemma FoldTracked(c: Log, s: Store, t: Track, from: nat, watermark: nat, truncated: bool)
    requires c.Lawful() && Tracked(c, s, t) && FoldAllowed(c, s, from, watermark)
    ensures Tracked(c, Fold(c, s, from, watermark, truncated), Follow(t, FoldStep(from, watermark, truncated), false))
  {
    var after := Fold(c, s, from, watermark, truncated);
    OrderedStep(c, s, FoldStep(from, watermark, truncated));
    if !truncated && t.mark.Good? { MarkKept(c, s, after); }
  }

  lemma WriterLeavesIntact(c: Log, s: Store, r: Record, cut: Cut)
    requires c.Lawful() && WellFormed(c, s.wal) && Intact(c, s.wal)
    requires Storable(c, r) && r.lsn.Some? && !cut.InWrite?
    ensures Intact(c, WriterAppend(c, s, r, cut).wal)
  {
    if cut.CounterTorn? || cut.Finished? {
      IntactHolds(c, s);
      WriteWhole(c, s.wal, Live(c, s), r);
      HoldsIntact(c, WriterAppend(c, s, r, cut).wal, Live(c, s) + [r]);
    }
  }

  lemma WriterKeepsMark(c: Log, s: Store, r: Record, cut: Cut)
    requires c.Lawful() && WellFormed(c, s.wal) && Intact(c, s.wal) && Storable(c, r) && r.lsn.Some? && Marked(c, s)
    ensures Marked(c, WriterAppend(c, s, r, cut))
  {
    WriterExact(c, s, r, cut);
    MarkKept(c, s, WriterAppend(c, s, r, cut));
  }

  lemma WriterTracked(c: Log, s: Store, t: Track, r: Record, cut: Cut, returned: bool)
    requires c.Lawful() && Tracked(c, s, t) && Asked(c, s, WriterStep(r, cut)) && t.clean
    ensures Tracked(c, WriterAppend(c, s, r, cut), Follow(t, WriterStep(r, cut), returned))
  {
    OrderedStep(c, s, WriterStep(r, cut));
    if !cut.InWrite? { WriterLeavesIntact(c, s, r, cut); }
    if t.mark.Good? { WriterKeepsMark(c, s, r, cut); }
  }

  lemma DisciplinedStep(c: Log, s: Store, t: Track, step: Step)
    requires c.Lawful() && Tracked(c, s, t) && Asked(c, s, step) && Disciplined(t, step)
    ensures Tracked(c, Apply(c, s, step), Follow(t, step, Returned(s, Apply(c, s, step))))
  {
    match step
    case AppendStep(op, payload, cut) => AppendTracked(c, s, t, op, payload, cut);
    case OpenStep(cut) => OpenTracked(c, s, t, cut);
    case FoldStep(from, watermark, truncated) =>
      WellFormedFold(c, s, t);
      FoldTracked(c, s, t, from, watermark, truncated);
    case WriterStep(r, cut) => WriterTracked(c, s, t, r, cut, Returned(s, Apply(c, s, step)));
  }

  lemma WellFormedFold(c: Log, s: Store, t: Track)
    requires c.Lawful() && Tracked(c, s, t)
    ensures c.read(s.wal).Ok?
  {
    var rs, tail := WellFormedReads(c, s.wal);
  }

  /** Every step is asked for properly, and applied. */
  ghost predicate Run(c: Log, states: seq<Store>, steps: seq<Step>) {
    && |states| == |steps| + 1
    && forall i | 0 <= i < |steps| :: Asked(c, states[i], steps[i]) && states[i + 1] == Apply(c, states[i], steps[i])
  }

  /** What can be told from the steps of a run, one entry per state. */
  ghost predicate Follows(states: seq<Store>, steps: seq<Step>, tracks: seq<Track>) {
    && |states| == |tracks| == |steps| + 1
    && forall i | 0 <= i < |steps| ::
         tracks[i + 1] == Follow(tracks[i], steps[i], Returned(states[i], states[i + 1]))
  }

  /** A step misled by a log it did not read: it writes behind torn bytes, or mints below a logged LSN. */
  ghost predicate Misled(c: Log, s: Store, step: Step) {
    Blind(c, s, step) || (step.AppendStep? && !Covered(c, s))
  }

  /** Durable and in order. */
  ghost predicate Good(c: Log, s: Store) {
    Inv(c, s) && InOrder(c, s)
  }

  ghost predicate MisledBefore(c: Log, states: seq<Store>, steps: seq<Step>, k: nat)
    requires k <= |steps| && k <= |states|
  {
    exists i | 0 <= i < k :: Misled(c, states[i], steps[i])
  }

  lemma MisledAt(c: Log, states: seq<Store>, steps: seq<Step>, i: nat, k: nat)
    requires i < k <= |steps| && k <= |states| && Misled(c, states[i], steps[i])
    ensures MisledBefore(c, states, steps, k)
  {
  }

  lemma MisledLater(c: Log, states: seq<Store>, steps: seq<Step>, j: nat, k: nat)
    requires j <= k <= |steps| && k <= |states| && MisledBefore(c, states, steps, j)
    ensures MisledBefore(c, states, steps, k)
  {
    var i :| 0 <= i < j && Misled(c, states[i], steps[i]);
    MisledAt(c, states, steps, i, k);
  }

  /** A step that is not misled keeps a good state good. */
  lemma GoodStep(c: Log, s: Store, step: Step)
    requires c.Lawful() && Good(c, s) && Asked(c, s, step)
    ensures Good(c, Apply(c, s, step)) || Misled(c, s, step)
  {
    if !Misled(c, s, step) { OrderedStep(c, s, step); }
  }

  /**
   In every state of every run, cut anywhere, every acknowledged record is in the committed base or
   readable in the log and LSNs were handed out and logged in strictly increasing order, unless an
   earlier step was misled.
   */
  lemma {:induction false} DurableRuns(c: Log, states: seq<Store>, steps: seq<Step>, k: nat)
    requires c.Lawful() && Run(c, states, steps) && k < |states|
    requires Good(c, states[0])
    ensures Good(c, states[k]) || MisledBefore(c, states, steps, k)
  {
    if k > 0 {
      DurableRuns(c, states, steps, k - 1);
      if Good(c, states[k - 1]) {
        GoodStep(c, states[k - 1], steps[k - 1]);
        if Misled(c, states[k - 1], steps[k - 1]) { MisledAt(c, states, steps, k - 1, k); }
      } else {
        MisledLater(c, states, steps, k - 1, k);
      }
    }
  }

  /**
   No step of a disciplined run is misled: under every interleaving of appenders, checkpoints and
   writers, each cut anywhere, that keeps the discipline, every state is durable and in order.
   */
  lemma {:induction false} DisciplinedRuns(c: Log, states: seq<Store>, steps: seq<Step>, tracks: seq<Track>, k: nat)
    requires c.Lawful() && Run(c, states, steps) && Follows(states, steps, tracks) && k < |states|
    requires forall i | 0 <= i < |steps| :: Disciplined(tracks[i], steps[i])
    requires Tracked(c, states[0], tracks[0])
    ensures Tracked(c, states[k], tracks[k])
    ensures k < |steps| ==> !Misled(c, states[k], steps[k])
  {
    if k > 0 {
      DisciplinedRuns(c, states, steps, tracks, k - 1);
      assert Disciplined(tracks[k - 1], steps[k - 1]) && Asked(c, states[k - 1], steps[k - 1]);
      DisciplinedStep(c, states[k - 1], tracks[k - 1], steps[k - 1]);
    }
    if k < |steps| { TrackedTrusts(c, states[k], tracks[k], steps[k]); }
  }

  const FRESH: Store := Store(None, None, 0, {}, [])
  const KNOWN: Track := Track(Mark.Good, true)

  /** The discipline allows every step on a fresh store, after an appender opened and after an append returned. */
  lemma OpeningAllowsAnything(t: Track, cut: Cut, op: seq<Byte>, payload: Object, next: Step)
    ensures Disciplined(KNOWN, next)
    ensures Disciplined(Follow(t, OpenStep(Finished), false), next)
    ensures Disciplined(Follow(t, AppendStep(op, payload, cut), true), next)
  {
  }

  lemma FreshIsTracked(c: Log)
    requires c.Lawful()
    ensures Tracked(c, FRESH, KNOWN)
  {
  }

  predicate AppenderStep(step: Step) { step.AppendStep? || step.OpenStep? }

  /** Without checkpoints and writers every run keeps the discipline. */
  lemma {:induction false} AppendersAreDisciplined(states: seq<Store>, steps: seq<Step>, tracks: seq<Track>, k: nat)
    requires Follows(states, steps, tracks) && k < |states| && tracks[0] == KNOWN
    requires forall i | 0 <= i < |steps| :: AppenderStep(steps[i])
    ensures tracks[k].mark.Good? && (k < |steps| ==> Disciplined(tracks[k], steps[k]))
  {
    if k > 0 { AppendersAreDisciplined(states, steps, tracks, k - 1); }
    if k < |steps| { assert AppenderStep(steps[k]); }
  }

  /**
   Any number of appenders on a fresh store, opening, appending and crashing anywhere, need no
   condition at all.
   */
  lemma AppendersStaySafe(c: Log, states: seq<Store>, steps: seq<Step>, tracks: seq<Track>, k: nat)
    requires c.Lawful() && Run(c, states, steps) && Follows(states, steps, tracks) && k < |states|
    requires states[0] == FRESH && tracks[0] == KNOWN && forall i | 0 <= i < |steps| :: AppenderStep(steps[i])
    ensures Inv(c, states[k]) && InOrder(c, states[k])
  {
    FreshIsTracked(c);
    forall i | 0 <= i < |steps| ensures Disciplined(tracks[i], steps[i]) {
      AppendersAreDisciplined(states, steps, tracks, i);
    }
    DisciplinedRuns(c, states, steps, tracks, k);
  }

  // ----- Exactly when an append lands -----

  lemma BlindAppendMisses(c: Log, s: Store, r: Record)
    requires c.Lawful() && WellFormed(c, s.wal) && !Trusts(c, s) && Storable(c, r)
    ensures !Holds(c, Written(s.wal, Framed(c, r)), Live(c, s) + [r])
  {
    var rs, t := WellFormedReads(c, s.wal);
    WriterLength(c, s.wal.value, rs, r);
  }

  lemma LandsBehind(c: Log, s: Store, fixed: Repaired, op: seq<Byte>, payload: Object)
    requires Acceptable(c, op, payload) && fixed.floor < U64_MAX
    ensures var r := Minted(op, payload, fixed.floor);
            && Storable(c, r) && r.lsn.Some?
            && AppendBehind(c, s, fixed, op, payload, Finished) == Publish(c, s, fixed, r, Framed(c, r), Finished)
            && (fixed.wal.Some? ==>
                  AppendBehind(c, s, fixed, op, payload, Finished).wal == Written(fixed.wal, Framed(c, r)))
  {
    assert Storable(c, Record(op, payload, Some(fixed.floor + 1)));
  }

  /** A completed append yields the log extended by its record if and only if it did not believe a torn log. */
  lemma AppendLands(c: Log, s: Store, op: seq<Byte>, payload: Object)
    requires c.Lawful() && WellFormed(c, s.wal) && Acceptable(c, op, payload)
    ensures RepairAndFloor(c, s).Ok?
    ensures var after, r := Append(c, s, op, payload, Finished), Logging(c, s, op, payload);
            RepairAndFloor(c, s).value.floor < U64_MAX ==>
              (Holds(c, after.wal, Live(c, s) + [r]) <==> Trusts(c, s)) && after.acked == s.acked + [r]
  {
    FloorExact(c, s);
    var fixed, r := RepairAndFloor(c, s).value, Logging(c, s, op, payload);
    if fixed.floor < U64_MAX {
      LandsBehind(c, s, fixed, op, payload);
      if Trusts(c, s) {
        PublishFinished(c, s, Live(c, s), fixed, r);
      } else {
        BlindAppendMisses(c, s, r);
      }
    }
  }

  /** A writer's append, which repairs nothing, lands if and only if the log is intact. */
  lemma WriterAppendLands(c: Log, s: Store, r: Record)
    requires c.Lawful() && WellFormed(c, s.wal) && Storable(c, r) && r.lsn.Some?
    ensures Holds(c, WriterAppend(c, s, r, Finished).wal, Live(c, s) + [r]) <==> Intact(c, s.wal)
  {
    var rs, t := WellFormedReads(c, s.wal);
    if s.wal.Some? { WriterLength(c, s.wal.value, rs, r); }
    if Intact(c, s.wal) {
      IntactHolds(c, s);
      WriteWhole(c, s.wal, rs, r);
    }
  }

  lemma WriterLength(c: Log, data: seq<Byte>, rs: seq<Record>, r: Record)
    requires AllStorable(c, rs) && Storable(c, r)
    ensures data + Framed(c, r) == Bytes(c, rs + [r]) ==> |data| == |Bytes(c, rs)|
  {
    BytesAppend(c, rs, r);
  }

  // ----- Runs without the discipline -----

  /** What the log file accepts under every LSN, in terms of the request alone. */
  predicate Requestable(c: Codec, op: seq<Byte>, payload: Object) {
    && Loggable(op) && LSN_KEY !in payload
    && forall n: nat | n <= U64_MAX :: |op| + 1 + |c.encode(payload[LSN_KEY := UInt(n)])| < TWO_32
  }

  /** Exactly those requests are acceptable. */
  lemma RequestsAreAcceptable(c: Codec, op: seq<Byte>, payload: Object)
    requires c.Sound()
    ensures Acceptable(FileLog(c), op, payload) <==> Requestable(c, op, payload)
  {
    forall n: nat | n <= U64_MAX
      ensures Storable(FileLog(c), Record(op, payload, Some(n))) <==>
              && Loggable(op) && LSN_KEY !in payload
              && |op| + 1 + |c.encode(payload[LSN_KEY := UInt(n)])| < TWO_32
    {
      StorableExactly(c, op, payload, n);
    }
    assert Acceptable(FileLog(c), op, payload) ==> Storable(FileLog(c), Record(op, payload, Some(0)));
  }

  lemma StorableExactly(c: Codec, op: seq<Byte>, payload: Object, n: nat)
    requires c.Sound()
    ensures Storable(FileLog(c), Record(op, payload, Some(n))) <==>
            && Loggable(op) && LSN_KEY !in payload
            && |op| + 1 + |c.encode(payload[LSN_KEY := UInt(n)])| < TWO_32
  {
    BodyRoundTrip(c, Record(op, payload, Some(n)));
  }

  /** A request to a fresh log is acknowledged under LSN 1 and reads back as the only record. */
  lemma FreshRequestLands(c: Codec, op: seq<Byte>, payload: Object)
    requires c.Sound() && Requestable(c, op, payload)
    ensures var after, r := Append(FileLog(c), FRESH, op, payload, Finished), Record(op, payload, Some(1));
            after.acked == [r] && ReadFile(c, after.wal).Ok? && ReadFile(c, after.wal).value.records == [r]
  {
    var log, r := FileLog(c), Record(op, payload, Some(1));
    FileLogLawful(c);
    RequestsAreAcceptable(c, op, payload);
    FreshAppend(log, op, payload);
    OneRecordReads(log, r);
    assert log.read(Some(log.header + Framed(log, r))).value.records == [r];
  }

  lemma FreshAppend(c: Log, op: seq<Byte>, payload: Object)
    requires c.Lawful() && Acceptable(c, op, payload)
    ensures var r := Record(op, payload, Some(1));
            && Storable(c, r)
            && Append(c, FRESH, op, payload, Finished)
               == Store(Some(c.header + Framed(c, r)), Some(Counter(1, Some(HEADER_LEN + |Framed(c, r)|))), 0, {}, [r])
  {
    assert Storable(c, Record(op, payload, Some(1)));
  }

  lemma OneRecordHolds(c: Log, r: Record)
    requires Storable(c, r) && r.lsn.Some?
    ensures Holds(c, Some(c.header + Framed(c, r)), [r])
  {
    var one := [r];
    assert one[..0] == [];
    assert Bytes(c, one) == Bytes(c, one[..0]) + Framed(c, r);
  }

  lemma OneRecordReads(c: Log, r: Record)
    requires c.Lawful() && Storable(c, r) && r.lsn.Some?
    ensures ReadsAs(c, Some(c.header + Framed(c, r)), [r])
  {
    OneRecordHolds(c, r);
    HoldsReads(c, Some(c.header + Framed(c, r)), [r]);
  }

  lemma SingleRecord(c: Log, s: Store, r: Record)
    requires c.Lawful() && Storable(c, r) && r.lsn.Some? && LsnOf(r) > s.applied
    requires s.wal == Some(c.header + Framed(c, r)) && s.acked == [r]
    ensures Inv(c, s) && c.read(s.wal).Ok? && Live(c, s) == [r]
  {
    OneRecordReads(c, r);
  }

  /** Bytes that start like a frame longer than themselves hide whatever follows. */
  lemma SwallowedTail(c: Codec, g: Record, t: seq<Byte>, rest: seq<Byte>)
    requires c.Sound() && Encodable(c, g)
    requires 4 <= |t| && t < Frame(c, g) && |t| + |rest| < |Frame(c, g)|
    ensures ScanBytes(c, HEADER + t + rest) == Ok(Scan([], HEADER_LEN, HEADER_LEN + |t| + |rest|))
  {
    var body := EncodeBody(c, g).value;
    var d := t + rest;
    assert CheckFrame(c, d).Short? by {
      assert |body| % TWO_32 == |body|;
      assert d[..4] == t[..4] == Frame(c, g)[..4] == Be32(|body|);
      Be32RoundTrip(|body|);
    }
    assert Image(c, []) == HEADER;
    assert HEADER + t + rest == HEADER + d;
    ScanFramesThen(c, [], d, HEADER + d);
  }

  /** A crash while recreating the removed log. */
  lemma CrashedAppend(c: Log, s: Store, op: seq<Byte>, g: Object, n: nat)
    requires c.Lawful() && s.wal.None? && s.counter.Some? && s.counter.value.lsn == 1 == s.applied
    requires Acceptable(c, op, g) && n < |Framed(c, Record(op, g, Some(2)))|
    ensures Append(c, s, op, g, InWrite(HEADER_LEN + n))
            == s.(wal := Some(c.header + Framed(c, Record(op, g, Some(2)))[..n]))
  {
    var frame := Framed(c, Record(op, g, Some(2)));
    assert Storable(c, Record(op, g, Some(2)));
    assert (c.header + frame)[..HEADER_LEN + n] == c.header + frame[..n];
  }

  /** The append that trusts the mark writes behind whatever is there. */
  lemma TrustingAppend(c: Log, s: Store, op: seq<Byte>, b: Object)
    requires FastPath(s) && s.counter.value.lsn == 1 == s.applied && Acceptable(c, op, b)
    ensures var after := Append(c, s, op, b, Finished);
            && after.wal == Some(s.wal.value + Framed(c, Record(op, b, Some(2))))
            && after.acked == s.acked + [Record(op, b, Some(2))] && after.folded == s.folded
  {
    assert Storable(c, Record(op, b, Some(2)));
  }

  /** The checkpoint before the crash. */
  lemma FoldedOnce(c: Log, op: seq<Byte>, a: Object) returns (s: Store)
    requires c.Lawful() && Acceptable(c, op, a)
    ensures s == Apply(c, Append(c, FRESH, op, a, Finished), FoldStep(1, 1, true))
    ensures FoldAllowed(c, Append(c, FRESH, op, a, Finished), 1, 1) && Inv(c, s)
    ensures Storable(c, Record(op, a, Some(1)))
    ensures s == Store(None, Some(Counter(1, Some(HEADER_LEN + |Framed(c, Record(op, a, Some(1)))|))), 1,
                       {Record(op, a, Some(1))}, [Record(op, a, Some(1))])
  {
    var ra := Record(op, a, Some(1));
    FreshAppend(c, op, a);
    var s1 := Append(c, FRESH, op, a, Finished);
    SingleRecord(c, s1, ra);
    s := Apply(c, s1, FoldStep(1, 1, true));
    FoldKeeps(c, s1, 1, 1, true);
    assert s.folded == {ra};
  }

  /** What a reader sees of a frame cut after `n` bytes with another frame behind it. */
  ghost predicate Hides(c: Log, g: Record, b: Record, n: nat) {
    && Storable(c, g) && Storable(c, b) && n < |Framed(c, g)|
    && var scan := c.read(Some(c.header + Framed(c, g)[..n] + Framed(c, b)));
       scan.Ok? && scan.value.records == []
  }

  lemma FileLogHides(c: Codec, g: Record, b: Record, n: nat)
    requires c.Sound() && Encodable(c, g) && Encodable(c, b)
    requires 4 <= n && n + |Frame(c, b)| < |Frame(c, g)|
    ensures Hides(FileLog(c), g, b, n)
  {
    SwallowedTail(c, g, Frame(c, g)[..n], Frame(c, b));
  }

  /**
   An append behind a stale mark: after a checkpoint removed the log, a crash that leaves exactly as
   many bytes as the stale mark makes the next append believe a torn log.  Its record is
   acknowledged and then neither folded nor readable.
   */
  lemma LostAppend(c: Log, op: seq<Byte>, a: Object, g: Object, b: Object, n: nat)
    requires c.Lawful() && Acceptable(c, op, a) && Acceptable(c, op, g) && Acceptable(c, op, b)
    requires Storable(c, Record(op, a, Some(1))) && n == |Framed(c, Record(op, a, Some(1)))|
    requires Hides(c, Record(op, g, Some(2)), Record(op, b, Some(2)), n)
    ensures var s2 := Apply(c, Append(c, FRESH, op, a, Finished), FoldStep(1, 1, true));
            var s4 := Append(c, Append(c, s2, op, g, InWrite(HEADER_LEN + n)), op, b, Finished);
            var lost := Record(op, b, Some(2));
            && FoldAllowed(c, Append(c, FRESH, op, a, Finished), 1, 1) && Inv(c, s2)
            && lost in s4.acked && lost !in s4.folded && lost !in Live(c, s4)
    ensures var removed := Follow(Follow(KNOWN, AppendStep(op, a, Finished), true), FoldStep(1, 1, true), false);
            var cut := AppendStep(op, g, InWrite(HEADER_LEN + n));
            Disciplined(removed, cut) && !Disciplined(Follow(removed, cut, false), AppendStep(op, b, Finished))
  {
    var s2 := FoldedOnce(c, op, a);
    CrashedAppend(c, s2, op, g, n);
    TrustingAppend(c, Append(c, s2, op, g, InWrite(HEADER_LEN + n)), op, b);
  }

  lemma WriterRegrows(c: Log, s: Store, r: Record)
    requires c.Lawful() && s.wal.None? && Storable(c, r) && r.lsn.Some?
    ensures WriterAppend(c, s, r, Finished) == s.(wal := Some(c.header + Framed(c, r)), acked := s.acked + [r])
  {
  }

  /** A log of one record the counter does not know of, exactly as long as the mark. */
  lemma Uncovered(c: Log, s: Store, r: Record)
    requires c.Lawful() && Storable(c, r) && r.lsn.Some?
    requires s.wal == Some(c.header + Framed(c, r)) && s.counter == Some(Counter(1, Some(HEADER_LEN + |Framed(c, r)|)))
    requires LsnOf(r) > 1 == s.applied
    ensures FastPath(s) && Live(c, s) == [r]
  {
    OneRecordReads(c, r);
  }

  lemma WriterMayStart(c: Log, s: Store, r: Record)
    requires c.Lawful() && s.wal.None? && s.applied == 1 && Storable(c, r) && r.lsn == Some(2)
    ensures Asked(c, s, WriterStep(r, Finished)) && Intact(c, s.wal)
  {
    assert MaxLsn([]) == 0;
  }

  /**
   The other append behind a stale mark: a writer's record of the same length regrows the removed
   log to it, and the next append mints the writer's LSN again.
   */
  lemma DuplicateLsn(c: Log, op: seq<Byte>, a: Object, w: Object, b: Object)
    requires c.Lawful() && Acceptable(c, op, a) && Acceptable(c, op, b)
    requires Storable(c, Record(op, a, Some(1))) && Storable(c, Record(op, w, Some(2)))
    requires |Framed(c, Record(op, a, Some(1)))| == |Framed(c, Record(op, w, Some(2)))|
    ensures var s2 := Apply(c, Append(c, FRESH, op, a, Finished), FoldStep(1, 1, true));
            var s3 := WriterAppend(c, s2, Record(op, w, Some(2)), Finished);
            && Asked(c, s2, WriterStep(Record(op, w, Some(2)), Finished)) && Intact(c, s2.wal)
            && Live(c, s3) == [Record(op, w, Some(2))]
            && Append(c, s3, op, b, Finished).acked == s2.acked + [Record(op, w, Some(2))] + [Record(op, b, Some(2))]
    ensures var removed := Follow(Follow(KNOWN, AppendStep(op, a, Finished), true), FoldStep(1, 1, true), false);
            var writer := WriterStep(Record(op, w, Some(2)), Finished);
            Disciplined(removed, writer) && !Disciplined(Follow(removed, writer, true), AppendStep(op, b, Finished))
  {
    var rw := Record(op, w, Some(2));
    var s2 := FoldedOnce(c, op, a);
    WriterMayStart(c, s2, rw);
    WriterRegrows(c, s2, rw);
    var s3 := WriterAppend(c, s2, rw, Finished);
    Uncovered(c, s3, rw);
    TrustingAppend(c, s3, op, b);
  }

  lemma FirstAppendCut(c: Log, op: seq<Byte>, g: Object, n: nat)
    requires c.Lawful() && Acceptable(c, op, g) && Storable(c, Record(op, g, Some(1)))
    requires n < |Framed(c, Record(op, g, Some(1)))|
    ensures Append(c, FRESH, op, g, InWrite(HEADER_LEN + n))
            == FRESH.(wal := Some(c.header + Framed(c, Record(op, g, Some(1)))[..n]))
  {
    var frame := Framed(c, Record(op, g, Some(1)));
    assert (c.header + frame)[..HEADER_LEN + n] == c.header + frame[..n];
  }

  lemma EmptyLogAsks(c: Log, s: Store, op: seq<Byte>, g: Record, r: Record, n: nat)
    requires c.Lawful() && Storable(c, g) && n < |Framed(c, g)|
    requires s == FRESH.(wal := Some(c.header + Framed(c, g)[..n]))
    requires Storable(c, r) && r.lsn == Some(1)
    ensures Asked(c, s, WriterStep(r, Finished)) && Live(c, s) == []
  {
    assert Framed(c, g)[..n] < Framed(c, g);
    assert Bytes(c, []) == c.header;
    assert Logged(c, s.wal.value, [], Framed(c, g)[..n]);
    LoggedReads(c, s.wal.value, [], Framed(c, g)[..n]);
  }

  /**
   A writer behind a cut write: the first append to a store crashes in its frame, and a writer, which
   does not repair, then writes behind the torn bytes.  Its record is acknowledged and then neither
   folded nor readable.
   */
  lemma LostWriterRecord(c: Log, op: seq<Byte>, g: Object, w: Object, n: nat)
    requires c.Lawful() && Acceptable(c, op, g)
    requires Hides(c, Record(op, g, Some(1)), Record(op, w, Some(1)), n)
    ensures var s1 := Append(c, FRESH, op, g, InWrite(HEADER_LEN + n));
            var s2 := WriterAppend(c, s1, Record(op, w, Some(1)), Finished);
            var lost := Record(op, w, Some(1));
            && Asked(c, s1, WriterStep(lost, Finished))
            && lost in s2.acked && lost !in s2.folded && lost !in Live(c, s2)
    ensures var cut := AppendStep(op, g, InWrite(HEADER_LEN + n));
            Disciplined(KNOWN, cut)
            && !Disciplined(Follow(KNOWN, cut, false), WriterStep(Record(op, w, Some(1)), Finished))
  {
    var rg, rw := Record(op, g, Some(1)), Record(op, w, Some(1));
    FirstAppendCut(c, op, g, n);
    var s1 := Append(c, FRESH, op, g, InWrite(HEADER_LEN + n));
    EmptyLogAsks(c, s1, op, rg, rw, n);
    assert WriterAppend(c, s1, rw, Finished).wal == Some(c.header + Framed(c, rg)[..n] + Framed(c, rw));
  }
}

/** The log store itself: two segments in one byte array that survives reboots. */
module LogStore {
  import opened MachineTypes
  import opened LogFormat
  import opened LogTape
  import opened LogSpec
  import opened LogSegment

  // ----- The segments -----------------------------------------------------------

  class Ring {
    var base: uint16
    var cap: uint16
    var writePos: uint16
    var readStart: uint16
    var used: uint16
    /** What was appended since the segment was last reset, and how much of it is gone. */
    ghost var tape: Tape

    constructor ()
    {
      base, cap, writePos, readStart, used := 0, 0, 0, 0, 0;
      tape := EMPTY_TAPE;
    }

    method Reset(base: uint16, cap: uint16)
      modifies this
      ensures this.base == base && this.cap == cap
      ensures writePos == readStart == used == 0 && tape == EMPTY_TAPE
    {
      this.base, this.cap := base, cap;
      writePos, readStart, used := 0, 0, 0;
      tape := EMPTY_TAPE;
    }
  }

  class Cursor {
    var segment: Segment
    var recordSegment: Segment
    var pos: uint16
    var remaining: uint16
    var seqAtStart: uint32
    var overrun: bool
    /** The same place as tape indices, frozen once the writer has lapped this reader. */
    ghost var reader: Reader
    ghost var lost: bool

    constructor (pos: uint16, remaining: uint16, seqAtStart: uint32, ghost reader: Reader)
      ensures segment == Boot && recordSegment == Boot && this.pos == pos && this.remaining == remaining
      ensures this.seqAtStart == seqAtStart && !overrun && this.reader == reader && !lost
    {
      segment, recordSegment := Boot, Boot;
      this.pos, this.remaining, this.seqAtStart, overrun := pos, remaining, seqAtStart, false;
      this.reader, lost := reader, false;
    }
  }

  const LS_MAGIC: uint32 := 0x4C4753BB
  const LS_VERSION: uint16 := 2

  class Store {
    const bootCap: uint16
    const rollCap: uint16
    const data: array<byte>
    const boot: Ring
    const roll: Ring

    var magic: uint32
    var version: uint16
    var seqNo: uint32
    var dropped: uint32
    var bootCount: uint32
    var resetReason: uint32
    var captureUntilMs: uint32
    var lastRearmMs: uint32

    /** The memory is there; nothing is said about what it holds. */
    ghost predicate Shape() {
      GoodCap(bootCap) && GoodCap(rollCap) && bootCap + rollCap == data.Length < 0x1_0000 && boot != roll
    }

    /** A ring whose fields are in range; its bytes may be anything. */
    ghost predicate InRange(r: Ring)
      reads r
    {
      && MAX_ENTRY <= r.cap && r.base + r.cap <= data.Length < 0x1_0000
      && r.writePos < r.cap && r.readStart < r.cap && r.used <= r.cap
    }

    ghost function Bytes(r: Ring): (seg: seq<byte>)
      requires r.base + r.cap <= data.Length
      reads r, data
      ensures |seg| == r.cap
    {
      data[r.base..r.base + r.cap]
    }

    /** The ring's fields and bytes are exactly those of its tape. */
    ghost predicate RingOk(r: Ring)
      reads r, data
    {
      InRange(r) && Good(r.cap, Bytes(r), r.writePos, r.readStart, r.used, r.tape)
    }

    /** Any state an accepted region can be in, whatever its bytes. */
    ghost predicate Sane()
      reads this, boot, roll
    {
      && Shape()
      && boot.base == 0 && boot.cap == bootCap && InOrder(boot)
      && roll.base == bootCap && roll.cap == rollCap && InRange(roll)
    }

    /** A linear ring: it fills once from its start. */
    ghost predicate InOrder(r: Ring)
      reads r
    {
      r.base + r.cap <= data.Length < 0x1_0000 && r.readStart == 0 && r.used == r.writePos <= r.cap
    }

    ghost predicate BootRingOk(r: Ring)
      reads r, data
    {
      InOrder(r) && GoodBoot(r.cap, Bytes(r), r.writePos, r.tape)
    }

    /** Every state reachable from a cold start. */
    ghost predicate Ready()
      reads this, boot, roll, data
    {
      && Sane()
      && magic == LS_MAGIC && version == LS_VERSION
      && BootRingOk(boot)
      && RingOk(roll)
      && Cut(roll.tape) && TapeOk(rollCap, roll.tape)
      && dropped == Wrap32(roll.tape.gone)
    }

    ghost function View(): LogSpec.View
      reads this, boot, roll
    {
      LogSpec.View(boot.tape.all, roll.tape, captureUntilMs, lastRearmMs, seqNo)
    }

    constructor (bootCap: uint16, rollCap: uint16)
      requires GoodCap(bootCap) && GoodCap(rollCap) && bootCap + rollCap < 0x1_0000
      ensures Shape() && this.bootCap == bootCap && this.rollCap == rollCap && fresh(boot) && fresh(roll) && fresh(data)
    {
      this.bootCap, this.rollCap := bootCap, rollCap;
      data := new byte[bootCap + rollCap];
      boot := new Ring();
      roll := new Ring();
      magic, version, seqNo, dropped, bootCount, resetReason := 0, 0, 0, 0, 0, 0;
      captureUntilMs, lastRearmMs := 0, 0;
    }

    // ----- Bytes ------------------------------------------------------------------

    /** memcpy into the region. */
    method CopyIn(off: nat, bs: seq<byte>)
      requires off + |bs| <= data.Length
      modifies data
      ensures data[..] == Put(old(data[..]), off, bs)
    {
      var k := 0;
      while k < |bs|
        invariant 0 <= k <= |bs|
        invariant forall i | 0 <= i < data.Length ::
          data[i] == if off <= i < off + k then bs[i - off] else old(data[i])
      {
        data[off + k] := bs[k];
        k := k + 1;
      }
    }

    /** Nothing outside the given stretch of the region changes. */
    twostate predicate OnlySegment(base: nat, cap: nat)
      requires base + cap <= data.Length
      reads data
    {
      data[..base] == old(data[..base]) && data[base + cap..] == old(data[base + cap..])
    }

    method WriteHdr(r: Ring, pos: nat, len: uint16, level: byte, flags: byte, ts: uint32)
      requires r.base + r.cap <= data.Length && pos + HDR <= r.cap
      modifies data
      ensures data[..] == Put(old(data[..]), r.base + pos, Header(len, level, flags, ts))
      ensures Bytes(r) == Put(old(Bytes(r)), pos, Header(len, level, flags, ts)) && OnlySegment(r.base, r.cap)
    {
      CopyIn(r.base + pos, Header(len, level, flags, ts));
      PutSegment(old(data[..]), r.base, r.cap, pos, Header(len, level, flags, ts));
    }

    method PadZeros(off: nat, n: nat)
      requires off + n <= data.Length
      modifies data
      ensures data[..] == Put(old(data[..]), off, Zeros(n))
    {
      var i := 0;
      while i < n
        invariant 0 <= i <= n
        invariant forall j | 0 <= j < data.Length ::
          data[j] == if off <= j < off + i then 0 else old(data[j])
      {
        data[off + i] := 0;
        i := i + 1;
      }
    }

    /** Header, body and zero padding of one record. */
    method WriteRecord(r: Ring, pos: nat, len: uint16, level: byte, flags: byte, ts: uint32, msg: seq<byte>)
      requires r.base + r.cap <= data.Length && len <= MAX_MSG && len <= |msg| && pos + HDR + Pad4(len) <= r.cap
      modifies data
      ensures Bytes(r) == Put(old(Bytes(r)), pos, Encode(Rec(level, flags, ts, msg[..len]))) && OnlySegment(r.base, r.cap)
    {
      hide Put, Encode;
      var off := r.base + pos;
      var need := HDR + RoundUp4(len);
      ghost var d, h, body, pad := data[..], Header(len, level, flags, ts), msg[..len], Zeros(need - HDR - len);
      WriteHdr(r, pos, len, level, flags, ts);
      if len > 0 {
        CopyIn(off + HDR, msg[..len]);
      } else {
        PutNothing(data[..], off + HDR, body);
      }
      PutPut(d, off, h, body);
      PadZeros(off + HDR + len, need - HDR - len);
      PutPut(d, off, h + body, pad);
      EncodeParts(Rec(level, flags, ts, body));
      PutSegment(d, r.base, r.cap, pos, h + body + pad);
    }

    method ReadHdr(r: Ring, pos: nat) returns (len: uint16, level: byte, flags: byte, ts: uint32)
      requires r.base + r.cap <= data.Length && pos + HDR <= r.cap
      ensures len == LenAt(Bytes(r), pos) && level == Bytes(r)[pos + 2]
      ensures flags == Bytes(r)[pos + 3] && ts == TsAt(Bytes(r), pos)
    {
      var off := r.base + pos;
      var lo: int, hi: int := data[off], data[off + 1];
      var b0: int, b1: int, b2: int, b3: int := data[off + 4], data[off + 5], data[off + 6], data[off + 7];
      len, level, flags := lo + 0x100 * hi, data[off + 2], data[off + 3];
      ts := b0 + 0x100 * b1 + 0x1_0000 * b2 + 0x100_0000 * b3;
    }

    method RecordSizeAt(r: Ring, pos: uint16) returns (sz: uint16)
      requires HDR <= r.cap && r.base + r.cap <= data.Length && pos < r.cap
      ensures sz == SizeAt(Bytes(r), pos)
    {
      if pos > r.cap - HDR {
        return r.cap - pos;
      }
      var len, _, flags, _ := ReadHdr(r, pos);
      if HasWrap(flags) {
        return r.cap - pos;
      }
      sz := (HDR + RoundUp4(len)) % 0x1_0000;
    }

    // ----- Appending ----------------------------------------------------------------

    method PopFront(r: Ring, sz: uint16)
      requires InRange(r) && 0 < sz <= r.used
      requires RingOk(r) ==> sz == SizeAt(Bytes(r), r.readStart)
      modifies r
      ensures InRange(r) && r.base == old(r.base) && r.cap == old(r.cap) && r.writePos == old(r.writePos)
      ensures r.used == old(r.used) - sz && r.readStart == (old(r.readStart) + sz) % r.cap
      ensures r.tape == Tape(old(r.tape.all), old(r.tape.gone) + 1)
      ensures old(RingOk(r)) ==> RingOk(r)
    {
      hide Good, SizeAt;
      if RingOk(r) {
        GoodPop(r.cap, Bytes(r), r.writePos, r.readStart, r.used, r.tape);
      }
      r.readStart := (r.readStart + sz) % r.cap;
      r.used := r.used - sz;
      r.tape := Tape(r.tape.all, r.tape.gone + 1);
    }

    /** Drops whole entries from the front until `need` fits. From a well-formed
        ring the salvage reset is never taken: the tape keeps all it has and
        loses no more than it must. */
    method Evict(r: Ring, need: uint16, dropped: uint32) returns (dropped': uint32)
      requires InRange(r) && need <= r.cap
      modifies r
      ensures InRange(r) && r.base == old(r.base) && r.cap == old(r.cap) && r.used + need <= r.cap
      ensures old(RingOk(r)) ==>
                && RingOk(r) && r.writePos == old(r.writePos)
                && r.tape == Tape(old(r.tape.all), Trim(r.cap, old(r.tape.all), old(r.tape.gone), need))
                && dropped' == Lost(dropped, old(r.tape.gone), r.tape.gone)
      ensures r.writePos == old(r.writePos) || r.writePos == 0
    {
      hide Good, SizeAt, Size, Wrap32;
      dropped' := dropped;
      ghost var ok := RingOk(r);
      ghost var all, k0 := r.tape.all, r.tape.gone;
      ghost var n: nat := 0;
      WrapSmall(dropped);
      if ok {
        GoodFacts(r.cap, Bytes(r), r.writePos, r.readStart, r.used, r.tape);
      }
      while r.used + need > r.cap && r.used > 0
        invariant InRange(r) && r.base == old(r.base) && r.cap == old(r.cap) && r.writePos == old(r.writePos)
        invariant ok ==> RingOk(r) && r.tape.all == all && r.tape.gone == k0 + n <= |all|
        invariant ok ==> Trim(r.cap, all, r.tape.gone, need) == Trim(r.cap, all, k0, need)
        invariant ok ==> r.used == Size(all[r.tape.gone..]) && (r.used == 0 ==> r.tape.gone == |all|)
        invariant dropped' == Wrap32(dropped + n)
        decreases r.used
      {
        var sz := RecordSizeAt(r, r.readStart);
        if ok {
          GoodPop(r.cap, Bytes(r), r.writePos, r.readStart, r.used, r.tape);
        }
        if sz == 0 || sz > r.used {
          assert !ok;
          r.Reset(r.base, r.cap);
          return;
        }
        PopFront(r, sz);
        if ok {
          GoodFacts(r.cap, Bytes(r), r.writePos, r.readStart, r.used, r.tape);
        }
        WrapNext(dropped', dropped, n);
        dropped', n := Wrap32(dropped' + 1), n + 1;
      }
    }

    /** Fills the tail that is too short for the next record and goes back to the start. */
    method FillTail(r: Ring, tailGap: uint16, ghost ok: bool)
      requires InRange(r) && 0 < tailGap && r.used + tailGap <= r.cap && r.writePos + tailGap <= r.cap
      requires ok ==> RingOk(r) && r.writePos + tailGap == r.cap && tailGap < MAX_ENTRY
      modifies r, data
      ensures InRange(r) && r.base == old(r.base) && r.cap == old(r.cap)
      ensures r.writePos == 0 && r.used == old(r.used) + tailGap && OnlySegment(r.base, r.cap)
      ensures r.tape == Tape(old(r.tape.all) + [Filler(tailGap)], old(r.tape.gone))
      ensures ok ==> RingOk(r)
    {
      hide Good, Put, Header;
      ghost var seg, w, t := Bytes(r), r.writePos, r.tape;
      ghost var bs := if tailGap >= HDR then Header(0, 0, FLAG_WRAP, 0) else [];
      if tailGap >= HDR {
        WriteHdr(r, r.writePos, 0, 0, FLAG_WRAP, 0);
      } else {
        PutNothing(seg, w, bs);
      }
      if ok {
        GoodFill(r.cap, seg, w, r.readStart, r.used, t, bs);
      }
      r.used := r.used + tailGap;
      r.writePos := 0;
      r.tape := Tape(t.all + [Filler(tailGap)], t.gone);
    }

    /** Writes a record that fits behind the live bytes. */
    method PlaceRecord(r: Ring, level: byte, flags: byte, ts: uint32, msg: seq<byte>, len: uint16, ghost ok: bool)
      requires InRange(r) && len <= MAX_MSG && len <= |msg|
      requires r.used + HDR + Pad4(len) <= r.cap && r.writePos + HDR + Pad4(len) <= r.cap
      requires ok ==> RingOk(r) && !HasWrap(flags)
      modifies r, data
      ensures InRange(r) && r.base == old(r.base) && r.cap == old(r.cap) && OnlySegment(r.base, r.cap)
      ensures r.tape == Pushed(old(r.tape), Rec(level, flags, ts, msg[..len]))
      ensures ok ==> RingOk(r)
    {
      hide Good, Put, Encode, Pad4, RoundUp4;
      RoundUpSmall(len);
      var need := HDR + RoundUp4(len);
      ghost var seg, w, t, rec := Bytes(r), r.writePos, r.tape, Rec(level, flags, ts, msg[..len]);
      WriteRecord(r, r.writePos, len, level, flags, ts, msg);
      if ok {
        GoodPlace(r.cap, seg, w, r.readStart, r.used, t, rec);
      }
      r.writePos := (r.writePos + need) % r.cap;
      r.used := r.used + need;
      r.tape := Pushed(t, rec);
    }

    /** Evicts what lies in the tail and turns the tail into filler. */
    method GiveUpTail(r: Ring, dropped: uint32) returns (dropped': uint32)
      requires InRange(r) && r.cap - r.writePos < MAX_ENTRY
      modifies r, data
      ensures InRange(r) && r.base == old(r.base) && r.cap == old(r.cap) && OnlySegment(r.base, r.cap)
      ensures r.writePos == 0
      ensures old(RingOk(r)) ==>
                && RingOk(r)
                && var gap, t := r.cap - old(r.writePos), old(r.tape);
                  (r.tape == Tape(t.all + [Filler(gap)], Trim(r.cap, t.all, t.gone, gap))
                   && dropped' == Lost(dropped, t.gone, r.tape.gone))
    {
      hide Good, Trim, Lost;
      var tailGap := r.cap - r.writePos;
      ghost var ok := RingOk(r);
      dropped' := Evict(r, tailGap, dropped);
      FillTail(r, tailGap, ok);
    }

    /** Makes `need` contiguous bytes free at the write position, giving up the
        tail if it is too short. */
    method MakeRoom(r: Ring, need: uint16, dropped: uint32) returns (dropped': uint32)
      requires InRange(r) && 0 < need <= MAX_ENTRY
      modifies r, data
      ensures InRange(r) && r.base == old(r.base) && r.cap == old(r.cap) && OnlySegment(r.base, r.cap)
      ensures r.used + need <= r.cap && r.writePos + need <= r.cap
      ensures old(RingOk(r)) ==>
                && RingOk(r) && r.tape == Cleared(r.cap, old(r.tape), need)
                && dropped' == Lost(dropped, old(r.tape.gone), r.tape.gone)
    {
      hide Good, Trim, Lost, TapeFits, Bytes, Placed, Size, Live;
      ghost var ok, k := RingOk(r), r.tape.gone;
      if ok {
        GoodFacts(r.cap, Bytes(r), r.writePos, r.readStart, r.used, r.tape);
      }
      dropped' := dropped;
      LostNone(dropped, k);
      if r.cap - r.writePos < need {
        dropped' := GiveUpTail(r, dropped');
      }
      ghost var k1 := r.tape.gone;
      dropped' := Evict(r, need, dropped');
      if ok {
        LostTwice(dropped, k, k1, r.tape.gone);
      }
    }

    /** Appends to a circular ring, evicting its oldest entries as needed. */
    method AppendCircular(r: Ring, level: byte, flags: byte, ts: uint32, msg: seq<byte>, len: uint16, dropped: uint32)
      returns (dropped': uint32)
      requires InRange(r) && len <= MAX_MSG && len <= |msg|
      modifies r, data
      ensures InRange(r) && r.base == old(r.base) && r.cap == old(r.cap) && OnlySegment(r.base, r.cap)
      ensures old(RingOk(r)) && !HasWrap(flags) ==>
                && RingOk(r)
                && r.tape == Appended(r.cap, old(r.tape), Rec(level, flags, ts, msg[..len]))
                && dropped' == Lost(dropped, old(r.tape.gone), r.tape.gone)
    {
      hide Good, Cleared, Appended, End, Lost, TapeFits, HasWrap, Pad4, RoundUp4;
      RoundUpSmall(len);
      ghost var ok, rec := RingOk(r) && !HasWrap(flags), Rec(level, flags, ts, msg[..len]);
      if ok {
        GoodFacts(r.cap, Bytes(r), r.writePos, r.readStart, r.used, r.tape);
        SameEviction(r.cap, r.tape, rec);
      }
      dropped' := MakeRoom(r, HDR + RoundUp4(len), dropped);
      PlaceRecord(r, level, flags, ts, msg, len, ok);
    }

    /** Appends to the linear boot segment; refuses when the record does not fit.
        Bytes already written are never touched. */
    method AppendBoot(r: Ring, level: byte, flags: byte, ts: uint32, msg: seq<byte>, len: uint16) returns (stored: bool)
      requires InOrder(r) && len <= MAX_MSG && len <= |msg|
      modifies r, data
      ensures InOrder(r) && r.base == old(r.base) && r.cap == old(r.cap) && OnlySegment(r.base, r.cap)
      ensures stored <==> old(r.writePos) + HDR + Pad4(len) <= r.cap
      ensures old(r.used) <= r.used && Bytes(r)[..old(r.used)] == old(Bytes(r)[..r.used])
      ensures !stored ==> unchanged(r) && unchanged(data)
      ensures stored && old(BootRingOk(r)) && !HasWrap(flags) ==>
                BootRingOk(r) && r.tape == Pushed(old(r.tape), Rec(level, flags, ts, msg[..len]))
    {
      hide GoodBoot, Put, Encode, HasWrap, Pad4, RoundUp4;
      RoundUpSmall(len);
      var need := HDR + RoundUp4(len);
      if r.writePos + need > r.cap {
        return false;
      }
      ghost var seg, w, t, rec := Bytes(r), r.writePos, r.tape, Rec(level, flags, ts, msg[..len]);
      WriteRecord(r, r.writePos, len, level, flags, ts, msg);
      PutFacts(seg, w, Encode(rec));
      if old(BootRingOk(r)) && !HasWrap(flags) {
        GoodBootPlace(r.cap, seg, w, t, rec);
      }
      r.writePos := r.writePos + need;
      r.used := r.writePos;
      r.tape := Pushed(t, rec);
      stored := true;
    }

    // ----- Storing a line -------------------------------------------------------------

    method KeepInBoot(level: byte, flags: byte, ts: uint32, msg: seq<byte>, len: uint16) returns (stored: bool)
      requires Sane() && len <= MAX_MSG && len <= |msg| && !HasWrap(flags)
      modifies boot, data
      ensures Sane()
      ensures old(boot.used) <= boot.used && data[..old(boot.used)] == old(data[..boot.used])
      ensures !stored ==> unchanged(boot) && unchanged(data)
      ensures old(Ready()) ==>
                && Ready()
                && stored == (Size(old(boot.tape.all)) + SizeOf(Record(Rec(level, flags, ts, msg[..len]))) <= bootCap)
                && boot.tape.all == old(boot.tape.all) + if stored then [Record(Rec(level, flags, ts, msg[..len]))] else []
    {
      hide Good, HasWrap, Pad4, TapeOk, Laid, Placed, Size;
      ghost var d, n := data[..], boot.used;
      stored := AppendBoot(boot, level, flags, ts, msg, len);
      SliceOutside(d, data[..], 0, bootCap, bootCap, bootCap + rollCap);
      SliceOfSlice(data[..], 0, bootCap, 0, n);
      SliceOfSlice(d, 0, bootCap, 0, n);
    }

    method KeepInRolling(level: byte, flags: byte, ts: uint32, msg: seq<byte>, len: uint16)
      requires Sane() && len <= MAX_MSG && len <= |msg| && !HasWrap(flags)
      modifies this`dropped, roll, data
      ensures Sane()
      ensures data[..bootCap] == old(data[..bootCap])
      ensures old(Ready()) ==>
                Ready() && roll.tape == Appended(rollCap, old(roll.tape), Rec(level, flags, ts, msg[..len]))
    {
      hide Good, GoodBoot, HasWrap, Pad4, Laid, Placed, Size, Trim, Added, Lost, Wrap32;
      ghost var d, ok, t, rec := data[..], Ready(), roll.tape, Rec(level, flags, ts, msg[..len]);
      dropped := AppendCircular(roll, level, flags, ts, msg, len, dropped);
      SliceOutside(d, data[..], bootCap, rollCap, 0, bootCap);
      if ok {
        AppendKeepsTape(rollCap, t, rec);
        LostWraps(t.gone, roll.tape.gone);
      }
    }

    /** The critical section of a write: the record goes to the boot segment in
        the boot window if it fits there, else to the rolling segment. */
    method KeepRecord(level: byte, flags: byte, ts: uint32, msg: seq<byte>, len: uint16)
      requires Sane() && len <= MAX_MSG && len <= |msg| && !HasWrap(flags)
      modifies this`seqNo, this`dropped, boot, roll, data
      ensures Sane()
      ensures old(boot.used) <= boot.used && data[..old(boot.used)] == old(data[..boot.used])
      ensures old(Ready()) ==>
                Ready() && View() == Keep(bootCap, rollCap, old(View()), Rec(level, flags, ts, msg[..len]))
    {
      hide Good, GoodBoot, Appended, Wrap32, HasWrap, Pad4, TapeOk, Size, SizeOf;
      var stored := false;
      if ts < BOOT_WINDOW_MS {
        stored := KeepInBoot(level, flags, ts, msg, len);
      }
      if !stored {
        KeepInRolling(level, flags, ts, msg, len);
      }
      seqNo := Wrap32(seqNo + 1);
    }

    method ShouldCapture(level: byte, now: uint32) returns (b: bool)
      ensures b <==> Captures(View(), level, now)
    {
      if level <= WARN {
        return true;
      }
      if now < BOOT_WINDOW_MS {
        return true;
      }
      b := now < captureUntilMs;
    }

    /** Takes one log line. */
    method Sink(level: byte, message: Option<seq<byte>>, ts: uint32)
      requires Sane()
      modifies this`seqNo, this`dropped, this`captureUntilMs, this`lastRearmMs, boot, roll, data
      ensures Sane()
      ensures old(boot.used) <= boot.used && data[..old(boot.used)] == old(data[..boot.used])
      ensures old(Ready()) ==> Ready() && View() == SinkStep(bootCap, rollCap, old(View()), level, message, ts)
    {
      hide Good, GoodBoot, Keep, Wrap32, TapeOk;
      if message.None? {
        return;
      }
      var capture := ShouldCapture(level, ts);
      if capture {
        var len: uint16 := |message.value| % 0x1_0000;
        var flags: byte := 0;
        if len > MAX_MSG {
          len := MAX_MSG;
          flags := FLAG_TRUNCATED;
        }
        KeepRecord(level, flags, ts, message.value, len);
      }
      if level == ERROR && (ts - lastRearmMs) % 0x1_0000_0000 >= REARM_MIN_GAP_MS {
        lastRearmMs := ts;
        captureUntilMs := Wrap32(ts + ERROR_WINDOW_MS);
      }
    }

    // ----- Booting -----------------------------------------------------------------------

    /** The test a surviving region has to pass. */
    predicate Accepts()
      reads this, boot, roll
    {
      && magic == LS_MAGIC && version == LS_VERSION
      && boot.base == 0 && boot.cap == bootCap && roll.base == bootCap && roll.cap == rollCap
      && boot.writePos <= bootCap && boot.used <= bootCap
      && roll.writePos < rollCap && roll.readStart < rollCap && roll.used <= rollCap
    }

    /** Writes this session's boot line into both segments. */
    method WriteMarkers(text: seq<byte>)
      requires Sane()
      modifies this`seqNo, this`dropped, this`captureUntilMs, this`lastRearmMs, boot, roll, data
      ensures Sane()
      ensures old(Ready()) && old(View()).(roll := COLD.roll, stored := 0) == COLD ==>
                Ready() && View() == BeginStep(rollCap, old(View()), text)
    {
      hide Good, GoodBoot, Wrap32, Appended;
      var marker := Marker(text);
      ghost var v := View();
      if Ready() && v.(roll := COLD.roll, stored := 0) == COLD {
        MarkerKept(bootCap, rollCap, v, text);
      }
      Sink(INFO, Some(marker), 0);
      KeepInRolling(INFO, FLAG_BOOT, 0, marker, |marker|);
      seqNo := Wrap32(seqNo + 1);
    }

    /** Decides whether the region survived, and empties what must not. */
    method Revalidate()
      requires Shape()
      modifies this, boot, roll
      ensures Sane()
      ensures old(Ready()) ==>
                && Ready() && View() == COLD.(roll := old(roll.tape), stored := old(seqNo))
                && bootCount == Wrap32(old(bootCount) + 1)
      ensures !old(Accepts()) ==> Ready() && View() == COLD && bootCount == 1
      ensures old(Accepts()) ==> bootCount == Wrap32(old(bootCount) + 1)
    {
      hide Good, GoodBoot, Wrap32, TapeOk;
      GoodEmpty(rollCap, data[bootCap..bootCap + rollCap]);
      GoodEmpty(bootCap, data[0..bootCap]);
      WrapSmall(0);
      var valid := Accepts();
      if !valid {
        magic, version := LS_MAGIC, LS_VERSION;
        seqNo, dropped, bootCount := 0, 0, 1;
        roll.Reset(bootCap, rollCap);
      } else {
        bootCount := Wrap32(bootCount + 1);
      }
      boot.Reset(0, bootCap);
      captureUntilMs, lastRearmMs := 0, 0;
    }

    /** Starts a session on whatever the memory holds. */
    method Begin(reason: uint32, text: seq<byte>)
      requires Shape()
      modifies this, boot, roll, data
      ensures Sane() && resetReason == reason
      ensures old(Ready()) ==>
                Ready() && View() == BeginStep(rollCap, old(View()), text) && bootCount == Wrap32(old(bootCount) + 1)
      ensures !old(Accepts()) ==> Ready() && View() == BeginStep(rollCap, COLD, text) && bootCount == 1
      ensures old(Accepts()) ==> bootCount == Wrap32(old(bootCount) + 1)
      ensures old(magic) != 0x4C4753BB || old(version) != 2 ==>
                Ready() && View() == BeginStep(rollCap, COLD, text) && bootCount == 1
      ensures old(boot.base != 0 || boot.cap != bootCap || roll.base != bootCap || roll.cap != rollCap
                  || boot.writePos > bootCap || boot.used > bootCap
                  || roll.writePos >= rollCap || roll.readStart >= rollCap || roll.used > rollCap) ==>
                Ready() && View() == BeginStep(rollCap, COLD, text) && bootCount == 1
    {
      hide Good, GoodBoot, Wrap32, TapeOk, Appended;
      Revalidate();
      resetReason := reason;
      WriteMarkers(text);
    }

    // ----- Reading --------------------------------------------------------------------------

    function RingOf(segment: Segment): Ring {
      if segment.Boot? then boot else roll
    }

    /** The cursor's fields are in range for the segment it walks. */
    ghost predicate CursorInRange(c: Cursor)
      reads this, boot, roll, c
    {
      c.segment.Done? || c.pos < RingOf(c.segment).cap
    }

    /** The cursor stands exactly where its tape indices say. */
    ghost predicate Tracks(c: Cursor)
      reads this, boot, roll, c
    {
      && c.segment == c.reader.segment && ReaderOk(View(), c.reader)
      && (!c.segment.Done? ==>
            && 0 < RingOf(c.segment).cap
            && c.remaining == Size(Unread(View(), c.reader))
            && c.pos == End(RingOf(c.segment).cap, 0, Source(View(), c.segment)[..c.reader.idx]))
    }

    /** Every cursor of a run: it tracks its snapshot, or the writer has evicted
        an entry it still owed; overrun is only ever reported in the second case. */
    ghost predicate CursorOk(c: Cursor)
      requires Sane()
      reads this, boot, roll, c
    {
      && CursorInRange(c) && ReaderOk(View(), c.reader)
      && (if c.lost then Lapped(View(), c.reader) else Tracks(c) && !c.overrun)
    }

    method OpenRead() returns (c: Cursor)
      requires Sane()
      ensures fresh(c) && CursorInRange(c) && !c.overrun && c.seqAtStart == seqNo
      ensures Ready() ==> CursorOk(c) && !c.lost && c.reader == OpenReader(View())
    {
      hide Laid, Placed, Size, End, Good;
      c := new Cursor(boot.readStart, boot.used, seqNo, OpenReader(View()));
      StartsAtZero(bootCap, boot.tape.all);
    }

    /** memcpy out of the region; past its end, whatever memory holds there. */
    method CopyOut(off: nat, len: nat, beyond: nat -> byte) returns (bs: seq<byte>)
      ensures |bs| == len
      ensures off + len <= data.Length ==> bs == data[..][off..off + len]
    {
      bs := [];
      while |bs| < len
        invariant |bs| <= len
        invariant forall i | 0 <= i < |bs| && off + i < data.Length :: bs[i] == data[off + i]
      {
        var i := off + |bs|;
        bs := bs + [if i < data.Length then data[i] else beyond(i)];
      }
    }

    method ReadBody(r: Ring, pos: nat, len: nat, beyond: nat -> byte) returns (bs: seq<byte>)
      requires r.base + r.cap <= data.Length
      ensures |bs| == len
      ensures pos + len <= r.cap ==> bs == Bytes(r)[pos..pos + len]
    {
      bs := CopyOut(r.base + pos, len, beyond);
      if pos + len <= r.cap {
        SliceOfSlice(data[..], r.base, r.base + r.cap, pos, pos + len);
      }
    }

    /** Reads whatever bytes lie at the cursor and moves past them. */
    method ReadRaw(c: Cursor, r: Ring, beyond: nat -> byte) returns (rec: Option<Rec>)
      requires HDR <= r.cap && r.base + r.cap <= data.Length < 0x1_0000 && c.pos < r.cap && 0 < c.remaining
      modifies c`pos, c`remaining
      ensures c.pos < r.cap && c.remaining < old(c.remaining)
      ensures rec.Some? ==> |rec.value.body| <= MAX_MSG
      ensures var e := ReadAt(Bytes(r), old(c.pos));
              var sz := SizeAt(Bytes(r), old(c.pos));
              e.Some? ==>
                && rec == (if e.value.Record? then Some(e.value.rec) else None)
                && c.pos == (old(c.pos) + sz) % r.cap
                && c.remaining == if old(c.remaining) > sz then old(c.remaining) - sz else 0
    {
      hide LenAt, TsAt, HasWrap, Pad4, RoundUp4, ReadAt, SizeAt, Bytes;
      var pos := c.pos;
      rec := None;
      RawEntry(Bytes(r), pos);
      if pos > r.cap - HDR {
        SkipTail(c, r);
        return;
      }
      var len, level, flags, ts := ReadHdr(r, pos);
      if HasWrap(flags) {
        SkipTail(c, r);
        return;
      }
      if len > MAX_MSG {
        c.remaining := 0;
        return;
      }
      RoundUpSmall(len);
      var sz := HDR + RoundUp4(len);
      var body := ReadBody(r, pos + HDR, len, beyond);
      c.pos := (pos + sz) % r.cap;
      c.remaining := if c.remaining > sz then c.remaining - sz else 0;
      rec := Some(Rec(level, flags, ts, body));
    }

    method SkipTail(c: Cursor, r: Ring)
      requires c.pos < r.cap && 0 < c.remaining
      modifies c`pos, c`remaining
      ensures c.pos == 0 == (old(c.pos) + (r.cap - old(c.pos))) % r.cap
      ensures c.remaining == (if old(c.remaining) > r.cap - old(c.pos) then old(c.remaining) - (r.cap - old(c.pos)) else 0)
      ensures c.remaining < old(c.remaining)
    {
      var sz := r.cap - c.pos;
      c.remaining := if c.remaining > sz then c.remaining - sz else 0;
      AdvanceIsMod(r.cap, c.pos, sz);
      c.pos := 0;
    }

    /** This reader's snapshot is intact from its place on. */
    ghost predicate Clean(c: Cursor)
      reads this, boot, roll, data, c
    {
      Ready() && CursorInRange(c) && Tracks(c) && !c.overrun && !c.lost && !Lapped(View(), c.reader)
    }

    /** Where a tracking cursor stands, and what its next entry looks like. */
    lemma AtCursor(c: Cursor)
      requires Clean(c) && !c.segment.Done?
      ensures c.remaining == 0 <==> c.reader.idx == c.reader.end
      ensures c.remaining <= RingOf(c.segment).used
      ensures c.remaining > 0 ==>
                var r, es, idx := RingOf(c.segment), Source(View(), c.segment), c.reader.idx;
                && ReadAt(Bytes(r), c.pos) == Some(es[idx])
                && SizeAt(Bytes(r), c.pos) == SizeOf(es[idx]) <= c.remaining
                && End(r.cap, 0, es[..idx + 1]) == (c.pos + SizeOf(es[idx])) % r.cap
                && Size(es[idx + 1..c.reader.end]) == c.remaining - SizeOf(es[idx])
    {
      hide Good, GoodBoot, Size, End, Laid, Placed, ReadAt, SizeAt, SizeOf, TapeFits, TapeOk;
      if c.segment.Boot? {
        BootAsTape(bootCap, Bytes(boot), boot.writePos, boot.tape);
        AtTape(bootCap, Bytes(boot), boot.tape, c.reader.idx, c.reader.end, c.pos, c.remaining);
      } else {
        GoodFacts(rollCap, Bytes(roll), roll.writePos, roll.readStart, roll.used, roll.tape);
        AtTape(rollCap, Bytes(roll), roll.tape, c.reader.idx, c.reader.end, c.pos, c.remaining);
      }
    }

    /** Reads whatever lies at the cursor, in step with its tape indices. */
    method ReadOne(c: Cursor, beyond: nat -> byte) returns (rec: Option<Rec>)
      requires Sane() && CursorInRange(c) && !c.segment.Done? && 0 < c.remaining
      modifies c`pos, c`remaining, c`reader
      ensures CursorInRange(c) && c.remaining < old(c.remaining)
      ensures rec.Some? ==> |rec.value.body| <= MAX_MSG
      ensures old(Clean(c)) ==>
                && Clean(c) && c.reader == old(c.reader).(idx := old(c.reader.idx) + 1)
                && rec == EntryRecord(Source(View(), c.segment)[old(c.reader.idx)])
      ensures !old(Clean(c)) ==> c.reader == old(c.reader)
    {
      hide Good, GoodBoot, Size, SizeOf, End, ReadAt, SizeAt, TapeOk, Bytes;
      ghost var clean := Clean(c);
      if clean {
        AtCursor(c);
      }
      rec := ReadRaw(c, RingOf(c.segment), beyond);
      if clean {
        c.reader := c.reader.(idx := c.reader.idx + 1);
      }
    }

    /** Goes from the boot segment to the rolling one, taking its snapshot, and then to the end. */
    method NextSegment(c: Cursor)
      requires Sane() && CursorInRange(c) && !c.segment.Done?
      modifies c`segment, c`pos, c`remaining, c`reader
      ensures CursorInRange(c) && Rank(c.segment) == Rank(old(c.segment)) - 1
      ensures old(Clean(c)) ==>
                && Clean(c)
                && c.reader == if old(c.segment).Boot? then Reader(Rolling, roll.tape.gone, |roll.tape.all|) else Reader(Done, 0, 0)
      ensures !old(Clean(c)) ==> c.reader == old(c.reader)
    {
      hide Good, GoodBoot, Size, End, TapeOk;
      ghost var clean := Clean(c);
      if c.segment.Boot? {
        if clean {
          GoodFacts(rollCap, Bytes(roll), roll.writePos, roll.readStart, roll.used, roll.tape);
          GoodStart(rollCap, Bytes(roll), roll.writePos, roll.readStart, roll.used, roll.tape);
          c.reader := Reader(Rolling, roll.tape.gone, |roll.tape.all|);
        }
        c.segment := Rolling;
        c.pos := roll.readStart;
        c.remaining := roll.used;
      } else {
        c.segment := Done;
        if clean {
          c.reader := Reader(Done, 0, 0);
        }
      }
    }

    /** One turn of the read loop. */
    method Turn(c: Cursor, beyond: nat -> byte) returns (rec: Option<Rec>)
      requires Sane() && CursorInRange(c) && !c.segment.Done?
      modifies c
      ensures CursorInRange(c) && c.lost == old(c.lost)
      ensures Rank(c.segment) < Rank(old(c.segment)) || (c.segment == old(c.segment) && c.remaining < old(c.remaining))
      ensures rec.Some? ==> |rec.value.body| <= MAX_MSG && c.recordSegment == c.segment
      ensures c.overrun == (old(c.overrun) || RingOf(old(c.segment)).used < old(c.remaining))
      ensures old(c.remaining) == 0 ==> rec == None
      ensures RingOf(old(c.segment)).used < old(c.remaining) ==> rec == None && c.remaining == 0
      ensures old(Clean(c)) ==>
                && Clean(c)
                && ReadStep(View(), old(c.reader)) == (if rec.None? then ReadStep(View(), c.reader) else (c.reader, rec))
      ensures !old(Clean(c)) ==> c.reader == old(c.reader)
    {
      hide Good, GoodBoot, Size, SizeOf, End, TapeOk, Bytes, ReadAt, SizeAt;
      rec := None;
      if Clean(c) {
        AtCursor(c);
      }
      if c.remaining == 0 {
        NextSegment(c);
      } else if RingOf(c.segment).used < c.remaining {
        c.overrun := true;
        c.remaining := 0;
      } else {
        rec := ReadOne(c, beyond);
        if rec.Some? {
          c.recordSegment := c.segment;
        }
      }
    }

    /** The next line of a reader. For a reader that is not lapped this is
        exactly one read of its snapshot. For one the writer has just lapped,
        overrun is raised exactly when less is live than the snapshot still owes. */
    method Next(c: Cursor, outSize: nat, beyond: nat -> byte) returns (rec: Option<Rec>)
      requires Sane() && CursorInRange(c)
      modifies c
      ensures CursorInRange(c)
      ensures rec.Some? ==> |rec.value.body| <= MAX_MSG && c.recordSegment == c.segment
      ensures rec.Some? ==> Rank(c.segment) < Rank(old(c.segment)) || (c.segment == old(c.segment) && c.remaining < old(c.remaining))
      ensures outSize < 2 ==> rec == None && unchanged(c)
      ensures Ready() && old(CursorOk(c)) ==> CursorOk(c)
      ensures Ready() && old(CursorOk(c)) && old(c.lost) ==> c.lost && c.reader == old(c.reader)
      ensures outSize >= 2 && old(Clean(c)) ==> Clean(c) && (c.reader, rec) == ReadStep(View(), old(c.reader))
      ensures outSize >= 2 && Ready() && old(CursorOk(c)) && !old(c.lost) && Lapped(View(), old(c.reader)) ==>
                && c.lost && c.reader == old(c.reader)
                && (c.overrun <==> roll.used < old(c.remaining))
                && (c.overrun ==> rec == None && c.segment.Done?)
    {
      hide Good, GoodBoot, Size, SizeOf, End, TapeOk, Bytes, ReadAt, SizeAt;
      rec := None;
      if outSize < 2 {
        return;
      }
      ghost var rd0, rem0 := c.reader, c.remaining;
      ghost var ok, clean := Ready() && CursorOk(c), Clean(c);
      ghost var lapping := ok && !c.lost && Lapped(View(), rd0);
      if lapping {
        c.lost := true;
      }
      while !c.segment.Done? && rec.None?
        invariant CursorInRange(c)
        invariant rec.Some? ==> |rec.value.body| <= MAX_MSG && c.recordSegment == c.segment
        invariant Rank(c.segment) < Rank(old(c.segment)) || (c.segment == old(c.segment) && c.remaining <= old(c.remaining))
        invariant rec.Some? && c.segment == old(c.segment) ==> c.remaining < old(c.remaining)
        invariant ok && !clean ==> c.lost && c.reader == rd0
        invariant lapping && roll.used < rem0 ==>
                    && rec.None?
                    && if c.overrun then c.segment.Done? || c.remaining == 0
                       else c.segment.Rolling? && c.remaining == rem0
        invariant lapping && roll.used >= rem0 ==>
                    !c.overrun && (c.segment.Done? || (c.segment.Rolling? && c.remaining <= rem0))
        invariant clean ==> Clean(c)
        invariant clean ==> ReadStep(View(), rd0) == (if rec.None? then ReadStep(View(), c.reader) else (c.reader, rec))
        decreases Rank(c.segment), c.remaining
      {
        rec := Turn(c, beyond);
      }
    }

    // ----- What a reachable region is --------------------------------------------------------

    /** A reboot never wipes a region that a run of the code left behind. */
    lemma ReachableIsAccepted()
      requires Ready()
      ensures Accepts()
    {
    }

    /** Decoding the raw rolling bytes, with no knowledge of what was written,
        gives exactly the entries not yet evicted, bytes intact. */
    lemma RollingBytesDecode()
      requires Ready()
      ensures Walk(Bytes(roll), roll.readStart, roll.used) == Live(roll.tape)
      ensures (roll.readStart + roll.used) % roll.cap == roll.writePos
      ensures roll.readStart % 4 == roll.writePos % 4 == 0
      ensures NewestOf(Records(Walk(Bytes(roll), roll.readStart, roll.used)), Records(roll.tape.all))
    {
      hide Laid, Walk, Size, Placed, Records;
      var t := roll.tape;
      WalkReads(Bytes(roll), roll.readStart, Live(t));
      LivePlaced(rollCap, t);
      AdvanceIsMod(rollCap, roll.readStart, roll.used);
      assert t.all == t.all[..t.gone] + Live(t);
      PlacedPrefix(rollCap, 0, t.all[..t.gone], Live(t));
      EndAligned(rollCap, 0, t.all[..t.gone]);
      EndAligned(rollCap, 0, t.all);
      LiveIsSuffix(t);
    }

    lemma BootBytesDecode()
      requires Ready()
      ensures Walk(Bytes(boot), 0, boot.used) == boot.tape.all
    {
      WalkReads(Bytes(boot), 0, boot.tape.all);
    }

    /** Conservation since the last cold start: records given to the rolling
        segment plus fillers equals live entries plus the eviction counter
        (in 32-bit arithmetic); at most one of the live entries is a filler.
        The counter overstates the records lost by the fillers lost, and is right
        exactly when there are none (in 32-bit arithmetic). */
    lemma DroppedCounts()
      requires Ready()
      ensures var es := Walk(Bytes(roll), roll.readStart, roll.used);
              && |Records(roll.tape.all)| + Fillers(roll.tape.all) == |es| + roll.tape.gone
              && dropped == Wrap32(|Records(roll.tape.all)| + Fillers(roll.tape.all) - |es|)
              && Fillers(es) <= 1
      ensures var lost := roll.tape.all[..roll.tape.gone];
              && dropped == Wrap32(|Records(lost)| + Fillers(lost))
              && (dropped == Wrap32(|Records(lost)|) <==> Fillers(lost) % 0x1_0000_0000 == 0)
    {
      hide Walk, Size, Laid;
      RollingBytesDecode();
      Conservation(roll.tape);
      WrapSame(|Records(roll.tape.all[..roll.tape.gone])|, Fillers(roll.tape.all[..roll.tape.gone]));
      LivePlaced(rollCap, roll.tape);
      OneFiller(rollCap, roll.readStart, Live(roll.tape));
    }

    /** A cursor stays as good as it was across any write. */
    twostate lemma CursorSurvivesSink(c: Cursor, level: byte, msg: Option<seq<byte>>, ts: uint32)
      requires old(Ready()) && old(CursorOk(c)) && unchanged(c)
      requires Ready() && View() == SinkStep(bootCap, rollCap, old(View()), level, msg, ts)
      ensures CursorOk(c)
    {
      hide SinkStep, End, Size, Unread, Good, GoodBoot, TapeOk, Bytes;
      WriteKeepsReader(bootCap, rollCap, old(View()), level, msg, ts, c.reader);
    }
  }
}

/** The log store on tapes: what each operation does to the two segments and to
    the capture window, and what a reader sees. */
module LogSpec {
  import opened MachineTypes
  import opened LogFormat
  import opened LogTape

  const ERROR: byte := 0
  const WARN: byte := 1
  const INFO: byte := 2

  const BOOT_WINDOW_MS: nat := 60000
  const ERROR_WINDOW_MS: nat := 10000
  const REARM_MIN_GAP_MS: nat := 60000

  /** The store: the boot segment's entries, the rolling tape, the capture window
      and the count of stored records (in 32-bit arithmetic). */
  datatype View = View(boot: seq<Entry>, roll: Tape, until: uint32, lastRearm: uint32, stored: uint32)

  predicate Captures(v: View, level: byte, now: uint32) {
    level <= WARN || now < BOOT_WINDOW_MS || now < v.until
  }

  /** The record a message becomes. Its length is taken in 16 bits first. */
  function Clipped(level: byte, msg: seq<byte>, ts: uint32): (r: Rec)
    ensures GoodRec(r)
  {
    var len := |msg| % 0x1_0000;
    if len > MAX_MSG then Rec(level, FLAG_TRUNCATED, ts, msg[..MAX_MSG])
    else Rec(level, 0, ts, msg[..len])
  }

  predicate BootTakes(bootCap: nat, boot: seq<Entry>, r: Rec) {
    r.ts < BOOT_WINDOW_MS && Size(boot) + SizeOf(Record(r)) <= bootCap
  }

  /** A captured record goes to exactly one segment, at its end. */
  function Keep(bootCap: nat, rollCap: nat, v: View, r: Rec): View
    requires 0 < rollCap && Cut(v.roll)
  {
    var v' := v.(stored := Wrap32(v.stored + 1));
    if BootTakes(bootCap, v.boot, r) then v'.(boot := v.boot + [Record(r)])
    else v'.(roll := Appended(rollCap, v.roll, r))
  }

  /** An ERROR far enough from the last re-arming one re-opens full capture. */
  predicate Rearms(v: View, level: byte, ts: uint32) {
    level == ERROR && (ts - v.lastRearm) % 0x1_0000_0000 >= REARM_MIN_GAP_MS
  }

  function SinkStep(bootCap: nat, rollCap: nat, v: View, level: byte, msg: Option<seq<byte>>, ts: uint32): View
    requires 0 < rollCap && Cut(v.roll)
  {
    if msg.None? then v else
    var v1 := if Captures(v, level, ts) then Keep(bootCap, rollCap, v, Clipped(level, msg.value, ts)) else v;
    if Rearms(v, level, ts) then v1.(lastRearm := ts, until := Wrap32(ts + ERROR_WINDOW_MS)) else v1
  }

  /** Writing only ever adds to the end of a segment and evicts from its front. */
  lemma WriteExtends(bootCap: nat, rollCap: nat, v: View, level: byte, msg: Option<seq<byte>>, ts: uint32)
    requires 0 < rollCap && Cut(v.roll)
    ensures var v' := SinkStep(bootCap, rollCap, v, level, msg, ts);
            v.boot <= v'.boot && v.roll.all <= v'.roll.all && v.roll.gone <= v'.roll.gone && Cut(v'.roll)
  {
  }

  /** The boot line, cut to what its 160-byte buffer holds. */
  function Marker(text: seq<byte>): seq<byte> {
    if |text| < MAX_MSG then text else text[..MAX_MSG - 1]
  }

  /** A reboot that finds `v` in memory. */
  function BeginStep(rollCap: nat, v: View, text: seq<byte>): View
    requires 0 < rollCap && Cut(v.roll)
  {
    View([Record(Rec(INFO, 0, 0, Marker(text)))],
         Appended(rollCap, v.roll, Rec(INFO, FLAG_BOOT, 0, Marker(text))),
         0, 0, Wrap32(v.stored + 2))
  }

  const COLD: View := View([], EMPTY_TAPE, 0, 0, 0)

  predicate BootOk(cap: nat, boot: seq<Entry>) {
    GoodCap(cap) && Placed(cap, 0, boot) && Size(boot) <= cap && Fillers(boot) == 0
  }

  predicate ViewOk(bootCap: nat, rollCap: nat, v: View) {
    BootOk(bootCap, v.boot) && TapeOk(rollCap, v.roll)
  }

  // ----- Readers -----------------------------------------------------------------

  datatype Segment = Boot | Rolling | Done

  /** A reader's place: next entry to read and end of its snapshot, as tape indices. */
  datatype Reader = Reader(segment: Segment, idx: nat, end: nat)

  function Source(v: View, segment: Segment): seq<Entry> {
    match segment
    case Boot => v.boot
    case Rolling => v.roll.all
    case Done => []
  }

  predicate ReaderOk(v: View, rd: Reader) {
    rd.segment.Done? || rd.idx <= rd.end <= |Source(v, rd.segment)|
  }

  /** Eviction has passed the reader: an entry it still owes is gone. */
  predicate Lapped(v: View, rd: Reader) {
    rd.segment.Rolling? && rd.idx < rd.end && rd.idx < v.roll.gone
  }

  /** What is left of the reader's snapshot in its present segment. */
  function Unread(v: View, rd: Reader): seq<Entry>
    requires ReaderOk(v, rd)
  {
    if rd.segment.Done? then [] else Source(v, rd.segment)[rd.idx..rd.end]
  }

  /** Writing leaves every reader's snapshot as it was. */
  lemma WriteKeepsReader(bootCap: nat, rollCap: nat, v: View, level: byte, msg: Option<seq<byte>>, ts: uint32, rd: Reader)
    requires 0 < rollCap && Cut(v.roll) && ReaderOk(v, rd)
    ensures var v' := SinkStep(bootCap, rollCap, v, level, msg, ts);
            && ReaderOk(v', rd) && Unread(v', rd) == Unread(v, rd)
            && (Lapped(v, rd) ==> Lapped(v', rd))
            && (!rd.segment.Done? ==> Source(v', rd.segment)[..rd.idx] == Source(v, rd.segment)[..rd.idx])
  {
    WriteExtends(bootCap, rollCap, v, level, msg, ts);
  }

  function Rank(s: Segment): nat {
    match s
    case Boot => 2
    case Rolling => 1
    case Done => 0
  }

  function OpenReader(v: View): Reader {
    Reader(Boot, 0, |v.boot|)
  }

  /** One read, for a reader that is not lapped: it yields a record and moves
      on, or it has nothing left in either segment. */
  function ReadStep(v: View, rd: Reader): (next: (Reader, Option<Rec>))
    requires ReaderOk(v, rd) && Cut(v.roll)
    ensures ReaderOk(v, next.0)
    ensures next.1.None? ==> next.0.segment.Done?
    ensures next.1.Some? ==>
              !next.0.segment.Done?
              && (Rank(next.0.segment) < Rank(rd.segment)
                  || (next.0.segment == rd.segment && next.0.end == rd.end && rd.idx < next.0.idx))
    decreases Rank(rd.segment), rd.end - rd.idx
  {
    if rd.segment.Done? then (rd, None)
    else if rd.idx == rd.end then
      if rd.segment.Boot? then ReadStep(v, Reader(Rolling, v.roll.gone, |v.roll.all|))
      else (Reader(Done, 0, 0), None)
    else
      var rd' := rd.(idx := rd.idx + 1);
      match Source(v, rd.segment)[rd.idx]
      case Record(r) => (rd', Some(r))
      case Filler(_) => ReadStep(v, rd')
  }
}

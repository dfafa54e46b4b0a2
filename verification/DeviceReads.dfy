/** Reading a described device: single registers, whole groups, and a poll phase. */
module DeviceReads {
  import opened MachineTypes
  import opened DeviceSchema
  import opened ModbusClient

  /** A published value: a raw number still to be scaled and rendered, or extracted bits. */
  datatype Reading = Scaled(raw: int, scale: real) | Extracted(bits: bv16)

  datatype Point = Point(name: string, unit: string, value: Reading)

  const READ_ATTEMPTS: nat := 3

  // ----- Decoding -----------------------------------------------------------------

  function Pair(hi: bv16, lo: bv16): bv32 {
    ((hi as bv32) << 16) | (lo as bv32)
  }

  function Widen(w: bv16): bv32 {
    w as bv32
  }

  function WordNumber(w: bv16): nat {
    w as int
  }

  function LongNumber(w: bv32): nat {
    w as int
  }

  /** The number a field's words stand for, and its raw bits. */
  function DecodeValue(words: seq<bv16>, t: FieldType): Option<(int, bv32)>
    requires |words| >= WordSize(t)
  {
    match t
    case UInt16 => Some((WordNumber(words[0]), Widen(words[0])))
    case Int16 =>
      var n := WordNumber(words[0]);
      Some((if n >= 0x8000 then n - 0x1_0000 else n, Widen(words[0])))
    case UInt32 =>
      var v := Pair(words[0], words[1]);
      Some((LongNumber(v), v))
    case Int32 =>
      var v := Pair(words[0], words[1]);
      var n := LongNumber(v);
      Some((if n >= 0x8000_0000 then n - 0x1_0000_0000 else n, v))
    case Unknown => None
  }

  function Half(word: bv16): bv16 {
    word >> 1
  }

  function Double(word: bv16): bv16 {
    word << 1
  }

  function Under(word: bv16, mask: bv16): bv16 {
    word & mask
  }

  /** The word shifted right, or left, by `n` places. */
  function Down(word: bv16, n: nat): bv16
    decreases n
  {
    if n == 0 then word else Down(Half(word), n - 1)
  }

  function Up(word: bv16, n: nat): bv16
    decreases n
  {
    if n == 0 then word else Double(Up(word, n - 1))
  }

  /** The bits under a mask, moved down. */
  function Extract(word: bv16, b: BitField): bv16 {
    Down(Under(word, b.mask), b.shift)
  }

  function LowPart(raw: bv32): bv32 {
    raw & 0xFFFF
  }

  function WholePart(raw: bv32): bv32 {
    raw & 0xFFFF_FFFF
  }

  /** The raw bits in the width of a type. */
  function Masked(raw: bv32, t: FieldType): bv32 {
    if WordSize(t) == 1 then LowPart(raw) else WholePart(raw)
  }

  predicate IsSentinel(f: Field, raw: bv32) {
    f.sentinel.Some? && Masked(raw, f.ftype) == Masked(f.sentinel.value, f.ftype)
  }

  function BitPoints(bits: seq<BitField>, word: bv16): seq<Point>
    requires forall b | b in bits :: b.shift < 16
  {
    if bits == [] then []
    else
      BitPoints(bits[..|bits| - 1], word) +
      [Point(bits[|bits| - 1].name, "", Extracted(Extract(word, bits[|bits| - 1])))]
  }

  predicate GoodField(f: Field) {
    forall b | b in f.bits :: b.shift < 16
  }

  /** What a field publishes from its words: nothing for its sentinel value. */
  function Emitted(f: Field, words: seq<bv16>): seq<Point>
    requires |words| >= WordSize(f.ftype) && GoodField(f)
  {
    match DecodeValue(words, f.ftype)
    case None => []
    case Some((value, raw)) =>
      if IsSentinel(f, raw) then []
      else if f.bits == [] then [Point(f.name, f.unit, Scaled(value, f.scale))]
      else BitPoints(f.bits, words[0])
  }

  // ----- What one read comes to ---------------------------------------------------

  /** The words a read with its retries ends up with. */
  function ReadOutcome(ready: bool, q: Request, bus: Bus): (words: Option<seq<bv16>>)
    ensures words.Some? ==> |words.value| == q.count
  {
    if !ready || !(1 <= q.count <= MAX_REGISTERS) then None
    else
      match FirstGood(bus, q, 1, READ_ATTEMPTS)
      case None => None
      case Some(k) => Attempt(bus, k, q)
  }

  predicate GoodGroup(g: RegisterGroup) {
    1 <= g.count <= MAX_GROUP_COUNT && forall f | f in g.fields :: GoodField(f) && Fits(f, g.count)
  }

  datatype Entry = Flat(reg: RegisterDef) | Block(group: RegisterGroup)

  predicate GoodEntry(e: Entry) {
    match e
    case Flat(r) => GoodField(r.field)
    case Block(g) => GoodGroup(g)
  }

  function EntryRequest(slave: bv8, e: Entry): Request {
    match e
    case Flat(r) => Request(slave, r.fc, r.addr, WordSize(r.field.ftype))
    case Block(g) => Request(slave, g.fc, g.startAddr, g.count)
  }

  function FieldsPoints(fields: seq<Field>, words: seq<bv16>): seq<Point>
    requires forall f | f in fields :: GoodField(f) && Fits(f, |words|)
  {
    if fields == [] then []
    else
      var f := fields[|fields| - 1];
      assert f in fields && Fits(f, |words|);
      FieldsPoints(fields[..|fields| - 1], words) + Emitted(f, words[f.offset..f.offset + WordSize(f.ftype)])
  }

  /** The points one entry publishes, or None when its read failed. */
  function EntryOutcome(ready: bool, slave: bv8, e: Entry, bus: Bus): Option<seq<Point>>
    requires GoodEntry(e)
  {
    match ReadOutcome(ready, EntryRequest(slave, e), bus)
    case None => None
    case Some(words) =>
      match e
      case Flat(r) => Some(Emitted(r.field, words))
      case Block(g) => Some(FieldsPoints(g.fields, words))
  }

  class Telemetry {
    var points: seq<Point>

    constructor ()
      ensures points == []
    {
      points := [];
    }

    method Push(p: Point)
      modifies this
      ensures points == old(points) + [p]
    {
      points := points + [p];
    }

    method Clear()
      modifies this
      ensures points == []
    {
      points := [];
    }
  }

  method EmitField(f: Field, words: seq<bv16>, out: Telemetry)
    requires |words| >= WordSize(f.ftype) && GoodField(f)
    modifies out
    ensures out.points == old(out.points) + Emitted(f, words)
  {
    hide DecodeValue, IsSentinel, BitPoints;
    var decoded := DecodeValue(words, f.ftype);
    if decoded.None? {
      return;
    }
    var (value, raw) := decoded.value;
    if IsSentinel(f, raw) {
      return;
    }
    if f.bits == [] {
      out.Push(Point(f.name, f.unit, Scaled(value, f.scale)));
      return;
    }
    EmitBits(f.bits, words[0], out);
  }

  method EmitBits(bits: seq<BitField>, word: bv16, out: Telemetry)
    requires forall b | b in bits :: b.shift < 16
    modifies out
    ensures out.points == old(out.points) + BitPoints(bits, word)
  {
    hide Extract;
    var i := 0;
    while i < |bits|
      invariant 0 <= i <= |bits| && out.points == old(out.points) + BitPoints(bits[..i], word)
    {
      var b := bits[i];
      assert bits[..i + 1][..i] == bits[..i];
      out.Push(Point(b.name, "", Extracted(Extract(word, b))));
      i := i + 1;
    }
    assert bits[..|bits|] == bits;
  }

  // ----- A poll phase -------------------------------------------------------------------

  /** What a phase meets: the clock at each look, the bus at each read, and its budget. */
  datatype Env = Env(clock: nat -> uint32, bus: nat -> Bus, budget: uint32)

  datatype Result = Read | Failed | Skipped

  /** Milliseconds from the start of the phase to the i-th budget check, in 32-bit arithmetic. */
  function Elapsed(env: Env, i: nat): nat {
    (env.clock(i + 1) - env.clock(0)) % 0x1_0000_0000
  }

  /** Whether the budget had run out by the i-th check. */
  predicate Tripped(env: Env, i: nat) {
    Elapsed(env, i) > env.budget || (i > 0 && Tripped(env, i - 1))
  }

  /** What becomes of the i-th entry of a phase. */
  function ResultAt(ready: bool, slave: bv8, e: Entry, env: Env, i: nat): Result
    requires GoodEntry(e)
  {
    if Tripped(env, i) then Skipped
    else if EntryOutcome(ready, slave, e, env.bus(i)).Some? then Read
    else Failed
  }

  function PointsAt(ready: bool, slave: bv8, e: Entry, env: Env, i: nat): seq<Point>
    requires GoodEntry(e)
  {
    if ResultAt(ready, slave, e, env, i) == Read then EntryOutcome(ready, slave, e, env.bus(i)).value else []
  }

  predicate GoodEntries(es: seq<Entry>) {
    forall i | 0 <= i < |es| :: GoodEntry(es[i])
  }

  /** Everything a phase over `es` publishes. */
  function PhasePoints(ready: bool, slave: bv8, es: seq<Entry>, env: Env): seq<Point>
    requires GoodEntries(es)
  {
    if es == [] then []
    else
      PhasePoints(ready, slave, es[..|es| - 1], env) + PointsAt(ready, slave, es[|es| - 1], env, |es| - 1)
  }

  /** How many of the entries came to `r`. */
  function Tally(ready: bool, slave: bv8, es: seq<Entry>, env: Env, flat: bool, r: Result): nat
    requires GoodEntries(es)
  {
    if es == [] then 0
    else
      Tally(ready, slave, es[..|es| - 1], env, flat, r) +
      if es[|es| - 1].Flat? == flat && ResultAt(ready, slave, es[|es| - 1], env, |es| - 1) == r then 1 else 0
  }

  function FlatEntries(regs: seq<RegisterDef>, storage: bool): seq<Entry> {
    if regs == [] then []
    else
      FlatEntries(regs[..|regs| - 1], storage) +
      if regs[|regs| - 1].isStorage == storage then [Flat(regs[|regs| - 1])] else []
  }

  function BlockEntries(groups: seq<RegisterGroup>, storage: bool): seq<Entry> {
    if groups == [] then []
    else
      BlockEntries(groups[..|groups| - 1], storage) +
      if groups[|groups| - 1].isStorage == storage then [Block(groups[|groups| - 1])] else []
  }

  /** The entries of a phase, in read order. */
  function PhaseEntries(regs: seq<RegisterDef>, groups: seq<RegisterGroup>, storage: bool): seq<Entry> {
    FlatEntries(regs, storage) + BlockEntries(groups, storage)
  }

  predicate GoodDevice(regs: seq<RegisterDef>, groups: seq<RegisterGroup>) {
    (forall r | r in regs :: GoodField(r.field)) && (forall g | g in groups :: GoodGroup(g))
  }

  lemma ValidFieldIsGood(f: Field, schema: int)
    requires ValidField(f, schema)
    ensures GoodField(f)
  {
  }

  lemma ValidRegisterIsGood(r: RegisterDef, schema: int)
    requires ValidRegister(r, schema)
    ensures GoodField(r.field)
  {
    ValidFieldIsGood(r.field, schema);
  }

  lemma ValidGroupIsGood(g: RegisterGroup, schema: int)
    requires ValidGroup(g, schema)
    ensures GoodGroup(g)
  {
    forall f | f in g.fields
      ensures GoodField(f) && Fits(f, g.count)
    {
      ValidFieldIsGood(f, schema);
    }
  }

  /** What the parser adds is what the readers rely on: every slice of a group
      read stays within the words that were read. */
  lemma AddedIsGood(d: Description, regs0: seq<RegisterDef>, groups0: seq<RegisterGroup>,
                    regs: seq<RegisterDef>, groups: seq<RegisterGroup>, m: nat, n: nat)
    requires GoodDevice(regs0, groups0) && Added(d, regs0, groups0, regs, groups, m, n)
    ensures GoodDevice(regs, groups)
  {
    hide ValidRegister, ValidGroup, GoodField, GoodGroup;
    forall r | r in regs
      ensures GoodField(r.field)
    {
      if r !in regs0 {
        ValidRegisterIsGood(r, d.schema);
      }
    }
    forall g | g in groups
      ensures GoodGroup(g)
    {
      if g !in groups0 {
        ValidGroupIsGood(g, d.schema);
      }
    }
  }

  /** So an accepted description gives them all they rely on. */
  lemma AcceptedIsGood(d: Description)
    requires ValidDescription(d)
    ensures GoodDevice(d.registers, Groups(d)) && Distinct(PublishedNames(d.registers, Groups(d)))
  {
    hide Distinct, PublishedNames, ValidRegister, ValidGroup;
    assert [] + d.registers[..|d.registers|] == d.registers && [] + Groups(d)[..|Groups(d)|] == Groups(d);
    assert Added(d, [], [], d.registers, Groups(d), |d.registers|, |Groups(d)|);
    AddedIsGood(d, [], [], d.registers, Groups(d), |d.registers|, |Groups(d)|);
  }

  /** Counters of a phase. */
  datatype Counts = Counts(ok: nat, fail: nat, skip: nat)

  function Bump(c: Counts, r: Result): Counts {
    match r
    case Read => c.(ok := c.ok + 1)
    case Failed => c.(fail := c.fail + 1)
    case Skipped => c.(skip := c.skip + 1)
  }

  predicate Counted(c: Counts, ready: bool, slave: bv8, es: seq<Entry>, env: Env, flat: bool)
    requires GoodEntries(es)
  {
    && c.ok == Tally(ready, slave, es, env, flat, Read)
    && c.fail == Tally(ready, slave, es, env, flat, Failed)
    && c.skip == Tally(ready, slave, es, env, flat, Skipped)
  }

  /** Where a phase stands after the entries `es`. */
  predicate Progress(ready: bool, slave: bv8, es: seq<Entry>, env: Env, i: nat, tripped: bool, flat: Counts, block: Counts) {
    && GoodEntries(es) && i == |es| && (tripped <==> i > 0 && Tripped(env, i - 1))
    && Counted(flat, ready, slave, es, env, true) && Counted(block, ready, slave, es, env, false)
  }

  lemma ProgressNext(ready: bool, slave: bv8, es: seq<Entry>, env: Env, i: nat, tripped: bool, flat: Counts, block: Counts, e: Entry)
    requires Progress(ready, slave, es, env, i, tripped, flat, block) && GoodEntry(e)
    ensures var r := ResultAt(ready, slave, e, env, i);
            Progress(ready, slave, es + [e], env, i + 1, Tripped(env, i),
                     if e.Flat? then Bump(flat, r) else flat, if e.Flat? then block else Bump(block, r))
    ensures tripped <==> i > 0 && Tripped(env, i - 1)
    ensures GoodEntries(es) && GoodEntries(es + [e])
    ensures PhasePoints(ready, slave, es + [e], env) == PhasePoints(ready, slave, es, env) + PointsAt(ready, slave, e, env, i)
  {
    hide Counted, PhasePoints, ResultAt, PointsAt;
    CountedNext(flat, ready, slave, es, env, true, e);
    CountedNext(block, ready, slave, es, env, false, e);
  }

  /** The same, with what has been published since `before`. */
  predicate Stage(ready: bool, slave: bv8, es: seq<Entry>, env: Env, i: nat, tripped: bool, flat: Counts, block: Counts,
                  before: seq<Point>, points: seq<Point>)
  {
    && Progress(ready, slave, es, env, i, tripped, flat, block)
    && points == before + PhasePoints(ready, slave, es, env)
  }

  lemma StageStart(ready: bool, slave: bv8, env: Env, before: seq<Point>)
    ensures Stage(ready, slave, [], env, 0, false, Counts(0, 0, 0), Counts(0, 0, 0), before, before)
  {
  }

  lemma StageNext(ready: bool, slave: bv8, es: seq<Entry>, env: Env, i: nat, tripped: bool, flat: Counts, block: Counts,
                  before: seq<Point>, points: seq<Point>, e: Entry)
    requires Stage(ready, slave, es, env, i, tripped, flat, block, before, points) && GoodEntry(e)
    ensures tripped <==> i > 0 && Tripped(env, i - 1)
    ensures var r := ResultAt(ready, slave, e, env, i);
            Stage(ready, slave, es + [e], env, i + 1, Tripped(env, i),
                  if e.Flat? then Bump(flat, r) else flat, if e.Flat? then block else Bump(block, r),
                  before, points + PointsAt(ready, slave, e, env, i))
  {
    hide Counted, PhasePoints, ResultAt, PointsAt;
    ProgressNext(ready, slave, es, env, i, tripped, flat, block, e);
    Regroup(before, PhasePoints(ready, slave, es, env), PointsAt(ready, slave, e, env, i));
  }

  lemma FlatEntriesNext(regs: seq<RegisterDef>, k: nat, storage: bool)
    requires k < |regs|
    ensures FlatEntries(regs[..0], storage) == [] && regs[..|regs|] == regs && regs[k] in regs
    ensures FlatEntries(regs[..k + 1], storage)
            == if regs[k].isStorage == storage then FlatEntries(regs[..k], storage) + [Flat(regs[k])] else FlatEntries(regs[..k], storage)
  {
    assert regs[..k + 1][..k] == regs[..k];
  }

  lemma BlockEntriesNext(groups: seq<RegisterGroup>, k: nat, storage: bool)
    requires k < |groups|
    ensures BlockEntries(groups[..0], storage) == [] && groups[..|groups|] == groups && groups[k] in groups
    ensures BlockEntries(groups[..k + 1], storage)
            == if groups[k].isStorage == storage then BlockEntries(groups[..k], storage) + [Block(groups[k])] else BlockEntries(groups[..k], storage)
  {
    assert groups[..k + 1][..k] == groups[..k];
  }

  lemma BeforeFlats(ready: bool, slave: bv8, regs: seq<RegisterDef>, storage: bool, env: Env, before: seq<Point>)
    ensures Stage(ready, slave, FlatEntries(regs[..0], storage), env, 0, false, Counts(0, 0, 0), Counts(0, 0, 0), before, before)
    ensures regs[..|regs|] == regs
  {
    StageStart(ready, slave, env, before);
    assert regs[..0] == [];
  }

  lemma BeforeBlocks(flats: seq<Entry>, groups: seq<RegisterGroup>, storage: bool)
    ensures flats + BlockEntries(groups[..0], storage) == flats
    ensures groups[..|groups|] == groups
  {
  }

  lemma NextFlat(ready: bool, slave: bv8, regs: seq<RegisterDef>, k: nat, storage: bool, env: Env, i: nat, tripped: bool,
                 flat: Counts, before: seq<Point>, points: seq<Point>)
    requires k < |regs| && GoodField(regs[k].field)
    requires Stage(ready, slave, FlatEntries(regs[..k], storage), env, i, tripped, flat, Counts(0, 0, 0), before, points)
    ensures tripped <==> i > 0 && Tripped(env, i - 1)
    ensures if regs[k].isStorage == storage then
              Stage(ready, slave, FlatEntries(regs[..k + 1], storage), env, i + 1, Tripped(env, i),
                    Bump(flat, ResultAt(ready, slave, Flat(regs[k]), env, i)), Counts(0, 0, 0),
                    before, points + PointsAt(ready, slave, Flat(regs[k]), env, i))
            else
              Stage(ready, slave, FlatEntries(regs[..k + 1], storage), env, i, tripped, flat, Counts(0, 0, 0), before, points)
  {
    FlatEntriesNext(regs, k, storage);
    hide Stage, Tripped, ResultAt, PointsAt, FlatEntries, Bump;
    StageNext(ready, slave, FlatEntries(regs[..k], storage), env, i, tripped, flat, Counts(0, 0, 0), before, points, Flat(regs[k]));
  }

  lemma NextBlock(ready: bool, slave: bv8, flats: seq<Entry>, groups: seq<RegisterGroup>, k: nat, storage: bool,
                  env: Env, i: nat, tripped: bool, flat: Counts, block: Counts, before: seq<Point>, points: seq<Point>)
    requires k < |groups| && GoodGroup(groups[k])
    requires Stage(ready, slave, flats + BlockEntries(groups[..k], storage), env, i, tripped, flat, block, before, points)
    ensures tripped <==> i > 0 && Tripped(env, i - 1)
    ensures if groups[k].isStorage == storage then
              Stage(ready, slave, flats + BlockEntries(groups[..k + 1], storage), env, i + 1, Tripped(env, i), flat,
                    Bump(block, ResultAt(ready, slave, Block(groups[k]), env, i)),
                    before, points + PointsAt(ready, slave, Block(groups[k]), env, i))
            else
              Stage(ready, slave, flats + BlockEntries(groups[..k + 1], storage), env, i, tripped, flat, block, before, points)
  {
    BlockEntriesNext(groups, k, storage);
    Regroup(flats, BlockEntries(groups[..k], storage), [Block(groups[k])]);
    hide Stage, Tripped, ResultAt, PointsAt, BlockEntries, Bump, GoodGroup;
    StageNext(ready, slave, flats + BlockEntries(groups[..k], storage), env, i, tripped, flat, block, before, points, Block(groups[k]));
  }

  lemma CountedNext(c: Counts, ready: bool, slave: bv8, es: seq<Entry>, env: Env, flat: bool, e: Entry)
    requires GoodEntries(es) && GoodEntry(e) && Counted(c, ready, slave, es, env, flat)
    ensures GoodEntries(es + [e])
    ensures Counted(if e.Flat? == flat then Bump(c, ResultAt(ready, slave, e, env, |es|)) else c, ready, slave, es + [e], env, flat)
    ensures PhasePoints(ready, slave, es + [e], env)
            == PhasePoints(ready, slave, es, env) + PointsAt(ready, slave, e, env, |es|)
  {
    hide ResultAt, PointsAt, GoodEntry;
    assert (es + [e])[..|es|] == es;
  }

  class Device {
    const client: Client
    const slave: bv8
    var registers: seq<RegisterDef>
    var groups: seq<RegisterGroup>
    var initialized: bool

    /** The readers can rely on whatever entries the device has; once it is
        initialised their names differ, too. */
    predicate Valid()
      reads this
    {
      GoodDevice(registers, groups) && (initialized ==> Distinct(PublishedNames(registers, groups)))
    }

    constructor (client: Client, slave: bv8)
      ensures this.client == client && this.slave == slave && !initialized && Valid()
      ensures registers == [] && groups == []
    {
      this.client, this.slave := client, slave;
      registers, groups, initialized := [], [], false;
    }

    /** Loads a description, until that succeeds once. A failed load leaves the
        entries it had parsed, and the next one adds to them. */
    method Begin(d: Description) returns (ok: bool)
      requires Valid()
      modifies this
      ensures Valid() && initialized == ok
      ensures old(initialized) ==> ok && unchanged(this)
      ensures !old(initialized) ==>
                && (ok <==> ValidOnTop(d, old(registers), old(groups)) && (registers != [] || groups != []))
                && (ok ==> registers == old(registers) + d.registers && groups == old(groups) + Groups(d))
                && exists m, n :: Added(d, old(registers), old(groups), registers, groups, m, n)
      ensures !old(initialized) && old(registers) == [] && old(groups) == [] ==> (ok <==> ValidDescription(d))
    {
      if initialized {
        return true;
      }
      hide GoodField, GoodGroup, Distinct, PublishedNames, ValidRegister, ValidGroup, Added;
      var regs, grps;
      ok, regs, grps := Parse(d, registers, groups);
      ghost var m, n :| Added(d, registers, groups, regs, grps, m, n);
      AddedIsGood(d, registers, groups, regs, grps, m, n);
      assert [] + d.registers == d.registers && [] + Groups(d) == Groups(d);
      registers, groups := regs, grps;
      ok := ok && (registers != [] || groups != []);
      initialized := ok;
    }

    method ReadFlatRegister(reg: RegisterDef, out: Telemetry, bus: Bus) returns (ok: bool)
      requires GoodField(reg.field)
      modifies out
      ensures var r := EntryOutcome(client.initialized, slave, Flat(reg), bus);
              ok == r.Some? && out.points == old(out.points) + if ok then r.value else []
    {
      hide Attempt, Emitted, FirstGood;
      var data := new bv16[2](_ => 0);
      var count := WordSize(reg.field.ftype);
      ok := false;
      if reg.fc == FC_READ_HOLDING_REGISTERS || reg.fc == FC_READ_INPUT_REGISTERS {
        var n, t;
        ok, n, t := client.ReadWithRetry(slave, reg.fc, reg.addr, count, data, READ_ATTEMPTS, bus);
      } else {
        NeverRead(bus, EntryRequest(slave, Flat(reg)), 1);
      }
      if !ok {
        return false;
      }
      EmitField(reg.field, data[..count], out);
    }

    /** One transaction for all fields of a group. */
    method ReadGroup(g: RegisterGroup, out: Telemetry, bus: Bus) returns (ok: bool)
      requires GoodGroup(g)
      modifies out
      ensures var r := EntryOutcome(client.initialized, slave, Block(g), bus);
              ok == r.Some? && out.points == old(out.points) + if ok then r.value else []
    {
      hide Attempt, Emitted, FirstGood, GoodField, Fits;
      var buf := new bv16[MAX_GROUP_COUNT](_ => 0);
      ok := false;
      if g.fc == FC_READ_HOLDING_REGISTERS || g.fc == FC_READ_INPUT_REGISTERS {
        var n, t;
        ok, n, t := client.ReadWithRetry(slave, g.fc, g.startAddr, g.count, buf, READ_ATTEMPTS, bus);
      } else {
        NeverRead(bus, EntryRequest(slave, Block(g)), 1);
      }
      if !ok {
        return false;
      }
      EmitFields(g.fields, buf, g.count, out);
    }

    method EmitFields(fields: seq<Field>, buf: array<bv16>, count: nat, out: Telemetry)
      requires count <= buf.Length && forall f | f in fields :: GoodField(f) && Fits(f, count)
      modifies out
      ensures out.points == old(out.points) + FieldsPoints(fields, buf[..count])
    {
      hide Emitted, GoodField;
      var i := 0;
      while i < |fields|
        invariant 0 <= i <= |fields| && out.points == old(out.points) + FieldsPoints(fields[..i], buf[..count])
      {
        var f := fields[i];
        assert f in fields;
        var n := WordSize(f.ftype);
        assert fields[..i + 1][..i] == fields[..i];
        assert buf[f.offset..f.offset + n] == buf[..count][f.offset..f.offset + n];
        EmitField(f, buf[f.offset..f.offset + n], out);
        i := i + 1;
      }
      assert fields[..|fields|] == fields;
    }

    /** One entry, unless the budget has run out; once it has, the clock is not looked at again. */
    method Visit(e: Entry, i: nat, start: uint32, tripped: bool, out: Telemetry, env: Env) returns (r: Result, tripped': bool)
      requires GoodEntry(e) && start == env.clock(0) && (tripped <==> i > 0 && Tripped(env, i - 1))
      modifies out
      ensures r == ResultAt(client.initialized, slave, e, env, i) && (tripped' <==> Tripped(env, i))
      ensures out.points == old(out.points) + PointsAt(client.initialized, slave, e, env, i)
    {
      hide EntryOutcome, GoodField, GoodGroup;
      tripped' := tripped;
      if !tripped && (env.clock(i + 1) - start) % 0x1_0000_0000 > env.budget {
        tripped' := true;
      }
      if tripped' {
        return Skipped, true;
      }
      var ok;
      match e {
        case Flat(reg) => ok := ReadFlatRegister(reg, out, env.bus(i));
        case Block(grp) => ok := ReadGroup(grp, out, env.bus(i));
      }
      r := if ok then Read else Failed;
    }

    /** The flat registers of a phase. */
    method ReadFlats(storage: bool, out: Telemetry, env: Env, start: uint32) returns (i: nat, tripped: bool, flat: Counts)
      requires GoodDevice(registers, groups) && start == env.clock(0)
      modifies out
      ensures Stage(client.initialized, slave, FlatEntries(registers, storage), env, i, tripped, flat, Counts(0, 0, 0),
                    old(out.points), out.points)
    {
      hide GoodField, ResultAt, PointsAt, Tripped, Stage, FlatEntries, Bump;
      flat, i, tripped := Counts(0, 0, 0), 0, false;
      BeforeFlats(client.initialized, slave, registers, storage, env, out.points);
      var k := 0;
      while k < |registers|
        invariant 0 <= k <= |registers|
        invariant Stage(client.initialized, slave, FlatEntries(registers[..k], storage), env, i, tripped, flat, Counts(0, 0, 0),
                        old(out.points), out.points)
      {
        var reg := registers[k];
        NextFlat(client.initialized, slave, registers, k, storage, env, i, tripped, flat, old(out.points), out.points);
        if reg.isStorage == storage {
          var r;
          r, tripped := Visit(Flat(reg), i, start, tripped, out, env);
          flat, i := Bump(flat, r), i + 1;
        }
        k := k + 1;
      }
    }

    /** The groups of a phase, after its flat registers. */
    method ReadBlocks(storage: bool, out: Telemetry, env: Env, start: uint32, i0: nat, tripped0: bool,
                      ghost flat: Counts, ghost before: seq<Point>) returns (block: Counts, ghost i: nat, ghost tripped': bool)
      requires GoodDevice(registers, groups) && start == env.clock(0)
      requires Stage(client.initialized, slave, FlatEntries(registers, storage), env, i0, tripped0, flat, Counts(0, 0, 0),
                     before, out.points)
      modifies out
      ensures Stage(client.initialized, slave, PhaseEntries(registers, groups, storage), env, i, tripped', flat, block,
                    before, out.points)
    {
      hide GoodGroup, ResultAt, PointsAt, Tripped, Stage, BlockEntries, FlatEntries, Bump;
      var n, tripped := i0, tripped0;
      block := Counts(0, 0, 0);
      ghost var flats := FlatEntries(registers, storage);
      BeforeBlocks(flats, groups, storage);
      var k := 0;
      while k < |groups|
        invariant 0 <= k <= |groups|
        invariant Stage(client.initialized, slave, flats + BlockEntries(groups[..k], storage), env, n, tripped, flat, block,
                        before, out.points)
      {
        var grp := groups[k];
        NextBlock(client.initialized, slave, flats, groups, k, storage, env, n, tripped, flat, block, before, out.points);
        if grp.isStorage == storage {
          var r;
          r, tripped := Visit(Block(grp), n, start, tripped, out, env);
          block, n := Bump(block, r), n + 1;
        }
        k := k + 1;
      }
      i, tripped' := n, tripped;
    }

    /** All entries of one phase, flat registers first, within the budget. */
    method ReadPhase(storage: bool, out: Telemetry, env: Env) returns (any: bool, flat: Counts, block: Counts)
      requires GoodDevice(registers, groups)
      modifies out
      ensures var es, ready := PhaseEntries(registers, groups, storage), client.initialized;
              && GoodEntries(es)
              && out.points == old(out.points) + PhasePoints(ready, slave, es, env)
              && flat == Counts(Tally(ready, slave, es, env, true, Read), Tally(ready, slave, es, env, true, Failed),
                                Tally(ready, slave, es, env, true, Skipped))
              && block == Counts(Tally(ready, slave, es, env, false, Read), Tally(ready, slave, es, env, false, Failed),
                                 Tally(ready, slave, es, env, false, Skipped))
              && (any <==> flat.ok + block.ok > 0)
    {
      hide Tally, PhasePoints, FlatEntries, BlockEntries, Tripped, GoodGroup, GoodField;
      var start := env.clock(0);
      ghost var before := out.points;
      var i, tripped;
      i, tripped, flat := ReadFlats(storage, out, env, start);
      ghost var i', tripped';
      block, i', tripped' := ReadBlocks(storage, out, env, start, i, tripped, flat, before);
      any := flat.ok + block.ok > 0;
    }

    method ReadBasic(out: Telemetry, env: Env) returns (ok: bool)
      requires Valid()
      modifies out
      ensures !initialized ==> out.points == [] && !ok
      ensures initialized ==>
                var es, ready := PhaseEntries(registers, groups, false), client.initialized;
                && GoodEntries(es)
                && out.points == PhasePoints(ready, slave, es, env)
                && (ok <==> Tally(ready, slave, es, env, true, Read) + Tally(ready, slave, es, env, false, Read) > 0)
    {
      out.Clear();
      if !initialized {
        return false;
      }
      var f, b;
      ok, f, b := ReadPhase(false, out, env);
    }

    method ReadStorage(out: Telemetry, env: Env) returns (ok: bool)
      requires Valid()
      modifies out
      ensures !initialized ==> out.points == [] && !ok
      ensures initialized ==>
                var es, ready := PhaseEntries(registers, groups, true), client.initialized;
                && GoodEntries(es)
                && out.points == PhasePoints(ready, slave, es, env)
                && (ok <==> Tally(ready, slave, es, env, true, Read) + Tally(ready, slave, es, env, false, Read) > 0)
    {
      out.Clear();
      if !initialized {
        return false;
      }
      var f, b;
      ok, f, b := ReadPhase(true, out, env);
    }
  }

  /** A function code that is not a read never yields words. */
  lemma NeverRead(bus: Bus, q: Request, k: nat)
    requires !ReadFunction(q.fc)
    ensures FirstGood(bus, q, k, READ_ATTEMPTS) == None
    decreases READ_ATTEMPTS + 1 - k
  {
    if k <= READ_ATTEMPTS {
      NeverRead(bus, q, k + 1);
    }
  }

  lemma {:induction false} FlatGood(regs: seq<RegisterDef>, storage: bool)
    requires forall r | r in regs :: GoodField(r.field)
    ensures GoodEntries(FlatEntries(regs, storage))
  {
    hide GoodField;
    if regs != [] {
      assert regs[|regs| - 1] in regs;
      FlatGood(regs[..|regs| - 1], storage);
    }
  }

  lemma {:induction false} BlockGood(groups: seq<RegisterGroup>, storage: bool)
    requires forall g | g in groups :: GoodGroup(g)
    ensures GoodEntries(BlockEntries(groups, storage))
  {
    hide GoodGroup;
    if groups != [] {
      assert groups[|groups| - 1] in groups;
      BlockGood(groups[..|groups| - 1], storage);
    }
  }

  lemma EntriesGood(regs: seq<RegisterDef>, groups: seq<RegisterGroup>, storage: bool)
    requires GoodDevice(regs, groups)
    ensures GoodEntries(PhaseEntries(regs, groups, storage))
  {
    FlatGood(regs, storage);
    BlockGood(groups, storage);
  }
}

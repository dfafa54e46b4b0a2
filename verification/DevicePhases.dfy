/** What holds of device reads: block reads agree with single reads, no name is
    published twice, and every entry of a phase is accounted for. */
module DevicePhases {
  import opened MachineTypes
  import opened DeviceSchema
  import opened ModbusClient
  import opened DeviceReads

  // ----- A block read is many single reads ---------------------------------------

  /** The slave with this address holds `memory`, and every reply to a frame
      addressed to it gets through. What becomes of other frames is open. */
  ghost predicate Healthy(bus: Bus, slave: bv8, memory: Memory) {
    forall k: nat, frame | frame != [] && frame[0] == slave :: bus(k, frame) == SlaveAnswers(memory, frame)
  }

  lemma HealthyReply(bus: Bus, memory: Memory, q: Request, k: nat)
    requires Healthy(bus, q.slave, memory)
    ensures bus(k, RequestFrame(q)) == SlaveAnswers(memory, RequestFrame(q))
  {
    hide SlaveAnswers, RequestFrame;
    RequestLayout(q);
  }

  lemma HealthyOutcome(bus: Bus, memory: Memory, q: Request)
    requires Healthy(bus, q.slave, memory) && ReadFunction(q.fc)
    requires 1 <= q.count <= MAX_REGISTERS && q.start + q.count <= 0x1_0000
    ensures ReadOutcome(true, q, bus) == Some(Span(memory, q.fc, q.start, q.count))
  {
    hide Attempt, SlaveAnswers, RequestFrame, Healthy;
    HealthyReply(bus, memory, q, 1);
    HealthyAttempt(bus, 1, q, memory);
  }

  /** A single register is read at its own address, by its own function, from the
      device's own slave: the published points are those of that slave's words. */
  lemma FlatReadsRegister(slave: bv8, r: RegisterDef, bus: Bus, memory: Memory)
    requires GoodField(r.field) && ReadFunction(r.fc) && r.addr + WordSize(r.field.ftype) <= 0x1_0000
    requires Healthy(bus, slave, memory)
    ensures var words := if r.field.ftype.UInt32? || r.field.ftype.Int32? then [memory(r.fc, r.addr), memory(r.fc, r.addr + 1)]
                         else [memory(r.fc, r.addr)];
            EntryOutcome(true, slave, Flat(r), bus) == Some(Emitted(r.field, words))
  {
    hide Emitted, Healthy, ReadOutcome, GoodField, Span;
    HealthyOutcome(bus, memory, EntryRequest(slave, Flat(r)));
    ShortSpan(memory, r.fc, r.addr);
  }

  lemma ShortSpan(memory: Memory, fc: bv8, start: nat)
    ensures Span(memory, fc, start, 1) == [memory(fc, start)]
    ensures Span(memory, fc, start, 2) == [memory(fc, start), memory(fc, start + 1)]
  {
  }

  /** A read comes to the words of the first of its three attempts that yields any. */
  lemma ThreeAttempts(q: Request, bus: Bus)
    requires 1 <= q.count <= 125
    ensures ReadOutcome(true, q, bus) ==
            if Attempt(bus, 1, q).Some? then Attempt(bus, 1, q)
            else if Attempt(bus, 2, q).Some? then Attempt(bus, 2, q)
            else Attempt(bus, 3, q)
  {
    hide Attempt;
    OneTry(bus, q, 1, 3);
    OneTry(bus, q, 2, 3);
    OneTry(bus, q, 3, 3);
  }

  /** The single register a group field stands for. */
  function AsFlat(g: RegisterGroup, f: Field): RegisterDef
    requires g.startAddr + g.count <= 0x1_0000 && Fits(f, g.count)
  {
    RegisterDef(g.startAddr + f.offset, g.fc, g.isStorage, false, f)
  }

  /** What the fields of a group publish when each is read on its own. */
  function OneByOne(slave: bv8, g: RegisterGroup, fields: seq<Field>, buses: nat -> Bus): seq<Point>
    requires g.startAddr + g.count <= 0x1_0000 && forall f | f in fields :: GoodField(f) && Fits(f, g.count)
  {
    if fields == [] then []
    else
      var f := fields[|fields| - 1];
      assert f in fields && GoodField(f) && Fits(f, g.count);
      OneByOne(slave, g, fields[..|fields| - 1], buses) +
      match EntryOutcome(true, slave, Flat(AsFlat(g, f)), buses(|fields| - 1))
      case None => []
      case Some(points) => points
  }

  lemma SpanSlice(memory: Memory, fc: bv8, start: nat, count: nat, offset: nat, n: nat)
    requires offset + n <= count
    ensures Span(memory, fc, start, count)[offset..offset + n] == Span(memory, fc, start + offset, n)
  {
  }

  lemma FieldAlone(slave: bv8, g: RegisterGroup, f: Field, bus: Bus, memory: Memory)
    requires ReadFunction(g.fc) && g.startAddr + g.count <= 0x1_0000 && GoodField(f) && Fits(f, g.count) && Healthy(bus, slave, memory)
    ensures var words := Span(memory, g.fc, g.startAddr, g.count);
            EntryOutcome(true, slave, Flat(AsFlat(g, f)), bus)
            == Some(Emitted(f, words[f.offset..f.offset + WordSize(f.ftype)]))
  {
    hide Emitted, Healthy, ReadOutcome, Span;
    var r := AsFlat(g, f);
    HealthyOutcome(bus, memory, EntryRequest(slave, Flat(r)));
    SpanSlice(memory, g.fc, g.startAddr, g.count, f.offset, WordSize(f.ftype));
  }

  lemma {:induction false} FieldsAlone(slave: bv8, g: RegisterGroup, fields: seq<Field>, buses: nat -> Bus, memory: Memory)
    requires ReadFunction(g.fc) && g.startAddr + g.count <= 0x1_0000
    requires forall f | f in fields :: GoodField(f) && Fits(f, g.count)
    requires forall i: nat :: Healthy(buses(i), slave, memory)
    ensures OneByOne(slave, g, fields, buses) == FieldsPoints(fields, Span(memory, g.fc, g.startAddr, g.count))
  {
    hide Healthy, GoodField, Emitted, Span, EntryOutcome;
    if fields != [] {
      var f := fields[|fields| - 1];
      assert f in fields && Fits(f, g.count);
      FieldsAlone(slave, g, fields[..|fields| - 1], buses, memory);
      FieldAlone(slave, g, f, buses(|fields| - 1), memory);
    }
  }

  /** A group read publishes exactly what reading its fields one by one would,
      through request, slave, checksum, parsing, decoding and sentinels. */
  lemma BlockReadAgrees(slave: bv8, g: RegisterGroup, bus: Bus, buses: nat -> Bus, memory: Memory)
    requires GoodGroup(g) && ReadFunction(g.fc) && g.startAddr + g.count <= 0x1_0000
    requires Healthy(bus, slave, memory) && forall i: nat :: Healthy(buses(i), slave, memory)
    ensures EntryOutcome(true, slave, Block(g), bus) == Some(OneByOne(slave, g, g.fields, buses))
  {
    hide Healthy, GoodField, Emitted, ReadOutcome, Span, FieldsPoints, OneByOne;
    HealthyOutcome(bus, memory, EntryRequest(slave, Block(g)));
    FieldsAlone(slave, g, g.fields, buses, memory);
  }

  lemma PastEndFails(bus: Bus, memory: Memory, q: Request)
    requires Healthy(bus, q.slave, memory) && q.start + q.count > 0x1_0000
    ensures ReadOutcome(true, q, bus) == None
  {
    hide SlaveReads, RequestFrame, Healthy;
    RequestRoundTrip(q);
    forall k: nat
      ensures Attempt(bus, k, q) == None
    {
      HealthyReply(bus, memory, q, k);
    }
  }

  /** What the loader accepts, register or group. */
  predicate ValidEntry(e: Entry, schema: int) {
    match e
    case Flat(r) => ValidRegister(r, schema)
    case Block(g) => ValidGroup(g, schema)
  }

  lemma ValidIsGood(e: Entry, slave: bv8, schema: int)
    requires ValidEntry(e, schema)
    ensures GoodEntry(e)
    ensures var q := EntryRequest(slave, e); q.slave == slave && ReadFunction(q.fc) && 1 <= q.count <= MAX_REGISTERS
  {
    match e
    case Flat(r) => ValidRegisterIsGood(r, schema);
    case Block(g) => ValidGroupIsGood(g, schema);
  }

  /** The loader does not look at where an entry ends: a group, or a two-word
      register, that runs past the last register address is accepted, and no
      read of it ever succeeds. All others can be read. */
  lemma EntryReadsIffInRange(slave: bv8, e: Entry, bus: Bus, memory: Memory, schema: int)
    requires ValidEntry(e, schema) && Healthy(bus, slave, memory)
    ensures GoodEntry(e)
    ensures var q := EntryRequest(slave, e);
            EntryOutcome(true, slave, e, bus).Some? <==> q.start + q.count <= 0x1_0000
  {
    ValidIsGood(e, slave, schema);
    hide Healthy, ValidRegister, ValidGroup, FieldsPoints, Emitted, ReadOutcome, Span, EntryRequest;
    var q := EntryRequest(slave, e);
    if q.start + q.count <= 0x1_0000 {
      HealthyOutcome(bus, memory, q);
    } else {
      PastEndFails(bus, memory, q);
    }
  }

  /** A group, and a single register, that are accepted and end past the last address. */
  lemma AcceptedPastEnd(slave: bv8)
    ensures var word := Field(0, "n", UInt16, 1.0, "", None, false, []);
            var group := Block(RegisterGroup("g", 0xFFFF, 2, 3, false, [word]));
            ValidEntry(group, 2) && EntryRequest(slave, group).start + EntryRequest(slave, group).count > 0x1_0000
    ensures var long := Field(0, "n", UInt32, 1.0, "", None, false, []);
            var reg := Flat(RegisterDef(0xFFFF, 3, false, false, long));
            ValidEntry(reg, 1) && EntryRequest(slave, reg).start + EntryRequest(slave, reg).count > 0x1_0000
  {
  }

  // ----- No name is published twice --------------------------------------------------

  function Names(points: seq<Point>): seq<string> {
    if points == [] then [] else Names(points[..|points| - 1]) + [points[|points| - 1].name]
  }

  lemma {:induction false} NamesConcat(a: seq<Point>, b: seq<Point>)
    ensures Names(a + b) == Names(a) + Names(b)
    decreases b
  {
    if b == [] {
      assert a + b == a;
    } else {
      var c := b[..|b| - 1];
      assert (a + b)[..|a + b| - 1] == a + c;
      NamesConcat(a, c);
    }
  }

  lemma {:induction false} BitNamesLast(bits: seq<BitField>, b: BitField)
    ensures BitNames(bits + [b]) == BitNames(bits) + [b.name]
  {
    if bits == [] {
      assert bits + [b] == [b];
    } else {
      assert (bits + [b])[1..] == bits[1..] + [b];
      BitNamesLast(bits[1..], b);
    }
  }

  lemma {:induction false} BitPointNames(bits: seq<BitField>, word: bv16)
    requires forall b | b in bits :: b.shift < 16
    ensures Names(BitPoints(bits, word)) == BitNames(bits)
  {
    hide Extract;
    if bits != [] {
      var init, b := bits[..|bits| - 1], bits[|bits| - 1];
      BitPointNames(init, word);
      BitNamesLast(init, b);
      assert bits == init + [b];
      var p := BitPoints(bits, word);
      assert p[..|p| - 1] == BitPoints(init, word);
    }
  }

  /** A field publishes all its names or, for a sentinel, none. */
  lemma EmittedNames(f: Field, words: seq<bv16>)
    requires |words| >= WordSize(f.ftype) && GoodField(f)
    ensures Names(Emitted(f, words)) == [] || Names(Emitted(f, words)) == FieldNames(f)
  {
    hide DecodeValue, IsSentinel, BitPoints, BitNames;
    if f.bits != [] {
      BitPointNames(f.bits, words[0]);
    } else {
      forall value: int
        ensures Names([Point(f.name, f.unit, Scaled(value, f.scale))]) == [f.name]
      {
        assert Names([Point(f.name, f.unit, Scaled(value, f.scale))][..0]) == [];
      }
    }
  }

  lemma {:induction false} FieldsNamesLast(fields: seq<Field>, f: Field)
    ensures FieldsNames(fields + [f]) == FieldsNames(fields) + FieldNames(f)
  {
    hide FieldNames;
    if fields == [] {
      assert fields + [f] == [f];
      assert FieldsNames([f]) == FieldNames(f) + FieldsNames([f][1..]);
    } else {
      assert (fields + [f])[1..] == fields[1..] + [f];
      FieldsNamesLast(fields[1..], f);
    }
  }

  lemma {:induction false} FieldsPointNames(fields: seq<Field>, words: seq<bv16>)
    requires forall f | f in fields :: GoodField(f) && Fits(f, |words|)
    ensures multiset(Names(FieldsPoints(fields, words))) <= multiset(FieldsNames(fields))
  {
    hide GoodField, Emitted, FieldNames, Names;
    if fields != [] {
      var init, f := fields[..|fields| - 1], fields[|fields| - 1];
      assert f in fields && Fits(f, |words|) && fields == init + [f];
      FieldsPointNames(init, words);
      var mine := words[f.offset..f.offset + WordSize(f.ftype)];
      EmittedNames(f, mine);
      NamesConcat(FieldsPoints(init, words), Emitted(f, mine));
      FieldsNamesLast(init, f);
    } else {
      NoNames();
    }
  }

  lemma NoNames()
    ensures Names([]) == []
  {
  }

  function EntryNames(e: Entry): seq<string> {
    match e
    case Flat(r) => FieldNames(r.field)
    case Block(g) => FieldsNames(g.fields)
  }

  function EntriesNames(es: seq<Entry>): seq<string> {
    if es == [] then [] else EntriesNames(es[..|es| - 1]) + EntryNames(es[|es| - 1])
  }

  lemma PointNames(ready: bool, slave: bv8, e: Entry, env: Env, i: nat)
    requires GoodEntry(e)
    ensures multiset(Names(PointsAt(ready, slave, e, env, i))) <= multiset(EntryNames(e))
  {
    hide Emitted, FieldsPoints, Names, FieldNames, FieldsNames, GoodField, Tripped;
    NoNames();
    var words := ReadOutcome(ready, EntryRequest(slave, e), env.bus(i));
    if words.Some? {
      match e {
        case Flat(r) => EmittedNames(r.field, words.value);
        case Block(g) => FieldsPointNames(g.fields, words.value);
      }
    }
  }

  lemma {:induction false} PhaseNames(ready: bool, slave: bv8, es: seq<Entry>, env: Env)
    requires GoodEntries(es)
    ensures multiset(Names(PhasePoints(ready, slave, es, env))) <= multiset(EntriesNames(es))
  {
    hide PointsAt, EntryNames, Names, GoodEntry;
    NoNames();
    if es != [] {
      var init, e := es[..|es| - 1], es[|es| - 1];
      PhaseNames(ready, slave, init, env);
      PointNames(ready, slave, e, env, |init|);
      NamesConcat(PhasePoints(ready, slave, init, env), PointsAt(ready, slave, e, env, |init|));
    }
  }

  lemma {:induction false} EntriesNamesConcat(a: seq<Entry>, b: seq<Entry>)
    ensures EntriesNames(a + b) == EntriesNames(a) + EntriesNames(b)
    decreases b
  {
    hide EntryNames;
    if b == [] {
      assert a + b == a;
    } else {
      var c := b[..|b| - 1];
      assert (a + b)[..|a + b| - 1] == a + c;
      EntriesNamesConcat(a, c);
    }
  }

  lemma OneEntry(e: Entry)
    ensures EntriesNames([e]) == EntryNames(e)
  {
  }

  lemma {:induction false} RegisterNamesLast(regs: seq<RegisterDef>, r: RegisterDef)
    ensures RegisterNames(regs + [r]) == RegisterNames(regs) + FieldNames(r.field)
  {
    hide FieldNames;
    if regs == [] {
      assert regs + [r] == [r];
      assert RegisterNames([r]) == FieldNames(r.field) + RegisterNames([r][1..]);
    } else {
      assert (regs + [r])[1..] == regs[1..] + [r];
      RegisterNamesLast(regs[1..], r);
    }
  }

  lemma {:induction false} GroupNamesLast(groups: seq<RegisterGroup>, g: RegisterGroup)
    ensures GroupNames(groups + [g]) == GroupNames(groups) + FieldsNames(g.fields)
  {
    hide FieldsNames;
    if groups == [] {
      assert groups + [g] == [g];
      assert GroupNames([g]) == FieldsNames(g.fields) + GroupNames([g][1..]);
    } else {
      assert (groups + [g])[1..] == groups[1..] + [g];
      GroupNamesLast(groups[1..], g);
    }
  }

  lemma FlatNamesLast(regs: seq<RegisterDef>, storage: bool)
    requires regs != []
    ensures var init, r := regs[..|regs| - 1], regs[|regs| - 1];
            EntriesNames(FlatEntries(regs, storage))
            == EntriesNames(FlatEntries(init, storage)) + if r.isStorage == storage then FieldNames(r.field) else []
  {
    hide FieldNames;
    var init, r := regs[..|regs| - 1], regs[|regs| - 1];
    OneEntry(Flat(r));
    EntriesNamesConcat(FlatEntries(init, storage), [Flat(r)]);
    assert FlatEntries(init, storage) + [] == FlatEntries(init, storage);
  }

  lemma BlockNamesLast(groups: seq<RegisterGroup>, storage: bool)
    requires groups != []
    ensures var init, g := groups[..|groups| - 1], groups[|groups| - 1];
            EntriesNames(BlockEntries(groups, storage))
            == EntriesNames(BlockEntries(init, storage)) + if g.isStorage == storage then FieldsNames(g.fields) else []
  {
    hide FieldsNames;
    var init, g := groups[..|groups| - 1], groups[|groups| - 1];
    OneEntry(Block(g));
    EntriesNamesConcat(BlockEntries(init, storage), [Block(g)]);
    assert BlockEntries(init, storage) + [] == BlockEntries(init, storage);
  }

  lemma SplitStep(a: seq<string>, b: seq<string>, all: seq<string>, x: seq<string>, second: bool,
                  a': seq<string>, b': seq<string>, all': seq<string>)
    requires multiset(a) + multiset(b) == multiset(all)
    requires a' == a + if second == false then x else []
    requires b' == b + if second == true then x else []
    requires all' == all + x
    ensures multiset(a') + multiset(b') == multiset(all')
  {
    assert a + [] == a && b + [] == b;
    assert multiset(all') == multiset(all) + multiset(x);
  }

  lemma NothingToRead(storage: bool)
    ensures EntriesNames(FlatEntries([], storage)) == [] == RegisterNames([])
    ensures EntriesNames(BlockEntries([], storage)) == [] == GroupNames([])
  {
  }

  /** Each flat register is read in exactly one of the two phases. */
  lemma {:induction false} FlatPhasesSplit(regs: seq<RegisterDef>)
    ensures multiset(EntriesNames(FlatEntries(regs, false))) + multiset(EntriesNames(FlatEntries(regs, true)))
            == multiset(RegisterNames(regs))
  {
    hide FieldNames, FlatEntries, EntriesNames, RegisterNames;
    if regs == [] {
      NothingToRead(false);
      NothingToRead(true);
    } else {
      var init, r := regs[..|regs| - 1], regs[|regs| - 1];
      FlatPhasesSplit(init);
      assert regs == init + [r];
      RegisterNamesLast(init, r);
      FlatNamesLast(regs, false);
      FlatNamesLast(regs, true);
      SplitStep(EntriesNames(FlatEntries(init, false)), EntriesNames(FlatEntries(init, true)), RegisterNames(init),
                FieldNames(r.field), r.isStorage,
                EntriesNames(FlatEntries(regs, false)), EntriesNames(FlatEntries(regs, true)), RegisterNames(regs));
    }
  }

  lemma {:induction false} BlockPhasesSplit(groups: seq<RegisterGroup>)
    ensures multiset(EntriesNames(BlockEntries(groups, false))) + multiset(EntriesNames(BlockEntries(groups, true)))
            == multiset(GroupNames(groups))
  {
    hide FieldsNames, BlockEntries, EntriesNames, GroupNames;
    if groups == [] {
      NothingToRead(false);
      NothingToRead(true);
    } else {
      var init, g := groups[..|groups| - 1], groups[|groups| - 1];
      BlockPhasesSplit(init);
      assert groups == init + [g];
      GroupNamesLast(init, g);
      BlockNamesLast(groups, false);
      BlockNamesLast(groups, true);
      SplitStep(EntriesNames(BlockEntries(init, false)), EntriesNames(BlockEntries(init, true)), GroupNames(init),
                FieldsNames(g.fields), g.isStorage,
                EntriesNames(BlockEntries(groups, false)), EntriesNames(BlockEntries(groups, true)), GroupNames(groups));
    }
  }

  lemma PhasesSplit(regs: seq<RegisterDef>, groups: seq<RegisterGroup>)
    ensures multiset(EntriesNames(PhaseEntries(regs, groups, false))) + multiset(EntriesNames(PhaseEntries(regs, groups, true)))
            == multiset(PublishedNames(regs, groups))
  {
    hide EntriesNames, FlatEntries, BlockEntries;
    FlatPhasesSplit(regs);
    BlockPhasesSplit(groups);
    EntriesNamesConcat(FlatEntries(regs, false), BlockEntries(groups, false));
    EntriesNamesConcat(FlatEntries(regs, true), BlockEntries(groups, true));
  }

  lemma {:induction false} DistinctIsSingle(s: seq<string>)
    requires Distinct(s)
    ensures forall x :: multiset(s)[x] <= 1
  {
    if s != [] {
      var init, last := s[..|s| - 1], s[|s| - 1];
      DistinctIsSingle(init);
      assert s == init + [last] && last !in init;
    }
  }

  lemma SingleIsDistinct(s: seq<string>)
    requires forall x :: multiset(s)[x] <= 1
    ensures Distinct(s)
  {
    forall i, j | 0 <= i < j < |s|
      ensures s[i] != s[j]
    {
      assert s == s[..i] + [s[i]] + s[i + 1..j] + [s[j]] + s[j + 1..];
      assert multiset(s)[s[i]] == multiset(s[..i])[s[i]] + multiset([s[i]])[s[i]] + multiset(s[i + 1..j])[s[i]]
                                  + multiset([s[j]])[s[i]] + multiset(s[j + 1..])[s[i]];
    }
  }

  lemma NamesDiffer(ready: bool, slave: bv8, regs: seq<RegisterDef>, groups: seq<RegisterGroup>, basic: Env, storage: Env)
    requires GoodDevice(regs, groups) && Distinct(PublishedNames(regs, groups))
    ensures GoodEntries(PhaseEntries(regs, groups, false)) && GoodEntries(PhaseEntries(regs, groups, true))
    ensures Distinct(Names(PhasePoints(ready, slave, PhaseEntries(regs, groups, false), basic)
                           + PhasePoints(ready, slave, PhaseEntries(regs, groups, true), storage)))
  {
    EntriesGood(regs, groups, false);
    EntriesGood(regs, groups, true);
    hide PhasePoints, PhaseEntries, EntriesNames, Names, Distinct, PublishedNames, GoodEntries;
    var a, b := PhaseEntries(regs, groups, false), PhaseEntries(regs, groups, true);
    var p, q := PhasePoints(ready, slave, a, basic), PhasePoints(ready, slave, b, storage);
    PhaseNames(ready, slave, a, basic);
    PhaseNames(ready, slave, b, storage);
    PhasesSplit(regs, groups);
    DistinctIsSingle(PublishedNames(regs, groups));
    NamesConcat(p, q);
    assert multiset(Names(p) + Names(q)) <= multiset(PublishedNames(regs, groups));
    SingleIsDistinct(Names(p + q));
  }

  /** For every accepted description, and whatever fails, is suppressed or is
      skipped in either phase, the names the two phases publish are all different. */
  lemma NoNameTwice(ready: bool, slave: bv8, d: Description, basic: Env, storage: Env)
    requires ValidDescription(d)
    ensures GoodEntries(PhaseEntries(d.registers, Groups(d), false)) && GoodEntries(PhaseEntries(d.registers, Groups(d), true))
    ensures Distinct(Names(PhasePoints(ready, slave, PhaseEntries(d.registers, Groups(d), false), basic)
                           + PhasePoints(ready, slave, PhaseEntries(d.registers, Groups(d), true), storage)))
  {
    hide ValidDescription, GoodDevice, PublishedNames, Distinct, PhasePoints, Names;
    AcceptedIsGood(d);
    NamesDiffer(ready, slave, d.registers, Groups(d), basic, storage);
  }

  lemma FirstNamesDiffer(p: seq<Point>, q: seq<Point>)
    requires Distinct(Names(p + q))
    ensures Distinct(Names(p))
  {
    hide Names;
    NamesConcat(p, q);
    DistinctPrefix(Names(p), Names(q));
  }

  /** Whether a phase reads anything, and what it publishes. */
  ghost predicate Readable(d: Device, storage: bool, env: Env)
    requires GoodDevice(d.registers, d.groups)
    reads d, d.client
  {
    EntriesGood(d.registers, d.groups, storage);
    var es, ready := PhaseEntries(d.registers, d.groups, storage), d.client.initialized;
    Tally(ready, d.slave, es, env, true, Read) + Tally(ready, d.slave, es, env, false, Read) > 0
  }

  ghost function PhaseOutput(d: Device, storage: bool, env: Env): seq<Point>
    requires GoodDevice(d.registers, d.groups)
    reads d, d.client
  {
    EntriesGood(d.registers, d.groups, storage);
    PhasePoints(d.client.initialized, d.slave, PhaseEntries(d.registers, d.groups, storage), env)
  }

  /** One telemetry poll of a device: its basic points, if any entry of theirs
      could be read, and behind them its storage points, if they are wanted and
      any of theirs could be read. Whatever fails, no name is published twice. */
  method ReadTelemetry(d: Device, wantStorage: bool, basic: Env, storage: Env) returns (ok: bool, published: seq<Point>)
    requires d.Valid()
    ensures ok <==> d.initialized && Readable(d, false, basic)
    ensures published ==
            if !ok then []
            else PhaseOutput(d, false, basic)
                 + if wantStorage && Readable(d, true, storage) then PhaseOutput(d, true, storage) else []
    ensures Distinct(Names(published))
  {
    hide PhasePoints, PhaseEntries, GoodEntries, Names, PublishedNames, Distinct, GoodDevice, Tally;
    NoNames();
    NothingRepeats();
    published := [];
    var first := new Telemetry();
    ok := d.ReadBasic(first, basic);
    if !ok {
      return;
    }
    NamesDiffer(d.client.initialized, d.slave, d.registers, d.groups, basic, storage);
    FirstNamesDiffer(PhasePoints(d.client.initialized, d.slave, PhaseEntries(d.registers, d.groups, false), basic),
                     PhasePoints(d.client.initialized, d.slave, PhaseEntries(d.registers, d.groups, true), storage));
    published := first.points;
    assert published + [] == published;
    if wantStorage {
      var second := new Telemetry();
      var more := d.ReadStorage(second, storage);
      if more {
        published := published + second.points;
      }
    }
  }

  lemma NothingRepeats()
    ensures Distinct<string>([])
  {
  }

  // ----- Every entry is accounted for ---------------------------------------------------

  function CountKind(es: seq<Entry>, flat: bool): nat {
    if es == [] then 0 else CountKind(es[..|es| - 1], flat) + if es[|es| - 1].Flat? == flat then 1 else 0
  }

  /** Read, failed and skipped together are all the entries of a kind. */
  lemma {:induction false} EveryEntryCounted(ready: bool, slave: bv8, es: seq<Entry>, env: Env, flat: bool)
    requires GoodEntries(es)
    ensures Tally(ready, slave, es, env, flat, Read) + Tally(ready, slave, es, env, flat, Failed)
            + Tally(ready, slave, es, env, flat, Skipped) == CountKind(es, flat)
  {
    hide ResultAt, GoodEntry;
    if es != [] {
      EveryEntryCounted(ready, slave, es[..|es| - 1], env, flat);
    }
  }

  lemma {:induction false} StaysTripped(env: Env, i: nat, j: nat)
    requires i <= j && Tripped(env, i)
    ensures Tripped(env, j)
    decreases j
  {
    if i < j {
      StaysTripped(env, i, j - 1);
    }
  }

  /** Once one entry has been skipped for the budget, so are all after it. */
  lemma SkipsAreSuffix(ready: bool, slave: bv8, es: seq<Entry>, env: Env, i: nat, j: nat)
    requires GoodEntries(es) && i <= j < |es| && ResultAt(ready, slave, es[i], env, i) == Skipped
    ensures ResultAt(ready, slave, es[j], env, j) == Skipped
  {
    StaysTripped(env, i, j);
  }

  ghost predicate NeverBack(env: Env) {
    forall a: nat, b: nat | a <= b :: env.clock(a) <= env.clock(b)
  }

  /** The budget is used up at the i-th look at the clock after the first. */
  predicate Late(env: Env, i: nat) {
    env.clock(i + 1) - env.clock(0) > env.budget
  }

  lemma {:induction false} TrippedIffLate(env: Env, i: nat)
    requires NeverBack(env)
    ensures Tripped(env, i) <==> Late(env, i)
  {
    assert env.clock(0) <= env.clock(i + 1);
    if i > 0 {
      TrippedIffLate(env, i - 1);
      assert env.clock(i) <= env.clock(i + 1);
    }
  }

  /** Under a clock that never goes back and does not wrap during the phase, an
      entry is skipped exactly when the budget is used up as its turn comes, and
      otherwise read or failed as its transaction goes. */
  lemma SkippedIffLate(ready: bool, slave: bv8, e: Entry, env: Env, i: nat)
    requires GoodEntry(e) && NeverBack(env)
    ensures ResultAt(ready, slave, e, env, i) == Skipped <==> env.clock(i + 1) - env.clock(0) > env.budget
    ensures ResultAt(ready, slave, e, env, i) == Read
            <==> env.clock(i + 1) - env.clock(0) <= env.budget && EntryOutcome(ready, slave, e, env.bus(i)).Some?
    ensures PointsAt(ready, slave, e, env, i) ==
            if env.clock(i + 1) - env.clock(0) > env.budget then []
            else match EntryOutcome(ready, slave, e, env.bus(i)) case None => [] case Some(points) => points
  {
    hide EntryOutcome, GoodEntry;
    TrippedIffLate(env, i);
  }

  /** So a phase is cut in two: the entries before the cut have their turns in
      time and publish all there is; those behind it come late, publish nothing,
      and are exactly the ones counted as skipped. */
  lemma {:induction false} PhaseCut(ready: bool, slave: bv8, es: seq<Entry>, env: Env) returns (k: nat)
    requires GoodEntries(es) && NeverBack(env)
    ensures k <= |es| && GoodEntries(es[..k])
    ensures forall i | 0 <= i < |es| :: i < k <==> !Late(env, i)
    ensures PhasePoints(ready, slave, es, env) == PhasePoints(ready, slave, es[..k], env)
    ensures Tally(ready, slave, es, env, true, Skipped) == CountKind(es[k..], true)
    ensures Tally(ready, slave, es, env, false, Skipped) == CountKind(es[k..], false)
  {
    hide ResultAt, PointsAt, GoodEntry, NeverBack, CountKind;
    if es == [] {
      k := 0;
      assert es[..k] == es == es[k..];
      NoneOfAKind();
    } else {
      var init, n := es[..|es| - 1], |es| - 1;
      k := PhaseCut(ready, slave, init, env);
      SkippedIffLate(ready, slave, es[n], env, n);
      if k == n && !Late(env, n) {
        k := n + 1;
        assert es[..k] == es && es[k..] == [] && init[n..] == [];
      } else {
        StillLate(env, k, n);
        assert es[..k] == init[..k] && es[k..] == init[k..] + [es[n]];
        KindNext(init[k..], es[n], true);
        KindNext(init[k..], es[n], false);
      }
    }
  }

  lemma NoneOfAKind()
    ensures CountKind([], true) == 0 == CountKind([], false)
  {
  }

  lemma KindNext(es: seq<Entry>, e: Entry, flat: bool)
    ensures CountKind(es + [e], flat) == CountKind(es, flat) + if e.Flat? == flat then 1 else 0
  {
    assert (es + [e])[..|es|] == es;
  }

  lemma StillLate(env: Env, k: nat, n: nat)
    requires NeverBack(env) && k <= n && (k < n ==> Late(env, k)) && (k == n ==> Late(env, n))
    ensures Late(env, n)
  {
    assert env.clock(k + 1) <= env.clock(n + 1);
  }

  // ----- Which entries, in which order ----------------------------------------------------

  function InStorage(e: Entry): bool {
    match e
    case Flat(r) => r.isStorage
    case Block(g) => g.isStorage
  }

  /** How often an entry occurs among registers and groups. */
  function Listed(regs: seq<RegisterDef>, groups: seq<RegisterGroup>, e: Entry): nat {
    match e
    case Flat(r) => multiset(regs)[r]
    case Block(g) => multiset(groups)[g]
  }

  /** A phase visits exactly the entries with its flag, each as often as it is
      listed, and all single registers before all groups. */
  lemma PhaseVisits(regs: seq<RegisterDef>, groups: seq<RegisterGroup>, storage: bool, e: Entry)
    ensures multiset(PhaseEntries(regs, groups, storage))[e] == if InStorage(e) == storage then Listed(regs, groups, e) else 0
    ensures forall i, j | 0 <= i < j < |PhaseEntries(regs, groups, storage)| ::
              PhaseEntries(regs, groups, storage)[j].Flat? ==> PhaseEntries(regs, groups, storage)[i].Flat?
  {
    var a, b := FlatEntries(regs, storage), BlockEntries(groups, storage);
    FlatsVisited(regs, storage, e);
    BlocksVisited(groups, storage, e);
    FlatsThenBlocks(a, b);
    hide FlatEntries, BlockEntries;
    assert multiset(a + b) == multiset(a) + multiset(b);
  }

  lemma FlatsThenBlocks(a: seq<Entry>, b: seq<Entry>)
    requires (forall x | x in a :: x.Flat?) && (forall x | x in b :: x.Block?)
    ensures forall i, j | 0 <= i < j < |a + b| :: (a + b)[j].Flat? ==> (a + b)[i].Flat?
  {
    forall i, j | 0 <= i < j < |a + b|
      ensures (a + b)[j].Flat? ==> (a + b)[i].Flat?
    {
      if j < |a| {
        assert (a + b)[i] in a;
      } else {
        assert (a + b)[j] in b;
      }
    }
  }

  lemma OneMore<T>(s: seq<T>, x: T, e: T)
    ensures multiset(s + [x])[e] == multiset(s)[e] + if e == x then 1 else 0
  {
    assert multiset(s + [x]) == multiset(s) + multiset([x]);
  }

  lemma {:induction false} FlatsVisited(regs: seq<RegisterDef>, storage: bool, e: Entry)
    ensures forall x | x in FlatEntries(regs, storage) :: x.Flat?
    ensures multiset(FlatEntries(regs, storage))[e] == if e.Flat? && e.reg.isStorage == storage then multiset(regs)[e.reg] else 0
  {
    if regs != [] {
      var init, last := regs[..|regs| - 1], regs[|regs| - 1];
      FlatsVisited(init, storage, e);
      FlatNext(init, last, storage);
      hide FlatEntries;
      assert regs == init + [last];
      OneMore(init, last, if e.Flat? then e.reg else last);
      OneMore(FlatEntries(init, storage), Flat(last), e);
    }
  }

  lemma FlatNext(init: seq<RegisterDef>, last: RegisterDef, storage: bool)
    ensures FlatEntries(init + [last], storage)
            == FlatEntries(init, storage) + if last.isStorage == storage then [Flat(last)] else []
  {
    assert (init + [last])[..|init|] == init;
  }

  lemma {:induction false} BlocksVisited(groups: seq<RegisterGroup>, storage: bool, e: Entry)
    ensures forall x | x in BlockEntries(groups, storage) :: x.Block?
    ensures multiset(BlockEntries(groups, storage))[e] == if e.Block? && e.group.isStorage == storage then multiset(groups)[e.group] else 0
  {
    if groups != [] {
      var init, last := groups[..|groups| - 1], groups[|groups| - 1];
      BlocksVisited(init, storage, e);
      BlockNext(init, last, storage);
      hide BlockEntries;
      assert groups == init + [last];
      OneMore(init, last, if e.Block? then e.group else last);
      OneMore(BlockEntries(init, storage), Block(last), e);
    }
  }

  lemma BlockNext(init: seq<RegisterGroup>, last: RegisterGroup, storage: bool)
    ensures BlockEntries(init + [last], storage)
            == BlockEntries(init, storage) + if last.isStorage == storage then [Block(last)] else []
  {
    assert (init + [last])[..|init|] == init;
  }
}

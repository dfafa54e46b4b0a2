/** Runs from a cold start, in segments of any size, in which the store does less
    than its comments promise. */
module LogWitnesses {
  import opened MachineTypes
  import opened LogFormat
  import opened LogTape
  import opened LogSpec
  import opened LogRuns
  import opened LogReads

  function Dashes(n: nat): seq<byte> {
    seq(n, _ => 0x2D)
  }

  /** An error line of the largest size, at a given time. */
  function Long(ts: uint32): Line {
    Line(ERROR, Some(Dashes(MAX_MSG)), ts)
  }

  /** An error line without text. */
  function Blank(ts: uint32): Line {
    Line(ERROR, Some([]), ts)
  }

  /** The same line `n` times. */
  function Times(l: Line, n: nat): seq<Event> {
    if n == 0 then [] else Times(l, n - 1) + [Log(l)]
  }

  lemma TimesNext(bootCap: nat, rollCap: nat, v: View, l: Line, n: nat)
    requires 0 < rollCap && Cut(v.roll) && n > 0
    ensures Run(bootCap, rollCap, v, Times(l, n))
            == SinkStep(bootCap, rollCap, Run(bootCap, rollCap, v, Times(l, n - 1)), l.level, l.msg, l.ts)
  {
    hide SinkStep;
    var es := Times(l, n);
    assert es[..|es| - 1] == Times(l, n - 1);
  }

  lemma {:induction false} RunConcat(bootCap: nat, rollCap: nat, v: View, a: seq<Event>, b: seq<Event>)
    requires 0 < rollCap && Cut(v.roll)
    ensures Run(bootCap, rollCap, v, a + b) == Run(bootCap, rollCap, Run(bootCap, rollCap, v, a), b)
    decreases b
  {
    hide Step;
    if b == [] {
      assert a + b == a;
    } else {
      var c := b[..|b| - 1];
      assert (a + b)[..|a + b| - 1] == a + c;
      RunConcat(bootCap, rollCap, v, a, c);
    }
  }

  // ----- Flooding the rolling segment ---------------------------------------------------------

  const LATE: Line := Long(60000)

  function LateRec(): (r: Rec)
    ensures GoodRec(r) && SizeOf(Record(r)) == MAX_ENTRY
  {
    Rec(ERROR, 0, 60000, Dashes(MAX_MSG))
  }

  /** An error line after the boot window goes to the rolling segment. */
  lemma GoesToRolling(bootCap: nat, rollCap: nat, v: View, msg: seq<byte>)
    requires 0 < rollCap && Cut(v.roll)
    ensures var v' := SinkStep(bootCap, rollCap, v, ERROR, Some(msg), 60000);
            v'.boot == v.boot && v'.roll == Appended(rollCap, v.roll, Clipped(ERROR, msg, 60000))
  {
    hide Appended, Clipped, Size;
    assert Clipped(ERROR, msg, 60000).ts == 60000 by { ClippedTime(msg); }
  }

  lemma ClippedTime(msg: seq<byte>)
    ensures Clipped(ERROR, msg, 60000).ts == 60000
  {
  }

  lemma LateClipped()
    ensures Clipped(ERROR, Dashes(MAX_MSG), 60000) == LateRec()
  {
    assert Dashes(MAX_MSG)[..MAX_MSG] == Dashes(MAX_MSG);
  }

  lemma AppendGrows(cap: nat, t: Tape, r: Rec)
    requires 0 < cap && Cut(t)
    ensures var all' := Appended(cap, t, r).all; t.all <= all' && Size(all') >= Size(t.all) + SizeOf(Record(r))
  {
    var added := Added(cap, t.all, r);
    RecordAlone(r);
    hide Size, SizeOf, Trim;
    SizeConcat(t.all, added);
    SizeConcat(added[..|added| - 1], [Record(r)]);
    assert added == added[..|added| - 1] + [Record(r)];
  }

  lemma LateStep(bootCap: nat, rollCap: nat, v: View)
    requires ViewOk(bootCap, rollCap, v)
    ensures var v' := SinkStep(bootCap, rollCap, v, LATE.level, LATE.msg, LATE.ts);
            && ViewOk(bootCap, rollCap, v') && v'.boot == v.boot
            && v'.roll == Appended(rollCap, v.roll, LateRec())
            && v.roll.all <= v'.roll.all && Size(v'.roll.all) >= Size(v.roll.all) + MAX_ENTRY
  {
    StepKeepsView(bootCap, rollCap, v, Log(LATE));
    hide Size, Trim, SinkStep, Placed, Appended, Clipped, Dashes;
    GoesToRolling(bootCap, rollCap, v, Dashes(MAX_MSG));
    LateClipped();
    AppendGrows(rollCap, v.roll, LateRec());
  }

  /** Long lines push the tape on by their size, each. */
  lemma {:induction false} Flood(bootCap: nat, rollCap: nat, v: View, n: nat)
    requires ViewOk(bootCap, rollCap, v)
    ensures var v' := Run(bootCap, rollCap, v, Times(LATE, n));
            && ViewOk(bootCap, rollCap, v') && v'.boot == v.boot
            && v.roll.all <= v'.roll.all && Size(v'.roll.all) >= Size(v.roll.all) + MAX_ENTRY * n
  {
    hide SinkStep, Size, Placed, LATE;
    if n > 0 {
      Flood(bootCap, rollCap, v, n - 1);
      TimesNext(bootCap, rollCap, v, LATE, n);
      LateStep(bootCap, rollCap, Run(bootCap, rollCap, v, Times(LATE, n - 1)));
    }
  }

  /** As many long lines as the segment has bytes evict all there was. */
  lemma FloodEvicts(bootCap: nat, rollCap: nat, v: View)
    requires ViewOk(bootCap, rollCap, v)
    ensures var v' := Run(bootCap, rollCap, v, Times(LATE, rollCap));
            && ViewOk(bootCap, rollCap, v') && v.roll.all <= v'.roll.all && v'.roll.gone >= |v.roll.all|
  {
    hide Placed, Run, Times;
    Flood(bootCap, rollCap, v, rollCap);
    var t, k := Run(bootCap, rollCap, v, Times(LATE, rollCap)).roll, |v.roll.all|;
    assert t.all == v.roll.all + t.all[k..];
    SizeConcat(v.roll.all, t.all[k..]);
    if t.gone < k {
      assert Live(t) == t.all[t.gone..k] + t.all[k..];
      SizeConcat(t.all[t.gone..k], t.all[k..]);
    }
  }

  // ----- A cold start -------------------------------------------------------------------------

  function Title(text: seq<byte>): Rec {
    Rec(INFO, FLAG_BOOT, 0, Marker(text))
  }

  lemma SizeIsSmall(r: Rec)
    requires GoodRec(r)
    ensures HDR <= SizeOf(Record(r)) <= MAX_ENTRY && SizeOf(Record(r)) % 4 == 0
  {
  }

  lemma AddedRecord(cap: nat, all: seq<Entry>, r: Rec)
    requires GoodCap(cap) && Placed(cap, 0, all) && Size(all) + SizeOf(Record(r)) <= cap && GoodRec(r) && Size(all) < cap
    ensures Appended(cap, Tape(all, 0), r) == Tape(all + [Record(r)], 0)
    ensures Size(all + [Record(r)]) == Size(all) + SizeOf(Record(r))
  {
    EndIsAdvance(cap, 0, all);
    SizeConcat(all, [Record(r)]);
    RecordAlone(r);
    hide Size, SizeOf, Placed, End;
    assert Added(cap, all, r) == [Record(r)];
    assert (all + [Record(r)])[0..] == all + [Record(r)];
  }

  lemma ColdTape(rollCap: nat, text: seq<byte>)
    requires GoodCap(rollCap)
    ensures BeginStep(rollCap, COLD, text).roll == Tape([Record(Title(text))], 0)
    ensures Size([Record(Title(text))]) == SizeOf(Record(Title(text)))
  {
    RecordAlone(Title(text));
    SizeIsSmall(Title(text));
    AddedRecord(rollCap, [], Title(text));
    assert [] + [Record(Title(text))] == [Record(Title(text))];
  }

  // ----- A lap that goes unseen ---------------------------------------------------------------

  lemma ColdPair(bootCap: nat, rollCap: nat, text: seq<byte>)
    requires GoodCap(bootCap) && GoodCap(rollCap)
    ensures var v := FromCold(bootCap, rollCap, text, [Log(LATE)]);
            && ViewOk(bootCap, rollCap, v) && |v.boot| == 1 && v.boot[0].Record?
            && v.roll.gone == 0 && |v.roll.all| == 2 && v.roll.all[0].Record? && v.roll.all[1].Record?
            && SizeOf(v.roll.all[1]) <= MAX_ENTRY
  {
    var v0 := BeginStep(rollCap, COLD, text);
    ColdStartOk(bootCap, rollCap, text);
    RunKeepsView(bootCap, rollCap, v0, [Log(LATE)]);
    OneLine(bootCap, rollCap, v0, LATE);
    ColdTape(rollCap, text);
    var r := Clipped(ERROR, Dashes(MAX_MSG), 60000);
    SizeIsSmall(Title(text));
    SizeIsSmall(r);
    assert Placed(rollCap, 0, [Record(Title(text))]);
    AddedRecord(rollCap, [Record(Title(text))], r);
    hide Appended, Size, ViewOk, Placed, SizeOf;
  }

  lemma PlayStart(bootCap: nat, rollCap: nat, t: Tour)
    requires 0 < rollCap && TourShape(t)
    ensures Play(bootCap, rollCap, t, []) == t
  {
  }

  /** Two reads take a reader past the boot line and the first rolling record. */
  lemma TwoReads(bootCap: nat, rollCap: nat, v: View)
    requires 0 < rollCap && |v.boot| == 1 && v.boot[0].Record?
    requires v.roll.gone == 0 && |v.roll.all| == 2 && v.roll.all[0].Record?
    ensures var t := Play(bootCap, rollCap, Tour(v, OpenReader(v), [], [], false), [Read, Read]);
            t.rd == Reader(Rolling, 1, 2) && t.v == v && !t.lapped
  {
    hide Play;
    var t0 := Tour(v, OpenReader(v), [], [], false);
    PlayStart(bootCap, rollCap, t0);
    PlayNext(bootCap, rollCap, t0, [], Read);
    PlayNext(bootCap, rollCap, t0, [Read], Read);
    assert [] + [Read] == [Read] && [Read] + [Read] == [Read, Read];
  }

  function Writes(n: nat): seq<Act> {
    if n == 0 then [] else Writes(n - 1) + [Write(LATE)]
  }

  lemma {:induction false} PlayWrites(bootCap: nat, rollCap: nat, t: Tour, acts: seq<Act>, n: nat)
    requires 0 < rollCap && TourShape(t)
    ensures var t1, t' := Play(bootCap, rollCap, t, acts), Play(bootCap, rollCap, t, acts + Writes(n));
            t' == t1.(v := Run(bootCap, rollCap, t1.v, Times(LATE, n)))
  {
    hide SinkStep, Play, LATE;
    if n == 0 {
      assert acts + Writes(0) == acts;
      NoEvents(bootCap, rollCap, Play(bootCap, rollCap, t, acts).v);
    } else {
      PlayWrites(bootCap, rollCap, t, acts, n - 1);
      assert acts + Writes(n) == (acts + Writes(n - 1)) + [Write(LATE)];
      PlayNext(bootCap, rollCap, t, acts + Writes(n - 1), Write(LATE));
      TimesNext(bootCap, rollCap, Play(bootCap, rollCap, t, acts).v, LATE, n);
    }
  }

  lemma NoEvents(bootCap: nat, rollCap: nat, v: View)
    requires 0 < rollCap && Cut(v.roll)
    ensures Run(bootCap, rollCap, v, Times(LATE, 0)) == v
  {
  }

  /** Laps do go unseen, in segments of every size and behind every boot line: a
      reader two records in is lapped by enough long lines, and never flagged. */
  lemma LapMissedWitness(bootCap: nat, rollCap: nat, text: seq<byte>)
    requires GoodCap(bootCap) && GoodCap(rollCap)
    ensures var v := FromCold(bootCap, rollCap, text, [Log(LATE)]);
            var t := Play(bootCap, rollCap, Tour(v, OpenReader(v), [], [], false), [Read, Read] + Writes(rollCap));
            Lapped(t.v, t.rd) && !Flagged(t.v, t.rd)
  {
    hide FromCold, Play, Size, Placed, Run, Writes, Times, LATE;
    var v := FromCold(bootCap, rollCap, text, [Log(LATE)]);
    ColdPair(bootCap, rollCap, text);
    TwoReads(bootCap, rollCap, v);
    var t0 := Tour(v, OpenReader(v), [], [], false);
    PlayWrites(bootCap, rollCap, t0, [Read, Read], rollCap);
    FloodEvicts(bootCap, rollCap, v);
    var t := Play(bootCap, rollCap, t0, [Read, Read] + Writes(rollCap));
    OneOwed(t.v, t.rd, v.roll.all);
    LapsMissed(bootCap, rollCap, t.v, t.rd);
  }

  lemma OneOwed(v: View, rd: Reader, all: seq<Entry>)
    requires rd == Reader(Rolling, 1, 2) && |all| == 2 && all <= v.roll.all && SizeOf(all[1]) <= MAX_ENTRY
    ensures ReaderOk(v, rd) && Size(Unread(v, rd)) <= MAX_ENTRY
  {
    assert Unread(v, rd) == [all[1]];
    assert Size([all[1]]) == SizeOf(all[1]) + Size([]);
  }

  // ----- Segments filled with blank lines -----------------------------------------------------

  /** `n` blank records of one time. */
  function Blanks(ts: uint32, n: nat): seq<Entry> {
    if n == 0 then [] else Blanks(ts, n - 1) + [Record(Rec(ERROR, 0, ts, []))]
  }

  lemma BlankSize(ts: uint32)
    ensures Clipped(ERROR, [], ts) == Rec(ERROR, 0, ts, []) && SizeOf(Record(Rec(ERROR, 0, ts, []))) == HDR
  {
  }

  /** Blank lines after the boot window line up in the rolling segment. */
  lemma {:induction false} RollingBlanks(bootCap: nat, rollCap: nat, v: View, n: nat)
    requires ViewOk(bootCap, rollCap, v) && v.roll.gone == 0 && Size(v.roll.all) + HDR * n <= rollCap
    ensures var v' := Run(bootCap, rollCap, v, Times(Blank(60000), n));
            && ViewOk(bootCap, rollCap, v') && v'.boot == v.boot
            && v'.roll == Tape(v.roll.all + Blanks(60000, n), 0)
            && Size(v'.roll.all) == Size(v.roll.all) + HDR * n
  {
    hide Size, Placed, SinkStep, Appended, Clipped, SizeOf;
    if n == 0 {
      assert v.roll.all + [] == v.roll.all;
    } else {
      RollingBlanks(bootCap, rollCap, v, n - 1);
      var v1 := Run(bootCap, rollCap, v, Times(Blank(60000), n - 1));
      TimesNext(bootCap, rollCap, v, Blank(60000), n);
      StepKeepsView(bootCap, rollCap, v1, Log(Blank(60000)));
      BlankSize(60000);
      GoesToRolling(bootCap, rollCap, v1, []);
      AddedRecord(rollCap, v1.roll.all, Rec(ERROR, 0, 60000, []));
      assert v.roll.all + Blanks(60000, n) == (v.roll.all + Blanks(60000, n - 1)) + [Record(Rec(ERROR, 0, 60000, []))];
    }
  }

  /** Blank lines in the boot window line up in the boot segment. */
  lemma {:induction false} BootBlanks(bootCap: nat, rollCap: nat, v: View, n: nat)
    requires 0 < rollCap && Cut(v.roll) && Size(v.boot) + HDR * n <= bootCap
    ensures var v' := Run(bootCap, rollCap, v, Times(Blank(0), n));
            v'.boot == v.boot + Blanks(0, n) && Size(v'.boot) == Size(v.boot) + HDR * n
  {
    if n == 0 {
      assert v.boot + [] == v.boot;
    } else {
      BootBlanks(bootCap, rollCap, v, n - 1);
      var v1 := Run(bootCap, rollCap, v, Times(Blank(0), n - 1));
      TimesNext(bootCap, rollCap, v, Blank(0), n);
      BlankSize(0);
      RecordAlone(Rec(ERROR, 0, 0, []));
      SizeConcat(v1.boot, [Record(Rec(ERROR, 0, 0, []))]);
      hide Appended, Size, SizeOf;
      assert v.boot + Blanks(0, n) == (v.boot + Blanks(0, n - 1)) + [Record(Rec(ERROR, 0, 0, []))];
    }
  }

  // ----- A filler that is lost ------------------------------------------------------------------

  /** How many blank lines leave a tail too short for a long line: 8 to 15 bytes. */
  function BlanksToFill(cap: nat, used: nat): nat
    requires used + 2 * HDR <= cap
  {
    (cap - used) / HDR - 1
  }

  lemma TailLeft(cap: nat, used: nat)
    requires used + 2 * HDR <= cap
    ensures var n := BlanksToFill(cap, used); HDR <= cap - (used + HDR * n) < 2 * HDR
  {
  }

  /** The next long line turns a short tail into filler. */
  lemma FillerComes(bootCap: nat, rollCap: nat, v: View)
    requires ViewOk(bootCap, rollCap, v) && v.roll.gone == 0 && HDR <= rollCap - Size(v.roll.all) < 2 * HDR
    ensures var v' := SinkStep(bootCap, rollCap, v, LATE.level, LATE.msg, LATE.ts);
            && ViewOk(bootCap, rollCap, v') && |v'.roll.all| == |v.roll.all| + 2
            && v'.roll.all[|v.roll.all|].Filler?
  {
    hide Appended, Size, SinkStep, Placed, End;
    LateStep(bootCap, rollCap, v);
    assert Live(v.roll) == v.roll.all;
    EndIsAdvance(rollCap, 0, v.roll.all);
    FillerAdded(rollCap, v.roll, LateRec());
  }

  lemma FillerAdded(cap: nat, t: Tape, r: Rec)
    requires 0 < cap && Cut(t) && HDR <= cap - End(cap, 0, t.all) < SizeOf(Record(r))
    ensures var all' := Appended(cap, t, r).all; |all'| == |t.all| + 2 && all'[|t.all|].Filler?
  {
  }

  lemma {:induction false} FillerIsCounted(es: seq<Entry>, i: nat)
    requires i < |es| && es[i].Filler?
    ensures Fillers(es) > 0
  {
    if i > 0 {
      FillerIsCounted(es[1..], i - 1);
    }
  }

  /** The lines of the witness below. */
  function FillerRun(rollCap: nat, text: seq<byte>): seq<Event>
    requires GoodCap(rollCap)
  {
    Times(Blank(60000), BlanksToFill(rollCap, SizeOf(Record(Title(text))))) + ([Log(LATE)] + Times(LATE, rollCap))
  }

  /** Eviction counts fillers, in segments of every size and behind every boot
      line: after these lines a filler is among what is gone. */
  lemma FillerLostWitness(bootCap: nat, rollCap: nat, text: seq<byte>)
    requires GoodCap(bootCap) && GoodCap(rollCap)
    ensures var t := FromCold(bootCap, rollCap, text, FillerRun(rollCap, text)).roll;
            Fillers(t.all[..t.gone]) > 0
  {
    hide Size, SizeOf, Placed, SinkStep, Times, Run, LATE, Appended, BlanksToFill, Fillers;
    var v0 := BeginStep(rollCap, COLD, text);
    ColdStartOk(bootCap, rollCap, text);
    ColdTape(rollCap, text);
    SizeIsSmall(Title(text));
    var used := SizeOf(Record(Title(text)));
    var n := BlanksToFill(rollCap, used);
    TailLeft(rollCap, used);
    RollingBlanks(bootCap, rollCap, v0, n);
    var v1 := Run(bootCap, rollCap, v0, Times(Blank(60000), n));
    FillerComes(bootCap, rollCap, v1);
    OneLine(bootCap, rollCap, v1, LATE);
    var v2 := Run(bootCap, rollCap, v1, [Log(LATE)]);
    FloodEvicts(bootCap, rollCap, v2);
    RunConcat(bootCap, rollCap, v1, [Log(LATE)], Times(LATE, rollCap));
    RunConcat(bootCap, rollCap, v0, Times(Blank(60000), n), [Log(LATE)] + Times(LATE, rollCap));
    var t := FromCold(bootCap, rollCap, text, FillerRun(rollCap, text)).roll;
    FillerIsCounted(t.all[..t.gone], |v1.roll.all|);
  }

  // ----- A boot segment that refuses and then takes ------------------------------------------------

  /** A long line in the boot window. */
  const EARLY: Line := Long(0)

  lemma EarlyRefused(bootCap: nat, rollCap: nat, v: View)
    requires 0 < rollCap && Cut(v.roll) && Size(v.boot) + MAX_ENTRY > bootCap
    ensures SinkStep(bootCap, rollCap, v, EARLY.level, EARLY.msg, EARLY.ts).boot == v.boot
  {
    hide Appended, Size;
  }

  lemma BootLine(rollCap: nat, text: seq<byte>)
    requires GoodCap(rollCap)
    ensures Cut(BeginStep(rollCap, COLD, text).roll)
    ensures Size(BeginStep(rollCap, COLD, text).boot) == SizeOf(Record(Title(text))) <= MAX_ENTRY
  {
    RecordAlone(Rec(INFO, 0, 0, Marker(text)));
    SizeIsSmall(Title(text));
  }

  /** A refusal does not stop the boot segment, whatever its size and boot line:
      after these lines a long line is refused and a shorter one, later, stored. */
  lemma RefusedThenStored(bootCap: nat, rollCap: nat, text: seq<byte>)
    requires GoodCap(bootCap) && GoodCap(rollCap)
    ensures SizeOf(Record(Title(text))) + 2 * HDR <= bootCap
    ensures var n := BlanksToFill(bootCap, SizeOf(Record(Title(text))));
            var v := FromCold(bootCap, rollCap, text, Times(Blank(0), n));
            var v' := Run(bootCap, rollCap, v, [Log(EARLY)]);
            var v'' := Run(bootCap, rollCap, v', [Log(Blank(0))]);
            v'.boot == v.boot && v''.boot == v'.boot + [Record(Rec(ERROR, 0, 0, []))]
  {
    var v0 := BeginStep(rollCap, COLD, text);
    BootLine(rollCap, text);
    hide Size, SizeOf, SinkStep, Times, Run, EARLY, Appended, BlanksToFill;
    var used := SizeOf(Record(Title(text)));
    var n := BlanksToFill(bootCap, used);
    TailLeft(bootCap, used);
    BootBlanks(bootCap, rollCap, v0, n);
    var v := FromCold(bootCap, rollCap, text, Times(Blank(0), n));
    OneLine(bootCap, rollCap, v, EARLY);
    EarlyRefused(bootCap, rollCap, v);
    var v' := Run(bootCap, rollCap, v, [Log(EARLY)]);
    OneLine(bootCap, rollCap, v', Blank(0));
    BlankEnters(bootCap, rollCap, v', 0);
  }
}

/** What holds of the log store over whole runs: any number of lines, reboots and
    interleaved reads. */
module LogRuns {
  import opened MachineTypes
  import opened LogFormat
  import opened LogTape
  import opened LogSpec

  datatype Line = Line(level: byte, msg: Option<seq<byte>>, ts: uint32)
  datatype Event = Log(line: Line) | Reboot(text: seq<byte>)

  function Step(bootCap: nat, rollCap: nat, v: View, e: Event): View
    requires 0 < rollCap && Cut(v.roll)
  {
    match e
    case Log(l) => SinkStep(bootCap, rollCap, v, l.level, l.msg, l.ts)
    case Reboot(text) => BeginStep(rollCap, v, text)
  }

  function Run(bootCap: nat, rollCap: nat, v: View, es: seq<Event>): (v': View)
    requires 0 < rollCap && Cut(v.roll)
    ensures Cut(v'.roll)
  {
    if es == [] then v
    else Step(bootCap, rollCap, Run(bootCap, rollCap, v, es[..|es| - 1]), es[|es| - 1])
  }

  /** The first start on memory that did not survive, then `es`. */
  function FromCold(bootCap: nat, rollCap: nat, text: seq<byte>, es: seq<Event>): View
    requires 0 < rollCap
  {
    Run(bootCap, rollCap, BeginStep(rollCap, COLD, text), es)
  }

  // ----- The invariant over every run --------------------------------------------

  lemma BootAppend(bootCap: nat, boot: seq<Entry>, r: Rec)
    requires BootOk(bootCap, boot) && GoodRec(r) && Size(boot) + SizeOf(Record(r)) <= bootCap
    ensures BootOk(bootCap, boot + [Record(r)])
  {
    EndIsAdvance(bootCap, 0, boot);
    EndAligned(bootCap, 0, boot);
    PlacedAppend(bootCap, 0, boot, Record(r));
    SizeConcat(boot, [Record(r)]);
    assert Size([Record(r)]) == SizeOf(Record(r)) + Size([]);
  }

  lemma StepKeepsView(bootCap: nat, rollCap: nat, v: View, e: Event)
    requires ViewOk(bootCap, rollCap, v)
    ensures ViewOk(bootCap, rollCap, Step(bootCap, rollCap, v, e))
  {
    match e
    case Log(l) =>
      if l.msg.Some? {
        var r := Clipped(l.level, l.msg.value, l.ts);
        AppendKeepsTape(rollCap, v.roll, r);
        if BootTakes(bootCap, v.boot, r) {
          BootAppend(bootCap, v.boot, r);
        }
      }
    case Reboot(text) =>
      AppendKeepsTape(rollCap, v.roll, Rec(INFO, FLAG_BOOT, 0, Marker(text)));
      BootAppend(bootCap, [], Rec(INFO, 0, 0, Marker(text)));
      assert [] + [Record(Rec(INFO, 0, 0, Marker(text)))] == [Record(Rec(INFO, 0, 0, Marker(text)))];
  }

  /** Every state of every run keeps the invariant: entries aligned and never
      straddling, both segments within capacity, a nearly full rolling segment
      once anything has been evicted. */
  lemma {:induction false} RunKeepsView(bootCap: nat, rollCap: nat, v: View, es: seq<Event>)
    requires ViewOk(bootCap, rollCap, v)
    ensures ViewOk(bootCap, rollCap, Run(bootCap, rollCap, v, es))
  {
    if es != [] {
      RunKeepsView(bootCap, rollCap, v, es[..|es| - 1]);
      StepKeepsView(bootCap, rollCap, Run(bootCap, rollCap, v, es[..|es| - 1]), es[|es| - 1]);
    }
  }

  lemma ColdStartOk(bootCap: nat, rollCap: nat, text: seq<byte>)
    requires GoodCap(bootCap) && GoodCap(rollCap)
    ensures ViewOk(bootCap, rollCap, BeginStep(rollCap, COLD, text))
  {
    StepKeepsView(bootCap, rollCap, COLD, Reboot(text));
  }

  // ----- What is kept, and where -----------------------------------------------------

  /** The record an event stores, if any, tagged with whether the boot segment takes it. */
  function KeptBy(bootCap: nat, v: View, e: Event): seq<(bool, Rec)> {
    match e
    case Log(l) =>
      if l.msg.Some? && Captures(v, l.level, l.ts) then
        var r := Clipped(l.level, l.msg.value, l.ts);
        [(BootTakes(bootCap, v.boot, r), r)]
      else []
    case Reboot(text) => [(false, Rec(INFO, FLAG_BOOT, 0, Marker(text)))]
  }

  /** The records a run stores, in order. */
  function Kept(bootCap: nat, rollCap: nat, v: View, es: seq<Event>): seq<(bool, Rec)>
    requires 0 < rollCap && Cut(v.roll)
  {
    if es == [] then [] else
    var init := es[..|es| - 1];
    Kept(bootCap, rollCap, v, init) + KeptBy(bootCap, Run(bootCap, rollCap, v, init), es[|es| - 1])
  }

  function Tagged(kept: seq<(bool, Rec)>, tag: bool): seq<Rec> {
    if kept == [] then []
    else (if kept[0].0 == tag then [kept[0].1] else []) + Tagged(kept[1..], tag)
  }

  lemma {:induction false} TaggedConcat(a: seq<(bool, Rec)>, b: seq<(bool, Rec)>, tag: bool)
    ensures Tagged(a + b, tag) == Tagged(a, tag) + Tagged(b, tag)
  {
    if a == [] {
      assert a + b == b;
    } else {
      TaggedConcat(a[1..], b, tag);
      assert (a + b)[0] == a[0] && (a + b)[1..] == a[1..] + b;
      var first := if a[0].0 == tag then [a[0].1] else [];
      assert first + (Tagged(a[1..], tag) + Tagged(b, tag)) == (first + Tagged(a[1..], tag)) + Tagged(b, tag);
    }
  }

  lemma RecordAlone(r: Rec)
    ensures Records([Record(r)]) == [r] && Size([Record(r)]) == SizeOf(Record(r))
  {
    assert Records([Record(r)]) == [r] + Records([]);
    assert Size([Record(r)]) == SizeOf(Record(r)) + Size([]);
  }

  lemma RecordsOfAdded(cap: nat, all: seq<Entry>, r: Rec)
    requires 0 < cap
    ensures Records(all + Added(cap, all, r)) == Records(all) + [r]
  {
    var added := Added(cap, all, r);
    SizeConcat(all, added);
    RecordAlone(r);
    if |added| == 2 {
      assert added[1..] == [Record(r)];
    }
  }

  lemma StepStores(bootCap: nat, rollCap: nat, v: View, e: Event)
    requires 0 < rollCap && Cut(v.roll)
    ensures var v' := Step(bootCap, rollCap, v, e);
            && Records(v'.roll.all) == Records(v.roll.all) + Tagged(KeptBy(bootCap, v, e), false)
            && (e.Log? ==> v.boot <= v'.boot && Records(v'.boot) == Records(v.boot) + Tagged(KeptBy(bootCap, v, e), true))
  {
    match e
    case Log(l) =>
      if l.msg.Some? {
        var r := Clipped(l.level, l.msg.value, l.ts);
        RecordsOfAdded(rollCap, v.roll.all, r);
        SizeConcat(v.boot, [Record(r)]);
        RecordAlone(r);
      }
    case Reboot(text) =>
      RecordsOfAdded(rollCap, v.roll.all, Rec(INFO, FLAG_BOOT, 0, Marker(text)));
  }

  /** The record a line becomes, in figures: its level, its time, and the first
      160 bytes of its text, with the truncation flag if there were more. */
  lemma LineBecomes(level: byte, msg: seq<byte>, ts: uint32)
    ensures var n, r := |msg| % 0x1_0000, Clipped(level, msg, ts);
            && r.level == level && r.ts == ts
            && r.body == msg[..if n > 160 then 160 else n]
            && r.flags == if n > 160 then 2 else 0
  {
  }

  /** In every run, whatever came before, a line with a text is kept, as exactly
      one record, if and only if it is a warning or an error, or within the first
      minute, or within the capture window. */
  lemma LineKept(bootCap: nat, rollCap: nat, v: View, es: seq<Event>, l: Line)
    requires 0 < rollCap && Cut(v.roll) && l.msg.Some?
    ensures var before, window := Kept(bootCap, rollCap, v, es), Run(bootCap, rollCap, v, es).until;
            var after := Kept(bootCap, rollCap, v, es + [Log(l)]);
            if l.level <= 1 || l.ts < 60000 || l.ts < window then
              |after| == |before| + 1 && after[..|before|] == before
              && after[|before|].1 == Clipped(l.level, l.msg.value, l.ts)
              && (after[|before|].0 ==> l.ts < 60000)
            else after == before
  {
    hide Clipped, Run, SizeOf, Size;
    assert (es + [Log(l)])[..|es|] == es;
    var before := Kept(bootCap, rollCap, v, es);
    assert before + [] == before;
    ClippedKeepsTime(l.level, l.msg.value, l.ts);
  }

  lemma ClippedKeepsTime(level: byte, msg: seq<byte>, ts: uint32)
    ensures Clipped(level, msg, ts).ts == ts
  {
  }

  function Reboots(es: seq<Event>): nat {
    if es == [] then 0 else Reboots(es[..|es| - 1]) + if es[|es| - 1].Reboot? then 1 else 0
  }

  /** The sequence number counts the records stored, in 32-bit arithmetic; a
      reboot counts once more, its line being stored in both segments. */
  lemma {:induction false} SequenceNumber(bootCap: nat, rollCap: nat, v: View, es: seq<Event>)
    requires 0 < rollCap && Cut(v.roll)
    ensures Run(bootCap, rollCap, v, es).stored
            == Wrap32(v.stored + |Kept(bootCap, rollCap, v, es)| + Reboots(es))
  {
    hide Step, KeptBy;
    if es == [] {
      WrapSmall(v.stored);
    } else {
      hide Wrap32;
      var init, e := es[..|es| - 1], es[|es| - 1];
      SequenceNumber(bootCap, rollCap, v, init);
      var before := Run(bootCap, rollCap, v, init);
      StepNumber(bootCap, rollCap, before, e);
      WrapAdd(v.stored + |Kept(bootCap, rollCap, v, init)| + Reboots(init),
              |KeptBy(bootCap, before, e)| + if e.Reboot? then 1 else 0);
    }
  }

  lemma StepNumber(bootCap: nat, rollCap: nat, v: View, e: Event)
    requires 0 < rollCap && Cut(v.roll)
    ensures Step(bootCap, rollCap, v, e).stored
            == Wrap32(v.stored + |KeptBy(bootCap, v, e)| + if e.Reboot? then 1 else 0)
  {
    hide Clipped, Appended, BootTakes;
  }

  /** The boot line, in figures: up to 159 bytes whole, of a longer one the first
      159; an INFO line of time 0 in both segments, flagged in the rolling one. */
  lemma BootLineStored(rollCap: nat, v: View, text: seq<byte>)
    requires 0 < rollCap && Cut(v.roll)
    ensures var v', line := BeginStep(rollCap, v, text), text[..if |text| > 159 then 159 else |text|];
            && Records(v'.boot) == [Rec(2, 0, 0, line)]
            && Records(v'.roll.all) == Records(v.roll.all) + [Rec(2, 1, 0, line)]
            && v'.until == 0 == v'.lastRearm
  {
    RecordAlone(Rec(INFO, 0, 0, Marker(text)));
    RecordsOfAdded(rollCap, v.roll.all, Rec(INFO, FLAG_BOOT, 0, Marker(text)));
    assert text[..|text|] == text;
  }

  /** The rolling tape holds exactly the records the boot segment did not take,
      in order, since the last cold start, across any number of reboots. */
  lemma {:induction false} RollingHistory(bootCap: nat, rollCap: nat, v: View, es: seq<Event>)
    requires 0 < rollCap && Cut(v.roll)
    ensures Records(Run(bootCap, rollCap, v, es).roll.all)
            == Records(v.roll.all) + Tagged(Kept(bootCap, rollCap, v, es), false)
  {
    hide Step, KeptBy, Records;
    if es != [] {
      var init, e := es[..|es| - 1], es[|es| - 1];
      RollingHistory(bootCap, rollCap, v, init);
      var before := Run(bootCap, rollCap, v, init);
      StepStores(bootCap, rollCap, before, e);
      TaggedConcat(Kept(bootCap, rollCap, v, init), KeptBy(bootCap, before, e), false);
    }
  }

  predicate OneSession(es: seq<Event>) {
    forall i | 0 <= i < |es| :: es[i].Log?
  }

  /** Boot protection: within a session the boot segment only ever grows, by
      exactly the records it took, in order. With RollingHistory this splits the
      captured records in two, losing and reordering none. */
  lemma {:induction false} BootHistory(bootCap: nat, rollCap: nat, v: View, es: seq<Event>)
    requires 0 < rollCap && Cut(v.roll) && OneSession(es)
    ensures var v' := Run(bootCap, rollCap, v, es);
            v.boot <= v'.boot && Records(v'.boot) == Records(v.boot) + Tagged(Kept(bootCap, rollCap, v, es), true)
  {
    hide Step, KeptBy, Records;
    if es != [] {
      var init, e := es[..|es| - 1], es[|es| - 1];
      BootHistory(bootCap, rollCap, v, init);
      var before := Run(bootCap, rollCap, v, init);
      StepStores(bootCap, rollCap, before, e);
      TaggedConcat(Kept(bootCap, rollCap, v, init), KeptBy(bootCap, before, e), true);
    }
  }

  /** The rest of a session from `now` on: its timestamps never go back. */
  predicate Onward(es: seq<Event>, now: uint32) {
    && OneSession(es)
    && (forall i | 0 <= i < |es| :: now <= es[i].line.ts)
    && (forall i, j | 0 <= i <= j < |es| :: es[i].line.ts <= es[j].line.ts)
  }

  /** Nothing can enter the boot segment any more. */
  predicate BootClosed(bootCap: nat, v: View, now: uint32) {
    now >= BOOT_WINDOW_MS || Size(v.boot) + HDR > bootCap
  }

  lemma {:induction false} ClosedStays(bootCap: nat, rollCap: nat, v: View, es: seq<Event>, now: uint32)
    requires 0 < rollCap && Cut(v.roll) && Onward(es, now) && BootClosed(bootCap, v, now)
    ensures Run(bootCap, rollCap, v, es).boot == v.boot
  {
    hide Appended, Captures;
    if es != [] {
      ClosedStays(bootCap, rollCap, v, es[..|es| - 1], now);
    }
  }

  lemma OneLine(bootCap: nat, rollCap: nat, v: View, l: Line)
    requires 0 < rollCap && Cut(v.roll)
    ensures Run(bootCap, rollCap, v, [Log(l)]) == SinkStep(bootCap, rollCap, v, l.level, l.msg, l.ts)
  {
    hide SinkStep;
    assert [Log(l)][..0] == [];
    assert Run(bootCap, rollCap, v, []) == v;
  }

  /** When the boot segment has stopped: not when it first refuses a line, since
      a shorter one may still fit, but exactly when the boot window is over or no
      bare header fits. */
  lemma BootStopsWhen(bootCap: nat, rollCap: nat, v: View, now: uint32)
    requires 0 < rollCap && Cut(v.roll)
    ensures (forall es | Onward(es, now) :: Run(bootCap, rollCap, v, es).boot == v.boot) <==> BootClosed(bootCap, v, now)
  {
    if BootClosed(bootCap, v, now) {
      forall es | Onward(es, now)
        ensures Run(bootCap, rollCap, v, es).boot == v.boot
      {
        ClosedStays(bootCap, rollCap, v, es, now);
      }
    } else {
      var l := Line(ERROR, Some([]), now);
      assert Onward([Log(l)], now);
      OneLine(bootCap, rollCap, v, l);
      BlankEnters(bootCap, rollCap, v, now);
    }
  }

  lemma BlankEnters(bootCap: nat, rollCap: nat, v: View, now: uint32)
    requires 0 < rollCap && Cut(v.roll) && !BootClosed(bootCap, v, now)
    ensures SinkStep(bootCap, rollCap, v, ERROR, Some([]), now).boot == v.boot + [Record(Rec(ERROR, 0, now, []))]
  {
    hide Appended, Size;
  }

  /** Everything the rolling segment was given by a run from cold, markers included. */
  function GivenToRolling(bootCap: nat, rollCap: nat, text: seq<byte>, es: seq<Event>): seq<Rec>
    requires 0 < rollCap
  {
    [Rec(INFO, FLAG_BOOT, 0, Marker(text))] + Tagged(Kept(bootCap, rollCap, BeginStep(rollCap, COLD, text), es), false)
  }

  /** The main retention result: after any run from cold, what is live in the
      rolling segment is the newest part of everything it was ever given, and at
      least the newest `k` records of it whenever 168 * (k + 1) <= cap + 4. */
  lemma LiveHistory(bootCap: nat, rollCap: nat, text: seq<byte>, es: seq<Event>, k: nat)
    requires GoodCap(bootCap) && GoodCap(rollCap) && 168 * (k + 1) <= rollCap + 4
    ensures var live, given := Records(Live(FromCold(bootCap, rollCap, text, es).roll)), GivenToRolling(bootCap, rollCap, text, es);
            NewestOf(live, given) && (|live| >= k || live == given)
  {
    hide Records, Step, Kept, Tagged, Placed, Size;
    var v0 := BeginStep(rollCap, COLD, text);
    var v := FromCold(bootCap, rollCap, text, es);
    ColdStartOk(bootCap, rollCap, text);
    RunKeepsView(bootCap, rollCap, v0, es);
    RollingHistory(bootCap, rollCap, v0, es);
    MarkerAlone(rollCap, text);
    LiveIsSuffix(v.roll);
    Retention(rollCap, v.roll, k);
  }

  lemma MarkerAlone(rollCap: nat, text: seq<byte>)
    requires 0 < rollCap
    ensures Records(BeginStep(rollCap, COLD, text).roll.all) == [Rec(INFO, FLAG_BOOT, 0, Marker(text))]
  {
    RecordsOfAdded(rollCap, [], Rec(INFO, FLAG_BOOT, 0, Marker(text)));
  }

  /** With the shipped 2048-byte rolling segment, the newest 11 records survive
      any storm. */
  lemma NewestElevenSurvive(bootCap: nat, text: seq<byte>, es: seq<Event>)
    requires GoodCap(bootCap)
    ensures var v := FromCold(bootCap, 2048, text, es);
            |Records(Live(v.roll))| >= 11 || Records(Live(v.roll)) == Records(v.roll.all)
  {
    ColdStartOk(bootCap, 2048, text);
    RunKeepsView(bootCap, 2048, BeginStep(2048, COLD, text), es);
    Retention(2048, FromCold(bootCap, 2048, text, es).roll, 11);
  }

  /** A reboot empties the boot segment down to its marker and keeps the newest
      rolling records, with the marker behind them. */
  lemma RebootKeepsTail(bootCap: nat, rollCap: nat, v: View, text: seq<byte>)
    requires ViewOk(bootCap, rollCap, v)
    ensures var v' := BeginStep(rollCap, v, text);
            && Records(v'.boot) == [Rec(INFO, 0, 0, Marker(text))]
            && 0 < |Records(Live(v'.roll))|
            && NewestOf(Records(Live(v'.roll)), Records(Live(v.roll)) + [Rec(INFO, FLAG_BOOT, 0, Marker(text))])
  {
    RecordAlone(Rec(INFO, 0, 0, Marker(text)));
    AppendKeepsNewest(rollCap, v.roll, Rec(INFO, FLAG_BOOT, 0, Marker(text)));
  }

  lemma SameTail<T>(a: seq<T>, x: seq<T>, l: seq<T>, l': seq<T>)
    requires a + l == a + x + l'
    ensures l == x + l'
  {
    assert (a + l)[|a|..] == l && (a + x + l')[|a|..] == x + l';
  }

  lemma AppendKeepsNewest(cap: nat, t: Tape, r: Rec)
    requires TapeOk(cap, t) && GoodRec(r)
    ensures 0 < |Records(Live(Appended(cap, t, r)))|
    ensures NewestOf(Records(Live(Appended(cap, t, r))), Records(Live(t)) + [r])
  {
    hide Records, Placed, Size, Trim, Added;
    var t' := Appended(cap, t, r);
    AppendedIsMinimal(cap, t, r);
    RecordsOfAdded(cap, t.all, r);
    LiveIsSuffix(t);
    LiveIsSuffix(t');
    var lost := t'.all[t.gone..t'.gone];
    assert t'.all[..t'.gone] == t.all[..t.gone] + lost;
    SizeConcat(t.all[..t.gone], lost);
    SameTail(Records(t.all[..t.gone]), Records(lost), Records(Live(t)) + [r], Records(Live(t')));
    EndsInRecord(cap, t.all, r);
    assert Live(t') == t'.all[t'.gone..|t'.all| - 1] + [Record(r)];
    SizeConcat(t'.all[t'.gone..|t'.all| - 1], [Record(r)]);
    RecordAlone(r);
  }

  lemma EndsInRecord(cap: nat, all: seq<Entry>, r: Rec)
    requires 0 < cap
    ensures var all' := all + Added(cap, all, r); |all'| > |all| && all'[|all'| - 1] == Record(r)
  {
  }
}

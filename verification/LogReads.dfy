/** What a reader gets: alone, and with the writer running between its reads. */
module LogReads {
  import opened LogFormat
  import opened LogTape
  import opened LogSpec
  import opened LogRuns

  /** The records a reader still owes if nothing is written any more. */
  function Pending(v: View, rd: Reader): seq<Rec>
    requires ReaderOk(v, rd) && Cut(v.roll)
  {
    Records(Unread(v, rd)) + if rd.segment.Boot? then Records(Live(v.roll)) else []
  }

  lemma UnreadHead(v: View, rd: Reader)
    requires ReaderOk(v, rd) && !rd.segment.Done? && rd.idx < rd.end
    ensures var e := Source(v, rd.segment)[rd.idx];
            Records(Unread(v, rd)) == (if e.Record? then [e.rec] else []) + Records(Unread(v, rd.(idx := rd.idx + 1)))
  {
    assert Unread(v, rd)[1..] == Unread(v, rd.(idx := rd.idx + 1));
  }

  lemma UnreadNone(v: View, rd: Reader)
    requires ReaderOk(v, rd) && (rd.segment.Done? || rd.idx == rd.end)
    ensures Records(Unread(v, rd)) == []
  {
  }

  lemma PendingHead(v: View, rd: Reader)
    requires ReaderOk(v, rd) && Cut(v.roll) && !rd.segment.Done? && rd.idx < rd.end
    ensures var e := Source(v, rd.segment)[rd.idx];
            Pending(v, rd) == (if e.Record? then [e.rec] else []) + Pending(v, rd.(idx := rd.idx + 1))
  {
    hide Records;
    UnreadHead(v, rd);
    var e, rest := Source(v, rd.segment)[rd.idx], Records(Unread(v, rd.(idx := rd.idx + 1)));
    var got, live := if e.Record? then [e.rec] else [], if rd.segment.Boot? then Records(Live(v.roll)) else [];
    assert (got + rest) + live == got + (rest + live);
  }

  /** Each read yields the first record the reader owes, if it owes any. */
  lemma {:induction false} ReadTakesNext(v: View, rd: Reader)
    requires ReaderOk(v, rd) && Cut(v.roll)
    ensures var (rd', r) := ReadStep(v, rd);
            Pending(v, rd) == match r case None => [] case Some(rec) => [rec] + Pending(v, rd')
    decreases Rank(rd.segment), rd.end - rd.idx
  {
    hide Records;
    if rd.segment.Done? || rd.idx == rd.end {
      UnreadNone(v, rd);
      if rd.segment.Boot? {
        var rd1 := Reader(Rolling, v.roll.gone, |v.roll.all|);
        assert Unread(v, rd1) == Live(v.roll);
        assert Pending(v, rd) == Records(Live(v.roll)) == Pending(v, rd1);
        ReadTakesNext(v, rd1);
      }
    } else {
      PendingHead(v, rd);
      if Source(v, rd.segment)[rd.idx].Filler? {
        ReadTakesNext(v, rd.(idx := rd.idx + 1));
      }
    }
  }

  /** Reading until there is nothing left. */
  function Drain(v: View, rd: Reader): seq<Rec>
    requires ReaderOk(v, rd) && Cut(v.roll)
    decreases Rank(rd.segment), rd.end - rd.idx
  {
    var (rd', r) := ReadStep(v, rd);
    match r
    case None => []
    case Some(rec) => [rec] + Drain(v, rd')
  }

  lemma {:induction false} DrainIsPending(v: View, rd: Reader)
    requires ReaderOk(v, rd) && Cut(v.roll)
    ensures Drain(v, rd) == Pending(v, rd)
    decreases Rank(rd.segment), rd.end - rd.idx
  {
    ReadTakesNext(v, rd);
    var (rd', r) := ReadStep(v, rd);
    if r.Some? {
      DrainIsPending(v, rd');
    }
  }

  /** With no writer in between, a reader gets every boot record and then every
      live rolling record, once each, in order, and no filler. */
  lemma DrainReadsAll(v: View)
    requires Cut(v.roll)
    ensures Drain(v, OpenReader(v)) == Records(v.boot) + Records(Live(v.roll))
  {
    DrainIsPending(v, OpenReader(v));
    assert Unread(v, OpenReader(v)) == v.boot;
  }

  // ----- A reader among writers ------------------------------------------------------

  datatype Act = Write(line: Line) | Read

  /** A reader's session: what it has got, the rolling snapshot it took on
      leaving the boot segment, and whether the writer ever lapped it. */
  datatype Tour = Tour(v: View, rd: Reader, out: seq<Rec>, snap: seq<Rec>, lapped: bool)

  predicate TourShape(t: Tour) {
    ReaderOk(t.v, t.rd) && Cut(t.v.roll)
  }

  function TourStep(bootCap: nat, rollCap: nat, t: Tour, a: Act): (t': Tour)
    requires 0 < rollCap && TourShape(t)
    ensures TourShape(t')
  {
    match a
    case Write(l) =>
      WriteExtends(bootCap, rollCap, t.v, l.level, l.msg, l.ts);
      t.(v := SinkStep(bootCap, rollCap, t.v, l.level, l.msg, l.ts))
    case Read =>
      if Lapped(t.v, t.rd) then t.(lapped := true) else
      var (rd', r) := ReadStep(t.v, t.rd);
      t.(rd := rd', out := t.out + (if r.Some? then [r.value] else []),
         snap := if t.rd.segment.Boot? && !rd'.segment.Boot? then Records(Live(t.v.roll)) else t.snap)
  }

  function Play(bootCap: nat, rollCap: nat, t: Tour, acts: seq<Act>): (t': Tour)
    requires 0 < rollCap && TourShape(t)
    ensures TourShape(t')
  {
    if acts == [] then t
    else TourStep(bootCap, rollCap, Play(bootCap, rollCap, t, acts[..|acts| - 1]), acts[|acts| - 1])
  }

  lemma PlayNext(bootCap: nat, rollCap: nat, t: Tour, acts: seq<Act>, a: Act)
    requires 0 < rollCap && TourShape(t)
    ensures Play(bootCap, rollCap, t, acts + [a]) == TourStep(bootCap, rollCap, Play(bootCap, rollCap, t, acts), a)
  {
    assert (acts + [a])[..|acts|] == acts;
  }

  /** What the reader has and what it still owes make up its two snapshots. */
  predicate OnCourse(boot0: seq<Rec>, t: Tour)
    requires TourShape(t)
  {
    t.out + Records(Unread(t.v, t.rd)) == boot0 + if t.rd.segment.Boot? then [] else t.snap
  }

  /** A read moves its record from what is owed to what has been got; on the
      way out of the boot segment the live rolling records join what is owed. */
  lemma ReadMoves(v: View, rd: Reader)
    requires ReaderOk(v, rd) && Cut(v.roll)
    ensures var (rd', r) := ReadStep(v, rd);
            var got := if r.Some? then [r.value] else [];
            var crossed := if rd.segment.Boot? && !rd'.segment.Boot? then Records(Live(v.roll)) else [];
            Records(Unread(v, rd)) + crossed == got + Records(Unread(v, rd'))
  {
    hide Records;
    ReadTakesNext(v, rd);
    var (rd', r) := ReadStep(v, rd);
    if rd.segment.Boot? {
      BootReadsOwnFirst(v, rd);
    } else {
      RollingStays(v, rd);
    }
    if r.None? {
      UnreadNone(v, rd');
    }
  }

  lemma Rebalance<T>(out: seq<T>, owed: seq<T>, crossed: seq<T>, got: seq<T>, rest: seq<T>, all: seq<T>)
    requires out + owed == all && owed + crossed == got + rest
    ensures (out + got) + rest == all + crossed
  {
    assert (out + got) + rest == out + (got + rest) == out + (owed + crossed) == (out + owed) + crossed;
  }

  lemma ReadStaysOnCourse(boot0: seq<Rec>, t: Tour, bootCap: nat, rollCap: nat)
    requires 0 < rollCap && TourShape(t) && OnCourse(boot0, t) && !Lapped(t.v, t.rd)
    ensures OnCourse(boot0, TourStep(bootCap, rollCap, t, Read))
  {
    hide Records, Unread, ReadStep, Live;
    ReadMoves(t.v, t.rd);
    var (rd', r) := ReadStep(t.v, t.rd);
    var got := if r.Some? then [r.value] else [];
    var crossed := if t.rd.segment.Boot? && !rd'.segment.Boot? then Records(Live(t.v.roll)) else [];
    var all := boot0 + if t.rd.segment.Boot? then [] else t.snap;
    if !t.rd.segment.Boot? {
      RollingStays(t.v, t.rd);
    }
    Rebalance(t.out, Records(Unread(t.v, t.rd)), crossed, got, Records(Unread(t.v, rd')), all);
    assert all + [] == all && boot0 + [] == boot0;
  }

  /** A read from the boot segment either stays there or finds it exhausted. */
  lemma {:induction false} BootReadsOwnFirst(v: View, rd: Reader)
    requires ReaderOk(v, rd) && Cut(v.roll) && rd.segment.Boot?
    ensures var rd' := ReadStep(v, rd).0;
            if rd'.segment.Boot? then Records(Unread(v, rd)) == [ReadStep(v, rd).1.value] + Records(Unread(v, rd'))
            else Records(Unread(v, rd)) == []
    decreases rd.end - rd.idx
  {
    hide Records;
    if rd.idx == rd.end {
      UnreadNone(v, rd);
      RollingStays(v, Reader(Rolling, v.roll.gone, |v.roll.all|));
    } else {
      UnreadHead(v, rd);
      if Source(v, rd.segment)[rd.idx].Filler? {
        BootReadsOwnFirst(v, rd.(idx := rd.idx + 1));
      }
    }
  }

  lemma RollingStays(v: View, rd: Reader)
    requires ReaderOk(v, rd) && Cut(v.roll) && !rd.segment.Boot?
    ensures !ReadStep(v, rd).0.segment.Boot?
  {
  }

  /** A reader interleaved with any number of writes, never lapped at a read,
      has at every moment received exactly a prefix of its snapshots: the boot
      segment as it was opened, then the rolling segment as it was when reached. */
  lemma {:induction false} TourOnCourse(bootCap: nat, rollCap: nat, v: View, acts: seq<Act>)
    requires 0 < rollCap && Cut(v.roll)
    ensures var t := Play(bootCap, rollCap, Tour(v, OpenReader(v), [], [], false), acts);
            !t.lapped ==> OnCourse(Records(v.boot), t)
  {
    var t0 := Tour(v, OpenReader(v), [], [], false);
    if acts == [] {
      assert Unread(v, OpenReader(v)) == v.boot;
    } else {
      var init := acts[..|acts| - 1];
      TourOnCourse(bootCap, rollCap, v, init);
      var t := Play(bootCap, rollCap, t0, init);
      match acts[|acts| - 1] {
        case Write(l) => WriteKeepsReader(bootCap, rollCap, t.v, l.level, l.msg, l.ts, t.rd);
        case Read =>
          if !t.lapped && !Lapped(t.v, t.rd) {
            ReadStaysOnCourse(Records(v.boot), t, bootCap, rollCap);
          }
      }
    }
  }

  /** In particular a reader that reaches the end has all of both snapshots. */
  lemma FinishedTourIsComplete(bootCap: nat, rollCap: nat, v: View, acts: seq<Act>)
    requires 0 < rollCap && Cut(v.roll)
    ensures var t := Play(bootCap, rollCap, Tour(v, OpenReader(v), [], [], false), acts);
            !t.lapped && t.rd.segment.Done? ==> t.out == Records(v.boot) + t.snap
  {
    TourOnCourse(bootCap, rollCap, v, acts);
  }

  lemma {:induction false} ReadNeverLaps(v: View, rd: Reader)
    requires ReaderOk(v, rd) && Cut(v.roll) && !Lapped(v, rd)
    ensures !Lapped(v, ReadStep(v, rd).0)
    decreases Rank(rd.segment), rd.end - rd.idx
  {
    if rd.segment.Done? {
    } else if rd.idx == rd.end {
      if rd.segment.Boot? {
        ReadNeverLaps(v, Reader(Rolling, v.roll.gone, |v.roll.all|));
      }
    } else if Source(v, rd.segment)[rd.idx].Filler? {
      ReadNeverLaps(v, rd.(idx := rd.idx + 1));
    }
  }

  /** With nobody writing a reader is never lapped, and its rolling snapshot is
      all that was live. */
  lemma {:induction false} QuietTour(bootCap: nat, rollCap: nat, v: View, acts: seq<Act>)
    requires 0 < rollCap && Cut(v.roll) && forall a | a in acts :: a.Read?
    ensures var t := Play(bootCap, rollCap, Tour(v, OpenReader(v), [], [], false), acts);
            && t.v == v && !t.lapped && !Lapped(v, t.rd)
            && (t.rd.segment.Boot? || t.snap == Records(Live(v.roll)))
  {
    hide ReadStep, Records;
    if acts != [] {
      var init := acts[..|acts| - 1];
      assert acts[|acts| - 1] in acts;
      QuietTour(bootCap, rollCap, v, init);
      var t := Play(bootCap, rollCap, Tour(v, OpenReader(v), [], [], false), init);
      ReadNeverLaps(v, t.rd);
      if !t.rd.segment.Boot? {
        RollingStays(v, t.rd);
      }
    }
  }

  // ----- Overrun detection -------------------------------------------------------------

  /** The code's only test for having been lapped. */
  predicate Flagged(v: View, rd: Reader)
    requires ReaderOk(v, rd) && Cut(v.roll)
  {
    Size(Live(v.roll)) < Size(Unread(v, rd))
  }

  lemma NothingUnread(v: View, rd: Reader)
    requires ReaderOk(v, rd)
    ensures rd.idx == rd.end ==> Size(Unread(v, rd)) == 0
  {
  }

  /** No false alarms: a flagged rolling reader has lost an entry it still owed. */
  lemma FlaggedIsLapped(rollCap: nat, v: View, rd: Reader)
    requires TapeFits(rollCap, v.roll) && ReaderOk(v, rd) && rd.segment.Rolling? && Flagged(v, rd)
    ensures Lapped(v, rd)
  {
    NothingUnread(v, rd);
    if v.roll.gone <= rd.idx < rd.end {
      var a, b, c := v.roll.all[v.roll.gone..rd.idx], Unread(v, rd), v.roll.all[rd.end..];
      assert Live(v.roll) == a + (b + c);
      SizeConcat(a, b + c);
      SizeConcat(b, c);
    }
  }

  /** What the test really notices: a lapped reader is flagged exactly when the
      writer has evicted more bytes past the reader's place than it has written
      since the snapshot. */
  lemma FlaggedExactly(rollCap: nat, v: View, rd: Reader)
    requires TapeFits(rollCap, v.roll) && ReaderOk(v, rd) && rd.segment.Rolling?
    ensures Flagged(v, rd)
            <==> Lapped(v, rd) && Size(v.roll.all[rd.idx..v.roll.gone]) > Size(v.roll.all[rd.end..])
  {
    if Lapped(v, rd) {
      var all, gone := v.roll.all, v.roll.gone;
      assert all[rd.idx..] == all[rd.idx..gone] + Live(v.roll) == Unread(v, rd) + all[rd.end..];
      SizeConcat(all[rd.idx..gone], Live(v.roll));
      SizeConcat(Unread(v, rd), all[rd.end..]);
    } else if Flagged(v, rd) {
      FlaggedIsLapped(rollCap, v, rd);
    }
  }

  /** The blind spot: a lapped reader that still owes at most cap - 168 bytes is
      never flagged, because eviction keeps the segment fuller than that. */
  lemma LapsMissed(bootCap: nat, rollCap: nat, v: View, rd: Reader)
    requires ViewOk(bootCap, rollCap, v) && ReaderOk(v, rd) && Lapped(v, rd)
    requires Size(Unread(v, rd)) + MAX_ENTRY <= rollCap
    ensures !Flagged(v, rd)
  {
  }
}

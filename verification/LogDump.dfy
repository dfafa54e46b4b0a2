/** Reading the store's bytes while others write: single acts, any sequence of
    them, and the log download. */
module LogDump {
  import opened MachineTypes
  import opened LogFormat
  import opened LogTape
  import opened LogSpec
  import opened LogRuns
  import opened LogReads
  import opened LogStore

  const LINE_BYTES: nat := MAX_MSG + 64

  /** The store, a cursor and what it has yielded are where the tour is; once
      lapped, what the cursor yields is no longer followed. */
  ghost predicate InStep(s: Store, c: Cursor, t: Tour, out: seq<Rec>)
    reads s, s.boot, s.roll, s.data, c
  {
    && s.Ready() && s.CursorOk(c)
    && TourShape(t) && t.v == s.View() && t.rd == c.reader && t.lapped == c.lost
    && (!t.lapped ==> out == t.out)
  }

  /** The same after the tour `acts` from `t0`. */
  ghost predicate Follows(s: Store, c: Cursor, t0: Tour, acts: seq<Act>, out: seq<Rec>)
    reads s, s.boot, s.roll, s.data, c
  {
    s.Shape() && TourShape(t0) && InStep(s, c, Play(s.bootCap, s.rollCap, t0, acts), out)
  }

  /** One read. On memory that no run left behind (`ready` false) it only ends. */
  method ReadOne(s: Store, c: Cursor, beyond: nat -> byte, ghost ready: bool, ghost t: Tour, ghost out: seq<Rec>)
    returns (line: Option<Rec>)
    requires s.Sane() && s.CursorInRange(c) && (ready ==> InStep(s, c, t, out))
    modifies c
    ensures s.CursorInRange(c)
    ensures ready ==> InStep(s, c, TourStep(s.bootCap, s.rollCap, t, Read), out + if line.Some? then [line.value] else [])
    ensures ready && line.None? ==> c.lost || c.reader.segment.Done?
    ensures line.Some? ==>
              Rank(c.segment) < Rank(old(c.segment)) || (c.segment == old(c.segment) && c.remaining < old(c.remaining))
  {
    hide ReadStep, Records, Size, End, TapeOk, BootOk, Store.RingOk, Store.BootRingOk, Store.Bytes, Unread, TapeFits;
    line := s.Next(c, LINE_BYTES, beyond);
    assert out + [] == out && (ready ==> t.out + [] == t.out);
  }

  /** One write, from anywhere. */
  method WriteOne(s: Store, c: Cursor, l: Line, ghost ready: bool, ghost t: Tour, ghost out: seq<Rec>)
    requires s.Sane() && s.CursorInRange(c) && (ready ==> InStep(s, c, t, out))
    modifies s`seqNo, s`dropped, s`captureUntilMs, s`lastRearmMs, s.boot, s.roll, s.data
    ensures s.Sane() && s.CursorInRange(c)
    ensures ready ==> InStep(s, c, TourStep(s.bootCap, s.rollCap, t, Write(l)), out)
  {
    hide SinkStep, Size, End, TapeOk, BootOk, Store.RingOk, Store.BootRingOk, Store.Bytes, Unread, TapeFits;
    if ready {
      WriteKeepsReader(s.bootCap, s.rollCap, s.View(), l.level, l.msg, l.ts, c.reader);
    }
    s.Sink(l.level, l.msg, l.ts);
  }

  method OpenAt(s: Store, ghost ready: bool) returns (c: Cursor, ghost t0: Tour)
    requires s.Sane() && (ready ==> s.Ready())
    ensures fresh(c) && s.CursorInRange(c) && t0 == Tour(s.View(), OpenReader(s.View()), [], [], false)
    ensures ready ==> Follows(s, c, t0, [], [])
  {
    hide Size, End, TapeOk, BootOk, Store.RingOk, Store.BootRingOk, Store.Bytes, Unread, TapeFits;
    c := s.OpenRead();
    t0 := Tour(s.View(), OpenReader(s.View()), [], [], false);
  }

  /** Any sequence of writes and reads on one store: it ends where the tour
      ends, and a reader never lapped has got, from the bytes, exactly a prefix
      of its two snapshots; overrun is only ever reported for a lapped one. */
  method Interleave(s: Store, acts: seq<Act>, beyond: nat -> byte) returns (out: seq<Rec>, overrun: bool, ghost t: Tour)
    requires s.Ready()
    modifies s`seqNo, s`dropped, s`captureUntilMs, s`lastRearmMs, s.boot, s.roll, s.data
    ensures var v := old(s.View());
            t == Play(s.bootCap, s.rollCap, Tour(v, OpenReader(v), [], [], false), acts)
    ensures s.Ready() && s.View() == t.v && TourShape(t)
    ensures !t.lapped ==> out == t.out && OnCourse(Records(old(s.boot.tape.all)), t) && !overrun
  {
    ghost var v := s.View();
    var c, t0 := OpenAt(s, true);
    out := [];
    hide InStep, TourStep, Play, OnCourse, Records, Size, End, TapeOk, BootOk, Store.RingOk, Store.BootRingOk;
    var i := 0;
    while i < |acts|
      invariant 0 <= i <= |acts| && Follows(s, c, t0, acts[..i], out)
    {
      PlayNext(s.bootCap, s.rollCap, t0, acts[..i], acts[i]);
      assert acts[..i + 1] == acts[..i] + [acts[i]];
      ghost var before := Play(s.bootCap, s.rollCap, t0, acts[..i]);
      match acts[i] {
        case Write(l) => WriteOne(s, c, l, true, before, out);
        case Read =>
          var line := ReadOne(s, c, beyond, true, before, out);
          out := out + if line.Some? then [line.value] else [];
      }
      i := i + 1;
    }
    assert acts[..|acts|] == acts;
    t := Play(s.bootCap, s.rollCap, t0, acts);
    TourOnCourse(s.bootCap, s.rollCap, v, acts);
    overrun := c.overrun;
    StepFacts(s, c, t, out);
  }

  lemma StepFacts(s: Store, c: Cursor, t: Tour, out: seq<Rec>)
    requires InStep(s, c, t, out)
    ensures s.Ready() && s.View() == t.v && TourShape(t) && t.rd == c.reader && t.lapped == c.lost
    ensures !t.lapped ==> out == t.out && !c.overrun
  {
  }

  function Writes(ls: seq<Line>): seq<Act> {
    seq(|ls|, i requires 0 <= i < |ls| => Write(ls[i]))
  }

  /** The first `n` reads of a download, each after what the others write before it. */
  function Schedule(writers: nat -> seq<Line>, n: nat): seq<Act> {
    if n == 0 then [] else Schedule(writers, n - 1) + Writes(writers(n - 1)) + [Read]
  }

  lemma {:induction false} QuietSchedule(writers: nat -> seq<Line>, n: nat)
    requires forall k: nat :: writers(k) == []
    ensures forall a | a in Schedule(writers, n) :: a.Read?
  {
    if n > 0 {
      QuietSchedule(writers, n - 1);
    }
  }

  /** What the others write between two reads. */
  method WriteLines(s: Store, c: Cursor, ls: seq<Line>, ghost ready: bool, ghost t0: Tour, ghost acts: seq<Act>, ghost out: seq<Rec>)
    requires s.Sane() && s.CursorInRange(c) && (ready ==> Follows(s, c, t0, acts, out))
    modifies s`seqNo, s`dropped, s`captureUntilMs, s`lastRearmMs, s.boot, s.roll, s.data
    ensures s.Sane() && s.CursorInRange(c) && (ready ==> Follows(s, c, t0, acts + Writes(ls), out))
  {
    hide InStep, TourStep, Play;
    assert acts + Writes(ls[..0]) == acts && ls[..|ls|] == ls;
    var i := 0;
    while i < |ls|
      invariant 0 <= i <= |ls| && s.Sane() && s.CursorInRange(c)
      invariant ready ==> Follows(s, c, t0, acts + Writes(ls[..i]), out)
    {
      ghost var so := acts + Writes(ls[..i]);
      ghost var before := t0;
      if ready {
        before := Play(s.bootCap, s.rollCap, t0, so);
        PlayNext(s.bootCap, s.rollCap, t0, so, Write(ls[i]));
      }
      assert acts + Writes(ls[..i + 1]) == so + [Write(ls[i])];
      WriteOne(s, c, ls[i], ready, before, out);
      i := i + 1;
    }
  }

  /** The log download, while others write `writers(k)` before the k-th read. It
      ends on any accepted memory. On a region a run left behind, a download that
      is not lapped gets every record of both snapshots, decoded from the bytes,
      boot segment first, once each and in order, and reports no overrun; with
      nobody writing that is everything live. */
  method Dump(s: Store, writers: nat -> seq<Line>, beyond: nat -> byte)
    returns (records: seq<Rec>, overrun: bool, ghost t: Tour)
    requires s.Sane()
    modifies s`seqNo, s`dropped, s`captureUntilMs, s`lastRearmMs, s.boot, s.roll, s.data
    ensures old(s.Ready()) ==>
              var v := old(s.View());
              && t == Play(s.bootCap, s.rollCap, Tour(v, OpenReader(v), [], [], false), Schedule(writers, |records| + 1))
              && s.Ready() && s.View() == t.v
              && (!t.lapped ==> records == Records(v.boot) + t.snap && !overrun)
              && ((forall k: nat :: writers(k) == []) ==> records == Records(v.boot) + Records(Live(v.roll)) && !overrun)
  {
    hide InStep, TourStep, Play, Writes, Records, Size, End, TapeOk, BootOk, Store.RingOk, Store.BootRingOk;
    ghost var v, ready := s.View(), s.Ready();
    var c, t0 := OpenAt(s, ready);
    records := [];
    var k, more := 0, true;
    while more
      invariant s.Sane() && s.CursorInRange(c) && (ready ==> Follows(s, c, t0, Schedule(writers, k), records))
      invariant k == |records| + if more then 0 else 1
      invariant ready && !more ==> c.lost || c.reader.segment.Done?
      decreases if more then 1 else 0, Rank(c.segment), c.remaining
    {
      ghost var acts := Schedule(writers, k) + Writes(writers(k));
      WriteLines(s, c, writers(k), ready, t0, Schedule(writers, k), records);
      ghost var before := t0;
      if ready {
        before := Play(s.bootCap, s.rollCap, t0, acts);
        PlayNext(s.bootCap, s.rollCap, t0, acts, Read);
      }
      var line := ReadOne(s, c, beyond, ready, before, records);
      records := records + if line.Some? then [line.value] else [];
      more, k := line.Some?, k + 1;
    }
    overrun := c.overrun;
    t := t0;
    if ready {
      t := Play(s.bootCap, s.rollCap, t0, Schedule(writers, k));
      StepFacts(s, c, t, records);
      FinishedTourIsComplete(s.bootCap, s.rollCap, v, Schedule(writers, k));
      if forall n: nat :: writers(n) == [] {
        QuietSchedule(writers, k);
        QuietTour(s.bootCap, s.rollCap, v, Schedule(writers, k));
      }
    }
  }
}

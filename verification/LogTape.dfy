/** A segment seen as a tape: every entry ever appended since the last cold
    start, of which the first `gone` have been evicted. */
module LogTape {
  import opened LogFormat

  datatype Tape = Tape(all: seq<Entry>, gone: nat)

  const EMPTY_TAPE: Tape := Tape([], 0)

  predicate Cut(t: Tape) {
    t.gone <= |t.all|
  }

  function Live(t: Tape): seq<Entry>
    requires Cut(t)
  {
    t.all[t.gone..]
  }

  /** How many entries have to go so that the rest leaves `room` bytes: the least
      such number, counting from `k`. */
  function Trim(cap: nat, all: seq<Entry>, k: nat, room: nat): (k': nat)
    requires k <= |all|
    ensures k <= k' <= |all|
    ensures k' < |all| ==> Size(all[k'..]) + room <= cap
    ensures forall j | k <= j < k' :: Size(all[j..]) + room > cap
    decreases |all| - k
  {
    if k == |all| || Size(all[k..]) + room <= cap then k else Trim(cap, all, k + 1, room)
  }

  /** The entries appending `r` adds: a filler when the tail is too short, then the record. */
  function Added(cap: nat, all: seq<Entry>, r: Rec): seq<Entry>
    requires 0 < cap
  {
    var gap := cap - End(cap, 0, all);
    if gap < SizeOf(Record(r)) then [Filler(gap), Record(r)] else [Record(r)]
  }

  /** Appending to a circular segment. */
  function Appended(cap: nat, t: Tape, r: Rec): Tape
    requires 0 < cap && Cut(t)
  {
    var all' := t.all + Added(cap, t.all, r);
    Tape(all', Trim(cap, all', t.gone, 0))
  }

  predicate TapeFits(cap: nat, t: Tape) {
    && GoodCap(cap)
    && Cut(t)
    && Placed(cap, 0, t.all)
    && Size(Live(t)) <= cap
  }

  /** The tape once `need` bytes are free at the write position: the tail is
      given up when it is too short, each step evicting the least it must. */
  function Cleared(cap: nat, t: Tape, need: nat): (t': Tape)
    requires 0 < cap && Cut(t)
    ensures Cut(t') && t.gone <= t'.gone
  {
    var gap := cap - End(cap, 0, t.all);
    if gap < need then
      var all := t.all + [Filler(gap)];
      Tape(all, Trim(cap, all, Trim(cap, t.all, t.gone, gap), need))
    else Tape(t.all, Trim(cap, t.all, t.gone, need))
  }

  function Pushed(t: Tape, r: Rec): Tape {
    Tape(t.all + [Record(r)], t.gone)
  }

  /** What holds of every tape a run can produce. */
  predicate TapeOk(cap: nat, t: Tape) {
    && TapeFits(cap, t)
    && (t.gone > 0 ==> Size(Live(t)) + MAX_ENTRY > cap)
  }

  // ----- Least eviction -------------------------------------------------------

  lemma {:induction false} TrimSkip(cap: nat, all: seq<Entry>, k: nat, k': nat, room: nat)
    requires k <= k' <= |all|
    requires forall j | k <= j < k' :: Size(all[j..]) + room > cap
    ensures Trim(cap, all, k, room) == Trim(cap, all, k', room)
    decreases k' - k
  {
    if k < k' {
      TrimSkip(cap, all, k + 1, k', room);
    }
  }

  /** Making room before adding `y` evicts as much as adding it first would. */
  lemma {:induction false} TrimAppend(cap: nat, all: seq<Entry>, k: nat, y: Entry, room: nat)
    requires k <= |all| && SizeOf(y) + room <= cap
    ensures Trim(cap, all + [y], k, room) == Trim(cap, all, k, SizeOf(y) + room)
    decreases |all| - k
  {
    assert (all + [y])[k..] == all[k..] + [y];
    SizeConcat(all[k..], [y]);
    assert Size([y]) == SizeOf(y) + Size([]);
    if k < |all| {
      TrimAppend(cap, all, k + 1, y, room);
    }
  }

  /** The two evictions of the tail-gap branch, one for the filler and one for
      the record, together evict the least that makes room for both. */
  lemma TrimTwice(cap: nat, all: seq<Entry>, k: nat, y: Entry, z: Entry)
    requires k <= |all| && SizeOf(y) + SizeOf(z) <= cap
    ensures var k1 := Trim(cap, all, k, SizeOf(y));
            Trim(cap, all + [y], k1, SizeOf(z)) == Trim(cap, all + [y, z], k, 0)
  {
    hide Size, SizeOf;
    var k1 := Trim(cap, all, k, SizeOf(y));
    TrimAppend(cap, all, k1, y, SizeOf(z));
    TrimSkip(cap, all, k, k1, SizeOf(y) + SizeOf(z));
    TrimAppend(cap, all, k, y, SizeOf(z));
    TrimAppend(cap, all + [y], k, z, 0);
    assert all + [y] + [z] == all + [y, z];
  }

  /** The code's one or two evictions lose exactly what Appended does. */
  lemma SameEviction(cap: nat, t: Tape, r: Rec)
    requires TapeFits(cap, t) && GoodRec(r)
    ensures Appended(cap, t, r) == Pushed(Cleared(cap, t, SizeOf(Record(r))), r)
  {
    hide Trim, End, Placed, Size;
    var gap := cap - End(cap, 0, t.all);
    var added := Added(cap, t.all, r);
    if gap < SizeOf(Record(r)) {
      TrimTwice(cap, t.all, t.gone, Filler(gap), Record(r));
      assert added == [Filler(gap), Record(r)];
      assert t.all + [Filler(gap)] + [Record(r)] == t.all + added;
    } else {
      TrimAppend(cap, t.all, t.gone, Record(r), 0);
    }
  }

  /** Eviction is minimal: the survivors fit, and nothing younger had to go. */
  lemma AppendedIsMinimal(cap: nat, t: Tape, r: Rec)
    requires TapeOk(cap, t) && GoodRec(r)
    ensures var t' := Appended(cap, t, r);
            && t.gone <= t'.gone < |t'.all|
            && Size(Live(t')) <= cap
            && forall j | t.gone <= j < t'.gone :: Size(t'.all[j..]) > cap
  {
    hide Trim, Placed, End, Size, SizeOf;
    var t' := Appended(cap, t, r);
    OneRecord(r);
    assert t'.all[|t'.all| - 1..] == [Record(r)] && t'.all[|t'.all|..] == [];
  }

  lemma OneRecord(r: Rec)
    requires GoodRec(r)
    ensures Size([Record(r)]) == SizeOf(Record(r)) <= MAX_ENTRY && Size([]) == 0
  {
    assert Size([Record(r)]) == SizeOf(Record(r)) + Size([]);
  }

  // ----- Invariants of the tape ------------------------------------------------

  lemma {:induction false} EndAligned(cap: nat, pos: nat, es: seq<Entry>)
    requires cap % 4 == 0 && pos < cap && pos % 4 == 0 && Placed(cap, pos, es)
    ensures End(cap, pos, es) % 4 == 0
    decreases es
  {
    if es != [] {
      EndAligned(cap, Advance(cap, pos, SizeOf(es[0])), es[1..]);
    }
  }

  /** The entries an append adds continue the tape without straddling the end. */
  lemma AddedFits(cap: nat, all: seq<Entry>, r: Rec)
    requires GoodCap(cap) && Placed(cap, 0, all) && GoodRec(r)
    ensures Placed(cap, 0, all + Added(cap, all, r))
    ensures FitsAt(cap, End(cap, 0, all), Added(cap, all, r)[0])
  {
    EndAligned(cap, 0, all);
    var added := Added(cap, all, r);
    PlacedAppend(cap, 0, all, added[0]);
    if |added| == 2 {
      EndConcat(cap, 0, all, [added[0]]);
      PlacedAppend(cap, 0, all + [added[0]], added[1]);
      assert all + added == all + [added[0]] + [added[1]];
    } else {
      assert added == [added[0]];
    }
  }

  lemma EntryBound(cap: nat, pos: nat, es: seq<Entry>, i: nat)
    requires pos < cap && Placed(cap, pos, es) && i < |es|
    ensures 0 < SizeOf(es[i]) <= MAX_ENTRY
    decreases es
  {
    if i > 0 {
      EntryBound(cap, Advance(cap, pos, SizeOf(es[0])), es[1..], i - 1);
    }
  }

  lemma NearlyFull(cap: nat, all: seq<Entry>, k: nat)
    requires 0 < cap && Placed(cap, 0, all) && k < |all| && Size(all[k..]) > cap
    ensures Size(all[k + 1..]) + MAX_ENTRY > cap
  {
    assert all[k..][1..] == all[k + 1..];
    EntryBound(cap, 0, all, k);
  }

  /** Every append keeps the tape invariant: entries never straddle the end, the
      live bytes fit, and once anything has been evicted the segment is nearly full. */
  lemma AppendKeepsTape(cap: nat, t: Tape, r: Rec)
    requires TapeOk(cap, t) && GoodRec(r)
    ensures TapeOk(cap, Appended(cap, t, r))
  {
    hide Trim, Placed, Size, SizeOf;
    var t' := Appended(cap, t, r);
    AddedFits(cap, t.all, r);
    AppendedIsMinimal(cap, t, r);
    if t'.gone > t.gone {
      NearlyFull(cap, t'.all, t'.gone - 1);
    } else {
      assert Live(t') == Live(t) + Added(cap, t.all, r);
      SizeConcat(Live(t), Added(cap, t.all, r));
    }
  }

  lemma {:induction false} FillerReachesEnd(cap: nat, pos: nat, es: seq<Entry>)
    requires pos < cap && Placed(cap, pos, es) && Fillers(es) > 0
    ensures pos + Size(es) >= cap
    decreases es
  {
    if es[0].Record? && pos + SizeOf(es[0]) < cap {
      FillerReachesEnd(cap, pos + SizeOf(es[0]), es[1..]);
    }
  }

  /** At most one filler is live at a time. */
  lemma {:induction false} OneFiller(cap: nat, pos: nat, es: seq<Entry>)
    requires pos < cap && Placed(cap, pos, es) && Size(es) <= cap
    ensures Fillers(es) <= 1
    decreases es
  {
    if es != [] {
      var pos' := Advance(cap, pos, SizeOf(es[0]));
      OneFiller(cap, pos', es[1..]);
      if es[0].Filler? && Fillers(es[1..]) > 0 {
        FillerReachesEnd(cap, pos', es[1..]);
      }
    }
  }

  lemma {:induction false} SizeByCount(cap: nat, pos: nat, es: seq<Entry>)
    requires pos < cap && Placed(cap, pos, es)
    ensures Size(es) <= 168 * |Records(es)| + 164 * Fillers(es)
    decreases es
  {
    if es != [] {
      SizeByCount(cap, Advance(cap, pos, SizeOf(es[0])), es[1..]);
      assert SizeOf(es[0]) <= if es[0].Record? then 168 else 164;
      var r, f := |Records(es[1..])|, Fillers(es[1..]);
      assert Size(es[1..]) <= 168 * r + 164 * f;
    }
  }

  lemma {:induction false} PlacedPrefix(cap: nat, pos: nat, a: seq<Entry>, b: seq<Entry>)
    requires pos < cap && Placed(cap, pos, a + b)
    ensures Placed(cap, pos, a)
    decreases a
  {
    if a != [] {
      assert (a + b)[1..] == a[1..] + b;
      PlacedPrefix(cap, Advance(cap, pos, SizeOf(a[0])), a[1..], b);
    }
  }

  lemma LivePlaced(cap: nat, t: Tape)
    requires TapeFits(cap, t)
    ensures Placed(cap, End(cap, 0, t.all[..t.gone]), Live(t))
    ensures End(cap, 0, t.all) == Advance(cap, End(cap, 0, t.all[..t.gone]), Size(Live(t)))
  {
    assert t.all == t.all[..t.gone] + Live(t);
    PlacedSuffix(cap, 0, t.all[..t.gone], Live(t));
    EndConcat(cap, 0, t.all[..t.gone], Live(t));
    EndIsAdvance(cap, End(cap, 0, t.all[..t.gone]), Live(t));
  }

  /** The live records are a suffix of all that were appended. */
  lemma LiveIsSuffix(t: Tape)
    requires Cut(t)
    ensures Records(t.all) == Records(t.all[..t.gone]) + Records(Live(t))
  {
    assert t.all == t.all[..t.gone] + Live(t);
    SizeConcat(t.all[..t.gone], Live(t));
  }

  /** `part` is the newest part of `whole`. */
  predicate NewestOf<T(==)>(part: seq<T>, whole: seq<T>) {
    |part| <= |whole| && part == whole[|whole| - |part|..]
  }

  /** Retention: the newest `k` records are always live (all of them, when fewer
      were ever appended), for every `k` with 168 * (k + 1) <= cap + 4. */
  lemma Retention(cap: nat, t: Tape, k: nat)
    requires TapeOk(cap, t) && 168 * (k + 1) <= cap + 4
    ensures |Records(Live(t))| >= k || Records(Live(t)) == Records(t.all)
  {
    if t.gone == 0 {
      assert Live(t) == t.all;
    } else {
      var es := Live(t);
      LivePlaced(cap, t);
      OneFiller(cap, End(cap, 0, t.all[..t.gone]), es);
      SizeByCount(cap, End(cap, 0, t.all[..t.gone]), es);
    }
  }

  /** Conservation: records appended plus fillers written equals entries live
      plus entries evicted, and fillers are among the evicted. */
  lemma Conservation(t: Tape)
    requires Cut(t)
    ensures |Records(t.all)| + Fillers(t.all) == |Live(t)| + t.gone
    ensures t.gone == |Records(t.all[..t.gone])| + Fillers(t.all[..t.gone])
  {
    CountSplit(t.all);
    CountSplit(t.all[..t.gone]);
  }
}

/** A segment's bytes, fields and tape kept in step: what each write does to all three. */
module LogSegment {
  import opened MachineTypes
  import opened LogFormat
  import opened LogTape
  import opened LogSpec

  // ----- Byte-array writes as sequence writes ---------------------------------

  /** `d` with `bs` written at `off`. */
  function Put(d: seq<byte>, off: nat, bs: seq<byte>): (d': seq<byte>)
    requires off + |bs| <= |d|
    ensures |d'| == |d|
  {
    d[..off] + bs + d[off + |bs|..]
  }

  lemma PutFacts(d: seq<byte>, off: nat, bs: seq<byte>)
    requires off + |bs| <= |d|
    ensures var d' := Put(d, off, bs);
            d'[..off] == d[..off] && d'[off..off + |bs|] == bs && d'[off + |bs|..] == d[off + |bs|..]
  {
  }

  /** Two adjacent writes are one. */
  lemma PutPut(d: seq<byte>, off: nat, a: seq<byte>, b: seq<byte>)
    requires off + |a| + |b| <= |d|
    ensures Put(Put(d, off, a), off + |a|, b) == Put(d, off, a + b)
  {
  }

  lemma PutNothing(d: seq<byte>, off: nat, a: seq<byte>)
    requires off <= |d| && a == []
    ensures Put(d, off, a) == d
  {
  }

  lemma EncodeParts(r: Rec)
    requires |r.body| <= MAX_MSG
    ensures Encode(r) == Header(|r.body|, r.level, r.flags, r.ts) + r.body + Zeros(Pad4(|r.body|) - |r.body|)
  {
  }

  /** Writing inside a segment is writing in its slice; other segments keep theirs. */
  lemma PutSegment(d: seq<byte>, base: nat, cap: nat, w: nat, bs: seq<byte>)
    requires base + cap <= |d| && w + |bs| <= cap
    ensures Put(d, base + w, bs)[base..base + cap] == Put(d[base..base + cap], w, bs)
    ensures Put(d, base + w, bs)[..base] == d[..base]
    ensures Put(d, base + w, bs)[base + cap..] == d[base + cap..]
  {
  }

  lemma SliceOutside(d: seq<byte>, d': seq<byte>, base: nat, cap: nat, lo: nat, hi: nat)
    requires |d| == |d'| && base + cap <= |d| && lo <= hi <= |d| && (hi <= base || base + cap <= lo)
    requires d'[..base] == d[..base] && d'[base + cap..] == d[base + cap..]
    ensures d'[lo..hi] == d[lo..hi]
  {
    var n := base + cap;
    forall i | lo <= i < hi
      ensures d'[i] == d[i]
    {
      if hi <= base {
        assert d'[..base][i] == d[..base][i];
      } else {
        assert d'[n..][i - n] == d[n..][i - n];
      }
    }
  }

  /** Putting an entry right behind the live run extends the run. */
  lemma LaidGrows(seg: seq<byte>, pos: nat, es: seq<Entry>, bs: seq<byte>, e: Entry)
    requires pos < |seg| && Laid(seg, pos, es) && Size(es) + |bs| <= |seg|
    requires End(|seg|, pos, es) + |bs| <= |seg|
    requires EntryAt(Put(seg, End(|seg|, pos, es), bs), End(|seg|, pos, es), e)
    ensures Laid(Put(seg, End(|seg|, pos, es), bs), pos, es + [e])
  {
    var w := End(|seg|, pos, es);
    LaidPlaced(seg, pos, es);
    EndIsAdvance(|seg|, pos, es);
    PutFacts(seg, w, bs);
    LaidFrame(seg, Put(seg, w, bs), pos, es, w, |bs|);
    LaidAppend(Put(seg, w, bs), pos, es, e);
  }

  /** Storing the bytes of `e` behind the live run takes `e` into the tape. */
  lemma TapeTakes(cap: nat, seg: seq<byte>, t: Tape, bs: seq<byte>, e: Entry)
    requires |seg| == cap && TapeFits(cap, t) && Laid(seg, End(cap, 0, t.all[..t.gone]), Live(t))
    requires Size(Live(t)) + SizeOf(e) <= cap && |bs| <= SizeOf(e)
    requires var w := End(cap, 0, t.all); w + SizeOf(e) <= cap && EntryAt(Put(seg, w, bs), w, e)
    ensures var t' := Tape(t.all + [e], t.gone);
            && TapeFits(cap, t')
            && Laid(Put(seg, End(cap, 0, t.all), bs), End(cap, 0, t'.all[..t.gone]), Live(t'))
            && Size(Live(t')) == Size(Live(t)) + SizeOf(e)
            && End(cap, 0, t'.all) == Advance(cap, End(cap, 0, t.all), SizeOf(e))
  {
    var pos, es, w := End(cap, 0, t.all[..t.gone]), Live(t), End(cap, 0, t.all);
    TapeExtends(t, e);
    LivePlaced(cap, t);
    EndIsAdvance(cap, pos, es);
    OneMore(cap, t.all, e);
    OneMore(cap, es, e);
    hide Laid, Placed, Put, Size, End;
    LaidGrows(seg, pos, es, bs, e);
    PlacedAppend(cap, 0, t.all, e);
  }

  lemma TapeExtends(t: Tape, e: Entry)
    requires Cut(t)
    ensures var t' := Tape(t.all + [e], t.gone); Cut(t') && t'.all[..t.gone] == t.all[..t.gone] && Live(t') == Live(t) + [e]
  {
  }

  lemma OneMore(cap: nat, es: seq<Entry>, e: Entry)
    requires 0 < cap
    ensures Size(es + [e]) == Size(es) + SizeOf(e)
    ensures End(cap, 0, es + [e]) == Advance(cap, End(cap, 0, es), SizeOf(e))
  {
    SizeConcat(es, [e]);
    EndConcat(cap, 0, es, [e]);
    assert Size([e]) == SizeOf(e) + Size([]);
  }

  /** A ring's fields and bytes are exactly those of its tape. */
  ghost predicate Good(cap: nat, seg: seq<byte>, writePos: nat, readStart: nat, used: nat, t: Tape) {
    && |seg| == cap
    && TapeFits(cap, t)
    && used == Size(Live(t))
    && readStart == End(cap, 0, t.all[..t.gone])
    && writePos == End(cap, 0, t.all)
    && Laid(seg, readStart, Live(t))
  }

  lemma GoodPlace(cap: nat, seg: seq<byte>, w: nat, readStart: nat, used: nat, t: Tape, r: Rec)
    requires Good(cap, seg, w, readStart, used, t) && GoodRec(r)
    requires used + SizeOf(Record(r)) <= cap && w + SizeOf(Record(r)) <= cap
    ensures Good(cap, Put(seg, w, Encode(r)), (w + SizeOf(Record(r))) % cap, readStart, used + SizeOf(Record(r)),
                 Pushed(t, r))
  {
    PutFacts(seg, w, Encode(r));
    EndAligned(cap, 0, t.all);
    AdvanceIsMod(cap, w, SizeOf(Record(r)));
    TapeTakes(cap, seg, t, Encode(r), Record(r));
    assert (t.all + [Record(r)])[..t.gone] == t.all[..t.gone];
  }

  lemma FillerWritten(seg: seq<byte>, w: nat, bs: seq<byte>)
    requires w < |seg| && |seg| - w < MAX_ENTRY && |seg| % 4 == 0 && w % 4 == 0
    requires bs == if |seg| - w >= HDR then Header(0, 0, FLAG_WRAP, 0) else []
    ensures |bs| <= |seg| - w && EntryAt(Put(seg, w, bs), w, Filler(|seg| - w))
  {
  }

  lemma GoodFill(cap: nat, seg: seq<byte>, w: nat, readStart: nat, used: nat, t: Tape, bs: seq<byte>)
    requires Good(cap, seg, w, readStart, used, t) && w < cap && cap - w < MAX_ENTRY && used + cap - w <= cap
    requires bs == if cap - w >= HDR then Header(0, 0, FLAG_WRAP, 0) else []
    ensures Good(cap, Put(seg, w, bs), 0, readStart, used + (cap - w), Tape(t.all + [Filler(cap - w)], t.gone))
  {
    EndAligned(cap, 0, t.all);
    FillerWritten(seg, w, bs);
    TapeTakes(cap, seg, t, bs, Filler(cap - w));
    assert (t.all + [Filler(cap - w)])[..t.gone] == t.all[..t.gone];
  }

  /** The oldest live entry, as the code measures it, and the ring without it. */
  lemma GoodPop(cap: nat, seg: seq<byte>, w: nat, readStart: nat, used: nat, t: Tape)
    requires Good(cap, seg, w, readStart, used, t) && used > 0
    ensures t.gone < |t.all| && readStart < cap < 0x1_0000
    ensures var sz := SizeAt(seg, readStart);
            0 < sz <= used && Good(cap, seg, w, (readStart + sz) % cap, used - sz, Tape(t.all, t.gone + 1))
  {
    var all, k := t.all, t.gone;
    assert all[k..][1..] == all[k + 1..];
    EntryReads(seg, readStart, all[k]);
    AdvanceIsMod(cap, readStart, SizeOf(all[k]));
    EndNext(cap, all, k);
  }

  lemma GoodFacts(cap: nat, seg: seq<byte>, w: nat, readStart: nat, used: nat, t: Tape)
    requires Good(cap, seg, w, readStart, used, t)
    ensures TapeFits(cap, t) && w == End(cap, 0, t.all) && used == Size(Live(t)) && |seg| == cap
    ensures Laid(seg, End(cap, 0, t.all[..t.gone]), Live(t))
    ensures used == 0 ==> t.gone == |t.all|
  {
  }

  /** The same for the linear boot segment. */
  ghost predicate GoodBoot(cap: nat, seg: seq<byte>, writePos: nat, t: Tape) {
    && |seg| == cap && t.gone == 0
    && BootOk(cap, t.all)
    && writePos == Size(t.all)
    && Laid(seg, 0, t.all)
  }

  lemma GoodBootPlace(cap: nat, seg: seq<byte>, w: nat, t: Tape, r: Rec)
    requires GoodBoot(cap, seg, w, t) && GoodRec(r) && w + SizeOf(Record(r)) <= cap
    ensures GoodBoot(cap, Put(seg, w, Encode(r)), w + SizeOf(Record(r)), Pushed(t, r))
  {
    PutFacts(seg, w, Encode(r));
    EndIsAdvance(cap, 0, t.all);
    EndAligned(cap, 0, t.all);
    assert t.all[..0] == [] && t.all[0..] == t.all && Pushed(t, r).all[..0] == [] && Live(Pushed(t, r)) == Pushed(t, r).all;
    TapeTakes(cap, seg, t, Encode(r), Record(r));
    SizeConcat(t.all, [Record(r)]);
  }

  lemma GoodEmpty(cap: nat, seg: seq<byte>)
    requires GoodCap(cap) && |seg| == cap
    ensures Good(cap, seg, 0, 0, 0, EMPTY_TAPE) && GoodBoot(cap, seg, 0, EMPTY_TAPE) && TapeOk(cap, EMPTY_TAPE)
  {
  }

  /** The eviction counter after going from `k` to `k'` evicted entries. */
  function Lost(dropped: uint32, k: nat, k': nat): uint32 {
    if k' < k then dropped else Wrap32(dropped + (k' - k))
  }

  lemma LostNone(dropped: uint32, k: nat)
    ensures Lost(dropped, k, k) == dropped
  {
  }

  lemma LostTwice(dropped: uint32, k: nat, k1: nat, k2: nat)
    requires k <= k1 <= k2
    ensures Lost(Lost(dropped, k, k1), k1, k2) == Lost(dropped, k, k2)
  {
  }

  lemma LostWraps(k: nat, k': nat)
    requires k <= k'
    ensures Lost(Wrap32(k), k, k') == Wrap32(k')
  {
  }

  /** Sinking the marker into an empty boot segment stores it there, whole. */
  lemma MarkerKept(bootCap: nat, rollCap: nat, v: LogSpec.View, text: seq<byte>)
    requires GoodCap(bootCap) && GoodCap(rollCap) && Cut(v.roll) && v.(roll := COLD.roll, stored := 0) == COLD
    ensures SinkStep(bootCap, rollCap, v, INFO, Some(Marker(text)), 0)
            == v.(boot := [Record(Rec(INFO, 0, 0, Marker(text)))], stored := Wrap32(v.stored + 1))
    ensures Wrap32(Wrap32(v.stored + 1) + 1) == Wrap32(v.stored + 2)
    ensures |Marker(text)| <= MAX_MSG && Marker(text)[..|Marker(text)|] == Marker(text)
  {
    WrapAdd(v.stored + 1, 1);
    assert Clipped(INFO, Marker(text), 0) == Rec(INFO, 0, 0, Marker(text));
  }

  /** A tape entry that has not been evicted is in the bytes at its place. */
  lemma EntryInPlace(cap: nat, seg: seq<byte>, t: Tape, idx: nat)
    requires |seg| == cap && TapeFits(cap, t) && Laid(seg, End(cap, 0, t.all[..t.gone]), Live(t))
    requires t.gone <= idx < |t.all|
    ensures EntryAt(seg, End(cap, 0, t.all[..idx]), t.all[idx])
  {
    var a, b := t.all[t.gone..idx], t.all[idx..];
    assert Live(t) == a + b && t.all[..idx] == t.all[..t.gone] + a;
    EndConcat(cap, 0, t.all[..t.gone], a);
    LaidSuffix(seg, End(cap, 0, t.all[..t.gone]), a, b);
  }

  lemma SnapshotSizes(t: Tape, idx: nat, end: nat)
    requires t.gone <= idx < end <= |t.all|
    ensures Size(t.all[idx..end]) == SizeOf(t.all[idx]) + Size(t.all[idx + 1..end]) <= Size(Live(t))
  {
    var a, b, c := t.all[t.gone..idx], t.all[idx..end], t.all[end..];
    assert Live(t) == a + (b + c) && b[0] == t.all[idx] && b[1..] == t.all[idx + 1..end];
    SizeConcat(a, b + c);
    SizeConcat(b, c);
  }

  /** One step of a reader over a laid-out tape. */
  lemma ReadFacts(cap: nat, seg: seq<byte>, t: Tape, idx: nat, end: nat)
    requires |seg| == cap && TapeFits(cap, t) && Laid(seg, End(cap, 0, t.all[..t.gone]), Live(t))
    requires t.gone <= idx < end <= |t.all|
    ensures var pos := End(cap, 0, t.all[..idx]);
            && Size(t.all[idx..end]) == SizeOf(t.all[idx]) + Size(t.all[idx + 1..end]) <= Size(Live(t))
            && ReadAt(seg, pos) == Some(t.all[idx])
            && 0 < SizeAt(seg, pos) == SizeOf(t.all[idx])
            && End(cap, 0, t.all[..idx + 1]) == (pos + SizeOf(t.all[idx])) % cap
  {
    hide Laid, Placed, Size, SizeOf, End;
    var pos := End(cap, 0, t.all[..idx]);
    EntryInPlace(cap, seg, t, idx);
    SnapshotSizes(t, idx, end);
    EntryReads(seg, pos, t.all[idx]);
    AdvanceIsMod(cap, pos, SizeOf(t.all[idx]));
    EndNext(cap, t.all, idx);
  }

  lemma EndNext(cap: nat, es: seq<Entry>, idx: nat)
    requires 0 < cap && idx < |es|
    ensures End(cap, 0, es[..idx + 1]) == Advance(cap, End(cap, 0, es[..idx]), SizeOf(es[idx]))
  {
    assert es[..idx + 1] == es[..idx] + [es[idx]];
    EndConcat(cap, 0, es[..idx], [es[idx]]);
  }

  lemma AtTape(cap: nat, seg: seq<byte>, t: Tape, idx: nat, end: nat, pos: nat, remaining: nat)
    requires |seg| == cap && TapeFits(cap, t) && Laid(seg, End(cap, 0, t.all[..t.gone]), Live(t))
    requires idx <= end <= |t.all| && (idx < end ==> t.gone <= idx)
    requires pos == End(cap, 0, t.all[..idx]) && remaining == Size(t.all[idx..end])
    ensures remaining == 0 <==> idx == end
    ensures remaining <= Size(Live(t))
    ensures remaining > 0 ==>
              && ReadAt(seg, pos) == Some(t.all[idx])
              && SizeAt(seg, pos) == SizeOf(t.all[idx]) <= remaining
              && End(cap, 0, t.all[..idx + 1]) == (pos + SizeOf(t.all[idx])) % cap
              && Size(t.all[idx + 1..end]) == remaining - SizeOf(t.all[idx])
  {
    hide Laid, Placed, End, SizeOf, ReadAt, SizeAt;
    if idx < end {
      ReadFacts(cap, seg, t, idx, end);
    }
  }

  function EntryRecord(e: Entry): Option<Rec> {
    match e
    case Record(r) => Some(r)
    case Filler(_) => None
  }

  lemma GoodStart(cap: nat, seg: seq<byte>, w: nat, readStart: nat, used: nat, t: Tape)
    requires Good(cap, seg, w, readStart, used, t)
    ensures t.gone <= |t.all| && readStart == End(cap, 0, t.all[..t.gone]) && used == Size(t.all[t.gone..|t.all|])
  {
    assert t.all[t.gone..|t.all|] == Live(t);
  }

  lemma BootAsTape(cap: nat, seg: seq<byte>, w: nat, t: Tape)
    requires GoodBoot(cap, seg, w, t)
    ensures TapeFits(cap, t) && t.gone == 0 && Live(t) == t.all && w == Size(Live(t))
    ensures |seg| == cap && Laid(seg, End(cap, 0, t.all[..t.gone]), Live(t))
  {
  }

  lemma StartsAtZero(cap: nat, es: seq<Entry>)
    requires 0 < cap
    ensures End(cap, 0, es[..0]) == 0 && es[0..|es|] == es
  {
  }
}

/** The byte format of one log segment: how records and tail fillers are laid
    out, and how a walk over the raw bytes reads them back. */
module LogFormat {

  import opened MachineTypes

  /** Bytes of per-record header. */
  const HDR: nat := 8
  /** Longest message body a record keeps. */
  const MAX_MSG: nat := 160
  /** Largest record: header plus a full body. */
  const MAX_ENTRY: nat := HDR + MAX_MSG

  const FLAG_BOOT: byte := 0x01
  const FLAG_TRUNCATED: byte := 0x02
  const FLAG_WRAP: byte := 0x04

  /** The 0x04 bit of a flags byte. */
  predicate HasWrap(flags: byte) {
    flags / 4 % 2 == 1
  }

  function Pad4(n: nat): nat {
    (n + 3) / 4 * 4
  }

  /** Rounding up to a multiple of four in 16-bit arithmetic: wraps to 0 above 65532. */
  function RoundUp4(n: uint16): uint16 {
    Pad4(n) % 0x1_0000
  }

  lemma RoundUpSmall(n: uint16)
    requires n <= MAX_MSG
    ensures RoundUp4(n) == Pad4(n) && n <= Pad4(n) <= MAX_MSG
  {
  }

  /** A stored log line. */
  datatype Rec = Rec(level: byte, flags: byte, ts: uint32, body: seq<byte>)

  /** What occupies a stretch of a segment. A filler stands for the unusable tail
      of a circular segment; below HDR bytes it has no header of its own. */
  datatype Entry = Record(rec: Rec) | Filler(size: nat)

  predicate GoodRec(r: Rec) {
    |r.body| <= MAX_MSG && !HasWrap(r.flags)
  }

  function SizeOf(e: Entry): nat {
    match e
    case Record(r) => HDR + Pad4(|r.body|)
    case Filler(n) => n
  }

  function Size(es: seq<Entry>): nat {
    if es == [] then 0 else SizeOf(es[0]) + Size(es[1..])
  }

  function Records(es: seq<Entry>): seq<Rec> {
    if es == [] then []
    else (if es[0].Record? then [es[0].rec] else []) + Records(es[1..])
  }

  function Fillers(es: seq<Entry>): nat {
    if es == [] then 0
    else (if es[0].Filler? then 1 else 0) + Fillers(es[1..])
  }

  /** Segments the model covers: 16-bit sized, aligned, with room for two of the
      largest records. */
  predicate GoodCap(cap: nat) {
    cap % 4 == 0 && 2 * MAX_ENTRY <= cap < 0x1_0000
  }

  /** Entry `e` may start at `pos`: it never straddles the end, and a filler
      always reaches exactly to the end. */
  predicate FitsAt(cap: nat, pos: nat, e: Entry) {
    && pos % 4 == 0
    && match e
       case Record(r) => GoodRec(r) && pos + SizeOf(e) <= cap
       case Filler(n) => 0 < n < MAX_ENTRY && n % 4 == 0 && pos + n == cap
  }

  /** The position `n` bytes after `pos`, going round at most once. */
  function Advance(cap: nat, pos: nat, n: nat): nat {
    if pos + n < cap then pos + n
    else if pos + n < 2 * cap then pos + n - cap
    else 0
  }

  /** The geometry of a run of entries starting at `pos`. */
  predicate Placed(cap: nat, pos: nat, es: seq<Entry>)
    decreases es
  {
    es != [] ==>
      && FitsAt(cap, pos, es[0])
      && Placed(cap, Advance(cap, pos, SizeOf(es[0])), es[1..])
  }

  /** Where a run of entries starting at `pos` ends, however many laps it takes. */
  function End(cap: nat, pos: nat, es: seq<Entry>): (p: nat)
    requires pos < cap
    ensures p < cap
    decreases es
  {
    if es == [] then pos else End(cap, Advance(cap, pos, SizeOf(es[0])), es[1..])
  }

  function Header(len: uint16, level: byte, flags: byte, ts: uint32): seq<byte> {
    [len % 0x100, len / 0x100, level, flags,
     ts % 0x100, ts / 0x100 % 0x100, ts / 0x100 / 0x100 % 0x100, ts / 0x100 / 0x100 / 0x100]
  }

  function Zeros(n: nat): seq<byte> {
    seq(n, _ => 0)
  }

  function Encode(r: Rec): (bs: seq<byte>)
    requires |r.body| <= MAX_MSG
    ensures |bs| == SizeOf(Record(r))
  {
    Header(|r.body|, r.level, r.flags, r.ts) + r.body + Zeros(Pad4(|r.body|) - |r.body|)
  }

  function LenAt(seg: seq<byte>, pos: nat): uint16
    requires pos + HDR <= |seg|
  {
    var l: int, h: int := seg[pos], seg[pos + 1];
    l + 0x100 * h
  }

  function TsAt(seg: seq<byte>, pos: nat): uint32
    requires pos + HDR <= |seg|
  {
    var b0: int, b1: int, b2: int, b3: int := seg[pos + 4], seg[pos + 5], seg[pos + 6], seg[pos + 7];
    b0 + 0x100 * b1 + 0x1_0000 * b2 + 0x100_0000 * b3
  }

  /** The bytes at `pos` are those of entry `e`. */
  predicate EntryAt(seg: seq<byte>, pos: nat, e: Entry) {
    && FitsAt(|seg|, pos, e)
    && match e
       case Record(r) => seg[pos..pos + SizeOf(e)] == Encode(r)
       case Filler(n) => n >= HDR ==> HasWrap(seg[pos + 3])
  }

  /** The bytes of segment `seg`, read circularly from `pos`, are those of `es`. */
  predicate Laid(seg: seq<byte>, pos: nat, es: seq<Entry>)
    decreases es
  {
    es != [] ==>
      && EntryAt(seg, pos, es[0])
      && Laid(seg, Advance(|seg|, pos, SizeOf(es[0])), es[1..])
  }

  /** Size of whatever starts at `pos`, for any bytes at all (16-bit arithmetic,
      so a corrupt length can yield 0 or a multiple of 4 past the end). */
  function SizeAt(seg: seq<byte>, pos: nat): uint16
    requires pos < |seg| < 0x1_0000
  {
    if pos + HDR > |seg| then |seg| - pos
    else if HasWrap(seg[pos + 3]) then |seg| - pos
    else (HDR + RoundUp4(LenAt(seg, pos))) % 0x1_0000
  }

  /** What the raw bytes at `pos` say, for any bytes at all. */
  function ReadAt(seg: seq<byte>, pos: nat): Option<Entry>
    requires pos < |seg| < 0x1_0000
  {
    if pos + HDR > |seg| || HasWrap(seg[pos + 3]) then Some(Filler(|seg| - pos))
    else
      var len := LenAt(seg, pos);
      if len <= MAX_MSG && pos + HDR + len <= |seg| then
        Some(Record(Rec(seg[pos + 2], seg[pos + 3], TsAt(seg, pos), seg[pos + HDR..pos + HDR + len])))
      else None
  }

  /** The four cases of a raw read. */
  lemma RawEntry(seg: seq<byte>, pos: nat)
    requires pos < |seg| < 0x1_0000
    ensures pos + HDR > |seg| || HasWrap(seg[pos + 3]) ==>
              ReadAt(seg, pos) == Some(Filler(|seg| - pos)) && SizeAt(seg, pos) == |seg| - pos
    ensures pos + HDR <= |seg| && !HasWrap(seg[pos + 3]) && LenAt(seg, pos) > MAX_MSG ==> ReadAt(seg, pos) == None
    ensures pos + HDR <= |seg| && !HasWrap(seg[pos + 3]) && LenAt(seg, pos) <= MAX_MSG ==>
              var len := LenAt(seg, pos);
              && SizeAt(seg, pos) == HDR + Pad4(len)
              && ReadAt(seg, pos) ==
                 if pos + HDR + len <= |seg| then
                   Some(Record(Rec(seg[pos + 2], seg[pos + 3], TsAt(seg, pos), seg[pos + HDR..pos + HDR + len])))
                 else None
  {
  }

  /** Reads `n` bytes circularly from `pos`, with no knowledge of what was written. */
  function Walk(seg: seq<byte>, pos: nat, n: nat): seq<Entry>
    requires pos < |seg| < 0x1_0000
    decreases n
  {
    if n == 0 then [] else
    var sz := SizeAt(seg, pos);
    var e := ReadAt(seg, pos);
    if sz == 0 || sz > n || e.None? then []
    else [e.value] + Walk(seg, (pos + sz) % |seg|, n - sz)
  }

  // ----- Arithmetic and list facts ------------------------------------------

  lemma Multiples(m: nat, q: nat)
    ensures q == 0 ==> m * q == 0
    ensures q >= 2 ==> m * q >= 2 * m
  {
  }

  lemma OnceRound(m: nat, x: nat)
    requires m <= x < 2 * m
    ensures x % m == x - m
  {
    var q, r := x / m, x % m;
    assert x == m * q + r;
    Multiples(m, q);
    assert q == 1;
  }

  lemma NotRound(m: nat, x: nat)
    requires x < m
    ensures x % m == x
  {
  }

  /** Advance is what the code writes as a remainder. */
  lemma AdvanceIsMod(cap: nat, pos: nat, n: nat)
    requires pos < cap && n <= cap
    ensures (pos + n) % cap == Advance(cap, pos, n)
  {
    if pos + n < cap {
      NotRound(cap, pos + n);
    } else {
      OnceRound(cap, pos + n);
    }
  }

  lemma WrapSmall(a: uint32)
    ensures Wrap32(a) == a
  {
  }

  lemma WrapAdd(a: nat, b: nat)
    ensures Wrap32(Wrap32(a) + b) == Wrap32(a + b)
  {
  }

  lemma WrapNext(w: uint32, a: nat, n: nat)
    requires w == Wrap32(a + n)
    ensures Wrap32(w + 1) == Wrap32(a + (n + 1))
  {
  }

  lemma WrapSame(a: nat, b: nat)
    ensures Wrap32(a + b) == Wrap32(a) <==> b % 0x1_0000_0000 == 0
  {
  }

  lemma {:induction false} EndIsAdvance(cap: nat, pos: nat, es: seq<Entry>)
    requires pos < cap && Placed(cap, pos, es) && Size(es) <= cap
    ensures End(cap, pos, es) == Advance(cap, pos, Size(es))
    decreases es
  {
    if es != [] {
      EndIsAdvance(cap, Advance(cap, pos, SizeOf(es[0])), es[1..]);
    }
  }

  lemma {:induction false} EndConcat(cap: nat, pos: nat, a: seq<Entry>, b: seq<Entry>)
    requires pos < cap
    ensures End(cap, pos, a + b) == End(cap, End(cap, pos, a), b)
    decreases a
  {
    if a == [] {
      assert a + b == b;
    } else {
      assert (a + b)[1..] == a[1..] + b;
      EndConcat(cap, Advance(cap, pos, SizeOf(a[0])), a[1..], b);
    }
  }

  lemma {:induction false} SizeConcat(a: seq<Entry>, b: seq<Entry>)
    ensures Size(a + b) == Size(a) + Size(b)
    ensures Records(a + b) == Records(a) + Records(b)
    ensures Fillers(a + b) == Fillers(a) + Fillers(b)
  {
    if a == [] {
      assert a + b == b;
    } else {
      assert (a + b)[1..] == a[1..] + b;
      SizeConcat(a[1..], b);
    }
  }

  lemma {:induction false} CountSplit(es: seq<Entry>)
    ensures |es| == |Records(es)| + Fillers(es)
  {
    if es != [] {
      CountSplit(es[1..]);
    }
  }

  // ----- Round trip through the bytes ---------------------------------------

  lemma HeaderReads(len: uint16, level: byte, flags: byte, ts: uint32)
    ensures var h := Header(len, level, flags, ts);
            |h| == HDR && LenAt(h, 0) == len && TsAt(h, 0) == ts && h[2] == level && h[3] == flags
  {
  }

  /** A stored record byte by byte: its length, level and flags, its time, its
      body, and zeros up to a multiple of four. */
  lemma RecordLayout(r: Rec)
    requires |r.body| <= MAX_MSG
    ensures var bs, n := Encode(r), |r.body|;
            && |bs| % 4 == 0 && 8 + n <= |bs| < 8 + n + 4
            && bs[0] as int + 0x100 * bs[1] as int == n && bs[2] == r.level && bs[3] == r.flags
            && bs[4] as int + 0x100 * bs[5] as int + 0x1_0000 * bs[6] as int + 0x100_0000 * bs[7] as int == r.ts
            && bs[8..8 + n] == r.body
            && forall i | 8 + n <= i < |bs| :: bs[i] == 0
  {
    HeaderReads(|r.body|, r.level, r.flags, r.ts);
  }

  lemma SliceOfSlice(s: seq<byte>, a: nat, b: nat, c: nat, d: nat)
    requires a <= b <= |s| && c <= d <= b - a
    ensures s[a..b][c..d] == s[a + c..a + d]
  {
    var x, y := s[a..b][c..d], s[a + c..a + d];
    assert |x| == |y| && forall i | 0 <= i < |x| :: x[i] == y[i];
  }

  /** Header fields are read the same from the segment as from the header alone. */
  lemma HeaderWithin(seg: seq<byte>, pos: nat, at: seq<byte>, h: seq<byte>)
    requires pos + HDR <= pos + |at| <= |seg| && at == seg[pos..pos + |at|]
    requires |h| == HDR && h == at[..HDR]
    ensures LenAt(seg, pos) == LenAt(h, 0) && TsAt(seg, pos) == TsAt(h, 0)
    ensures seg[pos + 2] == h[2] && seg[pos + 3] == h[3]
  {
  }

  lemma RecordReads(seg: seq<byte>, pos: nat, r: Rec)
    requires |r.body| <= MAX_MSG && pos + SizeOf(Record(r)) <= |seg|
    requires seg[pos..pos + SizeOf(Record(r))] == Encode(r)
    ensures LenAt(seg, pos) == |r.body| && TsAt(seg, pos) == r.ts && seg[pos + 2] == r.level && seg[pos + 3] == r.flags
    ensures seg[pos + HDR..pos + HDR + |r.body|] == r.body
  {
    hide LenAt, TsAt, Header;
    var len := |r.body|;
    var h, at := Header(len, r.level, r.flags, r.ts), Encode(r);
    HeaderReads(len, r.level, r.flags, r.ts);
    assert at[..HDR] == h && at[HDR..HDR + len] == r.body;
    HeaderWithin(seg, pos, at, h);
    SliceOfSlice(seg, pos, pos + |at|, HDR, HDR + len);
  }

  /** What was encoded at `pos` is what the raw reader sees there. */
  lemma EntryReads(seg: seq<byte>, pos: nat, e: Entry)
    requires pos < |seg| < 0x1_0000 && EntryAt(seg, pos, e)
    ensures ReadAt(seg, pos) == Some(e)
    ensures SizeAt(seg, pos) == SizeOf(e) > 0 && pos + SizeOf(e) <= |seg|
  {
    match e
    case Filler(n) =>
    case Record(r) =>
      RecordReads(seg, pos, r);
      RawEntry(seg, pos);
  }

  /** A raw walk over a laid-out run recovers the run, byte for byte. */
  lemma {:induction false} WalkReads(seg: seq<byte>, pos: nat, es: seq<Entry>)
    requires pos < |seg| < 0x1_0000 && Laid(seg, pos, es)
    ensures Walk(seg, pos, Size(es)) == es
    decreases es
  {
    hide EntryAt, ReadAt, SizeAt;
    if es != [] {
      EntryReads(seg, pos, es[0]);
      AdvanceIsMod(|seg|, pos, SizeOf(es[0]));
      WalkReads(seg, Advance(|seg|, pos, SizeOf(es[0])), es[1..]);
    }
  }

  // ----- Growing and preserving a laid-out run --------------------------------

  lemma {:induction false} LaidPlaced(seg: seq<byte>, pos: nat, es: seq<Entry>)
    requires Laid(seg, pos, es)
    ensures Placed(|seg|, pos, es)
    decreases es
  {
    if es != [] {
      LaidPlaced(seg, Advance(|seg|, pos, SizeOf(es[0])), es[1..]);
    }
  }

  lemma {:induction false} LaidAppend(seg: seq<byte>, pos: nat, es: seq<Entry>, e: Entry)
    requires pos < |seg| && Laid(seg, pos, es)
    requires EntryAt(seg, End(|seg|, pos, es), e)
    ensures Laid(seg, pos, es + [e])
    decreases es
  {
    if es == [] {
      assert es + [e] == [e];
    } else {
      LaidAppend(seg, Advance(|seg|, pos, SizeOf(es[0])), es[1..], e);
      assert (es + [e])[1..] == es[1..] + [e];
    }
  }

  lemma {:induction false} PlacedAppend(cap: nat, pos: nat, es: seq<Entry>, e: Entry)
    requires pos < cap && Placed(cap, pos, es)
    requires FitsAt(cap, End(cap, pos, es), e)
    ensures Placed(cap, pos, es + [e])
    decreases es
  {
    if es == [] {
      assert es + [e] == [e];
    } else {
      PlacedAppend(cap, Advance(cap, pos, SizeOf(es[0])), es[1..], e);
      assert (es + [e])[1..] == es[1..] + [e];
    }
  }

  lemma {:induction false} PlacedSuffix(cap: nat, pos: nat, a: seq<Entry>, b: seq<Entry>)
    requires pos < cap && Placed(cap, pos, a + b)
    ensures Placed(cap, End(cap, pos, a), b)
    decreases a
  {
    if a == [] {
      assert a + b == b;
    } else {
      assert (a + b)[1..] == a[1..] + b;
      PlacedSuffix(cap, Advance(cap, pos, SizeOf(a[0])), a[1..], b);
    }
  }

  lemma {:induction false} LaidSuffix(seg: seq<byte>, pos: nat, a: seq<Entry>, b: seq<Entry>)
    requires pos < |seg| && Laid(seg, pos, a + b)
    ensures Laid(seg, End(|seg|, pos, a), b)
    decreases a
  {
    if a == [] {
      assert a + b == b;
    } else {
      assert (a + b)[1..] == a[1..] + b;
      LaidSuffix(seg, Advance(|seg|, pos, SizeOf(a[0])), a[1..], b);
    }
  }

  /** Writing behind the live run, within the free space, leaves the run intact. */
  lemma {:induction false} LaidFrame(seg: seq<byte>, seg': seq<byte>, pos: nat, es: seq<Entry>, w: nat, n: nat)
    requires |seg| == |seg'| && pos < |seg| && Laid(seg, pos, es)
    requires w == Advance(|seg|, pos, Size(es)) && w + n <= |seg| && Size(es) + n <= |seg|
    requires seg'[..w] == seg[..w] && seg'[w + n..] == seg[w + n..]
    ensures Laid(seg', pos, es)
    decreases es
  {
    if es != [] {
      var sz := SizeOf(es[0]);
      assert pos + sz <= w || w + n <= pos;
      SliceKept(seg, seg', pos, sz, w, n);
      assert EntryAt(seg', pos, es[0]);
      LaidFrame(seg, seg', Advance(|seg|, pos, sz), es[1..], w, n);
    }
  }

  lemma SliceKept(seg: seq<byte>, seg': seq<byte>, pos: nat, sz: nat, w: nat, n: nat)
    requires |seg| == |seg'| && pos + sz <= |seg| && w + n <= |seg|
    requires seg'[..w] == seg[..w] && seg'[w + n..] == seg[w + n..]
    requires pos + sz <= w || w + n <= pos
    ensures seg'[pos..pos + sz] == seg[pos..pos + sz]
    ensures forall i | pos <= i < pos + sz :: seg'[i] == seg[i]
  {
    if pos + sz <= w {
      assert seg'[pos..pos + sz] == seg'[..w][pos..pos + sz];
      assert seg[pos..pos + sz] == seg[..w][pos..pos + sz];
      assert forall i | pos <= i < pos + sz :: seg'[i] == seg'[..w][i] && seg[i] == seg[..w][i];
    } else {
      var d := pos - (w + n);
      assert seg'[pos..pos + sz] == seg'[w + n..][d..d + sz];
      assert seg[pos..pos + sz] == seg[w + n..][d..d + sz];
      assert forall i | pos <= i < pos + sz ::
        seg'[i] == seg'[w + n..][i - (w + n)] && seg[i] == seg[w + n..][i - (w + n)];
    }
  }
}

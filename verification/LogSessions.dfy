/** Any life of one store, from memory that did not survive: lines and reboots, and
    what its bytes say afterwards. */
module LogSessions {
  import opened MachineTypes
  import opened LogFormat
  import opened LogTape
  import opened LogSpec
  import opened LogRuns
  import opened LogStore

  /** What the rolling bytes decode to, with no knowledge of what was written. */
  ghost function Decoded(s: Store): seq<Rec>
    requires s.Sane()
    reads s, s.boot, s.roll, s.data
  {
    Records(Walk(s.Bytes(s.roll), s.roll.readStart, s.roll.used))
  }

  /** How many records a segment always holds, if it was given as many. */
  function Floor(cap: nat): (k: nat)
    requires GoodCap(cap)
    ensures 168 * (k + 1) <= cap + 4 < 168 * (k + 2)
  {
    (cap + 4) / 168 - 1
  }

  /** Runs a first start and then any lines and reboots. The store ends where the
      specification does; its rolling bytes decode to the newest part of all that
      segment was ever given, and to at least the newest Floor(cap) records of it. */
  method Serve(s: Store, reason: nat -> uint32, text: seq<byte>, es: seq<Event>)
    requires s.Shape() && !s.Accepts()
    modifies s, s.boot, s.roll, s.data
    ensures s.Ready() && s.View() == FromCold(s.bootCap, s.rollCap, text, es)
    ensures NewestOf(Decoded(s), GivenToRolling(s.bootCap, s.rollCap, text, es))
    ensures |Decoded(s)| >= Floor(s.rollCap) || Decoded(s) == GivenToRolling(s.bootCap, s.rollCap, text, es)
  {
    hide Step, SinkStep, BeginStep, Walk, Records, GivenToRolling, TapeOk, BootOk, Store.RingOk, Store.BootRingOk, Store.Accepts;
    s.Begin(reason(0), text);
    ghost var v0 := s.View();
    var i := 0;
    while i < |es|
      invariant 0 <= i <= |es| && s.Shape() && s.Ready() && s.View() == Run(s.bootCap, s.rollCap, v0, es[..i])
    {
      assert es[..i + 1][..i] == es[..i];
      TakesStep(s.bootCap, s.rollCap, s.View(), es[i]);
      match es[i] {
        case Log(l) => s.Sink(l.level, l.msg, l.ts);
        case Reboot(marker) => s.Begin(reason(i + 1), marker);
      }
      i := i + 1;
    }
    assert es[..|es|] == es;
    s.RollingBytesDecode();
    LiveHistory(s.bootCap, s.rollCap, text, es, Floor(s.rollCap));
  }

  lemma TakesStep(bootCap: nat, rollCap: nat, v: LogSpec.View, e: Event)
    requires 0 < rollCap && Cut(v.roll)
    ensures Step(bootCap, rollCap, v, e) ==
            match e
            case Log(l) => SinkStep(bootCap, rollCap, v, l.level, l.msg, l.ts)
            case Reboot(text) => BeginStep(rollCap, v, text)
  {
  }
}

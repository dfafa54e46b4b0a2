/** The capture window over a session: when routine lines are stored. */
module LogCapture {
  import opened MachineTypes
  import opened LogTape
  import opened LogSpec
  import opened LogRuns

  /** Timestamps of a session that never goes back and stays clear of the 32-bit wrap. */
  predicate Orderly(ls: seq<Line>) {
    && (forall i, j | 0 <= i <= j < |ls| :: ls[i].ts <= ls[j].ts)
    && (forall i | 0 <= i < |ls| :: ls[i].ts + ERROR_WINDOW_MS < 0x1_0000_0000)
  }

  /** The times at which errors re-open capture: the first error at least a
      minute after boot, then each error at least a minute after the last such. */
  function Rearmings(ls: seq<Line>): seq<nat> {
    if ls == [] then [] else
    var before, l := Rearmings(ls[..|ls| - 1]), ls[|ls| - 1];
    var last := if before == [] then 0 else before[|before| - 1];
    if l.level == 0 && l.msg.Some? && l.ts >= last + 60000 then before + [l.ts] else before
  }

  function Session(bootCap: nat, rollCap: nat, v: View, ls: seq<Line>): (v': View)
    requires 0 < rollCap && Cut(v.roll)
    ensures Cut(v'.roll)
  {
    Run(bootCap, rollCap, v, seq(|ls|, i requires 0 <= i < |ls| => Log(ls[i])))
  }

  lemma SessionLast(bootCap: nat, rollCap: nat, v: View, ls: seq<Line>)
    requires 0 < rollCap && Cut(v.roll) && ls != []
    ensures var init, l := ls[..|ls| - 1], ls[|ls| - 1];
            Session(bootCap, rollCap, v, ls) == SinkStep(bootCap, rollCap, Session(bootCap, rollCap, v, init), l.level, l.msg, l.ts)
  {
    var es := seq(|ls|, i requires 0 <= i < |ls| => Log(ls[i]));
    var init := ls[..|ls| - 1];
    assert es[..|es| - 1] == seq(|init|, i requires 0 <= i < |init| => Log(init[i]));
  }

  /** Re-armings are at least a minute apart, so their windows are disjoint. */
  lemma {:induction false} RearmingsApart(ls: seq<Line>)
    requires Orderly(ls)
    ensures var rs := Rearmings(ls);
            && (forall i | 0 <= i < |rs| :: rs[i] >= 60000)
            && (forall i, j | 0 <= i < j < |rs| :: rs[i] + 60000 <= rs[j])
            && (rs != [] ==> ls != [] && rs[|rs| - 1] <= ls[|ls| - 1].ts)
  {
    if ls != [] {
      RearmingsApart(ls[..|ls| - 1]);
    }
  }

  /** A line's effect on the window, timestamps in order. */
  lemma LineMovesWindow(bootCap: nat, rollCap: nat, v: View, l: Line)
    requires 0 < rollCap && Cut(v.roll) && v.lastRearm <= l.ts && l.ts + ERROR_WINDOW_MS < 0x1_0000_0000
    ensures var v' := SinkStep(bootCap, rollCap, v, l.level, l.msg, l.ts);
            if l.level == 0 && l.msg.Some? && l.ts >= v.lastRearm + 60000
            then v'.lastRearm == l.ts && v'.until == l.ts + 10000
            else v'.lastRearm == v.lastRearm && v'.until == v.until
  {
    hide Appended, Clipped;
  }

  /** The two words the code keeps are the last re-arming and the end of its window. */
  lemma {:induction false} WindowIsLastRearming(bootCap: nat, rollCap: nat, v: View, ls: seq<Line>)
    requires 0 < rollCap && Cut(v.roll) && v.until == 0 == v.lastRearm && Orderly(ls)
    ensures var v', rs := Session(bootCap, rollCap, v, ls), Rearmings(ls);
            if rs == [] then v'.until == 0 == v'.lastRearm
            else v'.lastRearm == rs[|rs| - 1] && v'.until == rs[|rs| - 1] + 10000
  {
    hide SinkStep;
    if ls != [] {
      var init, l := ls[..|ls| - 1], ls[|ls| - 1];
      WindowIsLastRearming(bootCap, rollCap, v, init);
      SessionLast(bootCap, rollCap, v, ls);
      RearmingsApart(init);
      LineMovesWindow(bootCap, rollCap, Session(bootCap, rollCap, v, init), l);
    }
  }

  /** A line is captured exactly when it is a warning or an error, or comes in
      the first minute, or less than ten seconds after a re-arming error. */
  lemma LinesCaptured(bootCap: nat, rollCap: nat, v: View, ls: seq<Line>, level: byte, t: uint32)
    requires 0 < rollCap && Cut(v.roll) && v.until == 0 == v.lastRearm && Orderly(ls)
    requires ls != [] ==> t >= ls[|ls| - 1].ts
    ensures Captures(Session(bootCap, rollCap, v, ls), level, t)
            <==> || level <= 1 || t < 60000
                 || exists i :: 0 <= i < |Rearmings(ls)| && Rearmings(ls)[i] <= t < Rearmings(ls)[i] + 10000
  {
    hide Rearmings, Session;
    var rs := Rearmings(ls);
    WindowIsLastRearming(bootCap, rollCap, v, ls);
    RearmingsApart(ls);
    if rs != [] && t < rs[|rs| - 1] + 10000 {
      assert rs[|rs| - 1] <= t;
    }
  }

  /** Every session starts with the window closed. */
  lemma SessionStartsClosed(rollCap: nat, v: View, text: seq<byte>)
    requires 0 < rollCap && Cut(v.roll)
    ensures var v' := BeginStep(rollCap, v, text); v'.until == 0 == v'.lastRearm && Cut(v'.roll)
  {
  }

  /** So it is in every session, whatever the memory held when it started. */
  lemma EverySession(bootCap: nat, rollCap: nat, v: View, text: seq<byte>, ls: seq<Line>, level: byte, t: uint32)
    requires 0 < rollCap && Cut(v.roll) && Orderly(ls) && (ls != [] ==> t >= ls[|ls| - 1].ts)
    ensures Cut(BeginStep(rollCap, v, text).roll)
    ensures Captures(Session(bootCap, rollCap, BeginStep(rollCap, v, text), ls), level, t)
            <==> || level <= 1 || t < 60000
                 || exists i :: 0 <= i < |Rearmings(ls)| && Rearmings(ls)[i] <= t < Rearmings(ls)[i] + 10000
  {
    hide Captures, Appended, Rearmings;
    SessionStartsClosed(rollCap, v, text);
    LinesCaptured(bootCap, rollCap, BeginStep(rollCap, v, text), ls, level, t);
  }
}

/** The poller's availability announcements over a whole history of polls. */
module Poller {

  datatype Availability = Unknown | Online | Offline

  const MAX_CONSECUTIVE_FAILURES: nat := 3

  /** One poll: hardware checks, telemetry, and whether an announcement, if one
      is made, gets through. */
  datatype Poll = Poll(connected: bool, tested: bool, telemetry: bool, delivered: bool)

  predicate Succeeded(p: Poll) {
    p.connected && p.tested && p.telemetry
  }

  /** The poller's memory, and the announcements that got through (true for online). */
  datatype State = State(failures: nat, published: Availability, ok: nat, failed: nat, sent: seq<bool>)

  const START: State := State(0, Unknown, 0, 0, [])

  function Announce(s: State, online: bool, delivered: bool): State {
    if delivered then s.(published := if online then Online else Offline, sent := s.sent + [online]) else s
  }

  function Update(s: State, success: bool, delivered: bool): State {
    if success then
      var s1 := s.(failures := 0);
      if s1.published != Online then Announce(s1, true, delivered) else s1
    else
      var s1 := s.(failures := s.failures + 1);
      if s1.failures >= MAX_CONSECUTIVE_FAILURES && s1.published != Offline then Announce(s1, false, delivered) else s1
  }

  function PollStep(s: State, p: Poll): State {
    var s1 := if Succeeded(p) then s.(ok := s.ok + 1) else s.(failed := s.failed + 1);
    Update(s1, Succeeded(p), p.delivered)
  }

  function After(ps: seq<Poll>): State {
    if ps == [] then START else PollStep(After(ps[..|ps| - 1]), ps[|ps| - 1])
  }

  class Poller {
    var initialized: bool
    var successfulPolls: nat
    var failedPolls: nat
    var consecutiveFailures: nat
    var publishedAvailability: Availability
    /** Announcements the broker took, oldest first. */
    ghost var sent: seq<bool>

    ghost function View(): State
      reads this
    {
      State(consecutiveFailures, publishedAvailability, successfulPolls, failedPolls, sent)
    }

    constructor ()
      ensures View() == START && !initialized
    {
      initialized := false;
      successfulPolls, failedPolls, consecutiveFailures := 0, 0, 0;
      publishedAvailability := Unknown;
      sent := [];
    }

    /** Needs the bus and then the device; tried again until both are there. */
    method Begin(busReady: bool, deviceReady: bool) returns (ok: bool)
      modifies `initialized
      ensures initialized == ok == (old(initialized) || (busReady && deviceReady))
    {
      if initialized {
        return true;
      }
      if !busReady || !deviceReady {
        return false;
      }
      initialized := true;
      ok := true;
    }

    method PublishAvailability(online: bool, delivered: bool) returns (ok: bool)
      modifies `sent
      ensures ok == delivered && sent == if delivered then old(sent) + [online] else old(sent)
    {
      ok := delivered;
      if ok {
        sent := sent + [online];
      }
    }

    method UpdateAvailability(pollSucceeded: bool, delivered: bool)
      modifies `consecutiveFailures, `publishedAvailability, `sent
      ensures View() == Update(old(View()), pollSucceeded, delivered)
    {
      if pollSucceeded {
        consecutiveFailures := 0;
        if publishedAvailability != Online {
          var ok := PublishAvailability(true, delivered);
          if ok {
            publishedAvailability := Online;
          }
        }
        return;
      }
      consecutiveFailures := consecutiveFailures + 1;
      if consecutiveFailures >= MAX_CONSECUTIVE_FAILURES && publishedAvailability != Offline {
        var ok := PublishAvailability(false, delivered);
        if ok {
          publishedAvailability := Offline;
        }
      }
    }

    /** One poll; an uninitialised poller does nothing. */
    method DoPoll(p: Poll)
      modifies this
      ensures initialized == old(initialized)
      ensures View() == if initialized then PollStep(old(View()), p) else old(View())
      ensures initialized ==>
                var good := p.connected && p.tested && p.telemetry;
                && successfulPolls == old(successfulPolls) + (if good then 1 else 0)
                && failedPolls == old(failedPolls) + (if good then 0 else 1)
                && consecutiveFailures == if good then 0 else old(consecutiveFailures) + 1
    {
      if !initialized {
        return;
      }
      if !p.connected {
        failedPolls := failedPolls + 1;
        UpdateAvailability(false, p.delivered);
        return;
      }
      if !p.tested {
        failedPolls := failedPolls + 1;
        UpdateAvailability(false, p.delivered);
        return;
      }
      var success := p.telemetry;
      if success {
        successfulPolls := successfulPolls + 1;
      } else {
        failedPolls := failedPolls + 1;
      }
      UpdateAvailability(success, p.delivered);
    }
  }

  // ----- Closed form over the history -------------------------------------------------

  /** Length of the run of failures at the end of a history. */
  function FailureRun(ps: seq<Poll>): (n: nat)
    ensures n <= |ps|
    ensures forall i | |ps| - n <= i < |ps| :: !Succeeded(ps[i])
    ensures n < |ps| ==> Succeeded(ps[|ps| - n - 1])
  {
    if ps == [] || Succeeded(ps[|ps| - 1]) then 0 else FailureRun(ps[..|ps| - 1]) + 1
  }

  predicate EverSucceeded(ps: seq<Poll>) {
    exists i :: 0 <= i < |ps| && Succeeded(ps[i])
  }

  lemma {:induction false} FailuresAreTheRun(ps: seq<Poll>)
    ensures After(ps).failures == FailureRun(ps)
  {
    if ps != [] {
      FailuresAreTheRun(ps[..|ps| - 1]);
    }
  }

  function Successes(ps: seq<Poll>): nat {
    if ps == [] then 0 else Successes(ps[..|ps| - 1]) + if Succeeded(ps[|ps| - 1]) then 1 else 0
  }

  /** The two counters count the successful polls and the others, over every
      history; a poll succeeds when both hardware checks and telemetry do. */
  lemma {:induction false} CountersCount(ps: seq<Poll>)
    ensures After(ps).ok == Successes(ps) <= |ps| && After(ps).failed == |ps| - Successes(ps)
  {
    if ps != [] {
      CountersCount(ps[..|ps| - 1]);
    }
  }

  lemma EverSucceededLast(ps: seq<Poll>)
    requires ps != []
    ensures EverSucceeded(ps) <==> EverSucceeded(ps[..|ps| - 1]) || Succeeded(ps[|ps| - 1])
  {
    var init := ps[..|ps| - 1];
    if EverSucceeded(init) {
      var i :| 0 <= i < |init| && Succeeded(init[i]);
      assert Succeeded(ps[i]);
    }
    if EverSucceeded(ps) && !Succeeded(ps[|ps| - 1]) {
      var i :| 0 <= i < |ps| && Succeeded(ps[i]);
      assert Succeeded(init[i]);
    }
  }

  /** With every announcement delivered, what is announced is a function of the
      history alone: offline on a run of three failures, else online once any
      poll has succeeded, else nothing. */
  lemma {:induction false} AnnouncedState(ps: seq<Poll>)
    requires forall i | 0 <= i < |ps| :: ps[i].delivered
    ensures After(ps).published ==
            if FailureRun(ps) >= 3 then Offline
            else if EverSucceeded(ps) then Online
            else Unknown
  {
    if ps != [] {
      AnnouncedState(ps[..|ps| - 1]);
      FailuresAreTheRun(ps[..|ps| - 1]);
      EverSucceededLast(ps);
    }
  }

  // ----- With announcements that may not get through --------------------------------------

  predicate Alternates(sent: seq<bool>) {
    forall i | 0 <= i < |sent| - 1 :: sent[i] != sent[i + 1]
  }

  /** What a poll sends, if anything, differs from what is published. */
  lemma PollSends(s: State, p: Poll)
    ensures var s' := PollStep(s, p);
            && s'.ok + s'.failed == s.ok + s.failed + 1
            && (|| (s'.sent == s.sent && s'.published == s.published)
                || (s'.sent == s.sent + [true] && s'.published == Online != s.published)
                || (s'.sent == s.sent + [false] && s'.published == Offline != s.published))
  {
  }

  /** Over every history: the announcements taken alternate, what the poller
      believes published is the last of them, and every poll is counted once. */
  lemma {:induction false} AnnouncementsAlternate(ps: seq<Poll>)
    ensures var s := After(ps);
            && Alternates(s.sent)
            && s.published == (if s.sent == [] then Unknown else if s.sent[|s.sent| - 1] then Online else Offline)
            && s.ok + s.failed == |ps|
  {
    if ps != [] {
      AnnouncementsAlternate(ps[..|ps| - 1]);
      hide PollStep;
      PollSends(After(ps[..|ps| - 1]), ps[|ps| - 1]);
    }
  }

  /** An announcement is only ever made when it is true: "offline" after at least
      three failures in a row, "online" after a success. */
  lemma AnnouncementsAreTrue(ps: seq<Poll>)
    requires ps != []
    ensures var before, after := After(ps[..|ps| - 1]).sent, After(ps).sent;
            || after == before
            || (after == before + [false] && FailureRun(ps) >= 3)
            || (after == before + [true] && Succeeded(ps[|ps| - 1]))
  {
    FailuresAreTheRun(ps);
    FailuresAreTheRun(ps[..|ps| - 1]);
  }

  /** A poll whose announcement can get through leaves the published state right,
      whatever was lost before it. */
  lemma DeliverySettles(ps: seq<Poll>)
    requires ps != [] && ps[|ps| - 1].delivered
    ensures FailureRun(ps) >= 3 ==> After(ps).published == Offline
    ensures Succeeded(ps[|ps| - 1]) ==> After(ps).published == Online
  {
    FailuresAreTheRun(ps[..|ps| - 1]);
  }

  /** A long run of failures goes unannounced only while every poll from the
      third failure on found the broker unreachable. */
  lemma {:induction false} OfflineIsRetried(ps: seq<Poll>)
    requires FailureRun(ps) >= 3 && After(ps).published != Offline
    ensures forall i | |ps| - FailureRun(ps) + 2 <= i < |ps| :: !ps[i].delivered
  {
    var init := ps[..|ps| - 1];
    FailuresAreTheRun(init);
    if FailureRun(init) >= 3 {
      OfflineIsRetried(init);
    }
  }
}

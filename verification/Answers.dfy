/** What one delivery does and answers, case by case and under every combination of failures, and what
    that comes to over runs: nothing is done late, and the outbox numbers every result once. */
module Answers {
  import opened Basics
  import opened Ledger
  import opened LedgerRuns

  // ----- The course of a delivery -------------------------------------------------

  /** The ids can be used. */
  predicate Named(d: Delivery) {
    !Blank(d.deliveryId) && !Blank(d.cmdId)
  }

  /** The process knows the command at this phase. */
  predicate At(w: World, c: CmdId, p: Phase) {
    c in w.commands && w.commands[c].phase == p
  }

  /** The action reached the outside: a port was called, or what was asked for was done. */
  predicate Reaches(k: CommandClass, act: ActFate) {
    match act
    case CrashAfterAct => true
    case Performed(ok, _) => k == PortAction || ok
    case Withheld(_) => false
    case CrashBeforeAct => false
  }

  /** What a delivery may do to the outside, in order: a new command is recorded, one that may still be
      started, and in time, is marked and performed, and the result is written. */
  function Course(w: World, d: Delivery, now: i64, act: ActFate): seq<Effect> {
    var c := d.cmdId;
    var starts := !At(w, c, Executing) && now < d.expiresAt;
    if !Named(d) || At(w, c, Terminal) then []
    else
      (if c in w.commands then [] else [Wrote(c, Recorded)])
      + (if starts && d.command == PortAction then [Wrote(c, Executing)] else [])
      + (if starts && Reaches(d.command, act) then [Acted(c, d.command)] else [])
      + [Wrote(c, Terminal)]
  }

  /** The log grew by so much of the course, and by all of it if an answer was given. */
  ghost predicate Follows(w: World, r: (World, Outcome), course: seq<Effect>) {
    && w.log <= r.0.log
    && r.0.log[|w.log|..] <= course
    && (r.1.Delivered? ==> r.0.log[|w.log|..] == course)
  }

  lemma FollowsOn(a: World, b: World, r: (World, Outcome), first: seq<Effect>, rest: seq<Effect>)
    requires b.log == a.log + first && Follows(b, r, rest)
    ensures Follows(a, r, first + rest)
  {
    assert r.0.log[|a.log|..] == first + r.0.log[|b.log|..];
  }

  lemma Stays(w: World, r: (World, Outcome), course: seq<Effect>)
    requires r.0.log == w.log && !r.1.Delivered?
    ensures Follows(w, r, course)
  {
  }

  lemma FinishFollows(w: World, p: Payload, fate: WriteFate, receipt: ReceiptStatus, executed: bool)
    ensures Follows(w, StoreTerminal(w, p, fate, receipt, executed), [Wrote(p.cmdId, Terminal)])
  {
  }

  lemma PerformFollows(w: World, d: Delivery, now: i64, fates: Fates, receipt: ReceiptStatus)
    ensures Follows(w, Perform(w, d, now, fates, receipt),
                    (if Reaches(d.command, fates.act) then [Acted(d.cmdId, d.command)] else []) + [Wrote(d.cmdId, Terminal)])
  {
    hide StoreTerminal, Follows;
    var r := Perform(w, d, now, fates, receipt);
    var finish := [Wrote(d.cmdId, Terminal)];
    match fates.act
    case CrashBeforeAct => Stays(w, r, [] + finish);
    case CrashAfterAct =>
      Stays(Act(w, d), r, finish);
      FollowsOn(w, Act(w, d), r, [Acted(d.cmdId, d.command)], finish);
    case Withheld(details) =>
      FinishFollows(w, ActPayload(d, now, false, details), fates.terminal, receipt, !d.command.MatrixInstall?);
      assert [] + finish == finish;
    case Performed(ok, details) =>
      var executed := ok || !d.command.MatrixInstall?;
      FinishFollows(w, ActPayload(d, now, ok, details), fates.terminal, receipt, executed);
      FinishFollows(Act(w, d), ActPayload(d, now, ok, details), fates.terminal, receipt, executed);
      if d.command.PortAction? || ok {
        FollowsOn(w, Act(w, d), r, [Acted(d.cmdId, d.command)], finish);
      } else {
        assert [] + finish == finish;
      }
  }

  lemma ProceedFollows(w: World, d: Delivery, now: i64, fates: Fates, receipt: ReceiptStatus)
    ensures Follows(w, Proceed(w, d, now, fates, receipt),
                    (if now < d.expiresAt && d.command == PortAction then [Wrote(d.cmdId, Executing)] else [])
                    + ((if now < d.expiresAt && Reaches(d.command, fates.act) then [Acted(d.cmdId, d.command)] else [])
                       + [Wrote(d.cmdId, Terminal)]))
  {
    hide StoreTerminal, Follows, Perform, Reaches;
    var r := Proceed(w, d, now, fates, receipt);
    var finish := [Wrote(d.cmdId, Terminal)];
    if now >= d.expiresAt {
      FinishFollows(w, ExpiredPayload(d, now), fates.terminal, receipt, false);
      assert [] + ([] + finish) == finish;
    } else {
      var perform := (if Reaches(d.command, fates.act) then [Acted(d.cmdId, d.command)] else []) + finish;
      if d.command.PortAction? {
        var mark := [Wrote(d.cmdId, Executing)];
        match MarkExecuting(w, d.cmdId, fates.executing)
        case Did(w') =>
          PerformFollows(w', d, now, fates, receipt);
          FollowsOn(w, w', r, mark, perform);
        case DidNot(w', outcome) =>
          StoppedFollows(w, d.cmdId, Entry(Executing, None, None), fates.executing, r, perform);
      } else {
        PerformFollows(w, d, now, fates, receipt);
        assert [] + perform == perform;
      }
    }
  }

  lemma StoppedFollows(w: World, c: CmdId, e: Entry, fate: WriteFate, r: (World, Outcome), rest: seq<Effect>)
    requires WriteJournal(w, c, e, fate).DidNot? && r == (WriteJournal(w, c, e, fate).w, WriteJournal(w, c, e, fate).outcome)
    ensures Follows(w, r, [Wrote(c, e.phase)] + rest)
  {
  }

  /** Whatever fails or crashes, a delivery does to the outside exactly so much of its course, in that
      order, and all of it if it answers. */
  lemma DeliveryFollowsItsCourse(w: World, d: Delivery, now: i64, fates: Fates)
    ensures Follows(w, Deliver(w, d, now, fates), Course(w, d, now, fates.act))
  {
    hide StoreTerminal, Proceed, Follows, Reaches;
    var c, r := d.cmdId, Deliver(w, d, now, fates);
    var course := Course(w, d, now, fates.act);
    if !Named(d) || At(w, c, Terminal) {
      NothingFollows(w, r);
    } else if At(w, c, Executing) {
      FinishFollows(w, UnknownPayload(d, now), fates.terminal, Duplicate, false);
      assert course == [Wrote(c, Terminal)];
    } else {
      var later := (if now < d.expiresAt && d.command == PortAction then [Wrote(c, Executing)] else [])
                   + ((if now < d.expiresAt && Reaches(d.command, fates.act) then [Acted(c, d.command)] else [])
                      + [Wrote(c, Terminal)]);
      if c in w.commands {
        ProceedFollows(w, d, now, fates, Duplicate);
        assert course == later;
      } else {
        var entry := Entry(Recorded, None, None);
        assert course == [Wrote(c, Recorded)] + later;
        match WriteJournal(w, c, entry, fates.recorded)
        case Did(w') =>
          var w1 := w'.(commands := w'.commands[c := entry]);
          ProceedFollows(w1, d, now, fates, Accepted);
          FollowsOn(w, w1, r, [Wrote(c, Recorded)], later);
        case DidNot(w', outcome) =>
          StoppedFollows(w, c, entry, fates.recorded, r, later);
      }
    }
  }

  lemma NothingFollows(w: World, r: (World, Outcome))
    requires r.0.log == w.log
    ensures Follows(w, r, [])
  {
    assert r.0.log[|w.log|..] == [];
  }

  // ----- The answer -----------------------------------------------------------------

  /** What an answer to a command that was not finished says. */
  ghost predicate Says(o: Outcome, d: Delivery, now: i64, status: Status, details: string, executed: bool)
    requires o.Delivered?
  {
    && o.result == Payload(d.cmdId, status, now, if d.attempt.Some? then d.attempt.value else 1, details)
    && o.executed == executed
  }

  /** A finished command is answered as it was; an interrupted one as unknown; one whose time is over as
      expired; and any other with what its action reported.  Only the last can say that something was
      executed, and it does unless a matrix was turned down. */
  ghost predicate IsAnswer(w: World, d: Delivery, now: i64, act: ActFate, o: Outcome)
    requires o.Delivered?
  {
    var c := d.cmdId;
    && (o.receipt == Accepted <==> c !in w.commands)
    && if At(w, c, Terminal) then
         !o.executed && w.commands[c].result == Some(o.result) && w.commands[c].sequence == Some(o.sequence)
       else if At(w, c, Executing) then Says(o, d, now, Status.Unknown, "outcome_unknown", false)
       else if d.expiresAt <= now then Says(o, d, now, Status.Expired, "expired", false)
       else
         match act
         case Withheld(details) => Says(o, d, now, Status.Failed, details, d.command != MatrixInstall)
         case Performed(true, details) => Says(o, d, now, Status.Succeeded, details, true)
         case Performed(false, details) => Says(o, d, now, Status.Failed, details, d.command != MatrixInstall)
         case _ => false
  }

  lemma FinishSays(w: World, p: Payload, fate: WriteFate, receipt: ReceiptStatus, executed: bool)
    ensures var o := StoreTerminal(w, p, fate, receipt, executed).1;
            && (o.Delivered? <==> fate == Written && HasSequence(w.uplink, p.cmdId))
            && (o.Delivered? ==> o.receipt == receipt && o.result == p && o.executed == executed)
  {
  }

  /** The outbox knows the command, or has a number left. */
  predicate HasSequence(u: Uplink, c: CmdId) {
    c in u.sequences || u.lastAllocated < 0xffff_ffff_ffff_ffff
  }

  lemma ProceedSays(w: World, d: Delivery, now: i64, fates: Fates, receipt: ReceiptStatus)
    requires At(w, d.cmdId, Recorded)
    ensures var o := Proceed(w, d, now, fates, receipt).1;
            && (o.Delivered? <==>
                  && fates.terminal == Written && HasSequence(w.uplink, d.cmdId)
                  && (now < d.expiresAt ==>
                        && (d.command == PortAction ==> fates.executing == Written)
                        && (fates.act.Withheld? || fates.act.Performed?)))
            && (o.Delivered? ==> o.receipt == receipt && IsAnswer(w, d, now, fates.act, o.(receipt := Duplicate)))
  {
    hide StoreTerminal;
    FinishSays(w, ExpiredPayload(d, now), fates.terminal, receipt, false);
    var w1 := if d.command.PortAction? then MarkExecuting(w, d.cmdId, fates.executing).w else w;
    match fates.act
    case Withheld(details) =>
      FinishSays(w1, ActPayload(d, now, false, details), fates.terminal, receipt, !d.command.MatrixInstall?);
    case Performed(ok, details) =>
      var w2 := if d.command.PortAction? || ok then Act(w1, d) else w1;
      FinishSays(w2, ActPayload(d, now, ok, details), fates.terminal, receipt, ok || !d.command.MatrixInstall?);
    case _ =>
  }

  /** Nothing stood in the way of an answer. */
  ghost predicate Undisturbed(w: World, d: Delivery, now: i64, fates: Fates) {
    var c := d.cmdId;
    && Named(d)
    && if At(w, c, Terminal) then w.commands[c].result.Some? && w.commands[c].sequence.Some?
       else
         && fates.terminal == Written && HasSequence(w.uplink, c)
         && (c !in w.commands ==> fates.recorded == Written)
         && (!At(w, c, Executing) && now < d.expiresAt ==>
               && (d.command == PortAction ==> fates.executing == Written)
               && (fates.act.Withheld? || fates.act.Performed?))
  }

  /** A delivery is answered exactly if its ids can be used, every write it comes to is accepted, it does
      not die in its action and the outbox has a number for it; and what it answers is right. */
  lemma AnsweredExactlyWhenUndisturbed(w: World, d: Delivery, now: i64, fates: Fates)
    ensures Deliver(w, d, now, fates).1.Delivered? <==> Undisturbed(w, d, now, fates)
    ensures Deliver(w, d, now, fates).1.Delivered? ==> IsAnswer(w, d, now, fates.act, Deliver(w, d, now, fates).1)
  {
    hide StoreTerminal, Proceed;
    FinishSays(w, UnknownPayload(d, now), fates.terminal, Duplicate, false);
    if At(w, d.cmdId, Recorded) {
      ProceedSays(w, d, now, fates, Duplicate);
    }
    var entry := Entry(Recorded, None, None);
    var w1 := OnDisk(w, d.cmdId, entry);
    ProceedSays(w1.(commands := w1.commands[d.cmdId := entry]), d, now, fates, Accepted);
  }

  lemma FinishFails(w: World, p: Payload, fate: WriteFate, receipt: ReceiptStatus, executed: bool)
    requires w.up
    ensures var (w', o) := StoreTerminal(w, p, fate, receipt, executed);
            && (o == Crashed <==> !w'.up)
            && (o.Rejected? ==> o.error == SequenceExhausted || o.error == JournalFailed)
            && (o == Rejected(SequenceExhausted) <==> !HasSequence(w.uplink, p.cmdId))
  {
  }

  /** How a step that gives no answer ends. */
  ghost predicate EndsBadly(w: World, r: (World, Outcome), c: CmdId) {
    && (r.1 == Crashed <==> !r.0.up)
    && (r.1.Rejected? ==> r.1.error == SequenceExhausted || r.1.error == JournalFailed)
    && (r.1 == Rejected(SequenceExhausted) ==> !HasSequence(w.uplink, c))
  }

  lemma PerformFails(w: World, d: Delivery, now: i64, fates: Fates, receipt: ReceiptStatus)
    requires w.up
    ensures EndsBadly(w, Perform(w, d, now, fates, receipt), d.cmdId)
  {
    hide StoreTerminal;
    match fates.act
    case Withheld(details) =>
      FinishFails(w, ActPayload(d, now, false, details), fates.terminal, receipt, !d.command.MatrixInstall?);
    case Performed(ok, details) =>
      var w' := if d.command.PortAction? || ok then Act(w, d) else w;
      FinishFails(w', ActPayload(d, now, ok, details), fates.terminal, receipt, ok || !d.command.MatrixInstall?);
    case _ =>
  }

  lemma MarkFails(w: World, c: CmdId, fate: WriteFate)
    requires w.up
    ensures match MarkExecuting(w, c, fate)
            case Did(w') => w'.up && w'.uplink == w.uplink
            case DidNot(w', o) => (o == Crashed <==> !w'.up) && (o != Crashed ==> o == Rejected(JournalFailed))
  {
  }

  lemma ProceedFails(w: World, d: Delivery, now: i64, fates: Fates, receipt: ReceiptStatus)
    requires w.up
    ensures EndsBadly(w, Proceed(w, d, now, fates, receipt), d.cmdId)
  {
    hide StoreTerminal, Perform, MarkExecuting;
    FinishFails(w, ExpiredPayload(d, now), fates.terminal, receipt, false);
    PerformFails(w, d, now, fates, receipt);
    MarkFails(w, d.cmdId, fates.executing);
    var marked := MarkExecuting(w, d.cmdId, fates.executing).w;
    if marked.up {
      PerformFails(marked, d, now, fates, receipt);
    }
  }

  /** And one that is not answered says why: it died, an id cannot be used, a finished command has no
      result to repeat, the numbers ran out, or a write failed. */
  lemma RefusedForItsReason(w: World, d: Delivery, now: i64, fates: Fates)
    requires w.up
    ensures var (w', o) := Deliver(w, d, now, fates);
            && (o == Crashed <==> !w'.up)
            && (o == Rejected(EmptyDeliveryId) <==> Blank(d.deliveryId))
            && (o == Rejected(EmptyCmdId) <==>
                  && !Blank(d.deliveryId)
                  && (Blank(d.cmdId)
                      || (At(w, d.cmdId, Terminal) && (w.commands[d.cmdId].result.None? || w.commands[d.cmdId].sequence.None?))))
            && (o == Rejected(SequenceExhausted) ==> !HasSequence(w.uplink, d.cmdId))
  {
    hide StoreTerminal, Proceed;
    FinishFails(w, UnknownPayload(d, now), fates.terminal, Duplicate, false);
    ProceedFails(w, d, now, fates, Duplicate);
    var entry := Entry(Recorded, None, None);
    var w1 := OnDisk(w, d.cmdId, entry);
    ProceedFails(w1.(commands := w1.commands[d.cmdId := entry]), d, now, fates, Accepted);
  }

  /** One whose time is over is never performed, whatever fails; it is answered as expired. */
  lemma ExpiredIsNeverPerformed(w: World, d: Delivery, now: i64, fates: Fates)
    requires d.expiresAt <= now
    ensures OnlyAdds(w.log, Deliver(w, d, now, fates).0.log, d.cmdId)
    ensures Named(d) && !At(w, d.cmdId, Executing) && !At(w, d.cmdId, Terminal)
            && fates.recorded == Written && fates.terminal == Written && HasSequence(w.uplink, d.cmdId) ==>
              var o := Deliver(w, d, now, fates).1;
              o.Delivered? && Says(o, d, now, Status.Expired, "expired", false)
  {
    hide Deliver;
    DeliveryFollowsItsCourse(w, d, now, fates);
    AnsweredExactlyWhenUndisturbed(w, d, now, fates);
    var log := Deliver(w, d, now, fates).0.log;
    forall i | |w.log| <= i < |log|
      ensures !ActsFor(log[i], d.cmdId)
    {
      assert log[i] == log[|w.log|..][i - |w.log|];
    }
  }

  /** If the mark before an action is refused, nothing is performed and the command is only recorded, so that
      the next delivery may try again. */
  lemma RefusedMarkCanBeTriedAgain(w: World, d: Delivery, now: i64, fates: Fates)
    requires w.up && Named(d) && d.command == PortAction && now < d.expiresAt
    requires At(w, d.cmdId, Recorded) || (d.cmdId !in w.commands && fates.recorded == Written)
    requires fates.executing == Refused || fates.executing == RefusedButKept
    ensures var (w', o) := Deliver(w, d, now, fates);
            && o == Rejected(JournalFailed) && At(w', d.cmdId, Recorded) && w'.uplink == w.uplink
            && OnlyAdds(w.log, w'.log, d.cmdId)
  {
  }

  /** A command found executing is not performed again, and is answered as unknown. */
  lemma InterruptedIsUnknown(w: World, d: Delivery, now: i64, fates: Fates)
    requires Named(d) && At(w, d.cmdId, Executing)
    ensures OnlyAdds(w.log, Deliver(w, d, now, fates).0.log, d.cmdId)
    ensures fates.terminal == Written && HasSequence(w.uplink, d.cmdId) ==>
              var o := Deliver(w, d, now, fates).1;
              o.Delivered? && o.receipt == Duplicate && Says(o, d, now, Status.Unknown, "outcome_unknown", false)
  {
    hide Deliver;
    DeliveryFollowsItsCourse(w, d, now, fates);
    AnsweredExactlyWhenUndisturbed(w, d, now, fates);
    var log := Deliver(w, d, now, fates).0.log;
    forall i | |w.log| <= i < |log|
      ensures !ActsFor(log[i], d.cmdId)
    {
      assert log[i] == log[|w.log|..][i - |w.log|];
    }
  }

  // ----- Over runs -------------------------------------------------------------------

  /** This arrival asked for the action, and in time. */
  predicate AsksInTime(e: Event, c: CmdId, k: CommandClass) {
    e.Arrives? && e.d.cmdId == c && e.d.command == k && e.now < e.d.expiresAt
  }

  lemma StepActsInTime(w: World, e: Event, i: nat)
    requires |w.log| <= i < |Step(w, e).log| && Step(w, e).log[i].Acted?
    ensures AsksInTime(e, Step(w, e).log[i].cmdId, Step(w, e).log[i].command)
  {
    hide Deliver;
    if e.Arrives? {
      DeliveryFollowsItsCourse(w, e.d, e.now, e.fates);
      var log := Step(w, e).log;
      assert log[i] == log[|w.log|..][i - |w.log|];
    }
  }

  lemma LogOnlyGrows(w: World, e: Event)
    ensures w.log <= Step(w, e).log
  {
    hide Deliver;
    if e.Arrives? {
      DeliveryFollowsItsCourse(w, e.d, e.now, e.fates);
    }
  }

  /** Every action of every run was asked for, by that name, in a delivery that had not expired, and was
      performed at that delivery. */
  lemma {:induction false} ActedInTime(w: World, events: seq<Event>, i: nat) returns (n: nat)
    requires |w.log| <= i < |After(w, events).log| && After(w, events).log[i].Acted?
    ensures n < |events|
    ensures AsksInTime(events[n], After(w, events).log[i].cmdId, After(w, events).log[i].command)
    ensures |After(w, events[..n]).log| <= i < |After(w, events[..n + 1]).log|
    decreases |events|
  {
    hide Step, AsksInTime;
    var w' := Step(w, events[0]);
    assert events[..1][1..] == [] && events[..0] == [];
    LaterLogs(w', events[1..]);
    if i < |w'.log| {
      n := 0;
      StepActsInTime(w, events[0], i);
    } else {
      var k := ActedInTime(w', events[1..], i);
      n := k + 1;
      assert events[..n][1..] == events[1..][..k] && events[..n + 1][1..] == events[1..][..k + 1];
    }
  }

  lemma {:induction false} LaterLogs(w: World, events: seq<Event>)
    ensures w.log <= After(w, events).log
    decreases |events|
  {
    hide Step;
    if events != [] {
      LogOnlyGrows(w, events[0]);
      LaterLogs(Step(w, events[0]), events[1..]);
    }
  }

  // ----- The journal forgets no result ---------------------------------------------------

  ghost predicate HasKept(a: map<CmdId, Entry>, b: map<CmdId, Entry>, c: CmdId) {
    c in a ==>
      && c in b
      && (a[c].result.Some? ==> b[c].result.Some?)
      && (a[c].sequence.Some? ==> b[c].sequence.Some?)
  }

  lemma FinishHasKept(w: World, p: Payload, fate: WriteFate, receipt: ReceiptStatus, executed: bool, c: CmdId)
    ensures HasKept(w.journal, StoreTerminal(w, p, fate, receipt, executed).0.journal, c)
  {
  }

  lemma MarkHasKept(w: World, d: CmdId, fate: WriteFate, c: CmdId)
    ensures HasKept(w.journal, MarkExecuting(w, d, fate).w.journal, c)
  {
  }

  lemma HasKeptOn(a: map<CmdId, Entry>, b: map<CmdId, Entry>, e: map<CmdId, Entry>, c: CmdId)
    requires HasKept(a, b, c) && HasKept(b, e, c)
    ensures HasKept(a, e, c)
  {
  }

  lemma PerformHasKept(w: World, d: Delivery, now: i64, fates: Fates, receipt: ReceiptStatus, c: CmdId)
    ensures HasKept(w.journal, Perform(w, d, now, fates, receipt).0.journal, c)
  {
    hide StoreTerminal;
    match fates.act
    case Withheld(details) =>
      FinishHasKept(w, ActPayload(d, now, false, details), fates.terminal, receipt, !d.command.MatrixInstall?, c);
    case Performed(ok, details) =>
      var w' := if d.command.PortAction? || ok then Act(w, d) else w;
      FinishHasKept(w', ActPayload(d, now, ok, details), fates.terminal, receipt, ok || !d.command.MatrixInstall?, c);
    case _ =>
  }

  lemma ProceedHasKept(w: World, d: Delivery, now: i64, fates: Fates, receipt: ReceiptStatus, c: CmdId)
    ensures HasKept(w.journal, Proceed(w, d, now, fates, receipt).0.journal, c)
  {
    hide StoreTerminal, Perform, MarkExecuting, HasKept;
    FinishHasKept(w, ExpiredPayload(d, now), fates.terminal, receipt, false, c);
    PerformHasKept(w, d, now, fates, receipt, c);
    var marked := MarkExecuting(w, d.cmdId, fates.executing).w;
    MarkHasKept(w, d.cmdId, fates.executing, c);
    PerformHasKept(marked, d, now, fates, receipt, c);
    HasKeptOn(w.journal, marked.journal, Perform(marked, d, now, fates, receipt).0.journal, c);
  }

  lemma StepHasKept(w: World, e: Event, c: CmdId)
    ensures HasKept(w.journal, Step(w, e).journal, c)
  {
    hide StoreTerminal, Proceed;
    if e.Arrives? {
      var d := e.d;
      FinishHasKept(w, UnknownPayload(d, e.now), e.fates.terminal, Duplicate, false, c);
      ProceedHasKept(w, d, e.now, e.fates, Duplicate, c);
      var entry := Entry(Recorded, None, None);
      var w1 := OnDisk(w, d.cmdId, entry);
      ProceedHasKept(w1.(commands := w1.commands[d.cmdId := entry]), d, e.now, e.fates, Accepted, c);
    }
  }

  /** No row is ever lost, and a result once written is never taken back to nothing, not even by a
      process that could not read it and begins again. */
  lemma {:induction false} ResultsAreNeverBlanked(w: World, events: seq<Event>, c: CmdId)
    ensures HasKept(w.journal, After(w, events).journal, c)
    decreases |events|
  {
    hide Step;
    if events != [] {
      StepHasKept(w, events[0], c);
      ResultsAreNeverBlanked(Step(w, events[0]), events[1..], c);
    }
  }

  // ----- The outbox ------------------------------------------------------------------------

  /** Numbers run from one without a gap, each for one command, and each record is of its command. */
  ghost predicate Numbered(u: Uplink) {
    && (forall c :: c in u.sequences ==>
          && 1 <= u.sequences[c] <= u.lastAllocated
          && u.sequences[c] in u.records && u.records[u.sequences[c]].cmdId == c)
    && (forall s :: s in u.records <==> 1 <= s <= u.lastAllocated)
    && (forall s :: s in u.records ==> u.records[s].cmdId in u.sequences && u.sequences[u.records[s].cmdId] == s)
  }

  /** What is in the outbox stays in it. */
  ghost predicate Extends(a: Uplink, b: Uplink) {
    && a.lastAllocated <= b.lastAllocated
    && (forall c :: c in a.sequences ==> c in b.sequences && b.sequences[c] == a.sequences[c])
    && (forall s :: s in a.records ==> s in b.records && b.records[s] == a.records[s])
  }

  lemma AppendNumbers(u: Uplink, p: Payload)
    requires Numbered(u) && Append(u, p.cmdId, p).Ok?
    ensures var (u', s) := Append(u, p.cmdId, p).value;
            && Numbered(u') && Extends(u, u')
            && p.cmdId in u'.sequences && u'.sequences[p.cmdId] == s
            && (p.cmdId !in u.sequences ==> s == u.lastAllocated + 1 && u'.records[s] == p)
            && (p.cmdId in u.sequences ==> u' == u)
  {
  }

  /** A process that is still up has all that was in its outbox, and an answer it stored is under the
      number the outbox has for it; the record there is the answer if the command is new to the outbox. */
  ghost predicate Stores(w: World, r: (World, Outcome), c: CmdId) {
    && Numbered(r.0.uplink)
    && (r.0.up ==> Extends(w.uplink, r.0.uplink))
    && (r.1.Delivered? ==>
          && r.0.up && c in r.0.uplink.sequences && r.1.sequence == r.0.uplink.sequences[c]
          && (c !in w.uplink.sequences ==> r.0.uplink.records[r.1.sequence] == r.1.result)
          && (c in w.uplink.sequences ==> r.0.uplink == w.uplink))
  }

  lemma FinishStores(w: World, p: Payload, fate: WriteFate, receipt: ReceiptStatus, executed: bool)
    requires w.up && Numbered(w.uplink)
    ensures Stores(w, StoreTerminal(w, p, fate, receipt, executed), p.cmdId)
  {
    hide Numbered, Extends;
    EmptyOutbox(w.uplink);
    if Append(w.uplink, p.cmdId, p).Ok? {
      AppendNumbers(w.uplink, p);
    }
  }

  lemma EmptyOutbox(u: Uplink)
    ensures Numbered(FreshUplink) && Extends(u, u)
  {
  }

  lemma ProceedStores(w: World, d: Delivery, now: i64, fates: Fates, receipt: ReceiptStatus)
    requires w.up && Numbered(w.uplink)
    ensures Stores(w, Proceed(w, d, now, fates, receipt), d.cmdId)
  {
    hide StoreTerminal, Numbered, Extends;
    EmptyOutbox(w.uplink);
    FinishStores(w, ExpiredPayload(d, now), fates.terminal, receipt, false);
    var w1 := if d.command.PortAction? then MarkExecuting(w, d.cmdId, fates.executing).w else w;
    if w1.up {
      match fates.act
      case Withheld(details) =>
        FinishStores(w1, ActPayload(d, now, false, details), fates.terminal, receipt, !d.command.MatrixInstall?);
      case Performed(ok, details) =>
        var w2 := if d.command.PortAction? || ok then Act(w1, d) else w1;
        FinishStores(w2, ActPayload(d, now, ok, details), fates.terminal, receipt, ok || !d.command.MatrixInstall?);
      case _ =>
    }
  }

  lemma DeliverStores(w: World, d: Delivery, now: i64, fates: Fates)
    requires w.up && Numbered(w.uplink)
    ensures Numbered(Deliver(w, d, now, fates).0.uplink)
    ensures !At(w, d.cmdId, Terminal) ==> Stores(w, Deliver(w, d, now, fates), d.cmdId)
  {
    hide StoreTerminal, Proceed, Numbered, Extends;
    EmptyOutbox(w.uplink);
    FinishStores(w, UnknownPayload(d, now), fates.terminal, Duplicate, false);
    ProceedStores(w, d, now, fates, Duplicate);
    var entry := Entry(Recorded, None, None);
    var w1 := OnDisk(w, d.cmdId, entry);
    ProceedStores(w1.(commands := w1.commands[d.cmdId := entry]), d, now, fates, Accepted);
  }

  /** In every reachable state the outbox is numbered without gaps or repeats. */
  lemma {:induction false} OutboxIsNumbered(w: World, events: seq<Event>)
    requires IsRun(w, events) && Numbered(w.uplink)
    ensures Numbered(After(w, events).uplink)
    decreases |events|
  {
    hide Deliver, Numbered;
    if events != [] {
      var e := events[0];
      EmptyOutbox(w.uplink);
      if e.Arrives? {
        DeliverStores(w, e.d, e.now, e.fates);
      }
      OutboxIsNumbered(Step(w, e), events[1..]);
    }
  }

  /** What is answered is what the outbox will send, exactly if the command was new to the outbox or the
      outbox happens to hold the same: a result kept in the outbox by a delivery that then failed to
      write it down is not replaced by the one that is. */
  lemma SentIsAnsweredExactlyWhenNew(w: World, d: Delivery, now: i64, fates: Fates)
    requires w.up && Numbered(w.uplink) && !At(w, d.cmdId, Terminal) && Deliver(w, d, now, fates).1.Delivered?
    ensures var (w', o) := Deliver(w, d, now, fates);
            && d.cmdId in w'.uplink.sequences && w'.uplink.sequences[d.cmdId] == o.sequence
            && o.sequence in w'.uplink.records
            && (w'.uplink.records[o.sequence] == o.result <==>
                d.cmdId in w.uplink.sequences ==> w.uplink.records[w.uplink.sequences[d.cmdId]] == o.result)
  {
    hide Deliver;
    DeliverStores(w, d, now, fates);
  }

  /** Such a run: the action succeeds, its result goes to the outbox, writing it down is refused, and the
      next delivery answers that the outcome is not known. */
  lemma SentOtherwiseThanAnswered(c: CmdId) returns (events: seq<Event>)
    requires !Blank(c)
    ensures IsRun(Initial, events) && |events| == 2 && events[1].Arrives?
    ensures var w := After(Initial, events[..1]);
            var (w', o) := Deliver(w, events[1].d, events[1].now, events[1].fates);
            && o.Delivered? && o.result.status == Status.Unknown
            && o.sequence in w'.uplink.records && w'.uplink.records[o.sequence].status == Status.Succeeded
  {
    var d := Delivery(c, c, 1, None, PortAction);
    var first := Arrives(d, 0, Fates(Written, Written, Performed(true, ""), Refused));
    var second := Arrives(d, 0, Fates(Written, Written, Performed(true, ""), Written));
    events := [first, second];
    var w := Step(Initial, first);
    assert w.up && At(w, c, Executing);
    assert events[1..] == [second] && [second][1..] == [];
    assert events[..1] == [first] && [first][1..] == [];
    assert After(Initial, [first]) == After(w, []) == w;
    assert IsRun(w, [second]);
    assert w.uplink == Uplink(1, map[c := 1], map[1 := ActPayload(d, 0, true, "")]);
  }
}

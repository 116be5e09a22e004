/** What the ledger guarantees over every run of deliveries, journal failures, crashes and
    restarts. */
module LedgerRuns {
  import opened Basics
  import opened Ledger

  /** The modem was touched on behalf of this command. */
  function Touch(c: CmdId): Effect {
    Acted(c, PortAction)
  }

  // ----- What every step keeps, command by command ------------------------------

  /** The modem is touched at most once for the command, and only after an `executing` row for it
      reached the disk. */
  ghost predicate LogSafe(log: seq<Effect>, c: CmdId) {
    && (forall i, j :: 0 <= i < j < |log| && log[i] == Touch(c) ==> log[j] != Touch(c))
    && (forall i :: 0 <= i < |log| && log[i] == Touch(c) ==> WroteBefore(log, i, c))
  }

  ghost predicate WroteBefore(log: seq<Effect>, i: nat, c: CmdId) {
    exists j :: 0 <= j < i && j < |log| && log[j] == Wrote(c, Executing)
  }

  /** The journal remembers a touch, and keeps a result under its own command. */
  ghost predicate JournalSafe(w: World, c: CmdId) {
    && (Touch(c) in w.log ==> Started(w.journal, c))
    && (c in w.journal && w.journal[c].result.Some? ==> w.journal[c].result.value.cmdId == c)
  }

  /** So does memory, and memory never claims more than the journal knows. */
  ghost predicate MemorySafe(w: World, c: CmdId) {
    w.up ==>
      && (Touch(c) in w.log ==> Started(w.commands, c))
      && (c in w.commands ==> c in w.journal)
      && (Started(w.commands, c) ==> Started(w.journal, c))
      && (c in w.journal && c !in w.commands ==> w.journal[c].phase.Recorded?)
      && (c in w.commands && w.commands[c].phase.Terminal? ==>
            w.commands[c].result.Some? && w.commands[c].sequence.Some? && w.journal[c] == w.commands[c])
  }

  ghost predicate Safe(w: World, c: CmdId) {
    LogSafe(w.log, c) && JournalSafe(w, c) && MemorySafe(w, c)
  }

  lemma LogGrows(log: seq<Effect>, e: Effect, c: CmdId)
    requires LogSafe(log, c)
    requires e == Touch(c) ==> e !in log && Wrote(c, Executing) in log
    ensures LogSafe(log + [e], c)
  {
    var grown := log + [e];
    forall i | 0 <= i < |grown| && grown[i] == Touch(c)
      ensures WroteBefore(grown, i, c)
    {
      if i < |log| {
        assert WroteBefore(log, i, c);
        var j :| 0 <= j < i && j < |log| && log[j] == Wrote(c, Executing);
        assert grown[j] == Wrote(c, Executing);
      } else {
        var j :| 0 <= j < |log| && log[j] == Wrote(c, Executing);
        assert grown[j] == Wrote(c, Executing);
      }
    }
  }

  /** A row may go to disk if it does not take a started command back to recorded, and its
      command is not already finished in memory. */
  lemma OnDiskIsSafe(w: World, c: CmdId, e: Entry)
    requires Safe(w, c)
    requires e.phase.Recorded? ==> !Started(w.journal, c)
    requires e.result.Some? ==> e.result.value.cmdId == c
    requires w.up ==> (c in w.commands || e.phase.Recorded?) && (c in w.commands ==> !w.commands[c].phase.Terminal?)
    ensures Safe(OnDisk(w, c, e), c)
  {
    LogGrows(w.log, Wrote(c, e.phase), c);
  }

  lemma RememberIsSafe(w: World, c: CmdId, e: Entry)
    requires Safe(w, c) && w.up && c in w.journal
    requires Rank(e.phase) >= 1 || Touch(c) !in w.log
    requires Rank(e.phase) >= 1 ==> Started(w.journal, c)
    requires e.phase.Terminal? ==> e.result.Some? && e.sequence.Some? && w.journal[c] == e
    ensures Safe(w.(commands := w.commands[c := e]), c)
  {
  }

  lemma ActIsSafe(w: World, d: Delivery)
    requires Safe(w, d.cmdId)
    requires d.command.PortAction? ==>
               && Touch(d.cmdId) !in w.log && Wrote(d.cmdId, Executing) in w.log
               && Started(w.journal, d.cmdId) && (w.up ==> Started(w.commands, d.cmdId))
    ensures Safe(Act(w, d), d.cmdId)
  {
    LogGrows(w.log, Acted(d.cmdId, d.command), d.cmdId);
  }

  lemma DownIsSafe(w: World, c: CmdId)
    requires Safe(w, c)
    ensures Safe(Down(w), c)
  {
  }

  lemma StoreTerminalIsSafe(w: World, p: Payload, fate: WriteFate, receipt: ReceiptStatus, executed: bool)
    requires Safe(w, p.cmdId) && w.up && p.cmdId in w.commands && !w.commands[p.cmdId].phase.Terminal?
    ensures Safe(StoreTerminal(w, p, fate, receipt, executed).0, p.cmdId)
  {
    var c := p.cmdId;
    match Append(w.uplink, c, p)
    case Err(_) =>
    case Ok((uplink, sequence)) =>
      var entry := TerminalEntry(p, sequence);
      var w1 := w.(uplink := uplink);
      assert Safe(w1, c);
      OnDiskIsSafe(w1, c, entry);
      var w2 := OnDisk(w1, c, entry);
      DownIsSafe(w1, c);
      DownIsSafe(w2, c);
      RememberIsSafe(w2, c, entry);
  }

  /** The command is recorded in memory and its action has not been started. */
  ghost predicate Ready(w: World, c: CmdId) {
    Safe(w, c) && w.up && c in w.commands && w.commands[c].phase.Recorded?
  }

  lemma PerformIsSafe(w: World, d: Delivery, now: i64, fates: Fates, receipt: ReceiptStatus)
    requires Safe(w, d.cmdId) && w.up && d.cmdId in w.commands && !w.commands[d.cmdId].phase.Terminal?
    requires d.command.PortAction? ==>
               && Touch(d.cmdId) !in w.log && Wrote(d.cmdId, Executing) in w.log
               && Started(w.journal, d.cmdId) && Started(w.commands, d.cmdId)
    ensures Safe(Perform(w, d, now, fates, receipt).0, d.cmdId)
  {
    hide StoreTerminal;
    ActIsSafe(w, d);
    DownIsSafe(w, d.cmdId);
    DownIsSafe(Act(w, d), d.cmdId);
    match fates.act
    case Withheld(details) =>
      StoreTerminalIsSafe(w, ActPayload(d, now, false, details), fates.terminal, receipt, !d.command.MatrixInstall?);
    case Performed(ok, details) =>
      var w' := if d.command.PortAction? || ok then Act(w, d) else w;
      StoreTerminalIsSafe(w', ActPayload(d, now, ok, details), fates.terminal, receipt, ok || !d.command.MatrixInstall?);
    case _ =>
  }

  lemma ExecuteIsSafe(w: World, d: Delivery, now: i64, fates: Fates, receipt: ReceiptStatus)
    requires Ready(w, d.cmdId)
    ensures Safe(Execute(w, d, now, fates, receipt).0, d.cmdId)
  {
    hide Perform;
    if d.command.PortAction? {
      var c := d.cmdId;
      var row := Entry(Executing, None, None);
      OnDiskIsSafe(w, c, row);
      var w1 := OnDisk(w, c, row);
      DownIsSafe(w, c);
      DownIsSafe(w1, c);
      var entry := w1.commands[c].(phase := Executing);
      RememberIsSafe(w1, c, entry);
      if fates.executing.Written? {
        var w2 := w1.(commands := w1.commands[c := entry]);
        assert w2.log[|w.log|] == Wrote(c, Executing);
        assert Touch(c) !in w2.log;
        PerformIsSafe(w2, d, now, fates, receipt);
      }
    } else {
      PerformIsSafe(w, d, now, fates, receipt);
    }
  }

  lemma ProceedIsSafe(w: World, d: Delivery, now: i64, fates: Fates, receipt: ReceiptStatus)
    requires Ready(w, d.cmdId)
    ensures Safe(Proceed(w, d, now, fates, receipt).0, d.cmdId)
  {
    hide StoreTerminal, Execute;
    if now >= d.expiresAt {
      StoreTerminalIsSafe(w, ExpiredPayload(d, now), fates.terminal, receipt, false);
    } else {
      ExecuteIsSafe(w, d, now, fates, receipt);
    }
  }

  lemma OwnDeliveryIsSafe(w: World, d: Delivery, now: i64, fates: Fates)
    requires Safe(w, d.cmdId) && w.up
    ensures Safe(Deliver(w, d, now, fates).0, d.cmdId)
  {
    hide StoreTerminal, Proceed;
    if !Blank(d.deliveryId) && !Blank(d.cmdId) {
      if d.cmdId in w.commands {
        if w.commands[d.cmdId].phase.Executing? {
          StoreTerminalIsSafe(w, UnknownPayload(d, now), fates.terminal, Duplicate, false);
        } else if w.commands[d.cmdId].phase.Recorded? {
          ProceedIsSafe(w, d, now, fates, Duplicate);
        }
      } else {
        var entry := Entry(Recorded, None, None);
        assert Touch(d.cmdId) !in w.log;
        OnDiskIsSafe(w, d.cmdId, entry);
        var w1 := OnDisk(w, d.cmdId, entry);
        DownIsSafe(w, d.cmdId);
        DownIsSafe(w1, d.cmdId);
        RememberIsSafe(w1, d.cmdId, entry);
        if fates.recorded.Written? {
          ProceedIsSafe(w1.(commands := w1.commands[d.cmdId := entry]), d, now, fates, Accepted);
        }
      }
    }
  }

  /** What concerns another command leaves this one safe. */
  lemma ElsewhereIsSafe(w: World, w': World, other: CmdId, c: CmdId)
    requires Safe(w, c) && w.up && Concerns(w, w', other) && other != c
    ensures Safe(w', c)
  {
    assert forall i :: 0 <= i < |w.log| ==> w'.log[i] == w.log[i];
    assert forall i :: |w.log| <= i < |w'.log| ==> w'.log[i].cmdId == other;
    assert Touch(c) in w'.log <==> Touch(c) in w.log;
    forall i | 0 <= i < |w'.log| && w'.log[i] == Touch(c)
      ensures WroteBefore(w'.log, i, c)
    {
      assert WroteBefore(w.log, i, c);
      var j :| 0 <= j < i && j < |w.log| && w.log[j] == Wrote(c, Executing);
      assert w'.log[j] == Wrote(c, Executing);
    }
  }

  lemma DeliverIsSafe(w: World, d: Delivery, now: i64, fates: Fates, c: CmdId)
    requires Safe(w, c) && w.up
    ensures Safe(Deliver(w, d, now, fates).0, c)
  {
    hide Deliver, Safe, Concerns;
    if c == d.cmdId {
      OwnDeliveryIsSafe(w, d, now, fates);
    } else {
      OtherCommandsStay(w, d, now, fates);
      ElsewhereIsSafe(w, Deliver(w, d, now, fates).0, d.cmdId, c);
    }
  }

  // ----- Restart ----------------------------------------------------------------

  lemma ParsesItsName(p: Phase)
    ensures ParsePhase(PhaseName(p)) == Some(p)
  {
  }

  /** Each row that can be read is in the restored table, as itself. */
  lemma {:induction false} RestoredRow(rows: seq<RestoredCommand>, i: nat)
    requires i < |rows| && ParsePhase(rows[i].phase).Some?
    requires forall j :: i < j < |rows| ==> rows[j].cmdId != rows[i].cmdId
    ensures var c := rows[i].cmdId;
            c in Restore(map[], rows) && Restore(map[], rows)[c] == RestoredEntry(ParsePhase(rows[i].phase).value, rows[i])
    decreases |rows|
  {
    hide ParsePhase, RestoredEntry;
    var rest := rows[..|rows| - 1];
    if i < |rest| {
      assert rest[i] == rows[i];
      RestoredRow(rest, i);
    }
  }

  /** And nothing else is. */
  lemma {:induction false} RestoredWasRead(rows: seq<RestoredCommand>, c: CmdId) returns (i: nat)
    requires c in Restore(map[], rows)
    ensures i < |rows| && rows[i].cmdId == c && ParsePhase(rows[i].phase).Some?
    decreases |rows|
  {
    hide ParsePhase, RestoredEntry;
    var last := rows[|rows| - 1];
    if ParsePhase(last.phase).Some? && last.cmdId == c {
      i := |rows| - 1;
    } else {
      i := RestoredWasRead(rows[..|rows| - 1], c);
    }
  }

  lemma RestoreByRow(rows: seq<RestoredCommand>, c: CmdId)
    requires forall i, j :: 0 <= i < j < |rows| ==> rows[i].cmdId != rows[j].cmdId
    ensures c in Restore(map[], rows) <==> Reads(rows, c)
    ensures forall i :: 0 <= i < |rows| && rows[i].cmdId == c && ParsePhase(rows[i].phase).Some? ==>
              c in Restore(map[], rows) && Restore(map[], rows)[c] == RestoredEntry(ParsePhase(rows[i].phase).value, rows[i])
  {
    hide Restore, ParsePhase, RestoredEntry;
    forall i | 0 <= i < |rows| && rows[i].cmdId == c && ParsePhase(rows[i].phase).Some?
      ensures c in Restore(map[], rows) && Restore(map[], rows)[c] == RestoredEntry(ParsePhase(rows[i].phase).value, rows[i])
    {
      RestoredRow(rows, i);
    }
    if c in Restore(map[], rows) {
      var i := RestoredWasRead(rows, c);
    }
  }

  /** The places of the rows whose phase is none of the three. */
  function Unknown(rows: seq<RestoredCommand>): set<nat> {
    set i: nat | i < |rows| && rows[i].phase !in {"recorded", "executing", "terminal"}
  }

  /** The rows that are skipped are counted, each of them once. */
  lemma {:induction false} SkippedAreTheUnknown(rows: seq<RestoredCommand>)
    ensures Skipped(rows) == |Unknown(rows)|
    decreases |rows|
  {
    hide ParsePhase, Unknown;
    if rows == [] {
      NoneUnknown();
    } else {
      var n := |rows| - 1;
      SkippedAreTheUnknown(rows[..n]);
      KnownPhases(rows[n].phase);
      UnknownGrows(rows);
    }
  }

  lemma NoneUnknown()
    ensures Unknown([]) == {}
  {
  }

  lemma UnknownGrows(rows: seq<RestoredCommand>)
    requires rows != []
    ensures var n := |rows| - 1;
            && n !in Unknown(rows[..n])
            && Unknown(rows) == Unknown(rows[..n]) + if rows[n].phase in {"recorded", "executing", "terminal"} then {} else {n}
  {
    var n := |rows| - 1;
    assert forall i :: 0 <= i < n ==> rows[..n][i] == rows[i];
  }

  lemma KnownPhases(s: string)
    ensures ParsePhase(s).None? <==> s !in {"recorded", "executing", "terminal"}
  {
  }

  /** After a restart memory holds exactly the rows that could be read, at a phase that forgets no
      start, and a finished command is finished with exactly the stored result. */
  lemma RestartKeepsStarts(w: World, rows: seq<RestoredCommand>, c: CmdId)
    requires IsReading(w.journal, rows)
    ensures var commands := Restart(w, rows).commands;
            && (c in commands <==> Reads(rows, c))
            && (c in commands ==>
                  && c in w.journal
                  && Rank(commands[c].phase) <= Rank(w.journal[c].phase)
                  && (Started(commands, c) <==> Started(w.journal, c))
                  && (commands[c].phase.Terminal? ==>
                        commands[c] == w.journal[c] && commands[c].result.Some? && commands[c].sequence.Some?))
  {
    hide Restore, ParsePhase, PhaseName;
    RestoreByRow(rows, c);
    if Reads(rows, c) {
      var i :| 0 <= i < |rows| && rows[i].cmdId == c && ParsePhase(rows[i].phase).Some?;
      ParsesItsName(w.journal[c].phase);
    }
  }

  lemma RestartIsSafe(w: World, rows: seq<RestoredCommand>, c: CmdId)
    requires Safe(w, c) && IsReading(w.journal, rows)
    requires Started(w.journal, c) ==> Reads(rows, c)
    ensures Safe(Restart(w, rows), c)
  {
    hide IsReading, Reads, Restore;
    RestartKeepsStarts(w, rows, c);
  }

  // ----- Over whole runs ---------------------------------------------------------

  lemma StepIsSafe(w: World, e: Event, c: CmdId)
    requires Safe(w, c) && Possible(w, e)
    requires e.Starts? && Started(w.journal, c) ==> Reads(e.rows, c)
    ensures Safe(Step(w, e), c)
  {
    hide Safe, Deliver, Restart, Down;
    match e
    case Arrives(d, now, fates) => DeliverIsSafe(w, d, now, fates, c);
    case Dies => DownIsSafe(w, c);
    case Starts(rows) => RestartIsSafe(w, rows, c);
  }

  lemma {:induction false} RunIsSafe(w: World, events: seq<Event>, c: CmdId)
    requires Safe(w, c) && IsRun(w, events) && KeepsBegun(w, events, c)
    ensures Safe(After(w, events), c)
    decreases |events|
  {
    hide Safe, Step;
    if events != [] {
      StepIsSafe(w, events[0], c);
      RunIsSafe(Step(w, events[0]), events[1..], c);
    }
  }

  /** At most once: in every run, however it crashes and whatever results a restart loses, the modem is
      touched at most once for a command whose begun row no restart drops, and each touch comes after
      an `executing` row for that command had reached the disk. */
  lemma TouchedAtMostOnce(events: seq<Event>, c: CmdId, i: nat, j: nat)
    requires IsRun(Initial, events) && KeepsBegun(Initial, events, c)
    requires i < |After(Initial, events).log| && After(Initial, events).log[i] == Touch(c)
    requires j < |After(Initial, events).log| && After(Initial, events).log[j] == Touch(c)
    ensures i == j
    ensures exists k :: 0 <= k < i && After(Initial, events).log[k] == Wrote(c, Executing)
  {
    RunIsSafe(Initial, events, c);
    var log := After(Initial, events).log;
    assert WroteBefore(log, i, c);
    var k :| 0 <= k < i && k < |log| && log[k] == Wrote(c, Executing);
  }

  // ----- Which commands are run at most once -----------------------------------

  /** No run that keeps begun rows performs a command of this class twice. */
  ghost predicate NeverTwice(k: CommandClass) {
    forall events: seq<Event>, c, i, j ::
      (&& IsRun(Initial, events) && KeepsBegun(Initial, events, c)
       && 0 <= i < j < |After(Initial, events).log|
       && After(Initial, events).log[i] == Acted(c, k))
      ==> After(Initial, events).log[j] != Acted(c, k)
  }

  /** Two deliveries of a command with a crash after the action of each, and a restart that reads these
      rows in between. */
  function TwoDeliveries(k: CommandClass, c: CmdId, rows: seq<RestoredCommand>): seq<Event> {
    var arrives := Arrives(Delivery(c, c, 1, None, k), 0, Fates(Written, Written, CrashAfterAct, Written));
    [arrives, Starts(rows), arrives]
  }

  /** The world after the first of them. */
  function Touched(k: CommandClass, c: CmdId): World {
    if k.PortAction? then
      World(false, map[], FreshUplink, map[c := Entry(Executing, None, None)],
            [Wrote(c, Recorded), Wrote(c, Executing), Acted(c, k)])
    else
      World(false, map[], FreshUplink, map[c := Entry(Recorded, None, None)], [Wrote(c, Recorded), Acted(c, k)])
  }

  lemma FirstDelivery(k: CommandClass, c: CmdId, rows: seq<RestoredCommand>)
    requires !Blank(c)
    ensures Step(Initial, TwoDeliveries(k, c, rows)[0]) == Touched(k, c)
  {
  }

  lemma ThreeSteps(w0: World, events: seq<Event>, w1: World, w2: World)
    requires |events| == 3 && Possible(w0, events[0]) && w1 == Step(w0, events[0])
    requires Possible(w1, events[1]) && w2 == Step(w1, events[1]) && Possible(w2, events[2])
    ensures IsRun(w0, events) && After(w0, events) == Step(w2, events[2])
  {
    hide Step, Possible;
    var two, one := events[1..], events[2..];
    assert two[1..] == one && one[1..] == [];
    assert IsRun(w2, one) && After(w2, one) == After(Step(w2, events[2]), []);
    assert IsRun(w1, two) && After(w1, two) == After(w2, one);
  }

  /** A command that does not mark itself executing is performed again when the process dies
      between the action and its result, with every row read back. */
  lemma ActsTwice(k: CommandClass, c: CmdId) returns (events: seq<Event>)
    requires !k.PortAction? && !Blank(c)
    ensures IsRun(Initial, events) && KeepsBegun(Initial, events, c)
    ensures var log := After(Initial, events).log;
            |log| == 3 && log[1] == Acted(c, k) && log[2] == Acted(c, k)
  {
    var rows := [RestoredCommand(c, "recorded", None, None)];
    events := TwoDeliveries(k, c, rows);
    FirstDelivery(k, c, rows);
    var w1 := Touched(k, c);
    assert IsReading(w1.journal, rows) && Reads(rows, c) by {
      assert rows[0].cmdId == c;
    }
    assert rows[..0] == [] && Restore(map[], rows) == map[c := Entry(Recorded, None, None)];
    var w2 := Step(w1, Starts(rows));
    ThreeSteps(Initial, events, w1, w2);
    assert Step(w2, events[2]).log == w1.log + [Acted(c, k)];
    KeptInThree(Initial, events, w1, w2, c);
  }

  lemma KeptInThree(w0: World, events: seq<Event>, w1: World, w2: World, c: CmdId)
    requires |events| == 3 && events[0].Arrives? && events[1].Starts? && events[2].Arrives?
    requires w1 == Step(w0, events[0]) && w2 == Step(w1, events[1])
    ensures KeepsBegun(w0, events, c) <==> (Started(w1.journal, c) ==> Reads(events[1].rows, c))
  {
    hide Step;
    var two, one := events[1..], events[2..];
    assert two[1..] == one && one[1..] == [];
    assert KeepsBegun(Step(w2, events[2]), [], c);
    assert KeepsBegun(w2, one, c);
    assert KeepsBegun(w1, two, c) <==> (Started(w1.journal, c) ==> Reads(events[1].rows, c));
  }

  /** At most once holds of exactly the commands that write `executing` first. */
  lemma NeverTwiceExactlyWhenMarkedFirst(k: CommandClass)
    ensures NeverTwice(k) <==> k.PortAction?
  {
    if k.PortAction? {
      forall events: seq<Event>, c, i, j |
        && IsRun(Initial, events) && KeepsBegun(Initial, events, c)
        && 0 <= i < j < |After(Initial, events).log|
        && After(Initial, events).log[i] == Acted(c, k)
        ensures After(Initial, events).log[j] != Acted(c, k)
      {
        RunIsSafe(Initial, events, c);
        assert After(Initial, events).log[i] == Touch(c);
      }
    } else {
      assert !IsSpace("c"[0]);
      var events := ActsTwice(k, "c");
    }
  }

  // ----- When the journal cannot be read -------------------------------------------

  /** If a restart cannot load the journal, the modem is touched twice. */
  lemma LostJournalTouchesTwice(c: CmdId) returns (events: seq<Event>)
    requires !Blank(c)
    ensures IsRun(Initial, events) && !KeepsBegun(Initial, events, c)
    ensures var log := After(Initial, events).log;
            |log| == 6 && log[2] == Touch(c) && log[5] == Touch(c)
  {
    events := TwoDeliveries(PortAction, c, []);
    FirstDelivery(PortAction, c, []);
    var w1 := Touched(PortAction, c);
    var w2 := Step(w1, Starts([]));
    assert w2.commands == map[];
    ThreeSteps(Initial, events, w1, w2);
    assert Step(w2, events[2]).log == w1.log + [Wrote(c, Recorded), Wrote(c, Executing), Touch(c)];
    KeptInThree(Initial, events, w1, w2, c);
  }

  /** No later run that keeps begun rows acts for the command again. */
  ghost predicate Settled(w: World, c: CmdId) {
    forall events: seq<Event> :: IsRun(w, events) && KeepsBegun(w, events, c) ==> OnlyAdds(w.log, After(w, events).log, c)
  }

  /** After a touch and a crash, a restart rules out another touch exactly if it reads the command's row:
      a row that is missing or has an unknown phase is a command that can be performed again. */
  lemma SettledExactlyWhenRead(w: World, rows: seq<RestoredCommand>, c: CmdId)
    requires Safe(w, c) && !w.up && IsReading(w.journal, rows) && Touch(c) in w.log && !Blank(c)
    ensures Settled(Restart(w, rows), c) <==> Reads(rows, c)
  {
    hide IsReading, Restore, Reads;
    var w' := Restart(w, rows);
    RestartKeepsStarts(w, rows, c);
    if Reads(rows, c) {
      forall events: seq<Event> | IsRun(w', events) && KeepsBegun(w', events, c)
        ensures OnlyAdds(w'.log, After(w', events).log, c)
      {
        BegunIsForGood(w', events, c);
      }
    } else {
      var events := TouchesUnknown(w', c);
    }
  }

  lemma TouchesUnknown(w: World, c: CmdId) returns (events: seq<Event>)
    requires w.up && c !in w.commands && !Blank(c)
    ensures IsRun(w, events) && KeepsBegun(w, events, c) && !OnlyAdds(w.log, After(w, events).log, c)
  {
    var arrives := TwoDeliveries(PortAction, c, [])[0];
    events := [arrives];
    var w' := Step(w, arrives);
    assert w'.log == w.log + [Wrote(c, Recorded), Wrote(c, Executing), Touch(c)];
    assert events[1..] == [];
    assert After(w, events) == After(w', []) == w';
    assert IsRun(w', []) && KeepsBegun(w', [], c);
    assert ActsFor(w'.log[|w.log| + 2], c);
  }

  // ----- A start is for good -----------------------------------------------------

  /** The command's start is on disk, and a live process knows of it. */
  ghost predicate Begun(w: World, c: CmdId) {
    Started(w.journal, c) && (w.up ==> Started(w.commands, c))
  }

  ghost predicate ActsFor(e: Effect, c: CmdId) {
    e.Acted? && e.cmdId == c
  }

  /** What one step may add to the log, and that it takes nothing away. */
  ghost predicate OnlyAdds(before: seq<Effect>, after: seq<Effect>, c: CmdId) {
    before <= after && forall i :: |before| <= i < |after| ==> !ActsFor(after[i], c)
  }

  lemma BegunStays(w: World, e: Event, c: CmdId)
    requires Possible(w, e) && Begun(w, c) && (e.Starts? ==> Reads(e.rows, c))
    ensures Begun(Step(w, e), c) && OnlyAdds(w.log, Step(w, e).log, c)
  {
    match e
    case Arrives(d, now, fates) => OtherCommandsStay(w, d, now, fates);
    case Dies =>
    case Starts(rows) => RestartKeepsStarts(w, rows, c);
  }

  /** Once a command of any class has `executing` or `terminal` on disk, no later run that keeps its
      row performs its action: not after a crash, and not when a restart can no longer read its
      result. */
  lemma {:induction false} BegunIsForGood(w: World, events: seq<Event>, c: CmdId)
    requires IsRun(w, events) && Begun(w, c) && KeepsBegun(w, events, c)
    ensures Begun(After(w, events), c) && OnlyAdds(w.log, After(w, events).log, c)
    decreases |events|
  {
    if events != [] {
      var w' := Step(w, events[0]);
      BegunStays(w, events[0], c);
      BegunIsForGood(w', events[1..], c);
      var log := After(w, events).log;
      forall i | |w.log| <= i < |log|
        ensures !ActsFor(log[i], c)
      {
        if i < |w'.log| {
          assert log[i] == w'.log[i];
        }
      }
    }
  }

  // ----- One delivery concerns one command ------------------------------------------

  /** A delivery leaves the rows of every other command as they were, and everything it adds to
      the log is about its own. */
  ghost predicate Concerns(w: World, w': World, c: CmdId) {
    && (forall o :: o != c ==> (o in w'.journal <==> o in w.journal))
    && (forall o :: o != c && o in w.journal ==> w'.journal[o] == w.journal[o])
    && (w'.up ==> forall o :: o != c ==> (o in w'.commands <==> o in w.commands))
    && (w'.up ==> forall o :: o != c && o in w.commands ==> w'.commands[o] == w.commands[o])
    && w.log <= w'.log
    && (forall i :: |w.log| <= i < |w'.log| ==> w'.log[i].cmdId == c)
  }

  lemma ConcernsChain(a: World, b: World, c: World, cmdId: CmdId)
    requires Concerns(a, b, cmdId) && Concerns(b, c, cmdId) && (c.up ==> b.up)
    ensures Concerns(a, c, cmdId)
  {
    forall i | |a.log| <= i < |c.log|
      ensures c.log[i].cmdId == cmdId
    {
      if i < |b.log| {
        assert c.log[i] == b.log[i];
      }
    }
  }

  lemma OnDiskConcerns(w: World, c: CmdId, e: Entry)
    ensures Concerns(w, OnDisk(w, c, e), c) && Concerns(w, Down(OnDisk(w, c, e)), c) && Concerns(w, Down(w), c)
  {
  }

  lemma StoreTerminalConcerns(w: World, p: Payload, fate: WriteFate, receipt: ReceiptStatus, executed: bool)
    requires w.up
    ensures Concerns(w, StoreTerminal(w, p, fate, receipt, executed).0, p.cmdId)
  {
    match Append(w.uplink, p.cmdId, p)
    case Err(_) =>
    case Ok((uplink, sequence)) =>
      OnDiskConcerns(w.(uplink := uplink), p.cmdId, TerminalEntry(p, sequence));
  }

  lemma PerformConcerns(w: World, d: Delivery, now: i64, fates: Fates, receipt: ReceiptStatus)
    requires w.up
    ensures Concerns(w, Perform(w, d, now, fates, receipt).0, d.cmdId)
  {
    hide StoreTerminal;
    match fates.act
    case Withheld(details) =>
      StoreTerminalConcerns(w, ActPayload(d, now, false, details), fates.terminal, receipt, !d.command.MatrixInstall?);
    case Performed(ok, details) =>
      var w' := if d.command.PortAction? || ok then Act(w, d) else w;
      var executed := ok || !d.command.MatrixInstall?;
      StoreTerminalConcerns(w', ActPayload(d, now, ok, details), fates.terminal, receipt, executed);
      ConcernsChain(w, w', Perform(w, d, now, fates, receipt).0, d.cmdId);
    case _ =>
  }

  lemma ProceedConcerns(w: World, d: Delivery, now: i64, fates: Fates, receipt: ReceiptStatus)
    requires w.up
    ensures Concerns(w, Proceed(w, d, now, fates, receipt).0, d.cmdId)
  {
    hide StoreTerminal, Perform;
    if now >= d.expiresAt {
      StoreTerminalConcerns(w, ExpiredPayload(d, now), fates.terminal, receipt, false);
    } else if d.command.PortAction? {
      OnDiskConcerns(w, d.cmdId, Entry(Executing, None, None));
      match MarkExecuting(w, d.cmdId, fates.executing)
      case DidNot(_, _) =>
      case Did(w') =>
        PerformConcerns(w', d, now, fates, receipt);
        ConcernsChain(w, w', Proceed(w, d, now, fates, receipt).0, d.cmdId);
    } else {
      PerformConcerns(w, d, now, fates, receipt);
    }
  }

  lemma OtherCommandsStay(w: World, d: Delivery, now: i64, fates: Fates)
    requires w.up
    ensures Concerns(w, Deliver(w, d, now, fates).0, d.cmdId)
  {
    hide StoreTerminal, Proceed;
    if !Blank(d.deliveryId) && !Blank(d.cmdId) {
      if d.cmdId in w.commands {
        StoreTerminalConcerns(w, UnknownPayload(d, now), fates.terminal, Duplicate, false);
        ProceedConcerns(w, d, now, fates, Duplicate);
      } else {
        var entry := Entry(Recorded, None, None);
        OnDiskConcerns(w, d.cmdId, entry);
        if fates.recorded.Written? {
          var w1 := OnDisk(w, d.cmdId, entry);
          var w2 := w1.(commands := w1.commands[d.cmdId := entry]);
          ProceedConcerns(w2, d, now, fates, Accepted);
          ConcernsChain(w, w2, Deliver(w, d, now, fates).0, d.cmdId);
        }
      }
    }
  }

  // ----- A phase never falls ---------------------------------------------------------

  /** If the process is still up, it knows at least as much about the command as before. */
  ghost predicate NotFallen(w: World, w': World, c: CmdId) {
    w'.up && c in w.commands ==> c in w'.commands && Rank(w.commands[c].phase) <= Rank(w'.commands[c].phase)
  }

  lemma StoreTerminalNotFallen(w: World, p: Payload, fate: WriteFate, receipt: ReceiptStatus, executed: bool)
    ensures NotFallen(w, StoreTerminal(w, p, fate, receipt, executed).0, p.cmdId)
  {
  }

  lemma ProceedNotFallen(w: World, d: Delivery, now: i64, fates: Fates, receipt: ReceiptStatus)
    requires d.cmdId in w.commands && w.commands[d.cmdId].phase.Recorded?
    ensures NotFallen(w, Proceed(w, d, now, fates, receipt).0, d.cmdId)
  {
    hide StoreTerminal;
    StoreTerminalNotFallen(w, ExpiredPayload(d, now), fates.terminal, receipt, false);
    var w1 := if d.command.PortAction? then MarkExecuting(w, d.cmdId, fates.executing).w else w;
    match fates.act
    case Withheld(details) =>
      StoreTerminalNotFallen(w1, ActPayload(d, now, false, details), fates.terminal, receipt, !d.command.MatrixInstall?);
    case Performed(ok, details) =>
      var w2 := if d.command.PortAction? || ok then Act(w1, d) else w1;
      StoreTerminalNotFallen(w2, ActPayload(d, now, ok, details), fates.terminal, receipt, ok || !d.command.MatrixInstall?);
    case _ =>
  }

  lemma DeliverNotFallen(w: World, d: Delivery, now: i64, fates: Fates, c: CmdId)
    requires w.up
    ensures NotFallen(w, Deliver(w, d, now, fates).0, c)
  {
    hide StoreTerminal, Proceed;
    OtherCommandsStay(w, d, now, fates);
    if c == d.cmdId && c in w.commands {
      StoreTerminalNotFallen(w, UnknownPayload(d, now), fates.terminal, Duplicate, false);
      if w.commands[c].phase.Recorded? {
        ProceedNotFallen(w, d, now, fates, Duplicate);
      }
    }
  }

  /** Within one process, from the restart that began it to the crash that ends it, no command is
      forgotten and no phase falls. */
  lemma {:induction false} PhaseNeverFalls(w: World, events: seq<Event>, c: CmdId)
    requires IsRun(w, events) && After(w, events).up
    requires forall i :: 0 <= i < |events| ==> !events[i].Starts?
    ensures NotFallen(w, After(w, events), c)
    decreases |events|
  {
    hide Deliver;
    if events != [] {
      var w' := Step(w, events[0]);
      var rest := events[1..];
      assert forall i :: 0 <= i < |rest| ==> rest[i] == events[i + 1];
      if events[0].Arrives? {
        DeliverNotFallen(w, events[0].d, events[0].now, events[0].fates, c);
      }
      if w'.up {
        PhaseNeverFalls(w', rest, c);
      } else {
        NothingWhileDown(w', rest);
      }
    }
  }

  lemma NothingWhileDown(w: World, events: seq<Event>)
    requires IsRun(w, events) && !w.up
    requires forall i :: 0 <= i < |events| ==> !events[i].Starts?
    ensures events == []
  {
  }

  // ----- A result is final ------------------------------------------------------------

  /** The command ended with this row, and a live process knows it. */
  ghost predicate Ended(w: World, c: CmdId, e: Entry) {
    && e.phase.Terminal? && e.result.Some? && e.sequence.Some?
    && c in w.journal && w.journal[c] == e
    && (w.up ==> c in w.commands && w.commands[c] == e)
  }

  /** If it is a restart, it can still read the command's row and its result. */
  ghost predicate Readable(e: Event, c: CmdId) {
    e.Starts? ==> exists i :: 0 <= i < |e.rows| && HasResult(e.rows[i], c)
  }

  ghost predicate HasResult(row: RestoredCommand, c: CmdId) {
    row.cmdId == c && ParsePhase(row.phase).Some? && row.result.Some? && row.sequence.Some?
  }

  /** What every delivery of an ended command answers. */
  ghost predicate Repeats(w: World, e: Event, c: CmdId, entry: Entry)
    requires entry.result.Some? && entry.sequence.Some?
  {
    e.Arrives? && e.d.cmdId == c && !Blank(e.d.deliveryId) && !Blank(c) ==>
      Deliver(w, e.d, e.now, e.fates) == (w, Delivered(Duplicate, entry.result.value, entry.sequence.value, false))
  }

  lemma EndedStays(w: World, e: Event, c: CmdId, entry: Entry)
    requires Possible(w, e) && Ended(w, c, entry) && Readable(e, c)
    ensures Ended(Step(w, e), c, entry) && Repeats(w, e, c, entry)
  {
    match e
    case Arrives(d, now, fates) => OtherCommandsStay(w, d, now, fates);
    case Dies =>
    case Starts(rows) =>
      RestoreByRow(rows, c);
      var i :| 0 <= i < |rows| && HasResult(rows[i], c);
      ParsesItsName(Terminal);
  }

  /** From then on, at every point of every run whose restarts can read the row, a redelivery
      changes nothing and answers the first result under its first sequence number. */
  lemma {:induction false} ResultIsFinal(w: World, events: seq<Event>, c: CmdId, entry: Entry, n: nat)
    requires IsRun(w, events) && Ended(w, c, entry) && n < |events|
    requires forall i :: 0 <= i <= n ==> Readable(events[i], c)
    ensures Repeats(After(w, events[..n]), events[n], c, entry)
    decreases n
  {
    EndedStays(w, events[0], c, entry);
    if n == 0 {
      assert events[..0] == [];
    } else {
      ResultIsFinal(Step(w, events[0]), events[1..], c, entry, n - 1);
      assert events[..n][1..] == events[1..][..n - 1];
    }
  }

  // ----- What an answer means -----------------------------------------------------------

  /** Whatever was answered is on disk and in memory, exactly as it was said. */
  ghost predicate Kept(r: (World, Outcome), c: CmdId) {
    r.1.Delivered? ==> r.1.result.cmdId == c && Ended(r.0, c, TerminalEntry(r.1.result, r.1.sequence))
  }

  lemma StoreTerminalKeeps(w: World, p: Payload, fate: WriteFate, receipt: ReceiptStatus, executed: bool)
    ensures Kept(StoreTerminal(w, p, fate, receipt, executed), p.cmdId)
  {
  }

  lemma ProceedKeeps(w: World, d: Delivery, now: i64, fates: Fates, receipt: ReceiptStatus)
    ensures Kept(Proceed(w, d, now, fates, receipt), d.cmdId)
  {
    hide StoreTerminal, Ended;
    StoreTerminalKeeps(w, ExpiredPayload(d, now), fates.terminal, receipt, false);
    var start := MarkExecuting(w, d.cmdId, fates.executing);
    var w1 := if d.command.PortAction? then start.w else w;
    match fates.act
    case Withheld(details) =>
      StoreTerminalKeeps(w1, ActPayload(d, now, false, details), fates.terminal, receipt, !d.command.MatrixInstall?);
    case Performed(ok, details) =>
      var w2 := if d.command.PortAction? || ok then Act(w1, d) else w1;
      StoreTerminalKeeps(w2, ActPayload(d, now, ok, details), fates.terminal, receipt, ok || !d.command.MatrixInstall?);
    case _ =>
  }

  /** An answer is only ever given from a row that is on disk and in memory as it was said: every
      answer is one that `ResultIsFinal` goes on repeating. */
  lemma AnswersAreKept(w: World, d: Delivery, now: i64, fates: Fates)
    requires Safe(w, d.cmdId) && w.up
    ensures Kept(Deliver(w, d, now, fates), d.cmdId)
  {
    hide StoreTerminal, Proceed;
    StoreTerminalKeeps(w, UnknownPayload(d, now), fates.terminal, Duplicate, false);
    ProceedKeeps(w, d, now, fates, Duplicate);
    var entry := Entry(Recorded, None, None);
    var w1 := OnDisk(w, d.cmdId, entry);
    ProceedKeeps(w1.(commands := w1.commands[d.cmdId := entry]), d, now, fates, Accepted);
  }

  lemma StoreTerminalActsForNobody(w: World, p: Payload, fate: WriteFate, receipt: ReceiptStatus, executed: bool, c: CmdId)
    ensures OnlyAdds(w.log, StoreTerminal(w, p, fate, receipt, executed).0.log, c)
    ensures StoreTerminal(w, p, fate, receipt, executed).1.Delivered? ==>
              StoreTerminal(w, p, fate, receipt, executed).1.executed == executed
  {
  }

  lemma ProceedUnexecuted(w: World, d: Delivery, now: i64, fates: Fates, receipt: ReceiptStatus)
    ensures var (w', outcome) := Proceed(w, d, now, fates, receipt);
            outcome.Delivered? && !outcome.executed ==> OnlyAdds(w.log, w'.log, d.cmdId)
  {
    hide StoreTerminal, OnlyAdds;
    StoreTerminalActsForNobody(w, ExpiredPayload(d, now), fates.terminal, receipt, false, d.cmdId);
    var w1 := if d.command.PortAction? then MarkExecuting(w, d.cmdId, fates.executing).w else w;
    match fates.act
    case Withheld(details) =>
      StoreTerminalActsForNobody(w1, ActPayload(d, now, false, details), fates.terminal, receipt, !d.command.MatrixInstall?, d.cmdId);
    case Performed(ok, details) =>
      var w2 := if d.command.PortAction? || ok then Act(w1, d) else w1;
      StoreTerminalActsForNobody(w2, ActPayload(d, now, ok, details), fates.terminal, receipt, ok || !d.command.MatrixInstall?, d.cmdId);
    case _ =>
  }

  /** Nothing was touched on behalf of an answer that says nothing was executed. */
  lemma UnexecutedIsUntouched(w: World, d: Delivery, now: i64, fates: Fates)
    requires w.up
    ensures var (w', outcome) := Deliver(w, d, now, fates);
            outcome.Delivered? && !outcome.executed ==> OnlyAdds(w.log, w'.log, d.cmdId)
  {
    hide StoreTerminal, Proceed;
    StoreTerminalActsForNobody(w, UnknownPayload(d, now), fates.terminal, Duplicate, false, d.cmdId);
    ProceedUnexecuted(w, d, now, fates, Duplicate);
    var entry := Entry(Recorded, None, None);
    var w1 := OnDisk(w, d.cmdId, entry);
    ProceedUnexecuted(w1.(commands := w1.commands[d.cmdId := entry]), d, now, fates, Accepted);
  }

  /** A command that has not been started, delivered in time to an executor nothing interferes
      with, is performed and answered with what the action reported. */
  lemma CleanDeliveryIsAnswered(w: World, d: Delivery, now: i64, ok: bool, details: string)
    requires w.up && !Blank(d.deliveryId) && !Blank(d.cmdId)
    requires d.cmdId in w.commands ==> w.commands[d.cmdId].phase.Recorded?
    requires now < d.expiresAt
    requires d.cmdId in w.uplink.sequences || w.uplink.lastAllocated + 1 < 0x1_0000_0000_0000_0000
    ensures var (w', outcome) := Deliver(w, d, now, Fates(Written, Written, Performed(ok, details), Written));
            && outcome.Delivered?
            && outcome.receipt == (if d.cmdId in w.commands then Duplicate else Accepted)
            && outcome.result == Payload(d.cmdId, if ok then Status.Succeeded else Status.Failed, now, Attempts(d), details)
            && (d.command.PortAction? ==> outcome.executed && Touch(d.cmdId) in w'.log)
  {
    var (w', outcome) := Deliver(w, d, now, Fates(Written, Written, Performed(ok, details), Written));
    if d.command.PortAction? {
      var start := if d.cmdId in w.commands then |w.log| else |w.log| + 1;
      assert w'.log[start] == Wrote(d.cmdId, Executing) && w'.log[start + 1] == Touch(d.cmdId);
    }
  }
}

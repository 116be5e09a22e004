/** The executor that carries the ledger out, updating its table, its outbox and the journal it
    writes to one step at a time. */
module Executor {
  import opened Basics
  import opened Ledger

  class CommandExecutor {
    var up: bool
    var commands: map<CmdId, Entry>
    var uplink: Uplink
    var journal: map<CmdId, Entry>   // the store's table
    ghost var log: seq<Effect>

    ghost function State(): World
      reads this
    {
      World(up, commands, uplink, journal, log)
    }

    /** A process with nothing read back yet, over a journal that already exists. */
    constructor (journal: map<CmdId, Entry>, ghost log: seq<Effect>)
      ensures State() == World(true, map[], FreshUplink, journal, log)
    {
      this.up := true;
      this.commands := map[];
      this.uplink := FreshUplink;
      this.journal := journal;
      this.log := log;
    }

    method Crash()
      modifies this
      ensures State() == Down(old(State()))
    {
      up := false;
      commands := map[];
      uplink := FreshUplink;
    }

    method Store(cmdId: CmdId, e: Entry)
      modifies this
      ensures State() == OnDisk(old(State()), cmdId, e)
    {
      if cmdId in journal {
        var row := journal[cmdId];
        journal := journal[cmdId := Entry(e.phase, Coalesce(e.result, row.result), Coalesce(e.sequence, row.sequence))];
      } else {
        journal := journal[cmdId := e];
      }
      log := log + [Wrote(cmdId, e.phase)];
    }

    /** One journal write, under the fate that befalls it. */
    method Record(cmdId: CmdId, e: Entry, fate: WriteFate) returns (stopped: Option<Outcome>)
      modifies this
      ensures var attempt := WriteJournal(old(State()), cmdId, e, fate);
              State() == attempt.w && stopped == (if attempt.Did? then None else Some(attempt.outcome))
    {
      if fate.Written? || fate.RefusedButKept? || fate.CrashAfterWrite? {
        Store(cmdId, e);
      }
      if fate.CrashBeforeWrite? || fate.CrashAfterWrite? {
        Crash();
        return Some(Crashed);
      }
      stopped := if fate.Written? then None else Some(Rejected(JournalFailed));
    }

    method BeginExecuting(cmdId: CmdId, fate: WriteFate) returns (stopped: Option<Outcome>)
      modifies this
      ensures var attempt := MarkExecuting(old(State()), cmdId, fate);
              State() == attempt.w && stopped == (if attempt.Did? then None else Some(attempt.outcome))
    {
      stopped := Record(cmdId, Entry(Executing, None, None), fate);
      if stopped.None? && cmdId in commands {
        commands := commands[cmdId := commands[cmdId].(phase := Executing)];
      }
    }

    method Finish(p: Payload, fate: WriteFate, receipt: ReceiptStatus, executed: bool) returns (outcome: Outcome)
      modifies this
      ensures (State(), outcome) == StoreTerminal(old(State()), p, fate, receipt, executed)
    {
      var sequence: u64;
      if p.cmdId in uplink.sequences {
        sequence := uplink.sequences[p.cmdId];
      } else if uplink.lastAllocated + 1 == 0x1_0000_0000_0000_0000 {
        return Rejected(SequenceExhausted);
      } else {
        sequence := uplink.lastAllocated + 1;
        uplink := Uplink(sequence, uplink.sequences[p.cmdId := sequence], uplink.records[sequence := p]);
      }
      var stopped := Record(p.cmdId, TerminalEntry(p, sequence), fate);
      if stopped.Some? {
        return stopped.value;
      }
      commands := commands[p.cmdId := TerminalEntry(p, sequence)];
      outcome := Delivered(receipt, p, sequence, executed);
    }

    /** The arms of `execute`, told apart by whether they write `executing` first. */
    method Run(d: Delivery, now: i64, fates: Fates, receipt: ReceiptStatus) returns (outcome: Outcome)
      modifies this
      ensures (State(), outcome) == Execute(old(State()), d, now, fates, receipt)
    {
      hide StoreTerminal, MarkExecuting;
      if d.command.PortAction? {
        var stopped := BeginExecuting(d.cmdId, fates.executing);
        if stopped.Some? {
          return stopped.value;
        }
      }
      match fates.act {
        case CrashBeforeAct =>
          Crash();
          outcome := Crashed;
        case CrashAfterAct =>
          log := log + [Acted(d.cmdId, d.command)];
          Crash();
          outcome := Crashed;
        case Withheld(details) =>
          outcome := Finish(ActPayload(d, now, false, details), fates.terminal, receipt, !d.command.MatrixInstall?);
        case Performed(ok, details) =>
          if d.command.PortAction? || ok {
            log := log + [Acted(d.cmdId, d.command)];
          }
          outcome := Finish(ActPayload(d, now, ok, details), fates.terminal, receipt, ok || !d.command.MatrixInstall?);
      }
    }

    /** One delivery, first or repeated. */
    method Handle(d: Delivery, now: i64, fates: Fates) returns (outcome: Outcome)
      modifies this
      ensures (State(), outcome) == Deliver(old(State()), d, now, fates)
    {
      hide StoreTerminal, Execute, WriteJournal;
      if Blank(d.deliveryId) {
        return Rejected(EmptyDeliveryId);
      }
      if Blank(d.cmdId) {
        return Rejected(EmptyCmdId);
      }
      var receipt := Duplicate;
      if d.cmdId in commands {
        var stored := commands[d.cmdId];
        if stored.phase.Terminal? {
          if stored.result.Some? && stored.sequence.Some? {
            return Delivered(Duplicate, stored.result.value, stored.sequence.value, false);
          }
          return Rejected(EmptyCmdId);
        }
        if stored.phase.Executing? {
          outcome := Finish(UnknownPayload(d, now), fates.terminal, Duplicate, false);
          return;
        }
      } else {
        receipt := Accepted;
        var entry := Entry(Recorded, None, None);
        var stopped := Record(d.cmdId, entry, fates.recorded);
        if stopped.Some? {
          return stopped.value;
        }
        commands := commands[d.cmdId := entry];
      }
      if now >= d.expiresAt {
        outcome := Finish(ExpiredPayload(d, now), fates.terminal, receipt, false);
      } else {
        outcome := Run(d, now, fates, receipt);
      }
    }

    /** Reads the journal back; rows whose phase is not known are counted, not guessed at. */
    method RestoreCommands(rows: seq<RestoredCommand>) returns (skipped: nat)
      modifies this
      ensures State() == old(State()).(commands := Restore(old(commands), rows))
      ensures skipped == Skipped(rows)
    {
      skipped := 0;
      for i := 0 to |rows|
        invariant State() == old(State()).(commands := Restore(old(commands), rows[..i]))
        invariant skipped == Skipped(rows[..i])
      {
        assert rows[..i + 1][..i] == rows[..i];
        var phase := ParsePhase(rows[i].phase);
        if phase.None? {
          skipped := skipped + 1;
        } else if phase.value.Terminal? && (rows[i].result.None? || rows[i].sequence.None?) {
          commands := commands[rows[i].cmdId := Entry(Executing, None, None)];
        } else {
          commands := commands[rows[i].cmdId := Entry(phase.value, rows[i].result, rows[i].sequence)];
        }
      }
      assert rows[..|rows|] == rows;
    }
  }
}

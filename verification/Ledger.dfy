/** The command ledger: commands are delivered at least once, and a journal outside the
    process decides what a redelivery, or a restart, may still do with them.

    Everything the executor touches can fail or be cut off by a crash.  A delivery therefore
    carries a fate for each such interaction; whatever is only in memory is lost in a crash,
    the journal and what the modem has been made to do are not. */
module Ledger {
  import opened Basics

  type CmdId = string

  datatype Phase = Recorded | Executing | Terminal

  function Rank(p: Phase): nat {
    match p
    case Recorded => 0
    case Executing => 1
    case Terminal => 2
  }

  /** The arms of `execute`: every arm that calls `mark_executing`, and the two that do not. */
  datatype CommandClass = PortAction | MatrixInstall | SelfUpdate

  datatype Status = Succeeded | Failed | Expired | Unknown

  datatype Payload = Payload(cmdId: CmdId, status: Status, completedAt: i64, attempts: i64, details: string)

  /** One row of the ledger, in memory or in the journal. */
  datatype Entry = Entry(phase: Phase, result: Option<Payload>, sequence: Option<u64>)

  datatype Delivery = Delivery(
    deliveryId: string,
    cmdId: CmdId,
    expiresAt: i64,
    attempt: Option<i64>,
    command: CommandClass)

  /** What becomes of one journal write. */
  datatype WriteFate =
    | Written
    | Refused            // reported as failed, and not on disk
    | RefusedButKept     // reported as failed, yet on disk
    | CrashBeforeWrite
    | CrashAfterWrite

  /** What becomes of the command's action. */
  datatype ActFate =
    | Withheld(details: string)          // refused before anything was sent
    | Performed(ok: bool, details: string)
    | CrashBeforeAct
    | CrashAfterAct

  datatype Fates = Fates(recorded: WriteFate, executing: WriteFate, act: ActFate, terminal: WriteFate)

  /** Everything that outlives the process, in the order it happened. */
  datatype Effect =
    | Wrote(cmdId: CmdId, phase: Phase)   // a journal row reached the disk
    | Acted(cmdId: CmdId, command: CommandClass)

  /** The in-memory outbox: an envelope keeps the sequence it was first given. */
  datatype Uplink = Uplink(lastAllocated: u64, sequences: map<CmdId, u64>, records: map<u64, Payload>)

  const FreshUplink := Uplink(0, map[], map[])

  datatype World = World(
    up: bool,
    commands: map<CmdId, Entry>,
    uplink: Uplink,
    journal: map<CmdId, Entry>,
    log: seq<Effect>)

  const Initial := World(true, map[], FreshUplink, map[], [])

  datatype Error = EmptyDeliveryId | EmptyCmdId | SequenceExhausted | JournalFailed

  datatype ReceiptStatus = Accepted | Duplicate

  datatype Outcome =
    | Crashed
    | Rejected(error: Error)
    | Delivered(receipt: ReceiptStatus, result: Payload, sequence: u64, executed: bool)

  // ----- Small steps ---------------------------------------------------------

  function Coalesce<T>(a: Option<T>, b: Option<T>): Option<T> {
    if a.Some? then a else b
  }

  /** The upsert of the journal table: the phase is replaced, a result once written stays. */
  function Upsert(journal: map<CmdId, Entry>, cmdId: CmdId, e: Entry): map<CmdId, Entry> {
    if cmdId in journal then
      journal[cmdId := Entry(e.phase, Coalesce(e.result, journal[cmdId].result),
                             Coalesce(e.sequence, journal[cmdId].sequence))]
    else journal[cmdId := e]
  }

  function OnDisk(w: World, cmdId: CmdId, e: Entry): World {
    w.(journal := Upsert(w.journal, cmdId, e), log := w.log + [Wrote(cmdId, e.phase)])
  }

  /** The process is gone; the outside world is as it was left. */
  function Down(w: World): World {
    World(false, map[], FreshUplink, w.journal, w.log)
  }

  datatype Attempt = Did(w: World) | DidNot(w: World, outcome: Outcome)

  function WriteJournal(w: World, cmdId: CmdId, e: Entry, fate: WriteFate): Attempt {
    match fate
    case Written => Did(OnDisk(w, cmdId, e))
    case Refused => DidNot(w, Rejected(JournalFailed))
    case RefusedButKept => DidNot(OnDisk(w, cmdId, e), Rejected(JournalFailed))
    case CrashBeforeWrite => DidNot(Down(w), Crashed)
    case CrashAfterWrite => DidNot(Down(OnDisk(w, cmdId, e)), Crashed)
  }

  /** `UplinkState::append`, with a duplicate id read as the sequence it already has. */
  function Append(u: Uplink, cmdId: CmdId, p: Payload): Result<(Uplink, u64), Error> {
    if cmdId in u.sequences then Ok((u, u.sequences[cmdId]))
    else if u.lastAllocated + 1 == 0x1_0000_0000_0000_0000 then Err(SequenceExhausted)
    else
      var next := u.lastAllocated + 1;
      Ok((Uplink(next, u.sequences[cmdId := next], u.records[next := p]), next))
  }

  function TerminalEntry(p: Payload, sequence: u64): Entry {
    Entry(Terminal, Some(p), Some(sequence))
  }

  /** `store_terminal`: outbox, then journal, then memory. */
  function StoreTerminal(w: World, p: Payload, fate: WriteFate, receipt: ReceiptStatus, executed: bool): (World, Outcome) {
    match Append(w.uplink, p.cmdId, p)
    case Err(e) => (w, Rejected(e))
    case Ok((uplink, sequence)) =>
      match WriteJournal(w.(uplink := uplink), p.cmdId, TerminalEntry(p, sequence), fate)
      case DidNot(w', outcome) => (w', outcome)
      case Did(w') =>
        (w'.(commands := w'.commands[p.cmdId := TerminalEntry(p, sequence)]),
         Delivered(receipt, p, sequence, executed))
  }

  function Attempts(d: Delivery): i64 {
    match d.attempt
    case Some(n) => n
    case None => 1
  }

  function UnknownPayload(d: Delivery, now: i64): Payload {
    Payload(d.cmdId, Status.Unknown, now, Attempts(d), "outcome_unknown")
  }

  function ExpiredPayload(d: Delivery, now: i64): Payload {
    Payload(d.cmdId, Status.Expired, now, Attempts(d), "expired")
  }

  function ActPayload(d: Delivery, now: i64, ok: bool, details: string): Payload {
    Payload(d.cmdId, if ok then Status.Succeeded else Status.Failed, now, Attempts(d), details)
  }

  /** `mark_executing`: journal first, memory second. */
  function MarkExecuting(w: World, cmdId: CmdId, fate: WriteFate): Attempt {
    match WriteJournal(w, cmdId, Entry(Executing, None, None), fate)
    case DidNot(w', outcome) => DidNot(w', outcome)
    case Did(w') =>
      Did(if cmdId in w'.commands then w'.(commands := w'.commands[cmdId := w'.commands[cmdId].(phase := Executing)])
          else w')
  }

  function Act(w: World, d: Delivery): World {
    w.(log := w.log + [Acted(d.cmdId, d.command)])
  }

  /** The action of the command and the storing of its result. */
  function Perform(w: World, d: Delivery, now: i64, fates: Fates, receipt: ReceiptStatus): (World, Outcome) {
    match fates.act
    case CrashBeforeAct => (Down(w), Crashed)
    case CrashAfterAct => (Down(Act(w, d)), Crashed)
    case Withheld(details) =>
      StoreTerminal(w, ActPayload(d, now, false, details), fates.terminal, receipt, !d.command.MatrixInstall?)
    case Performed(ok, details) =>
      // A port call counts as having touched the modem whether or not it succeeded; a matrix
      // or an update that is turned down changes nothing.
      var w' := if d.command.PortAction? || ok then Act(w, d) else w;
      StoreTerminal(w', ActPayload(d, now, ok, details), fates.terminal, receipt, ok || !d.command.MatrixInstall?)
  }

  function Execute(w: World, d: Delivery, now: i64, fates: Fates, receipt: ReceiptStatus): (World, Outcome) {
    if d.command.PortAction? then
      match MarkExecuting(w, d.cmdId, fates.executing)
      case DidNot(w', outcome) => (w', outcome)
      case Did(w') => Perform(w', d, now, fates, receipt)
    else Perform(w, d, now, fates, receipt)
  }

  /** What a delivery does once the command is known to be recorded. */
  function Proceed(w: World, d: Delivery, now: i64, fates: Fates, receipt: ReceiptStatus): (World, Outcome) {
    if now >= d.expiresAt then StoreTerminal(w, ExpiredPayload(d, now), fates.terminal, receipt, false)
    else Execute(w, d, now, fates, receipt)
  }

  function Deliver(w: World, d: Delivery, now: i64, fates: Fates): (World, Outcome) {
    if Blank(d.deliveryId) then (w, Rejected(EmptyDeliveryId))
    else if Blank(d.cmdId) then (w, Rejected(EmptyCmdId))
    else if d.cmdId in w.commands then
      var stored := w.commands[d.cmdId];
      match stored.phase
      case Terminal =>
        if stored.result.Some? && stored.sequence.Some?
        then (w, Delivered(Duplicate, stored.result.value, stored.sequence.value, false))
        else (w, Rejected(EmptyCmdId))
      case Executing => StoreTerminal(w, UnknownPayload(d, now), fates.terminal, Duplicate, false)
      case Recorded => Proceed(w, d, now, fates, Duplicate)
    else
      var entry := Entry(Recorded, None, None);
      match WriteJournal(w, d.cmdId, entry, fates.recorded)
      case DidNot(w', outcome) => (w', outcome)
      case Did(w') => Proceed(w'.(commands := w'.commands[d.cmdId := entry]), d, now, fates, Accepted)
  }

  // ----- Restart -------------------------------------------------------------

  datatype RestoredCommand = RestoredCommand(
    cmdId: CmdId,
    phase: string,
    result: Option<Payload>,
    sequence: Option<u64>)

  function PhaseName(p: Phase): string {
    match p
    case Recorded => "recorded"
    case Executing => "executing"
    case Terminal => "terminal"
  }

  function ParsePhase(s: string): Option<Phase> {
    if s == "recorded" then Some(Recorded)
    else if s == "executing" then Some(Executing)
    else if s == "terminal" then Some(Terminal)
    else None
  }

  /** A finished command whose result cannot be read back is taken as having been executing. */
  function RestoredEntry(p: Phase, row: RestoredCommand): Entry {
    if p.Terminal? && !(row.result.Some? && row.sequence.Some?) then Entry(Executing, None, None)
    else Entry(p, row.result, row.sequence)
  }

  function Restore(commands: map<CmdId, Entry>, rows: seq<RestoredCommand>): map<CmdId, Entry> {
    if rows == [] then commands
    else
      var before := Restore(commands, rows[..|rows| - 1]);
      var row := rows[|rows| - 1];
      match ParsePhase(row.phase)
      case None => before
      case Some(p) => before[row.cmdId := RestoredEntry(p, row)]
  }

  function Skipped(rows: seq<RestoredCommand>): nat {
    if rows == [] then 0
    else Skipped(rows[..|rows| - 1]) + if ParsePhase(rows[|rows| - 1].phase).None? then 1 else 0
  }

  /** What reading the journal back can give: rows of the journal, none twice, each with its phase or
      with one that is not known, and each stored field either intact or lost.  Any row may be missing;
      when the journal cannot be loaded at all, all of them are. */
  ghost predicate IsReading(journal: map<CmdId, Entry>, rows: seq<RestoredCommand>) {
    && (forall i :: 0 <= i < |rows| ==>
          && rows[i].cmdId in journal
          && (rows[i].phase == PhaseName(journal[rows[i].cmdId].phase) || ParsePhase(rows[i].phase).None?)
          && (rows[i].result == None || rows[i].result == journal[rows[i].cmdId].result)
          && (rows[i].sequence == None || rows[i].sequence == journal[rows[i].cmdId].sequence))
    && (forall i, j :: 0 <= i < j < |rows| ==> rows[i].cmdId != rows[j].cmdId)
  }

  /** The command's row is there, and its phase is known. */
  ghost predicate Reads(rows: seq<RestoredCommand>, c: CmdId) {
    exists i :: 0 <= i < |rows| && rows[i].cmdId == c && ParsePhase(rows[i].phase).Some?
  }

  ghost predicate Started(table: map<CmdId, Entry>, c: CmdId) {
    c in table && Rank(table[c].phase) >= 1
  }

  function Restart(w: World, rows: seq<RestoredCommand>): World {
    World(true, Restore(map[], rows), FreshUplink, w.journal, w.log)
  }

  // ----- Runs ------------------------------------------------------------------

  datatype Event =
    | Arrives(d: Delivery, now: i64, fates: Fates)
    | Dies
    | Starts(rows: seq<RestoredCommand>)

  ghost predicate Possible(w: World, e: Event) {
    match e
    case Arrives(_, _, _) => w.up
    case Dies => w.up
    case Starts(rows) => !w.up && IsReading(w.journal, rows)
  }

  function Step(w: World, e: Event): World {
    match e
    case Arrives(d, now, fates) => Deliver(w, d, now, fates).0
    case Dies => Down(w)
    case Starts(rows) => Restart(w, rows)
  }

  ghost predicate IsRun(w: World, events: seq<Event>)
    decreases |events|
  {
    events == [] || (Possible(w, events[0]) && IsRun(Step(w, events[0]), events[1..]))
  }

  function After(w: World, events: seq<Event>): World
    decreases |events|
  {
    if events == [] then w else After(Step(w, events[0]), events[1..])
  }

  /** No restart of the run drops the command's row once the command was begun. */
  ghost predicate KeepsBegun(w: World, events: seq<Event>, c: CmdId)
    decreases |events|
  {
    events != [] ==>
      && (events[0].Starts? && Started(w.journal, c) ==> Reads(events[0].rows, c))
      && KeepsBegun(Step(w, events[0]), events[1..], c)
  }
}

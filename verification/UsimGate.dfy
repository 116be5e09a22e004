/** The authentication gate: nothing is authenticated until the card itself has shown that its USIM
    is selected, whatever the card does. */
module UsimGate {
  import opened Basics
  import opened Aka

  type Apdu = seq<u8>

  datatype Response = Response(data: seq<u8>, sw1: u8, sw2: u8)

  /** What came back for one command: an answer, or the reason there is none. */
  type Answer = Result<Response, LinkError>

  datatype Turn = Turn(apdu: Apdu, answer: Answer)

  /** A card may do anything: what it answers depends in any way on all that went before. */
  type Card = (seq<Turn>, Apdu) -> Answer

  const MAX_ROUNDS := 256

  const STATUS: Apdu := [0x00, 0xf2, 0x00, 0x00, 0x00]
  const SELECT: Apdu := [0x00, 0xa4, 0x04, 0x04, 0x07, 0xa0, 0x00, 0x00, 0x00, 0x87, 0x10, 0x02, 0x00]

  function Authenticate(rand: seq<u8>, autn: seq<u8>): Apdu {
    [0x00, 0x88, 0x00, 0x81, 0x22, 0x10] + rand + [0x10] + autn + [0x00]
  }

  /** Some turns taken, and what they came to. */
  datatype Taken<T> = Taken(turns: seq<Turn>, result: Result<T, Error>)

  // ----- One exchange ---------------------------------------------------------------

  predicate AsksForMore(r: Response) {
    r.sw1 == 0x61
  }

  function GetResponse(r: Response): Apdu {
    [0x00, 0xc0, 0x00, 0x00, r.sw2]
  }

  /** Asks for the rest of an answer until the card stops saying there is more. */
  function Drain(card: Card, before: seq<Turn>, last: Response, collected: seq<u8>, rounds: nat): Taken<Response>
    requires rounds <= MAX_ROUNDS
    decreases MAX_ROUNDS - rounds
  {
    if !AsksForMore(last) then Taken([], Ok(Response(collected, last.sw1, last.sw2)))
    else if rounds == MAX_ROUNDS then Taken([], Err(TooManyGetResponseRounds))
    else
      var turn := Turn(GetResponse(last), card(before, GetResponse(last)));
      match turn.answer
      case Err(e) => Taken([turn], Err(NoAnswer(e)))
      case Ok(next) =>
        var rest := Drain(card, before + [turn], next, collected + next.data, rounds + 1);
        Taken([turn] + rest.turns, rest.result)
  }

  /** The same command with the length the card asked for. */
  function Retried(apdu: Apdu, le: u8): Apdu
    requires apdu != []
  {
    apdu[|apdu| - 1 := le]
  }

  function Exchange(card: Card, before: seq<Turn>, apdu: Apdu): Taken<Response>
    requires apdu != []
  {
    var turn := Turn(apdu, card(before, apdu));
    match turn.answer
    case Err(e) => Taken([turn], Err(NoAnswer(e)))
    case Ok(first) =>
      if first.sw1 == 0x6c then
        var again := Turn(Retried(apdu, first.sw2), card(before + [turn], Retried(apdu, first.sw2)));
        match again.answer
        case Err(e) => Taken([turn, again], Err(NoAnswer(e)))
        case Ok(second) =>
          var rest := Drain(card, before + [turn, again], second, second.data, 0);
          Taken([turn, again] + rest.turns, rest.result)
      else
        var rest := Drain(card, before + [turn], first, first.data, 0);
        Taken([turn] + rest.turns, rest.result)
  }

  // ----- The gate -----------------------------------------------------------------------

  function IsSuccess(r: Response): bool {
    r.sw1 == 0x90 && r.sw2 == 0x00
  }

  /** What the answer to STATUS says. */
  function StatusVerdict(answer: Result<Response, Error>): Result<seq<u8>, Error> {
    match answer
    case Err(e) => Err(e)
    case Ok(r) => if IsSuccess(r) then UsimAid(r.data) else Err(StatusRefused(r.sw1, r.sw2))
  }

  function SelectVerdict(answer: Result<Response, Error>): Result<seq<u8>, Error> {
    match answer
    case Err(e) => Err(e)
    case Ok(r) => if IsSuccess(r) then UsimAid(r.data) else Err(UsimSelectRefused(r.sw1, r.sw2))
  }

  /** The card said what is selected, or that it will not say; the exchange itself did not fail. */
  predicate IsSelectionVerdict(e: Error) {
    e.NoSelectedApplication? || e.NotUsimAdf? || e.StatusRefused?
  }

  function Ensure(card: Card, before: seq<Turn>): Taken<seq<u8>> {
    var status := Exchange(card, before, STATUS);
    match StatusVerdict(status.result)
    case Ok(aid) => Taken(status.turns, Ok(aid))
    case Err(e) =>
      if IsSelectionVerdict(e) then
        var select := Exchange(card, before + status.turns, SELECT);
        Taken(status.turns + select.turns, SelectVerdict(select.result))
      else Taken(status.turns, Err(e))
  }

  function Classify(r: Response): Result<Outcome, Error> {
    if IsSuccess(r) then ClassifyBody(r.data)
    else if r.sw1 == 0x98 && r.sw2 == 0x62 then Ok(AuthenticationFailure(r.sw1, r.sw2))
    else Err(UnknownStatusWord(r.sw1, r.sw2))
  }

  function Run(card: Card, before: seq<Turn>, rand: seq<u8>, autn: seq<u8>): Taken<Outcome> {
    if |rand| != 16 then Taken([], Err(BadChallengeLength(Rand)))
    else if |autn| != 16 then Taken([], Err(BadChallengeLength(Autn)))
    else
      var gate := Ensure(card, before);
      match gate.result
      case Err(e) => Taken(gate.turns, Err(e))
      case Ok(_) =>
        var auth := Exchange(card, before + gate.turns, Authenticate(rand, autn));
        var result := match auth.result case Err(e) => Err(e) case Ok(r) => Classify(r);
        Taken(gate.turns + auth.turns, result)
  }

  // ----- Over the channel -----------------------------------------------------------------

  class BasicChannel {
    const card: Card
    var turns: seq<Turn>

    constructor (card: Card)
      ensures this.card == card && turns == []
    {
      this.card := card;
      this.turns := [];
    }

    method Transmit(apdu: Apdu) returns (answer: Answer)
      modifies this
      ensures answer == card(old(turns), apdu) && turns == old(turns) + [Turn(apdu, answer)]
    {
      answer := card(turns, apdu);
      turns := turns + [Turn(apdu, answer)];
    }

    method DrainGetResponse(first: Response) returns (answer: Result<Response, Error>)
      modifies this
      ensures var taken := Drain(card, old(turns), first, first.data, 0);
              turns == old(turns) + taken.turns && answer == taken.result
    {
      var response, collected, rounds := first, first.data, 0;
      ghost var all := Drain(card, turns, first, first.data, 0);
      while response.sw1 == 0x61
        invariant 0 <= rounds <= MAX_ROUNDS
        invariant var rest := Drain(card, turns, response, collected, rounds);
                  turns + rest.turns == old(turns) + all.turns && rest.result == all.result
        decreases MAX_ROUNDS - rounds
      {
        if rounds == MAX_ROUNDS {
          return Err(TooManyGetResponseRounds);
        }
        rounds := rounds + 1;
        ghost var before := turns;
        var next := Transmit([0x00, 0xc0, 0x00, 0x00, response.sw2]);
        if next.Err? {
          return Err(NoAnswer(next.error));
        }
        ghost var rest := Drain(card, turns, next.value, collected + next.value.data, rounds);
        assert before + ([turns[|before|]] + rest.turns) == turns + rest.turns;
        response := next.value;
        collected := collected + response.data;
      }
      answer := Ok(Response(collected, response.sw1, response.sw2));
    }

    method ExchangeApdu(apdu: Apdu) returns (answer: Result<Response, Error>)
      requires apdu != []
      modifies this
      ensures var taken := Exchange(card, old(turns), apdu);
              turns == old(turns) + taken.turns && answer == taken.result
    {
      hide Drain;
      var first := Transmit(apdu);
      if first.Err? {
        return Err(NoAnswer(first.error));
      }
      if first.value.sw1 == 0x6c {
        var retry := apdu[|apdu| - 1 := first.value.sw2];
        first := Transmit(retry);
        assert turns == old(turns) + [turns[|turns| - 2], turns[|turns| - 1]];
        if first.Err? {
          return Err(NoAnswer(first.error));
        }
      }
      answer := DrainGetResponse(first.value);
    }

    /** Reads what is selected; repairs nothing. */
    method VerifyUsimSelected() returns (aid: Result<seq<u8>, Error>)
      modifies this
      ensures var taken := Exchange(card, old(turns), STATUS);
              turns == old(turns) + taken.turns && aid == StatusVerdict(taken.result)
    {
      hide Exchange;
      var answer := ExchangeApdu([0x00, 0xf2, 0x00, 0x00, 0x00]);
      if answer.Err? {
        return Err(answer.error);
      }
      if answer.value.sw1 != 0x90 || answer.value.sw2 != 0x00 {
        return Err(StatusRefused(answer.value.sw1, answer.value.sw2));
      }
      aid := UsimAid(answer.value.data);
    }

    method SelectUsimAdf() returns (aid: Result<seq<u8>, Error>)
      modifies this
      ensures var taken := Exchange(card, old(turns), SELECT);
              turns == old(turns) + taken.turns && aid == SelectVerdict(taken.result)
    {
      hide Exchange;
      var apdu := [0x00, 0xa4, 0x04, 0x04, |USIM_PREFIX|] + USIM_PREFIX + [0x00];
      assert apdu == SELECT;
      var answer := ExchangeApdu(apdu);
      if answer.Err? {
        return Err(answer.error);
      }
      if answer.value.sw1 != 0x90 || answer.value.sw2 != 0x00 {
        return Err(UsimSelectRefused(answer.value.sw1, answer.value.sw2));
      }
      aid := UsimAid(answer.value.data);
    }

    method EnsureUsimSelected() returns (aid: Result<seq<u8>, Error>)
      modifies this
      ensures var taken := Ensure(card, old(turns));
              turns == old(turns) + taken.turns && aid == taken.result
    {
      hide Exchange, StatusVerdict, SelectVerdict;
      aid := VerifyUsimSelected();
      if aid.Err? && IsSelectionVerdict(aid.error) {
        aid := SelectUsimAdf();
      }
    }

    method UsimAuthenticate(rand: seq<u8>, autn: seq<u8>) returns (outcome: Result<Outcome, Error>)
      modifies this
      ensures var taken := Run(card, old(turns), rand, autn);
              turns == old(turns) + taken.turns && outcome == taken.result
    {
      hide Exchange, Ensure, Authenticate, Classify;
      if |rand| != 16 {
        return Err(BadChallengeLength(Rand));
      }
      if |autn| != 16 {
        return Err(BadChallengeLength(Autn));
      }
      NotEmpty(rand, autn);
      var gate := EnsureUsimSelected();
      if gate.Err? {
        return Err(gate.error);
      }
      var answer := ExchangeApdu(Authenticate(rand, autn));
      outcome := if answer.Err? then Err(answer.error) else Classify(answer.value);
    }
  }

  lemma NotEmpty(rand: seq<u8>, autn: seq<u8>)
    ensures Authenticate(rand, autn) != []
  {
  }

  // ----- What a transcript shows --------------------------------------------------------------

  /** Turns that each ask for the rest of the answer before. */
  ghost predicate IsDrain(last: Response, turns: seq<Turn>)
    decreases |turns|
  {
    turns != [] ==>
      && last.sw1 == 0x61
      && turns[0].apdu == [0x00, 0xc0, 0x00, 0x00, last.sw2]
      && match turns[0].answer
         case Err(_) => |turns| == 1
         case Ok(next) => IsDrain(next, turns[1..])
  }

  /** One command, sent again at most once with the length the card asked for, and then nothing but
      requests for the rest. */
  ghost predicate IsExchange(turns: seq<Turn>, apdu: Apdu) {
    && apdu != [] && turns != [] && turns[0].apdu == apdu
    && match turns[0].answer
       case Err(_) => |turns| == 1
       case Ok(first) =>
         if first.sw1 != 0x6c then IsDrain(first, turns[1..])
         else
           && |turns| > 1 && turns[1].apdu == apdu[..|apdu| - 1] + [first.sw2]
           && match turns[1].answer
              case Err(_) => |turns| == 2
              case Ok(second) => IsDrain(second, turns[2..])
  }

  /** All the data that came, under the last status; or why the answer is not complete. */
  function Drained(last: Response, collected: seq<u8>, turns: seq<Turn>): Result<Response, Error>
    decreases |turns|
  {
    if turns == [] then
      if last.sw1 == 0x61 then Err(TooManyGetResponseRounds) else Ok(Response(collected, last.sw1, last.sw2))
    else
      match turns[0].answer
      case Err(e) => Err(NoAnswer(e))
      case Ok(next) => Drained(next, collected + next.data, turns[1..])
  }

  function Completed(turns: seq<Turn>): Result<Response, Error>
    requires turns != []
  {
    match turns[0].answer
    case Err(e) => Err(NoAnswer(e))
    case Ok(first) =>
      if first.sw1 != 0x6c || |turns| == 1 then Drained(first, first.data, turns[1..])
      else
        match turns[1].answer
        case Err(e) => Err(NoAnswer(e))
        case Ok(second) => Drained(second, second.data, turns[2..])
  }

  /** The transcript of an exchange in which the card finished its answer and the answer names the
      USIM's application. */
  ghost predicate Shows(turns: seq<Turn>) {
    && turns != []
    && Completed(turns).Ok?
    && Completed(turns).value.sw1 == 0x90 && Completed(turns).value.sw2 == 0x00
    && NamesUsim(Completed(turns).value.data)
  }

  lemma {:induction false} DrainIsADrain(card: Card, before: seq<Turn>, last: Response, collected: seq<u8>, rounds: nat)
    requires rounds <= MAX_ROUNDS
    ensures var taken := Drain(card, before, last, collected, rounds);
            && IsDrain(last, taken.turns) && |taken.turns| <= 256 - rounds
            && taken.result == Drained(last, collected, taken.turns)
            && (taken.result == Err(TooManyGetResponseRounds) ==> |taken.turns| == 256 - rounds)
    decreases MAX_ROUNDS - rounds
  {
    if AsksForMore(last) && rounds < MAX_ROUNDS {
      var apdu := GetResponse(last);
      var turn := Turn(apdu, card(before, apdu));
      if turn.answer.Ok? {
        var next := turn.answer.value;
        DrainIsADrain(card, before + [turn], next, collected + next.data, rounds + 1);
        var taken := Drain(card, before, last, collected, rounds);
        var rest := Drain(card, before + [turn], next, collected + next.data, rounds + 1);
        assert taken.turns == [turn] + rest.turns && taken.turns[1..] == rest.turns;
      }
    }
  }

  /** The card asked for another length. */
  ghost predicate Corrected(turns: seq<Turn>) {
    turns != [] && turns[0].answer.Ok? && turns[0].answer.value.sw1 == 0x6c
  }

  /** However a card answers, an exchange is over after at most 258 commands, is an exchange of its
      command and nothing else, and its result is the whole of what the transcript shows came; it is
      given up only after 256 requests for the rest. */
  lemma ExchangeIsItsTranscript(card: Card, before: seq<Turn>, apdu: Apdu)
    requires apdu != []
    ensures var taken := Exchange(card, before, apdu);
            && IsExchange(taken.turns, apdu)
            && |taken.turns| <= (if Corrected(taken.turns) then 258 else 257)
            && taken.result == Completed(taken.turns)
            && (taken.result == Err(TooManyGetResponseRounds) ==>
                  |taken.turns| == if Corrected(taken.turns) then 258 else 257)
  {
    var turn := Turn(apdu, card(before, apdu));
    var taken := Exchange(card, before, apdu);
    if turn.answer.Ok? {
      var first := turn.answer.value;
      if first.sw1 == 0x6c {
        var again := Turn(Retried(apdu, first.sw2), card(before + [turn], Retried(apdu, first.sw2)));
        if again.answer.Ok? {
          DrainIsADrain(card, before + [turn, again], again.answer.value, again.answer.value.data, 0);
          assert taken.turns[2..] == Drain(card, before + [turn, again], again.answer.value, again.answer.value.data, 0).turns;
        }
      } else {
        DrainIsADrain(card, before + [turn], first, first.data, 0);
        assert taken.turns[1..] == Drain(card, before + [turn], first, first.data, 0).turns;
      }
    }
  }

  // ----- Against every card ------------------------------------------------------------------

  /** The command carries the challenge and its token as a USIM reads them: AUTHENTICATE in the 3G
      context, each of the two behind its length (section 7.1.2 of 3GPP TS 31.102). */
  ghost predicate CarriesChallenge(apdu: Apdu, rand: seq<u8>, autn: seq<u8>) {
    && |apdu| == 40
    && apdu[..5] == [0x00, 0x88, 0x00, 0x81, 0x22]
    && apdu[5] == 0x10 && apdu[6..22] == rand
    && apdu[22] == 0x10 && apdu[23..39] == autn
    && apdu[39] == 0x00
  }

  lemma ChallengeIsLaidOut(rand: seq<u8>, autn: seq<u8>)
    requires |rand| == 16 && |autn| == 16
    ensures CarriesChallenge(Authenticate(rand, autn), rand, autn)
  {
    var apdu := Authenticate(rand, autn);
    assert apdu[6..22] == rand && apdu[23..39] == autn;
  }

  /** The three parts of a transcript, by what the earlier ones show. */
  ghost predicate IsGated(status: seq<Turn>, select: seq<Turn>, auth: seq<Turn>, rand: seq<u8>, autn: seq<u8>) {
    && IsExchange(status, [0x00, 0xf2, 0x00, 0x00, 0x00])
    && (select == [] || IsExchange(select, [0x00, 0xa4, 0x04, 0x04, 0x07, 0xa0, 0x00, 0x00, 0x00, 0x87, 0x10, 0x02, 0x00]))
    && (auth == [] || (IsExchange(auth, auth[0].apdu) && CarriesChallenge(auth[0].apdu, rand, autn)))
    && (select != [] <==> Completed(status).Ok? && !Shows(status))
    && (auth != [] <==> Shows(status) || Shows(select))
  }

  /** What a run comes to, by its last part: an unfinished answer is that failure; a selection that does
      not show the USIM is refused or names something else; and an answer to the challenge is read from
      its body, is the card's rejection of the code in it, or is not understood. */
  ghost predicate ComesTo(result: Result<Outcome, Error>, status: seq<Turn>, select: seq<Turn>, auth: seq<Turn>)
    requires status != []
  {
    var last := if auth != [] then auth else if select != [] then select else status;
    match Completed(last)
    case Err(e) => result == Err(e)
    case Ok(r) =>
      if auth == [] then
        if r.sw1 != 0x90 || r.sw2 != 0x00 then result == Err(UsimSelectRefused(r.sw1, r.sw2))
        else
          || (result == Err(NoSelectedApplication) && forall aid :: !NamesAid(r.data, aid))
          || (result.Err? && result.error.NotUsimAdf? && NamesAid(r.data, result.error.aid))
      else if r.sw1 == 0x90 && r.sw2 == 0x00 then result == ClassifyBody(r.data)
      else if r.sw1 == 0x98 && r.sw2 == 0x62 then result == Ok(AuthenticationFailure(0x98, 0x62))
      else result == Err(UnknownStatusWord(r.sw1, r.sw2))
  }

  /** Against every card a run is a STATUS exchange; a SELECT exchange exactly if the card finished
      answering STATUS and the answer did not name the USIM; and an AUTHENTICATE exchange with this
      challenge exactly if one of the two named it.  Its result is read from all the card returned in
      the last of them and from nothing else. */
  lemma RunIsGated(card: Card, before: seq<Turn>, rand: seq<u8>, autn: seq<u8>)
    returns (status: seq<Turn>, select: seq<Turn>, auth: seq<Turn>)
    requires |rand| == 16 && |autn| == 16
    ensures Run(card, before, rand, autn).turns == status + select + auth
    ensures IsGated(status, select, auth, rand, autn)
    ensures ComesTo(Run(card, before, rand, autn).result, status, select, auth)
  {
    hide Exchange, Authenticate, Completed, IsExchange, UsimAid, NamesUsim, ClassifyBody, NamesAid, CarriesChallenge;
    NotEmpty(rand, autn);
    ChallengeIsLaidOut(rand, autn);
    ExchangeIsItsTranscript(card, before, STATUS);
    NonEmptyExchange(card, before, STATUS);
    status := Exchange(card, before, STATUS).turns;
    UsimAidVerdicts(status);
    FailuresAreNotVerdicts(status);
    select := [];
    if Completed(status).Ok? && !Shows(status) {
      ExchangeIsItsTranscript(card, before + status, SELECT);
      NonEmptyExchange(card, before + status, SELECT);
      select := Exchange(card, before + status, SELECT).turns;
      SelectVerdicts(select);
    }
    auth := [];
    assert Ensure(card, before).turns == status + select;
    assert Ensure(card, before).result.Ok? <==> Shows(status) || Shows(select);
    if Ensure(card, before).result.Ok? {
      ExchangeIsItsTranscript(card, before + (status + select), Authenticate(rand, autn));
      NonEmptyExchange(card, before + (status + select), Authenticate(rand, autn));
      auth := Exchange(card, before + (status + select), Authenticate(rand, autn)).turns;
      FirstIsTheCommand(auth, Authenticate(rand, autn));
    }
    assert status + select + [] == status + select;
  }

  lemma FirstIsTheCommand(turns: seq<Turn>, apdu: Apdu)
    requires IsExchange(turns, apdu)
    ensures turns != [] && turns[0].apdu == apdu
  {
  }

  lemma NonEmptyExchange(card: Card, before: seq<Turn>, apdu: Apdu)
    requires apdu != []
    ensures Exchange(card, before, apdu).turns != []
  {
    hide Drain;
  }

  /** A finished answer to STATUS is always a verdict about selection, and an unfinished one never. */
  lemma UsimAidVerdicts(status: seq<Turn>)
    requires status != []
    ensures var verdict := StatusVerdict(Completed(status));
            && (verdict.Ok? <==> Shows(status))
            && (verdict.Err? && IsSelectionVerdict(verdict.error) <==> Completed(status).Ok? && !Shows(status))
    ensures !Shows(status) ==>
              match Completed(status)
              case Err(e) => StatusVerdict(Completed(status)) == Err(e)
              case Ok(r) =>
                var verdict := StatusVerdict(Completed(status));
                if r.sw1 != 0x90 || r.sw2 != 0x00 then verdict == Err(StatusRefused(r.sw1, r.sw2))
                else
                  || (verdict == Err(NoSelectedApplication) && forall aid :: !NamesAid(r.data, aid))
                  || (verdict.Err? && verdict.error.NotUsimAdf? && NamesAid(r.data, verdict.error.aid))
  {
    hide SelectedAid, Drained, NamesUsim, NamesAid, Completed;
    FailuresAreNotVerdicts(status);
    if Completed(status).Ok? {
      var data := Completed(status).value.data;
      UsimIsReadExactlyWhenNamed(data);
      forall aid
        ensures SelectedAid(data) == Some(aid) <==> NamesAid(data, aid)
      {
        AidIsReadExactlyWhenNamed(data, aid);
      }
    }
  }

  /** A finished answer to SELECT shows the USIM, is a refusal, names another application or names none. */
  lemma SelectVerdicts(select: seq<Turn>)
    requires select != []
    ensures SelectVerdict(Completed(select)).Ok? <==> Shows(select)
    ensures !Shows(select) ==>
              match Completed(select)
              case Err(e) => SelectVerdict(Completed(select)) == Err(e)
              case Ok(r) =>
                var verdict := SelectVerdict(Completed(select));
                if r.sw1 != 0x90 || r.sw2 != 0x00 then verdict == Err(UsimSelectRefused(r.sw1, r.sw2))
                else
                  || (verdict == Err(NoSelectedApplication) && forall aid :: !NamesAid(r.data, aid))
                  || (verdict.Err? && verdict.error.NotUsimAdf? && NamesAid(r.data, verdict.error.aid))
  {
    hide Completed, NamesUsim, NamesAid, SelectedAid;
    if Completed(select).Ok? {
      var data := Completed(select).value.data;
      UsimIsReadExactlyWhenNamed(data);
      forall aid
        ensures SelectedAid(data) == Some(aid) <==> NamesAid(data, aid)
      {
        AidIsReadExactlyWhenNamed(data, aid);
      }
    }
  }

  lemma FailuresAreNotVerdicts(turns: seq<Turn>)
    requires turns != []
    ensures Completed(turns).Err? ==> !IsSelectionVerdict(Completed(turns).error)
  {
    match turns[0].answer
    case Err(_) =>
    case Ok(first) =>
      DrainedFails(first, first.data, turns[1..]);
      if |turns| > 1 && turns[1].answer.Ok? {
        var second := turns[1].answer.value;
        DrainedFails(second, second.data, turns[2..]);
      }
  }

  lemma {:induction false} DrainedFails(last: Response, collected: seq<u8>, turns: seq<Turn>)
    ensures Drained(last, collected, turns).Err? ==> !IsSelectionVerdict(Drained(last, collected, turns).error)
    decreases |turns|
  {
    if turns != [] && turns[0].answer.Ok? {
      var next := turns[0].answer.value;
      DrainedFails(next, collected + next.data, turns[1..]);
    }
  }

  /** The instruction byte. */
  function Instruction(apdu: Apdu): u8 {
    if |apdu| > 1 then apdu[1] else 0
  }

  lemma {:induction false} DrainInstructions(last: Response, turns: seq<Turn>, i: nat)
    requires IsDrain(last, turns) && i < |turns|
    ensures Instruction(turns[i].apdu) == 0xc0
    decreases |turns|
  {
    if i > 0 {
      DrainInstructions(turns[0].answer.value, turns[1..], i - 1);
    }
  }

  /** An exchange sends its own instruction and requests for the rest, and no other. */
  lemma ExchangeInstructions(turns: seq<Turn>, apdu: Apdu, i: nat)
    requires IsExchange(turns, apdu) && |apdu| > 2 && i < |turns|
    ensures Instruction(turns[i].apdu) == Instruction(apdu) || Instruction(turns[i].apdu) == 0xc0
  {
    if i > 0 && turns[0].answer.Ok? {
      var first := turns[0].answer.value;
      if first.sw1 != 0x6c {
        DrainInstructions(first, turns[1..], i - 1);
      } else if i > 1 && turns[1].answer.Ok? {
        DrainInstructions(turns[1].answer.value, turns[2..], i - 2);
      }
    }
  }

  /** Some stretch of the transcript before this point is a STATUS or SELECT exchange whose finished
      answer named the USIM. */
  ghost predicate ShownBefore(turns: seq<Turn>, i: nat) {
    exists a, b :: 0 <= a < b <= i && b <= |turns| && ShownBy(turns[a..b])
  }

  ghost predicate ShownBy(turns: seq<Turn>) {
    (IsExchange(turns, STATUS) || IsExchange(turns, SELECT)) && Shows(turns)
  }

  /** No card is ever sent AUTHENTICATE before it has itself shown, in this very run, that its USIM is
      selected. */
  lemma NeverAuthenticatesBlind(card: Card, before: seq<Turn>, rand: seq<u8>, autn: seq<u8>, i: nat)
    requires i < |Run(card, before, rand, autn).turns|
    requires Instruction(Run(card, before, rand, autn).turns[i].apdu) == 0x88
    ensures ShownBefore(Run(card, before, rand, autn).turns, i)
  {
    hide Run, IsExchange, Shows, Completed;
    NothingWithoutChallenge(card, before, rand, autn);
    var turns := Run(card, before, rand, autn).turns;
    var status, select, auth := RunIsGated(card, before, rand, autn);
    var n, m := |status|, |status| + |select|;
    if i < n {
      assert turns[i] == status[i];
      ExchangeInstructions(status, STATUS, i);
      assert false;
    } else if i < m {
      assert turns[i] == select[i - n];
      ExchangeInstructions(select, SELECT, i - n);
      assert false;
    }
    assert turns[0..n] == status && turns[n..m] == select;
    NotEmptyWhenShown(status, select);
    assert auth != [];
    assert ShownBy(turns[0..n]) || ShownBy(turns[n..m]);
  }

  lemma NotEmptyWhenShown(status: seq<Turn>, select: seq<Turn>)
    ensures Shows(status) ==> status != []
    ensures Shows(select) ==> select != []
  {
  }

  lemma {:induction false} ExchangeRepeats(turns: seq<Turn>, apdu: Apdu, i: nat)
    requires IsExchange(turns, apdu) && |apdu| > 2 && Instruction(apdu) != 0xc0 && i < |turns|
    requires Instruction(turns[i].apdu) == Instruction(apdu)
    ensures |turns[i].apdu| == |apdu| && turns[i].apdu[..|apdu| - 1] == apdu[..|apdu| - 1]
    ensures i <= 1
  {
    if i > 0 {
      var first := turns[0].answer.value;
      if first.sw1 != 0x6c {
        DrainInstructions(first, turns[1..], i - 1);
        assert false;
      } else if i > 1 {
        DrainInstructions(turns[1].answer.value, turns[2..], i - 2);
        assert false;
      }
    }
  }

  /** Every AUTHENTICATE a card is sent carries this run's challenge and token; only the length it asks
      for is ever changed, and that at most once. */
  lemma OnlyThisChallenge(card: Card, before: seq<Turn>, rand: seq<u8>, autn: seq<u8>, i: nat)
    requires i < |Run(card, before, rand, autn).turns|
    requires Instruction(Run(card, before, rand, autn).turns[i].apdu) == 0x88
    ensures var apdu := Run(card, before, rand, autn).turns[i].apdu;
            |apdu| == 40 && CarriesChallenge(apdu[39 := 0x00], rand, autn)
  {
    hide Run, IsExchange, Shows, Completed;
    NothingWithoutChallenge(card, before, rand, autn);
    var turns := Run(card, before, rand, autn).turns;
    var status, select, auth := RunIsGated(card, before, rand, autn);
    var n, m := |status|, |status| + |select|;
    if i < n {
      assert turns[i] == status[i];
      ExchangeInstructions(status, STATUS, i);
      assert false;
    } else if i < m {
      assert turns[i] == select[i - n];
      ExchangeInstructions(select, SELECT, i - n);
      assert false;
    }
    assert turns[i] == auth[i - m];
    var apdu := auth[0].apdu;
    assert Instruction(apdu) == apdu[..5][1];
    ExchangeRepeats(auth, apdu, i - m);
    AllButTheLast(turns[i].apdu, apdu);
  }

  lemma AllButTheLast(a: Apdu, b: Apdu)
    requires |a| == |b| == 40 && a[..39] == b[..39] && b[39] == 0
    ensures a[39 := 0x00] == b
  {
    assert forall k :: 0 <= k < 39 ==> a[k] == a[..39][k] == b[k];
  }

  /** A challenge of the wrong length reaches no card. */
  lemma NothingWithoutChallenge(card: Card, before: seq<Turn>, rand: seq<u8>, autn: seq<u8>)
    ensures |rand| != 16 || |autn| != 16 ==> Run(card, before, rand, autn).turns == []
    ensures |rand| != 16 ==> Run(card, before, rand, autn).result == Err(BadChallengeLength(Rand))
    ensures |rand| == 16 && |autn| != 16 ==> Run(card, before, rand, autn).result == Err(BadChallengeLength(Autn))
  {
  }
}

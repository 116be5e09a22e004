/** Sending: building an SMS-SUBMIT, and what the other end makes of it. */
module Submit {
  import opened Basics
  import opened Septets
  import opened Address
  import opened Calendar
  import opened Pdu
  import Gsm7
  import Utf16

  const GSM7_MAX := 160
  const UCS2_MAX := 70

  datatype Error = EmptyBody | EmptyDestination | InvalidDestination | TooLong(encoding: Alphabet, limit: nat)

  // ----- The destination -----------------------------------------------------------

  function DigitsIn(s: string): (digits: string)
    ensures AreDigits(digits)
  {
    if s == "" then "" else (if IsDigit(s[0]) then [s[0]] else "") + DigitsIn(s[1..])
  }

  datatype Destination = Destination(digits: string, international: bool)

  function EncodeDestination(to: string): Result<Destination, Error> {
    var trimmed := Trim(to);
    if trimmed == "" then Err(EmptyDestination)
    else
      var digits := DigitsIn(trimmed);
      if digits == "" || |digits| > 20 then Err(InvalidDestination)
      else Ok(Destination(digits, trimmed[0] == '+'))
  }

  // ----- The message ---------------------------------------------------------------

  /** The coding scheme, the length and the octets a body is sent as. */
  datatype UserData = UserData(dcs: u8, udl: u8, octets: seq<u8>)

  function EncodeBody(body: string): Result<UserData, Error> {
    if Gsm7.IsGsm7(body) then
      if |body| > GSM7_MAX then Err(TooLong(SevenBit, GSM7_MAX))
      else Ok(UserData(0x00, |body|, Pack(Gsm7.Values(body))))
    else
      var units := Utf16.Encode(body);
      if |units| > UCS2_MAX then Err(TooLong(Ucs2, UCS2_MAX))
      else Ok(UserData(0x08, 2 * |units|, Utf16.ToOctets(units)))
  }

  function EncodeSubmit(to: string, body: string, reference: u8): Result<seq<u8>, Error> {
    if body == "" then Err(EmptyBody)
    else
      match EncodeDestination(to)
      case Err(e) => Err(e)
      case Ok(destination) =>
        match EncodeBody(body)
        case Err(e) => Err(e)
        case Ok(data) =>
          Ok([0x00] + ([0x21, reference, |destination.digits|, if destination.international then 0x91 else 0x81]
                       + Bcd(destination.digits)
                       + ([0x00, data.dcs, data.udl] + data.octets)))
  }

  // ----- What a SUBMIT carries -------------------------------------------------------

  function Number(d: Destination): string {
    (if d.international then "+" else "") + d.digits
  }

  /** Where the fields are: the message asks for a report, quotes the caller's reference, and the
      address read from it is the destination's. */
  lemma SubmitCarries(to: string, body: string, reference: u8)
    requires EncodeSubmit(to, body, reference).Ok?
    ensures var pdu := EncodeSubmit(to, body, reference).value;
            var destination, data := EncodeDestination(to).value, EncodeBody(body).value;
            var n := Half(|destination.digits|);
            && |pdu| == 8 + n + |data.octets|
            && pdu[0] == 0 && pdu[1] == 0x21 && pdu[2] == reference && pdu[5 + n] == 0
            && DecodeAddress(pdu[5..5 + n], pdu[3], pdu[4]) == Number(destination)
            && UserData(pdu[6 + n], pdu[7 + n], pdu[8 + n..]) == data
  {
    hide DecodeAddress, EncodeBody, EncodeDestination, Bcd;
    var destination, data := EncodeDestination(to).value, EncodeBody(body).value;
    DestinationIsDigits(to);
    var toa := if destination.international then 0x91 else 0x81;
    var head := [0x21, reference, |destination.digits|, toa];
    BcdIsRead(destination.digits);
    NumberIsRead(destination.digits, toa);
    assert 0x91 / 16 % 8 == 1 && 0x81 / 16 % 8 == 0;
    SubmitLayout(head, Bcd(destination.digits), [0x00, data.dcs, data.udl], data.octets);
  }

  lemma SubmitLayout(head: seq<u8>, address: seq<u8>, fields: seq<u8>, octets: seq<u8>)
    requires |head| == 4 && |fields| == 3
    ensures var pdu, n := [0x00] + (head + address + (fields + octets)), |address|;
            && |pdu| == 8 + n + |octets| && pdu[0] == 0x00
            && pdu[1] == head[0] && pdu[2] == head[1] && pdu[3] == head[2] && pdu[4] == head[3]
            && pdu[5..5 + n] == address
            && pdu[5 + n] == fields[0] && pdu[6 + n] == fields[1] && pdu[7 + n] == fields[2]
            && pdu[8 + n..] == octets
  {
    InPlace([0x00], head, address, fields + octets);
    var pdu, n := [0x00] + (head + address + (fields + octets)), |address|;
    assert pdu[5 + n..] == fields + octets;
    TailOfTail(pdu, 5 + n, fields, octets);
  }

  // ----- What can be sent ------------------------------------------------------------

  /** The digits of a text, in order: those of its two parts one after the other, and of a character
      itself if it is one. */
  lemma {:induction false} DigitsArePickedOut(a: string, b: string, c: char)
    ensures DigitsIn(a + b) == DigitsIn(a) + DigitsIn(b)
    ensures DigitsIn([c]) == if c in "0123456789" then [c] else ""
    decreases |a|
  {
    assert [c][1..] == "";
    if a == "" {
      assert a + b == b;
    } else {
      assert (a + b)[1..] == a[1..] + b;
      DigitsArePickedOut(a[1..], b, c);
    }
  }

  lemma TrimKeepsDigits(s: string)
    ensures DigitsIn(Trim(s)) == DigitsIn(s)
  {
    hide Trim, DigitsIn;
    var before, after := TrimTrims(s);
    BlanksHaveNoDigits(before);
    BlanksHaveNoDigits(after);
    DigitsArePickedOut(before + Trim(s), after, ' ');
    DigitsArePickedOut(before, Trim(s), ' ');
  }

  lemma NothingLeftOfBlanks(s: string)
    ensures Trim(s) == "" <==> Blank(s)
  {
    hide Trim;
    var before, after := TrimTrims(s);
    assert Trim(s) != "" ==> Trim(s)[0] == s[|before|];
    if Blank(s) {
      assert |before| < |s| ==> IsSpace(s[|before|]);
    }
  }

  lemma InnerIsTrimmed(s: string, before: string, inner: string, after: string)
    requires IsTrimmed(s, before, inner, after)
    ensures Trim(s) == inner
  {
    hide Trim, IsSpace;
    if inner == "" {
      NothingLeftOfBlanks(s);
    } else {
      TrimIsInner(s, before, inner, after);
    }
  }

  /** A destination can be used exactly if it has one to twenty digits; whatever else is in it is left out,
      but for a plus sign at its front, which makes it international. */
  lemma DestinationIsUsableExactlyWhen(to: string)
    ensures EncodeDestination(to).Ok? <==> 1 <= |DigitsIn(to)| <= 20
    ensures EncodeDestination(to) == Err(EmptyDestination) <==> Blank(to)
    ensures EncodeDestination(to).Ok? ==> EncodeDestination(to).value.digits == DigitsIn(to)
    ensures forall before, inner, after :: IsTrimmed(to, before, inner, after) && EncodeDestination(to).Ok? ==>
              inner != "" && (EncodeDestination(to).value.international <==> inner[0] == '+')
  {
    hide Trim, IsTrimmed, Blank;
    TrimKeepsDigits(to);
    NothingLeftOfBlanks(to);
    NoDigitsInNothing();
    forall before, inner, after | IsTrimmed(to, before, inner, after)
      ensures inner == Trim(to)
    {
      InnerIsTrimmed(to, before, inner, after);
    }
  }

  lemma NoDigitsInNothing()
    ensures DigitsIn("") == ""
  {
  }

  lemma {:induction false} BlanksHaveNoDigits(s: string)
    requires Blank(s)
    ensures DigitsIn(s) == ""
    decreases |s|
  {
    if s != "" {
      assert IsSpace(s[0]);
      BlanksHaveNoDigits(s[1..]);
    }
  }

  /** A message is built exactly if it has a text, the destination can be used, and the text is at most 160
      characters of the seven-bit subset or else at most 70 UTF-16 units; otherwise the first of these is
      named, with the limit. */
  lemma SentExactlyWhenItFits(to: string, body: string, reference: u8)
    ensures var r := EncodeSubmit(to, body, reference);
            var small, wide := Gsm7.IsGsm7(body), |Utf16.Encode(body)|;
            && (r.Ok? <==>
                  body != "" && 1 <= |DigitsIn(to)| <= 20 && if small then |body| <= 160 else wide <= 70)
            && (r == Err(EmptyBody) <==> body == "")
            && (r == Err(EmptyDestination) <==> body != "" && Blank(to))
            && (r == Err(TooLong(SevenBit, 160)) <==> body != "" && 1 <= |DigitsIn(to)| <= 20 && small && |body| > 160)
            && (r == Err(TooLong(Ucs2, 70)) <==> body != "" && 1 <= |DigitsIn(to)| <= 20 && !small && wide > 70)
  {
    hide Utf16.Encode, Gsm7.IsGsm7, EncodeDestination, Pack, Gsm7.Values, Utf16.ToOctets;
    DestinationIsUsableExactlyWhen(to);
    DestinationFails(to);
  }

  lemma DestinationFails(to: string)
    ensures EncodeDestination(to).Err? ==>
              EncodeDestination(to) == Err(EmptyDestination) || EncodeDestination(to) == Err(InvalidDestination)
  {
  }

  lemma DestinationIsDigits(to: string)
    requires EncodeDestination(to).Ok?
    ensures var d := EncodeDestination(to).value; 1 <= |d.digits| <= 20 && AreDigits(d.digits)
  {
  }

  // ----- From the sender's text to the receiver's -----------------------------------------

  /** Octets read back as the body, on their own, under the plain scheme of their alphabet and a length in
      septets or in octets. */
  lemma BodyIsRead(body: string)
    requires EncodeBody(body).Ok?
    ensures var data := EncodeBody(body).value;
            && Body(data.dcs, data.octets, 0, data.octets, data.udl) == body
            && AlphabetOf(data.dcs) == (if Gsm7.IsGsm7(body) then SevenBit else Ucs2)
            && (if Gsm7.IsGsm7(body) then data.dcs == 0x00 && data.udl == |body| && |data.octets| == (7 * |body| + 7) / 8
                else data.dcs == 0x08 && data.udl == |data.octets|)
  {
    hide Gsm7.Decode, Utf16.DecodeUcs2, Pack, Gsm7.Values, LayOut;
    if Gsm7.IsGsm7(body) {
      Gsm7.SentBodyIsRead(body, []);
    } else {
      Utf16.Ucs2BodyIsRead(body);
    }
    assert 0x08 / 4 % 4 == 2 && 0x00 / 4 % 4 == 0;
  }

  /** End to end: any text that can be sent, delivered under any service centre, number, name of the
      hour and identifier, is read as the text that was written, from the number it was sent from,
      at the instant its stamp counts to. */
  lemma TextArrives(body: string, from: Destination, stamp: Stamp, smsc: seq<u8>, first: u8, pid: u8)
    requires EncodeBody(body).Ok? && Holds(stamp)
    requires AreDigits(from.digits) && 1 <= |from.digits| <= 20
    requires |smsc| < 0x100 && first / 64 % 2 == 0
    ensures var data := EncodeBody(body).value;
            var pdu := Assemble(smsc, first, |from.digits|, if from.international then 0x91 else 0x81,
                                Bcd(from.digits), pid, data.dcs, EncodeStamp(stamp), data.udl, data.octets);
            Decoded(pdu) == Deliver(Number(from), body, None, if Gsm7.IsGsm7(body) then SevenBit else Ucs2,
                                    Some(data.dcs), Some(Counted(stamp)))
  {
    hide Decoded, Assemble, Body, DecodeAddress, DecodeStamp, EncodeStamp, EncodeBody, Counted, Bcd;
    var data := EncodeBody(body).value;
    var toa := if from.international then 0x91 else 0x81;
    BcdIsRead(from.digits);
    StampLength(stamp);
    FieldsAreFound(smsc, first, |from.digits|, toa, Bcd(from.digits), pid, data.dcs, EncodeStamp(stamp), data.udl, data.octets);
    NumberIsRead(from.digits, toa);
    assert 0x91 / 16 % 8 == 1 && 0x81 / 16 % 8 == 0;
    StampIsCounted(stamp);
    BodyIsRead(body);
  }

  lemma StampLength(stamp: Stamp)
    requires Holds(stamp)
    ensures |EncodeStamp(stamp)| == 7
  {
  }

  // ----- A fragment of a longer text ---------------------------------------------------------

  /** The octets in front of a fragment with an 8-bit reference: their length, the element's identifier
      and length, the reference, how many parts, which part. */
  function FragmentHeader(reference: u8, total: u8, part: u8): seq<u8> {
    [0x05, 0x00, 0x03, reference, total, part]
  }

  /** With a 16-bit reference. */
  function WideHeader(reference: u16, total: u8, part: u8): seq<u8> {
    [0x06, 0x08, 0x04, reference / 0x100, reference % 0x100, total, part]
  }

  /** One of the two. */
  ghost predicate IsHeader(header: seq<u8>, reference: u16, total: u8, part: u8) {
    || (reference < 0x100 && header == FragmentHeader(reference, total, part))
    || header == WideHeader(reference, total, part)
  }

  /** The length of the user data can be told in one octet. */
  ghost predicate FitsBehindHeader(body: string, header: nat) {
    if Gsm7.IsGsm7(body) then (8 * header + 6) / 7 + |body| < 0x100 else header + 2 * |Utf16.Encode(body)| < 0x100
  }

  /** A fragment's user data: behind the header in septets, or in octets. */
  ghost function EncodeFragment(body: string, header: seq<u8>): UserData
    requires FitsBehindHeader(body, |header|)
  {
    if Gsm7.IsGsm7(body) then UserData(0x00, (8 * |header| + 6) / 7 + |body|, LayOut(header, Gsm7.Values(body)))
    else
      var units := Utf16.Encode(body);
      UserData(0x08, |header| + 2 * |units|, header + Utf16.ToOctets(units))
  }

  lemma FragmentHeaderIsSplit(header: seq<u8>, reference: u16, total: u8, part: u8, rest: seq<u8>)
    requires IsHeader(header, reference, total, part)
    ensures SplitHeader(true, header + rest) == (Some((reference, total, part)), |header|, rest)
  {
    hide ConcatOf;
    var id, value := header[1], header[3..];
    var elements := [Element(id, value)];
    assert HeaderBytes(elements) == [id, |value|] + value + HeaderBytes([]);
    HeaderIsSplit(elements, rest);
    assert [|HeaderBytes(elements)|] + HeaderBytes(elements) + rest == header + rest;
    ConcatIsToldByTwoElements(id, value, reference, total, part);
    assert LastConcat(elements, None) == LastConcat([], Some((reference, total, part)));
  }

  /** A fragment keeps its text and its place: the receiver reads the reference, the number of parts,
      the part and the text, none of the header's octets in the text, in either alphabet and with a
      reference of either size. */
  lemma FragmentArrives(body: string, header: seq<u8>, reference: u16, total: u8, part: u8)
    requires IsHeader(header, reference, total, part) && FitsBehindHeader(body, |header|)
    ensures var data := EncodeFragment(body, header);
            var (concat, octets, payload) := SplitHeader(true, data.octets);
            && concat == Some((reference, total, part))
            && Body(data.dcs, data.octets, octets, payload, data.udl) == body
  {
    hide SplitHeader, LayOut, Gsm7.Decode, Utf16.DecodeUcs2, Gsm7.Values;
    var data := EncodeFragment(body, header);
    if Gsm7.IsGsm7(body) {
      Gsm7.SentBodyIsRead(body, header);
      LaidOutTextIsRead(header, Gsm7.Values(body));
      FragmentHeaderIsSplit(header, reference, total, part, data.octets[|header|..]);
      assert data.octets == header + data.octets[|header|..];
    } else {
      Utf16.Ucs2BodyIsRead(body);
      FragmentHeaderIsSplit(header, reference, total, part, Utf16.ToOctets(Utf16.Encode(body)));
    }
    assert 0x08 / 4 % 4 == 2 && 0x00 / 4 % 4 == 0;
  }

  /** End to end, so is a fragment in any delivery whose first octet says it has a header. */
  lemma FragmentIsDelivered(body: string, header: seq<u8>, reference: u16, total: u8, part: u8,
                            from: Destination, stamp: Stamp, smsc: seq<u8>, first: u8, pid: u8)
    requires IsHeader(header, reference, total, part) && FitsBehindHeader(body, |header|) && Holds(stamp)
    requires AreDigits(from.digits) && 1 <= |from.digits| <= 20
    requires |smsc| < 0x100 && first / 64 % 2 == 1
    ensures var data := EncodeFragment(body, header);
            var pdu := Assemble(smsc, first, |from.digits|, if from.international then 0x91 else 0x81,
                                Bcd(from.digits), pid, data.dcs, EncodeStamp(stamp), data.udl, data.octets);
            Decoded(pdu) == Deliver(Number(from), body, Some((reference, total, part)), if Gsm7.IsGsm7(body) then SevenBit else Ucs2,
                                    Some(data.dcs), Some(Counted(stamp)))
  {
    hide Decoded, Assemble, Body, SplitHeader, DecodeAddress, DecodeStamp, EncodeStamp, EncodeFragment, Counted, Bcd;
    var data := EncodeFragment(body, header);
    var toa := if from.international then 0x91 else 0x81;
    BcdIsRead(from.digits);
    StampLength(stamp);
    FieldsAreFound(smsc, first, |from.digits|, toa, Bcd(from.digits), pid, data.dcs, EncodeStamp(stamp), data.udl, data.octets);
    NumberIsRead(from.digits, toa);
    assert 0x91 / 16 % 8 == 1 && 0x81 / 16 % 8 == 0;
    StampIsCounted(stamp);
    FragmentArrives(body, header, reference, total, part);
    FragmentAlphabet(body, header);
  }

  lemma FragmentAlphabet(body: string, header: seq<u8>)
    requires FitsBehindHeader(body, |header|)
    ensures AlphabetOf(EncodeFragment(body, header).dcs) == if Gsm7.IsGsm7(body) then SevenBit else Ucs2
  {
    assert 0x08 / 4 % 4 == 2 && 0x00 / 4 % 4 == 0;
  }
}

/** Reading a USIM's answers: which application is selected, and what an AUTHENTICATE returned
    (section 7.1.2 of 3GPP TS 31.102). */
module Aka {
  import opened Basics
  import opened Tlv

  datatype Outcome =
    | Success(res: seq<u8>, ck: seq<u8>, ik: seq<u8>, kc: Option<seq<u8>>)
    | SyncFailure(auts: seq<u8>)
    | AuthenticationFailure(sw1: u8, sw2: u8)

  datatype Field = Rand | Autn

  /** Why a command got no answer at all. */
  datatype LinkError = Transport | MalformedCsim

  datatype Error =
    | BadChallengeLength(field: Field)
    | NoAnswer(link: LinkError)
    | StatusRefused(sw1: u8, sw2: u8)
    | NoSelectedApplication
    | NotUsimAdf(aid: seq<u8>)
    | UsimSelectRefused(sw1: u8, sw2: u8)
    | UnknownStatusWord(sw1: u8, sw2: u8)
    | MalformedResponse
    | TooManyGetResponseRounds

  // ----- Filler ---------------------------------------------------------------------

  predicate IsFiller(byte: u8) {
    byte == 0x00 || byte == 0xff
  }

  predicate IsPadding(data: seq<u8>) {
    forall i :: 0 <= i < |data| ==> data[i] == 0x00 || data[i] == 0xff
  }

  function Strip(data: seq<u8>): seq<u8> {
    if data != [] && IsFiller(data[0]) then Strip(data[1..]) else data
  }

  lemma {:induction false} StripStrips(lead: seq<u8>, data: seq<u8>)
    requires IsPadding(lead) && (data == [] || !IsFiller(data[0]))
    ensures Strip(lead + data) == data
    decreases |lead|
  {
    if lead == [] {
      assert lead + data == data;
    } else {
      assert IsFiller(lead[0]);
      StripStrips(lead[1..], data);
      assert (lead + data)[1..] == lead[1..] + data;
    }
  }

  lemma {:induction false} StripLeaves(data: seq<u8>) returns (lead: seq<u8>)
    ensures data == lead + Strip(data) && IsPadding(lead)
    ensures Strip(data) == [] || !IsFiller(Strip(data)[0])
    decreases |data|
  {
    if data != [] && IsFiller(data[0]) {
      var rest := StripLeaves(data[1..]);
      lead := [data[0]] + rest;
      assert data == [data[0]] + data[1..] == [data[0]] + (rest + Strip(data)) == lead + Strip(data);
    } else {
      lead := [];
    }
  }

  /** The loop that does it. */
  method StripLeadingPadding(data: seq<u8>) returns (rest: seq<u8>)
    ensures rest == Strip(data)
  {
    rest := data;
    while rest != [] && (rest[0] == 0x00 || rest[0] == 0xff)
      invariant Strip(rest) == Strip(data)
    {
      rest := rest[1..];
    }
  }

  // ----- The narrow reader against the grammar ------------------------------------------

  /** The tag plays no part in how the narrow reader splits. */
  lemma NarrowIgnoresTheTag(a: u8, b: u8, rest: seq<u8>)
    ensures var x, y := ReadNarrow([a] + rest), ReadNarrow([b] + rest);
            && (x.Some? <==> y.Some?)
            && (x.Some? ==> x.value.tag == [a] && x.value.value == y.value.value && x.value.tail == y.value.tail)
  {
    var x, y := [a] + rest, [b] + rest;
    assert forall k :: 1 <= k <= |x| ==> x[k..] == y[k..];
    assert forall k, m :: 1 <= k <= m <= |x| ==> x[k..m] == x[k..][..m - k] == y[k..][..m - k] == y[k..m];
  }

  /** An element under a one-byte tag of any value, with its length in one to three octets. */
  ghost predicate IsField(bytes: seq<u8>, tag: u8, octets: seq<u8>, value: seq<u8>) {
    |octets| <= 3 && IsLength(octets, |value|) && bytes == [tag] + octets + value
  }

  lemma NarrowElement(tag: u8, octets: seq<u8>, value: seq<u8>, tail: seq<u8>)
    requires IsLength(octets, |value|) && |octets| <= 3
    ensures ReadNarrow([tag] + octets + value + tail) == Some(Item([tag], value, tail))
  {
    hide ReadNarrow;
    var rest := octets + value + tail;
    var data := [0x01] + octets + value + tail;
    assert data == [0x01] + rest && [tag] + octets + value + tail == [tag] + rest;
    assert data[1] == octets[0];
    assert IsTag([0x01]);
    ParseIsComplete(data, [0x01], octets, value, tail);
    NarrowAgrees(data);
    NarrowIgnoresTheTag(tag, 0x01, rest);
  }

  lemma NarrowIsSound(data: seq<u8>) returns (octets: seq<u8>)
    requires data != [] && ReadNarrow(data).Some?
    ensures var item := ReadNarrow(data).value;
            && item.tag == [data[0]] && |octets| <= 3 && IsLength(octets, |item.value|)
            && data == [data[0]] + octets + item.value + item.tail
  {
    hide ReadNarrow, IsLength;
    var rest := data[1..];
    var plain := [0x01] + rest;
    assert data == [data[0]] + rest;
    NarrowIgnoresTheTag(data[0], 0x01, rest);
    octets := PlainIsSound(plain);
    var item := ReadNarrow(plain).value;
    SameRest(data[0], 0x01, rest, octets, item.value, item.tail);
  }

  lemma SameRest(a: u8, b: u8, rest: seq<u8>, x: seq<u8>, y: seq<u8>, z: seq<u8>)
    requires [b] + rest == [b] + x + y + z
    ensures [a] + rest == [a] + x + y + z
  {
    assert [b] + x + y + z == [b] + (x + y + z);
    assert rest == ([b] + rest)[1..] == x + y + z;
  }

  lemma PlainIsSound(data: seq<u8>) returns (octets: seq<u8>)
    requires data != [] && data[0] % 32 != 31 && ReadNarrow(data).Some?
    ensures var item := ReadNarrow(data).value;
            && |octets| <= 3 && IsLength(octets, |item.value|)
            && data == [data[0]] + octets + item.value + item.tail
  {
    hide ReadNarrow, BigEndian;
    NarrowAgrees(data);
    octets := ParseIsSound(data);
    var item := ReadNarrow(data).value;
    NarrowTag(data);
    assert data[1] == (item.tag + octets + item.value + item.tail)[1] == octets[0];
  }

  lemma NarrowTag(data: seq<u8>)
    requires data != [] && ReadNarrow(data).Some?
    ensures ReadNarrow(data).value.tag == [data[0]]
  {
  }

  // ----- What is selected ---------------------------------------------------------------

  const USIM_PREFIX: seq<u8> := [0xa0, 0x00, 0x00, 0x00, 0x87, 0x10, 0x02]

  /** One element that is all of the data apart from filler. */
  function SplitTlv(data: seq<u8>): Option<(u8, seq<u8>)> {
    match ReadNarrow(Strip(data))
    case None => None
    case Some(item) => if IsPadding(item.tail) then Some((item.tag[0], item.value)) else None
  }

  /** The first value with this tag among elements and filler. */
  function FindNarrow(data: seq<u8>, tag: u8): Option<seq<u8>>
    decreases |data|
  {
    if data == [] then None
    else if IsFiller(data[0]) then FindNarrow(data[1..], tag)
    else
      match ReadNarrow(data)
      case None => None
      case Some(item) => if item.tag == [tag] then Some(item.value) else FindNarrow(item.tail, tag)
  }

  method FindTagAmongFiller(data: seq<u8>, tag: u8) returns (value: Option<seq<u8>>)
    ensures value == FindNarrow(data, tag)
  {
    var rest := data;
    while rest != []
      invariant FindNarrow(rest, tag) == FindNarrow(data, tag)
      decreases |rest|
    {
      if rest[0] == 0x00 || rest[0] == 0xff {
        rest := rest[1..];
      } else {
        var item := ReadNarrow(rest);
        if item.None? {
          return None;
        }
        if item.value.tag == [tag] {
          return Some(item.value.value);
        }
        rest := item.value.tail;
      }
    }
    value := None;
  }

  function SelectedAid(fcp: seq<u8>): Option<seq<u8>> {
    var body := Strip(fcp);
    var inner := match SplitTlv(body)
      case Some((tag, value)) => if tag == 0x62 || tag == 0x6f then value else body
      case None => body;
    FindNarrow(inner, 0x84)
  }

  /** The one place an answer is turned into "that is the USIM". */
  function UsimAid(fcp: seq<u8>): Result<seq<u8>, Error> {
    match SelectedAid(fcp)
    case None => Err(NoSelectedApplication)
    case Some(aid) => if USIM_PREFIX <= aid then Ok(aid) else Err(NotUsimAdf(aid))
  }

  // ----- Which answers name an application -------------------------------------------------

  /** What a search steps over: a byte of filler, or an element under another tag. */
  ghost predicate IsSkipped(unit: seq<u8>, tag: u8) {
    && unit != []
    && (|| unit == [0x00]
        || unit == [0xff]
        || (unit[0] !in {tag, 0x00, 0xff} && exists octets, value :: IsField(unit, unit[0], octets, value)))
  }

  /** The value stands under the tag, with nothing before it but what is stepped over. */
  ghost predicate IsListed(data: seq<u8>, tag: u8, value: seq<u8>, units: seq<seq<u8>>, octets: seq<u8>, rest: seq<u8>) {
    && (forall i :: 0 <= i < |units| ==> IsSkipped(units[i], tag))
    && |octets| <= 3 && IsLength(octets, |value|)
    && data == Flatten(units) + ([tag] + octets + value + rest)
  }

  ghost predicate Lists(data: seq<u8>, tag: u8, value: seq<u8>) {
    exists units, octets, rest :: IsListed(data, tag, value, units, octets, rest)
  }

  lemma SkippedIsSkipped(unit: seq<u8>, tag: u8, later: seq<u8>)
    requires IsSkipped(unit, tag)
    ensures FindNarrow(unit + later, tag) == FindNarrow(later, tag)
  {
    hide ReadNarrow;
    var data := unit + later;
    assert data[0] == unit[0];
    if IsFiller(unit[0]) {
      if |unit| == 1 {
        assert data[1..] == later;
      }
    } else {
      var octets, value :| IsField(unit, unit[0], octets, value);
      assert data == [unit[0]] + octets + value + later;
      NarrowElement(unit[0], octets, value, later);
    }
  }

  lemma {:induction false} ListedIsFound(data: seq<u8>, tag: u8, value: seq<u8>, units: seq<seq<u8>>, octets: seq<u8>, rest: seq<u8>)
    requires IsListed(data, tag, value, units, octets, rest) && !IsFiller(tag)
    ensures FindNarrow(data, tag) == Some(value)
    decreases |units|
  {
    hide ReadNarrow, IsSkipped, IsLength;
    var field := [tag] + octets + value + rest;
    if units == [] {
      assert data == field && data[0] == tag;
      NarrowElement(tag, octets, value, rest);
    } else {
      var later := Flatten(units[1..]) + field;
      assert data == units[0] + later;
      assert IsListed(later, tag, value, units[1..], octets, rest);
      SkippedIsSkipped(units[0], tag, later);
      ListedIsFound(later, tag, value, units[1..], octets, rest);
    }
  }

  lemma {:induction false} FoundIsListed(data: seq<u8>, tag: u8)
    returns (units: seq<seq<u8>>, octets: seq<u8>, rest: seq<u8>)
    requires FindNarrow(data, tag).Some? && !IsFiller(tag)
    ensures IsListed(data, tag, FindNarrow(data, tag).value, units, octets, rest)
    decreases |data|
  {
    hide ReadNarrow, IsLength;
    if IsFiller(data[0]) {
      var later;
      later, octets, rest := FoundIsListed(data[1..], tag);
      units := [[data[0]]] + later;
      Chained([data[0]], later, data, data[1..], [tag] + octets + FindNarrow(data, tag).value + rest);
      assert IsSkipped([data[0]], tag);
    } else {
      var item := ReadNarrow(data).value;
      var length := NarrowIsSound(data);
      if item.tag == [tag] {
        units, octets, rest := [], length, item.tail;
        assert Flatten(units) + data == data;
      } else {
        NarrowShrinks(data);
        var later;
        later, octets, rest := FoundIsListed(item.tail, tag);
        var unit := [data[0]] + length + item.value;
        units := [unit] + later;
        Chained(unit, later, data, item.tail, [tag] + octets + FindNarrow(data, tag).value + rest);
        assert IsField(unit, data[0], length, item.value);
        assert IsSkipped(unit, tag);
      }
    }
  }

  lemma NarrowShrinks(data: seq<u8>)
    requires data != [] && ReadNarrow(data).Some?
    ensures |ReadNarrow(data).value.tail| < |data|
  {
  }

  lemma Chained(unit: seq<u8>, later: seq<seq<u8>>, data: seq<u8>, tail: seq<u8>, field: seq<u8>)
    requires data == unit + tail && tail == Flatten(later) + field
    ensures data == Flatten([unit] + later) + field
  {
    assert ([unit] + later)[1..] == later;
    assert unit + (Flatten(later) + field) == unit + Flatten(later) + field;
  }

  /** The answer is one template, apart from filler, and these are its contents. */
  ghost predicate IsTemplate(fcp: seq<u8>, inner: seq<u8>, lead: seq<u8>, tag: u8, octets: seq<u8>, padding: seq<u8>) {
    && IsPadding(lead) && IsPadding(padding) && (tag == 0x62 || tag == 0x6f)
    && |octets| <= 3 && IsLength(octets, |inner|)
    && fcp == lead + ([tag] + octets + inner + padding)
  }

  ghost predicate Contains(fcp: seq<u8>, inner: seq<u8>) {
    exists lead, tag, octets, padding :: IsTemplate(fcp, inner, lead, tag, octets, padding)
  }

  /** An answer names an application if it lists it under tag 84, inside its template or, where it is
      not a template, bare. */
  ghost predicate NamesAid(fcp: seq<u8>, aid: seq<u8>) {
    || (exists inner :: Contains(fcp, inner) && Lists(inner, 0x84, aid))
    || ((forall inner :: !Contains(fcp, inner)) && Lists(fcp, 0x84, aid))
  }

  /** And the USIM if the application's name begins as a USIM's does. */
  ghost predicate NamesUsim(fcp: seq<u8>) {
    exists aid :: NamesAid(fcp, aid) && [0xa0, 0x00, 0x00, 0x00, 0x87, 0x10, 0x02] <= aid
  }

  lemma {:induction false} FillerIsSteppedOver(data: seq<u8>, tag: u8)
    ensures FindNarrow(Strip(data), tag) == FindNarrow(data, tag)
    decreases |data|
  {
    if data != [] && IsFiller(data[0]) {
      FillerIsSteppedOver(data[1..], tag);
    }
  }

  lemma ListsIsFinding(data: seq<u8>, value: seq<u8>)
    ensures Lists(data, 0x84, value) <==> FindNarrow(data, 0x84) == Some(value)
  {
    hide FindNarrow;
    if FindNarrow(data, 0x84) == Some(value) {
      var units, octets, rest := FoundIsListed(data, 0x84);
    }
    if units, octets, rest :| IsListed(data, 0x84, value, units, octets, rest) {
      ListedIsFound(data, 0x84, value, units, octets, rest);
    }
  }

  /** The contents of an answer that is a template. */
  function Opened(fcp: seq<u8>): Option<seq<u8>> {
    match SplitTlv(Strip(fcp))
    case None => None
    case Some((tag, value)) => if tag == 0x62 || tag == 0x6f then Some(value) else None
  }

  lemma OpenedIsContained(fcp: seq<u8>, inner: seq<u8>)
    ensures Contains(fcp, inner) <==> Opened(fcp) == Some(inner)
  {
    hide ReadNarrow, IsLength, Strip;
    var lead := StripLeaves(fcp);
    var body := Strip(fcp);
    StripStrips([], body);
    assert [] + body == body;
    if Opened(fcp) == Some(inner) {
      assert body != [] by {
        NothingToRead();
      }
      var octets := NarrowIsSound(body);
      assert IsTemplate(fcp, inner, lead, body[0], octets, ReadNarrow(body).value.tail);
    }
    if lead', tag: u8, octets, padding :| IsTemplate(fcp, inner, lead', tag, octets, padding) {
      var trimmed := [tag] + octets + inner + padding;
      StripStrips(lead', trimmed);
      StripStrips([], trimmed);
      NarrowElement(tag, octets, inner, padding);
    }
  }

  lemma NothingToRead()
    ensures ReadNarrow([]).None?
  {
  }

  /** The reader finds an application exactly in the answers that name it. */
  lemma AidIsReadExactlyWhenNamed(fcp: seq<u8>, aid: seq<u8>)
    ensures SelectedAid(fcp) == Some(aid) <==> NamesAid(fcp, aid)
  {
    hide FindNarrow, Lists, Contains, SplitTlv, Strip;
    forall inner
      ensures Contains(fcp, inner) <==> Opened(fcp) == Some(inner)
    {
      OpenedIsContained(fcp, inner);
    }
    FillerIsSteppedOver(fcp, 0x84);
    ListsIsFinding(fcp, aid);
    if Opened(fcp).Some? {
      ListsIsFinding(Opened(fcp).value, aid);
      assert Contains(fcp, Opened(fcp).value);
    }
  }

  lemma UsimIsReadExactlyWhenNamed(fcp: seq<u8>)
    ensures UsimAid(fcp).Ok? <==> NamesUsim(fcp)
  {
    hide SelectedAid, NamesAid;
    forall aid
      ensures SelectedAid(fcp) == Some(aid) <==> NamesAid(fcp, aid)
    {
      AidIsReadExactlyWhenNamed(fcp, aid);
    }
    if UsimAid(fcp).Ok? {
      assert NamesAid(fcp, SelectedAid(fcp).value);
    }
  }

  // ----- The body of an answer -------------------------------------------------------------

  const MIN_RES := 4
  const MAX_RES := 16
  const KEY := 16
  const KC := 8
  const AUTS := 14

  /** A length octet and that many octets. */
  function TakeLv(data: seq<u8>): Option<(seq<u8>, seq<u8>)> {
    if data == [] || |data| < 1 + data[0] as int then None
    else Some((data[1..1 + data[0] as int], data[1 + data[0] as int..]))
  }

  function Lv(field: seq<u8>): seq<u8>
    requires |field| < 0x100
  {
    [|field|] + field
  }

  lemma TakeLvReads(field: seq<u8>, rest: seq<u8>)
    requires |field| < 0x100
    ensures TakeLv(Lv(field) + rest) == Some((field, rest))
  {
    var data := Lv(field) + rest;
    assert data[1..1 + |field|] == field && data[1 + |field|..] == rest;
  }

  lemma TakeLvTakes(data: seq<u8>)
    requires TakeLv(data).Some?
    ensures var (field, rest) := TakeLv(data).value;
            |field| < 0x100 && data == Lv(field) + rest
  {
  }

  class Cursor {
    var data: seq<u8>

    constructor (value: seq<u8>)
      ensures data == value
    {
      data := value;
    }

    /** Takes one field off the front, or leaves everything as it is. */
    method Take() returns (field: Option<seq<u8>>)
      modifies this
      ensures TakeLv(old(data)).None? ==> field == None && data == old(data)
      ensures TakeLv(old(data)).Some? ==> field == Some(TakeLv(old(data)).value.0) && data == TakeLv(old(data)).value.1
    {
      if data == [] || |data| < 1 + data[0] as int {
        return None;
      }
      var length := data[0] as int;
      field := Some(data[1..1 + length]);
      data := data[1 + length..];
    }
  }

  function ParseKc(rest: seq<u8>): Result<Option<seq<u8>>, Error> {
    if IsPadding(rest) then Ok(None)
    else
      match TakeLv(rest)
      case None => Err(MalformedResponse)
      case Some((kc, end)) => if |kc| == KC && IsPadding(end) then Ok(Some(kc)) else Err(MalformedResponse)
  }

  function ParseSuccess(value: seq<u8>): Result<Outcome, Error> {
    match TakeLv(value)
    case None => Err(MalformedResponse)
    case Some((res, afterRes)) =>
      if !(MIN_RES <= |res| <= MAX_RES) then Err(MalformedResponse)
      else
        match TakeLv(afterRes)
        case None => Err(MalformedResponse)
        case Some((ck, afterCk)) =>
          if |ck| != KEY then Err(MalformedResponse)
          else
            match TakeLv(afterCk)
            case None => Err(MalformedResponse)
            case Some((ik, rest)) =>
              if |ik| != KEY then Err(MalformedResponse)
              else
                match ParseKc(rest)
                case Err(e) => Err(e)
                case Ok(kc) => Ok(Success(res, ck, ik, kc))
  }

  method ReadSuccess(value: seq<u8>) returns (r: Result<Outcome, Error>)
    ensures r == ParseSuccess(value)
  {
    var cursor := new Cursor(value);
    var res := cursor.Take();
    if res.None? || !(MIN_RES <= |res.value| <= MAX_RES) {
      return Err(MalformedResponse);
    }
    var ck := cursor.Take();
    if ck.None? || |ck.value| != KEY {
      return Err(MalformedResponse);
    }
    var ik := cursor.Take();
    if ik.None? || |ik.value| != KEY {
      return Err(MalformedResponse);
    }
    var kc: Option<seq<u8>> := None;
    if !IsPadding(cursor.data) {
      kc := cursor.Take();
      if kc.Some? && |kc.value| != KC {
        return Err(MalformedResponse);
      }
    }
    if !IsPadding(cursor.data) {
      return Err(MalformedResponse);
    }
    r := Ok(Success(res.value, ck.value, ik.value, kc));
  }

  /** Keys of the lengths TS 33.102 allows. */
  ghost predicate AreKeys(k: Outcome) {
    && k.Success?
    && 4 <= |k.res| <= 16 && |k.ck| == 16 && |k.ik| == 16
    && (k.kc.Some? ==> |k.kc.value| == 8)
  }

  function Fields(k: Outcome): seq<u8>
    requires k.Success? && |k.res| < 0x100 && |k.ck| < 0x100 && |k.ik| < 0x100 && (k.kc.Some? ==> |k.kc.value| < 0x100)
  {
    Lv(k.res) + (Lv(k.ck) + (Lv(k.ik) + if k.kc.Some? then Lv(k.kc.value) else []))
  }

  lemma KcIsRead(kc: Option<seq<u8>>, padding: seq<u8>)
    requires (kc.Some? ==> |kc.value| == KC) && IsPadding(padding)
    ensures ParseKc((if kc.Some? then Lv(kc.value) else []) + padding) == Ok(kc)
  {
    if kc.Some? {
      var rest := Lv(kc.value) + padding;
      assert rest[0] == KC;
      TakeLvReads(kc.value, padding);
    } else {
      assert [] + padding == padding;
    }
  }

  lemma FieldsAreRead(k: Outcome, padding: seq<u8>)
    requires AreKeys(k) && IsPadding(padding)
    ensures ParseSuccess(Fields(k) + padding) == Ok(k)
  {
    hide TakeLv, ParseKc, Lv;
    var end := (if k.kc.Some? then Lv(k.kc.value) else []) + padding;
    var afterCk := Lv(k.ik) + end;
    var afterRes := Lv(k.ck) + afterCk;
    assert Fields(k) + padding == Lv(k.res) + afterRes;
    TakeLvReads(k.res, afterRes);
    TakeLvReads(k.ck, afterCk);
    TakeLvReads(k.ik, end);
    KcIsRead(k.kc, padding);
  }

  lemma OnlyFieldsAreRead(value: seq<u8>) returns (padding: seq<u8>)
    requires ParseSuccess(value).Ok?
    ensures AreKeys(ParseSuccess(value).value) && IsPadding(padding)
    ensures value == Fields(ParseSuccess(value).value) + padding
  {
    hide Lv, TakeLv;
    TakeLvTakes(value);
    var (res, afterRes) := TakeLv(value).value;
    TakeLvTakes(afterRes);
    var (ck, afterCk) := TakeLv(afterRes).value;
    TakeLvTakes(afterCk);
    var (ik, rest) := TakeLv(afterCk).value;
    var kc := ParseKc(rest).value;
    if kc.Some? {
      TakeLvTakes(rest);
      padding := TakeLv(rest).value.1;
    } else {
      padding := rest;
    }
    FourParts(Lv(res), Lv(ck), Lv(ik), if kc.Some? then Lv(kc.value) else [], padding);
  }

  lemma FourParts(a: seq<u8>, b: seq<u8>, c: seq<u8>, d: seq<u8>, e: seq<u8>)
    ensures a + (b + (c + (d + e))) == (a + (b + (c + d))) + e
  {
  }

  // ----- Classifying it ------------------------------------------------------------------------

  function Wrapped(data: seq<u8>): Option<seq<u8>> {
    match SplitTlv(data)
    case None => None
    case Some((_, value)) => Some(value)
  }

  function ClassifySuccess(trimmed: seq<u8>): Result<Outcome, Error>
    requires trimmed != []
  {
    var plain := ParseSuccess(trimmed[1..]);
    if plain.Ok? then plain
    else
      match Wrapped(trimmed)
      case Some(value) => ParseSuccess(value)
      case None => plain
  }

  function ClassifyBody(body: seq<u8>): Result<Outcome, Error> {
    var trimmed := Strip(body);
    if trimmed == [] then Err(MalformedResponse)
    else if trimmed[0] == 0xdb then ClassifySuccess(trimmed)
    else if trimmed[0] == 0xdc then
      match Wrapped(trimmed)
      case Some(value) => if |value| == AUTS then Ok(SyncFailure(value)) else Err(MalformedResponse)
      case None => Err(MalformedResponse)
    else if trimmed[0] == 0xdd && (|trimmed| == 1 || Wrapped(trimmed) == Some([])) then
      Ok(AuthenticationFailure(0x90, 0x00))
    else Err(MalformedResponse)
  }

  // ----- The two encodings of the keys ------------------------------------------------------------

  /** The keys behind their tag, without a length over all of them. */
  ghost predicate IsPlain(body: seq<u8>, k: Outcome, lead: seq<u8>, padding: seq<u8>) {
    && AreKeys(k) && IsPadding(lead) && IsPadding(padding)
    && body == lead + ([0xdb] + (Fields(k) + padding))
  }

  /** The keys as the value of an element, with its length in one to three octets. */
  ghost predicate IsWrapped(body: seq<u8>, k: Outcome, lead: seq<u8>, octets: seq<u8>, inner: seq<u8>, padding: seq<u8>) {
    && AreKeys(k) && IsPadding(lead) && IsPadding(inner) && IsPadding(padding)
    && |octets| <= 3 && IsLength(octets, |Fields(k) + inner|)
    && body == lead + ([0xdb] + octets + (Fields(k) + inner) + padding)
  }

  lemma PlainIsRead(body: seq<u8>, k: Outcome, lead: seq<u8>, padding: seq<u8>)
    requires IsPlain(body, k, lead, padding)
    ensures ClassifyBody(body) == Ok(k)
  {
    hide ParseSuccess, Fields, Wrapped;
    var trimmed := [0xdb] + (Fields(k) + padding);
    StripStrips(lead, trimmed);
    assert trimmed[1..] == Fields(k) + padding;
    FieldsAreRead(k, padding);
  }

  /** Read as plain, a wrapped body's length octet would have to be a RES of more than sixteen
      octets. */
  lemma WrappedIsNotPlain(octets: seq<u8>, k: Outcome, inner: seq<u8>, rest: seq<u8>)
    requires AreKeys(k) && IsLength(octets, |Fields(k) + inner|) && |octets| <= 3
    ensures ParseSuccess(octets + rest).Err?
  {
    assert |Fields(k)| >= 39;
    assert (octets + rest)[0] == octets[0] > 16;
  }

  lemma WrappedIsRead(body: seq<u8>, k: Outcome, lead: seq<u8>, octets: seq<u8>, inner: seq<u8>, padding: seq<u8>)
    requires IsWrapped(body, k, lead, octets, inner, padding)
    ensures ClassifyBody(body) == Ok(k)
  {
    hide ParseSuccess, Fields, ReadNarrow, IsLength, Strip, ClassifySuccess;
    var value := Fields(k) + inner;
    var trimmed := [0xdb] + octets + value + padding;
    StripStrips(lead, trimmed);
    WrappedIsNotPlain(octets, k, inner, value + padding);
    FieldsAreRead(k, inner);
    UnwrapsTo(octets, value, padding);
  }

  lemma NoPadding()
    ensures IsPadding([])
  {
  }

  lemma TailAfterTag(a: seq<u8>, b: seq<u8>, c: seq<u8>)
    ensures ([0xdb] + a + b + c)[1..] == a + (b + c)
  {
    assert [0xdb] + a + b + c == [0xdb] + (a + (b + c));
  }

  lemma UnwrapsTo(octets: seq<u8>, value: seq<u8>, padding: seq<u8>)
    requires IsLength(octets, |value|) && |octets| <= 3 && IsPadding(padding)
    requires ParseSuccess(octets + (value + padding)).Err?
    ensures ClassifySuccess([0xdb] + octets + value + padding) == ParseSuccess(value)
  {
    hide ParseSuccess, ReadNarrow, IsLength, Strip, IsPadding;
    var trimmed := [0xdb] + octets + value + padding;
    NoPadding();
    StripStrips([], trimmed);
    assert [] + trimmed == trimmed;
    TailAfterTag(octets, value, padding);
    NarrowElement(0xdb, octets, value, padding);
  }

  /** Keys are read from exactly the bodies that encode them, in one of the two ways: no other body
      gives keys, and none gives other keys than it encodes. */
  lemma KeysAreReadExactlyFromTheirEncodings(body: seq<u8>, k: Outcome)
    requires k.Success?
    ensures ClassifyBody(body) == Ok(k) <==>
            || (exists lead, padding :: IsPlain(body, k, lead, padding))
            || (exists lead, octets, inner, padding :: IsWrapped(body, k, lead, octets, inner, padding))
  {
    hide ClassifyBody, IsPlain, IsWrapped;
    if ClassifyBody(body) == Ok(k) {
      ReadKeysAreEncoded(body, k);
    }
    if lead, padding :| IsPlain(body, k, lead, padding) {
      PlainIsRead(body, k, lead, padding);
    }
    if lead, octets, inner, padding :| IsWrapped(body, k, lead, octets, inner, padding) {
      WrappedIsRead(body, k, lead, octets, inner, padding);
    }
  }

  lemma ReadKeysAreEncoded(body: seq<u8>, k: Outcome)
    requires k.Success? && ClassifyBody(body) == Ok(k)
    ensures || (exists lead, padding :: IsPlain(body, k, lead, padding))
            || (exists lead, octets, inner, padding :: IsWrapped(body, k, lead, octets, inner, padding))
  {
    hide ParseSuccess, Fields, ReadNarrow;
    var lead := StripLeaves(body);
    var trimmed := Strip(body);
    assert trimmed != [] && trimmed[0] == 0xdb;
    if ParseSuccess(trimmed[1..]).Ok? {
      var padding := OnlyFieldsAreRead(trimmed[1..]);
      assert trimmed == [0xdb] + trimmed[1..];
      assert IsPlain(body, k, lead, padding);
    } else {
      UnwrappedIsWrapped(body, lead, trimmed, k);
    }
  }

  lemma UnwrappedIsWrapped(body: seq<u8>, lead: seq<u8>, trimmed: seq<u8>, k: Outcome)
    requires body == lead + trimmed && IsPadding(lead) && trimmed != [] && trimmed[0] == 0xdb
    requires ParseSuccess(trimmed[1..]).Err? && ClassifySuccess(trimmed) == Ok(k)
    ensures exists octets, inner, padding :: IsWrapped(body, k, lead, octets, inner, padding)
  {
    hide ParseSuccess, Fields, ReadNarrow, IsLength, Strip;
    NoPadding();
    StripStrips([], trimmed);
    assert [] + trimmed == trimmed;
    var item := ReadNarrow(trimmed).value;
    var octets := NarrowIsSound(trimmed);
    var inner := OnlyFieldsAreRead(item.value);
    assert IsWrapped(body, k, lead, octets, inner, item.tail);
  }

  /** No body is both: what one reading takes for the length of everything, the other would have to
      take for a RES that is too long. */
  lemma EncodingsDoNotMeet(body: seq<u8>, k: Outcome, lead: seq<u8>, padding: seq<u8>,
                           k': Outcome, lead': seq<u8>, octets: seq<u8>, inner: seq<u8>, padding': seq<u8>)
    requires IsPlain(body, k, lead, padding)
    ensures !IsWrapped(body, k', lead', octets, inner, padding')
  {
    hide ParseSuccess, Fields;
    var plain := [0xdb] + (Fields(k) + padding);
    StripStrips(lead, plain);
    FieldsAreRead(k, padding);
    assert plain[1..] == Fields(k) + padding;
    if IsWrapped(body, k', lead', octets, inner, padding') {
      var value := Fields(k') + inner;
      var wrapped := [0xdb] + octets + value + padding';
      StripStrips(lead', wrapped);
      assert wrapped[1..] == octets + (value + padding');
      WrappedIsNotPlain(octets, k', inner, value + padding');
      assert false;
    }
  }

  /** A resynchronisation token is read from exactly the bodies that hold one of fourteen octets. */
  lemma TokenIsReadExactlyFromItsEncoding(body: seq<u8>, auts: seq<u8>)
    ensures ClassifyBody(body) == Ok(SyncFailure(auts)) <==>
            exists lead, octets, padding :: IsToken(body, auts, lead, octets, padding)
  {
    hide ReadNarrow, ParseSuccess;
    if ClassifyBody(body) == Ok(SyncFailure(auts)) {
      var lead := StripLeaves(body);
      var trimmed := Strip(body);
      if trimmed[0] == 0xdb {
        OnlyKeysFromSuccess(trimmed);
      }
      StripStrips([], trimmed);
      assert [] + trimmed == trimmed;
      var octets := NarrowIsSound(trimmed);
      assert IsToken(body, auts, lead, octets, ReadNarrow(trimmed).value.tail);
    }
    if lead, octets, padding :| IsToken(body, auts, lead, octets, padding) {
      var trimmed := [0xdc] + octets + auts + padding;
      StripStrips(lead, trimmed);
      StripStrips([], trimmed);
      assert [] + trimmed == trimmed;
      NarrowElement(0xdc, octets, auts, padding);
    }
  }

  ghost predicate IsToken(body: seq<u8>, auts: seq<u8>, lead: seq<u8>, octets: seq<u8>, padding: seq<u8>) {
    && |auts| == 14 && IsPadding(lead) && IsPadding(padding)
    && |octets| <= 3 && IsLength(octets, 14)
    && body == lead + ([0xdc] + octets + auts + padding)
  }

  lemma OnlyKeysFromSuccess(trimmed: seq<u8>)
    requires trimmed != []
    ensures ClassifySuccess(trimmed).Ok? ==> ClassifySuccess(trimmed).value.Success?
  {
  }

  /** The tag of a rejection stands alone, or over an empty value. */
  ghost predicate IsRejection(body: seq<u8>, lead: seq<u8>, octets: seq<u8>, padding: seq<u8>) {
    && IsPadding(lead) && IsPadding(padding)
    && (|| body == lead + [0xdd]
        || (|octets| <= 3 && IsLength(octets, 0) && body == lead + ([0xdd] + octets + [] + padding)))
  }

  /** The card's rejection of a challenge is read from exactly those bodies, as the status it came under. */
  lemma RejectionIsReadExactlyFromItsTag(body: seq<u8>, sw1: u8, sw2: u8)
    ensures ClassifyBody(body) == Ok(AuthenticationFailure(sw1, sw2)) <==>
            sw1 == 0x90 && sw2 == 0x00 && exists lead, octets, padding :: IsRejection(body, lead, octets, padding)
  {
    hide ReadNarrow, ParseSuccess;
    if ClassifyBody(body) == Ok(AuthenticationFailure(sw1, sw2)) {
      var lead := StripLeaves(body);
      var trimmed := Strip(body);
      if trimmed[0] == 0xdb {
        OnlyKeysFromSuccess(trimmed);
      }
      if |trimmed| == 1 {
        assert trimmed == [0xdd];
        assert IsRejection(body, lead, [], []);
      } else {
        StripStrips([], trimmed);
        assert [] + trimmed == trimmed;
        var octets := NarrowIsSound(trimmed);
        assert IsRejection(body, lead, octets, ReadNarrow(trimmed).value.tail);
      }
    }
    if lead, octets, padding :| IsRejection(body, lead, octets, padding) {
      RejectionIsRead(body, lead, octets, padding);
    }
  }

  lemma RejectionIsRead(body: seq<u8>, lead: seq<u8>, octets: seq<u8>, padding: seq<u8>)
    requires IsRejection(body, lead, octets, padding)
    ensures ClassifyBody(body) == Ok(AuthenticationFailure(0x90, 0x00))
  {
    hide ReadNarrow, ParseSuccess;
    if body == lead + [0xdd] {
      StripStrips(lead, [0xdd]);
    } else {
      var trimmed := [0xdd] + octets + [] + padding;
      StripStrips(lead, trimmed);
      StripStrips([], trimmed);
      assert [] + trimmed == trimmed;
      NarrowElement(0xdd, octets, [], padding);
    }
  }

  /** And an answer is keys, a token or a rejection, or it is malformed: there is no other outcome. */
  lemma NothingElseIsRead(body: seq<u8>)
    ensures ClassifyBody(body).Err? ==> ClassifyBody(body) == Err(MalformedResponse)
  {
  }
}

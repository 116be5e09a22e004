/** Short messages as they arrive: walking an SMS-DELIVER and an SMS-STATUS-REPORT (3GPP 23.040). */
module Pdu {
  import opened Basics
  import opened Bits
  import opened Septets
  import opened Address
  import opened Calendar
  import Gsm7
  import Utf16

  // ----- The user data header ---------------------------------------------------------

  type Concat = Option<(u16, u8, u8)>

  /** One information element of a header. */
  datatype Element = Element(id: u8, value: seq<u8>)

  /** What an element says about concatenation: identifier 0 has an 8-bit reference, 8 a 16-bit one. */
  function ConcatOf(id: u8, value: seq<u8>): Concat {
    if id == 0x00 && |value| == 3 then Some((value[0], value[1], value[2]))
    else if id == 0x08 && |value| == 4 then Some(((value[0] as int) * 0x100 + value[1], value[2], value[3]))
    else None
  }

  /** The two elements that tell of concatenation, octet by octet; no other does, nor one of another
      length. */
  lemma ConcatIsToldByTwoElements(id: u8, value: seq<u8>, reference: u16, total: u8, part: u8)
    ensures ConcatOf(id, value) == Some((reference, total, part)) <==>
            || (id == 0x00 && value == [reference, total, part])
            || (id == 0x08 && |value| == 4 && value[..2] == [reference / 0x100, reference % 0x100] && value[2..] == [total, part])
  {
    if |value| == 4 {
      assert value[..2] == [value[0], value[1]] && value[2..] == [value[2], value[3]];
    }
  }

  function WalkHeader(header: seq<u8>, offset: nat, found: Concat): Concat
    decreases |header| - offset
  {
    if offset + 2 > |header| then found
    else
      var end := offset + 2 + header[offset + 1];
      if end > |header| then found
      else
        var concat := ConcatOf(header[offset], header[offset + 2..end]);
        WalkHeader(header, end, if concat.Some? then concat else found)
  }

  /** The concatenation parameters, the octets the header takes, and the rest. */
  function SplitHeader(hasHeader: bool, ud: seq<u8>): (Concat, nat, seq<u8>) {
    if !hasHeader || ud == [] then (None, 0, ud)
    else
      var end := 1 + ud[0] as int;
      if end > |ud| then (None, 0, [])
      else (WalkHeader(ud[1..end], 0, None), end, ud[end..])
  }

  method SplitUserDataHeader(hasHeader: bool, ud: seq<u8>) returns (concat: Concat, octets: nat, payload: seq<u8>)
    ensures (concat, octets, payload) == SplitHeader(hasHeader, ud)
  {
    hide ConcatOf;
    if !hasHeader || ud == [] {
      return None, 0, ud;
    }
    var end := 1 + ud[0] as int;
    if end > |ud| {
      return None, 0, [];
    }
    var header := ud[1..end];
    concat := None;
    var offset := 0;
    while offset + 2 <= |header|
      invariant WalkHeader(header, offset, concat) == WalkHeader(header, 0, None)
      decreases |header| - offset
    {
      var valueStart := offset + 2;
      var valueEnd := valueStart + header[offset + 1];
      if valueEnd > |header| {
        break;
      }
      var value := header[valueStart..valueEnd];
      var said := ConcatOf(header[offset], value);
      ghost var found := if said.Some? then said else concat;
      assert WalkHeader(header, offset, concat) == WalkHeader(header, valueEnd, found);
      if said.Some? {
        concat := said;
      }
      offset := valueEnd;
    }
    octets, payload := end, ud[end..];
  }

  ghost predicate AreElements(elements: seq<Element>) {
    forall i :: 0 <= i < |elements| ==> |elements[i].value| < 0x100
  }

  function HeaderBytes(elements: seq<Element>): seq<u8>
    requires AreElements(elements)
  {
    if elements == [] then []
    else [elements[0].id, |elements[0].value|] + elements[0].value + HeaderBytes(elements[1..])
  }

  /** The last element that speaks of concatenation decides. */
  function LastConcat(elements: seq<Element>, found: Concat): Concat {
    if elements == [] then found
    else
      var concat := ConcatOf(elements[0].id, elements[0].value);
      LastConcat(elements[1..], if concat.Some? then concat else found)
  }

  lemma {:induction false} HeaderIsWalked(before: seq<u8>, elements: seq<Element>, found: Concat)
    requires AreElements(elements)
    ensures WalkHeader(before + HeaderBytes(elements), |before|, found) == LastConcat(elements, found)
    decreases |elements|
  {
    hide ConcatOf, WalkHeader, HeaderBytes, LastConcat;
    OneElement(elements, found);
    if elements == [] {
      HeaderEnds(before, found);
      assert before + HeaderBytes(elements) == before;
    } else {
      var e := elements[0];
      var one, rest := [e.id, |e.value|] + e.value, HeaderBytes(elements[1..]);
      ElementInPlace(before, e.id, e.value, rest);
      var concat := ConcatOf(e.id, e.value);
      var found' := if concat.Some? then concat else found;
      HeaderIsWalked(before + one, elements[1..], found');
      HeaderStep(before + HeaderBytes(elements), |before|, e.id, e.value, found);
    }
  }

  lemma OneElement(elements: seq<Element>, found: Concat)
    requires AreElements(elements)
    ensures elements == [] ==> HeaderBytes(elements) == [] && LastConcat(elements, found) == found
    ensures elements != [] ==>
              var e := elements[0];
              var concat := ConcatOf(e.id, e.value);
              && HeaderBytes(elements) == [e.id, |e.value|] + e.value + HeaderBytes(elements[1..])
              && LastConcat(elements, found) == LastConcat(elements[1..], if concat.Some? then concat else found)
  {
    hide ConcatOf;
  }

  lemma HeaderEnds(header: seq<u8>, found: Concat)
    ensures WalkHeader(header, |header|, found) == found
  {
  }

  lemma HeaderStep(header: seq<u8>, offset: nat, id: u8, value: seq<u8>, found: Concat)
    requires offset + 2 + |value| <= |header|
    requires header[offset] == id && header[offset + 1] == |value| && header[offset + 2..offset + 2 + |value|] == value
    ensures var concat := ConcatOf(id, value);
            WalkHeader(header, offset, found)
            == WalkHeader(header, offset + 2 + |value|, if concat.Some? then concat else found)
  {
    hide ConcatOf;
  }

  lemma ElementInPlace(before: seq<u8>, id: u8, value: seq<u8>, rest: seq<u8>)
    requires |value| < 0x100
    ensures var one := [id, |value|] + value;
            var header := before + (one + rest);
            && header == (before + one) + rest
            && header[|before|] == id && header[|before| + 1] == |value|
            && header[|before| + 2..|before| + 2 + |value|] == value
  {
  }

  /** A header of any elements is taken off whole, whatever is in it, and tells the concatenation its
      elements tell. */
  lemma HeaderIsSplit(elements: seq<Element>, payload: seq<u8>)
    requires AreElements(elements) && |HeaderBytes(elements)| < 0x100
    ensures var header := HeaderBytes(elements);
            SplitHeader(true, [|header|] + header + payload) == (LastConcat(elements, None), 1 + |header|, payload)
  {
    hide HeaderBytes, WalkHeader, LastConcat;
    var header := HeaderBytes(elements);
    var ud := [|header|] + header + payload;
    assert ud[1..1 + |header|] == header && ud[1 + |header|..] == payload;
    HeaderIsWalked([], elements, None);
    assert [] + header == header;
  }

  // ----- SMS-DELIVER --------------------------------------------------------------------

  datatype Alphabet = SevenBit | Ucs2 | EightBit | Unknown

  datatype Deliver = Deliver(
    peer: string,
    body: string,
    concat: Concat,
    encoding: Alphabet,
    dcs: Option<u8>,
    receivedAt: Option<int>)

  function HexDigit(n: nat): char
    requires n < 16
  {
    if n < 10 then (n + 0x30) as char else (n + 0x37) as char
  }

  function Hex(bytes: seq<u8>): string {
    if bytes == [] then "" else [HexDigit(bytes[0] / 16), HexDigit(bytes[0] % 16)] + Hex(bytes[1..])
  }

  function Half(n: nat): nat {
    (n + 1) / 2
  }

  /** Where the TPDU starts, after the service centre's address if that leaves anything. */
  function Start(pdu: seq<u8>): (i: nat)
    requires pdu != []
    ensures i < |pdu|
  {
    if 1 + pdu[0] as int < |pdu| then 1 + pdu[0] as int else 0
  }

  /** Every field up to the length of the user data is there. */
  predicate Walkable(pdu: seq<u8>) {
    && pdu != []
    && Start(pdu) + 2 < |pdu|
    && Start(pdu) + 3 + Half(pdu[Start(pdu) + 1]) + 10 <= |pdu|
  }

  function AlphabetOf(dcs: u8): Alphabet {
    match dcs / 4 % 4
    case 2 => Ucs2
    case 1 => EightBit
    case _ => SevenBit
  }

  /** Bits 3 and 2 of the coding scheme, for every scheme. */
  lemma AlphabetIsTwoBits(dcs: u8)
    ensures AlphabetOf(dcs) == Ucs2 <==> dcs / 8 % 2 == 1 && dcs / 4 % 2 == 0
    ensures AlphabetOf(dcs) == EightBit <==> dcs / 8 % 2 == 0 && dcs / 4 % 2 == 1
    ensures AlphabetOf(dcs) == SevenBit <==> dcs / 8 % 2 == dcs / 4 % 2
  {
    assert dcs / 8 == dcs / 4 / 2;
  }

  /** Seven-bit text skips the header in septets of the whole field; the others start after it. */
  function Body(dcs: u8, ud: seq<u8>, header: nat, payload: seq<u8>, udl: nat): string {
    match AlphabetOf(dcs)
    case Ucs2 => Utf16.DecodeUcs2(payload)
    case EightBit => Hex(payload)
    case _ => Gsm7.Decode(ud, header, udl)
  }

  function Undecodable(pdu: seq<u8>): Deliver {
    Deliver("", Hex(pdu), None, Unknown, None, None)
  }

  /** The message, from its fields. */
  function FromFields(first: u8, digits: u8, toa: u8, address: seq<u8>, dcs: u8, stamp: seq<u8>, udl: u8, ud: seq<u8>): Deliver {
    var (concat, header, payload) := SplitHeader(first / 64 % 2 == 1, ud);
    Deliver(DecodeAddress(address, digits, toa), Body(dcs, ud, header, payload, udl), concat,
            AlphabetOf(dcs), Some(dcs), DecodeStamp(stamp))
  }

  function Decoded(pdu: seq<u8>): Deliver {
    if !Walkable(pdu) then Undecodable(pdu)
    else
      var i := Start(pdu);
      var n := Half(pdu[i + 1]);
      FromFields(pdu[i], pdu[i + 1], pdu[i + 2], pdu[i + 3..i + 3 + n], pdu[i + n + 4],
                 pdu[i + n + 5..i + n + 12], pdu[i + n + 12], pdu[i + n + 13..])
  }

  /** The walk with its cursor; it never reads past the end, whatever the bytes. */
  method DecodeDeliver(pdu: seq<u8>) returns (deliver: Deliver)
    ensures deliver == Decoded(pdu)
  {
    hide DecodeStamp, DecodeAddress, Body, Hex;
    if pdu == [] {
      HexOfNothing();
      return Deliver("", "", None, Unknown, None, None);
    }
    var i := 0;
    var smscLen := pdu[0] as int;
    if 1 + smscLen < |pdu| {
      i := 1 + smscLen;
    }
    if i + 2 >= |pdu| {
      return Undecodable(pdu);
    }
    var hasHeader := pdu[i] / 64 % 2 == 1;
    i := i + 1;
    var digits := pdu[i];
    i := i + 1;
    if i >= |pdu| {
      return Undecodable(pdu);
    }
    var toa := pdu[i];
    i := i + 1;
    var addressBytes := (digits as int + 1) / 2;
    if i + addressBytes + 10 > |pdu| {
      return Undecodable(pdu);
    }
    var peer := DecodeAddress(pdu[i..i + addressBytes], digits, toa);
    i := i + addressBytes;
    i := i + 1;
    var dcs := pdu[i];
    i := i + 1;
    var receivedAt := ReadStamp(pdu[i..i + 7]);
    i := i + 7;
    var udl := pdu[i];
    i := i + 1;
    var ud := pdu[i..];
    var concat, header, payload := SplitUserDataHeader(hasHeader, ud);
    deliver := Deliver(peer, Body(dcs, ud, header, payload, udl), concat, AlphabetOf(dcs), Some(dcs), receivedAt);
  }

  lemma HexOfNothing()
    ensures Hex([]) == ""
  {
  }

  function HexValue(c: char): (n: nat)
    ensures n < 16
  {
    if '0' <= c <= '9' then c as int - 0x30 else if 'A' <= c <= 'F' then c as int - 0x37 else 0
  }

  function UnHex(text: string): seq<u8> {
    if |text| < 2 then [] else [HexValue(text[0]) * 16 + HexValue(text[1])] + UnHex(text[2..])
  }

  lemma {:induction false} HexIsRead(bytes: seq<u8>)
    ensures UnHex(Hex(bytes)) == bytes
    decreases |bytes|
  {
    if bytes != [] {
      HexIsRead(bytes[1..]);
      assert Hex(bytes)[2..] == Hex(bytes[1..]);
      assert HexValue(HexDigit(bytes[0] / 16)) == bytes[0] / 16 && HexValue(HexDigit(bytes[0] % 16)) == bytes[0] % 16;
    }
  }

  /** Octets that are no text are shown so that they can be recovered, without their header. */
  lemma OctetsAreShown(dcs: u8, ud: seq<u8>, header: nat, payload: seq<u8>, udl: nat)
    requires dcs / 8 % 2 == 0 && dcs / 4 % 2 == 1
    ensures UnHex(Body(dcs, ud, header, payload, udl)) == payload
  {
    AlphabetIsTwoBits(dcs);
    HexIsRead(payload);
  }

  // ----- When a header reaches the text ---------------------------------------------------

  /** The header announces more octets than there are. */
  predicate IsCutHeader(ud: seq<u8>) {
    ud != [] && 1 + ud[0] as int > |ud|
  }

  /** The octets of the header that are there, its length included. */
  function HeaderOctets(ud: seq<u8>): nat
    requires ud != []
  {
    Least(1 + ud[0] as int, |ud|)
  }

  /** Some bit of the septet lies in the octet. */
  predicate Overlaps(septet: nat, octet: nat) {
    7 * septet < 8 * octet + 8 && 8 * octet < 7 * septet + 7
  }

  /** Some septet that is read lies partly in this octet. */
  ghost predicate ReadsOctet(ud: seq<u8>, skip: nat, count: nat, octet: nat) {
    exists j :: skip <= j < Least(skip + count, 8 * |ud| / 7) && Overlaps(j, octet)
  }

  /** Seven-bit text takes in bits of its header's octets exactly when the header is cut off and any text
      is announced; its first septet is then the header's own length. */
  lemma HeaderReachesTextExactlyWhenCut(ud: seq<u8>, udl: nat)
    requires ud != []
    ensures var skip := HeaderSeptets(SplitHeader(true, ud).1);
            (exists k :: 0 <= k < HeaderOctets(ud) && ReadsOctet(ud, skip, Minus(udl, skip), k)) <==> IsCutHeader(ud) && udl > 0
    ensures IsCutHeader(ud) ==> Gsm7.Decode(ud, SplitHeader(true, ud).1, udl) == Gsm7.DecodeSeptets(Unpack(ud, 0, udl))
    ensures IsCutHeader(ud) && udl > 0 ==> Unpack(ud, 0, udl) != [] && Unpack(ud, 0, udl)[0] == ud[0] % 0x80
  {
    hide WalkHeader, Unpack, Gsm7.DecodeSeptets;
    var skip := HeaderSeptets(SplitHeader(true, ud).1);
    if IsCutHeader(ud) {
      assert skip == 0;
      if udl > 0 {
        assert Overlaps(0, 0);
        assert ReadsOctet(ud, 0, Minus(udl, 0), 0);
        FirstSeptet(ud, udl);
      }
    } else {
      assert forall j, k :: skip <= j && 0 <= k < HeaderOctets(ud) ==> !Overlaps(j, k);
    }
  }

  lemma FirstSeptet(ud: seq<u8>, count: nat)
    requires ud != [] && count > 0
    ensures Unpack(ud, 0, count) != [] && Unpack(ud, 0, count)[0] == ud[0] % 0x80
  {
    SeptetBits(ud, 0);
    StreamAt(ud, 8, 0);
    var bits := Stream(ud, 8);
    var octet := bits[8 * 0..8 * 0 + 8];
    assert octet == ToBits(ud[0], 8) && bits[7 * 0..7 * 0 + 7] == octet[..7];
    PowersOfTwo();
    ToBitsHasValue(ud[0], 8);
    SplitValue(octet, 7);
  }

  /** The other alphabets give no text then. */
  lemma CutHeaderLeavesNoOctets(dcs: u8, ud: seq<u8>, udl: nat)
    requires IsCutHeader(ud) && !AlphabetOf(dcs).SevenBit?
    ensures var (_, header, payload) := SplitHeader(true, ud); Body(dcs, ud, header, payload, udl) == ""
  {
  }

  /** A header that is all there does not show: two fields of one length and one header length that
      agree behind their headers give the same text. */
  lemma WholeHeaderDoesNotShow(dcs: u8, ud: seq<u8>, other: seq<u8>, udl: nat)
    requires ud != [] && !IsCutHeader(ud) && |other| == |ud| && other[0] == ud[0]
    requires other[1 + ud[0] as int..] == ud[1 + ud[0] as int..]
    ensures var (_, header, payload) := SplitHeader(true, ud);
            var (_, header', payload') := SplitHeader(true, other);
            Body(dcs, ud, header, payload, udl) == Body(dcs, other, header', payload', udl)
  {
    hide WalkHeader, Unpack, Gsm7.DecodeSeptets, Hex, Utf16.DecodeUcs2;
    var end := 1 + ud[0] as int;
    HeaderIsNotRead(ud, other, end, Minus(udl, HeaderSeptets(end)));
  }

  // ----- Building a delivery ---------------------------------------------------------------

  /** A delivery as the network lays it out. */
  function Assemble(smsc: seq<u8>, first: u8, digits: u8, toa: u8, address: seq<u8>,
                    pid: u8, dcs: u8, stamp: seq<u8>, udl: u8, ud: seq<u8>): seq<u8>
    requires |smsc| < 0x100
  {
    [|smsc|] + smsc + ([first, digits, toa] + address + ([pid, dcs] + stamp + ([udl] + ud)))
  }

  /** The fields of a delivery. */
  datatype Fields = Fields(
    first: u8,
    digits: u8,
    toa: u8,
    address: seq<u8>,
    pid: u8,
    dcs: u8,
    stamp: seq<u8>,
    udl: u8,
    ud: seq<u8>)

  ghost predicate WellSized(f: Fields) {
    |f.address| == Half(f.digits) && |f.stamp| == 7
  }

  function Tpdu(f: Fields): seq<u8> {
    [f.first, f.digits, f.toa] + f.address + ([f.pid, f.dcs] + f.stamp + ([f.udl] + f.ud))
  }

  function Read(f: Fields): Deliver {
    FromFields(f.first, f.digits, f.toa, f.address, f.dcs, f.stamp, f.udl, f.ud)
  }

  lemma FieldsAreFoundAt(front: seq<u8>, f: Fields)
    requires WellSized(f) && Start(front + Tpdu(f)) == |front|
    ensures Walkable(front + Tpdu(f)) && Decoded(front + Tpdu(f)) == Read(f)
  {
    hide FromFields, Undecodable, Half, Start;
    var head := [f.first, f.digits, f.toa];
    Layout(front, head, f.address, [f.pid, f.dcs], f.stamp, [f.udl] + f.ud);
    var pdu := front + Tpdu(f);
    var i, n := |front|, |f.address|;
    assert pdu[i] == head[0] && pdu[i + 1] == head[1] && pdu[i + 2] == head[2];
    assert pdu[i + 3 + n..][1] == f.dcs;
    TailOfTail(pdu, i + n + 12, [f.udl], f.ud);
  }

  /** Every field of every delivery is found where it was put. */
  lemma FieldsAreFound(smsc: seq<u8>, first: u8, digits: u8, toa: u8, address: seq<u8>,
                       pid: u8, dcs: u8, stamp: seq<u8>, udl: u8, ud: seq<u8>)
    requires |smsc| < 0x100 && |address| == Half(digits) && |stamp| == 7
    ensures Decoded(Assemble(smsc, first, digits, toa, address, pid, dcs, stamp, udl, ud))
            == FromFields(first, digits, toa, address, dcs, stamp, udl, ud)
  {
    hide Decoded, FromFields;
    var f := Fields(first, digits, toa, address, pid, dcs, stamp, udl, ud);
    assert ([|smsc|] + smsc + Tpdu(f))[0] == |smsc|;
    FieldsAreFoundAt([|smsc|] + smsc, f);
  }

  /** A message is fields behind the address of a service centre, or fields alone whose first octet is
      too large for the length of such an address. */
  ghost predicate Carries(pdu: seq<u8>, f: Fields) {
    && WellSized(f)
    && (|| (exists smsc :: Begins(pdu, smsc, f))
        || (pdu == Tpdu(f) && 1 + f.first as int >= |pdu|))
  }

  ghost predicate Begins(pdu: seq<u8>, smsc: seq<u8>, f: Fields) {
    |smsc| < 0x100 && pdu == [|smsc|] + smsc + Tpdu(f)
  }

  lemma CarriedIsRead(pdu: seq<u8>, f: Fields)
    requires Carries(pdu, f)
    ensures Walkable(pdu) && Decoded(pdu) == Read(f)
  {
    hide Decoded, Read, Walkable;
    if smsc :| Begins(pdu, smsc, f) {
      assert pdu[0] == |smsc|;
      FieldsAreFoundAt([|smsc|] + smsc, f);
    } else {
      assert [] + Tpdu(f) == pdu && pdu[0] == f.first;
      FieldsAreFoundAt([], f);
    }
  }

  lemma WalkableCarries(pdu: seq<u8>) returns (f: Fields)
    requires Walkable(pdu)
    ensures Carries(pdu, f)
  {
    var i := Start(pdu);
    var t := pdu[i..];
    var n := Half(t[1]);
    f := Fields(t[0], t[1], t[2], t[3..3 + n], t[3 + n], t[4 + n], t[5 + n..12 + n], t[12 + n], t[13 + n..]);
    SevenPieces(t, n);
    assert t == Tpdu(f);
    if i > 0 {
      assert pdu == [pdu[0]] + pdu[1..i] + t;
      assert Begins(pdu, pdu[1..i], f);
    } else {
      assert t == pdu;
    }
  }

  lemma SevenPieces(t: seq<u8>, n: nat)
    requires 13 + n <= |t|
    ensures t == [t[0], t[1], t[2]] + t[3..3 + n]
                 + ([t[3 + n], t[4 + n]] + t[5 + n..12 + n] + ([t[12 + n]] + t[13 + n..]))
  {
    assert t[12 + n..] == [t[12 + n]] + t[13 + n..];
    assert t[3 + n..] == [t[3 + n], t[4 + n]] + t[5 + n..12 + n] + t[12 + n..];
    assert t == [t[0], t[1], t[2]] + t[3..3 + n] + t[3 + n..];
  }

  /** A message is decoded exactly if it carries the fields of a delivery, and then as those fields read;
      otherwise it is called unknown and all its bytes can be recovered from its text. */
  lemma DecodedExactlyWhenItCarriesFields(pdu: seq<u8>)
    ensures Decoded(pdu).dcs.Some? <==> exists f :: Carries(pdu, f)
    ensures forall f :: Carries(pdu, f) ==> Decoded(pdu) == Read(f)
    ensures Decoded(pdu).dcs.None? ==> Decoded(pdu).encoding.Unknown? && UnHex(Decoded(pdu).body) == pdu
  {
    hide Carries, Read, Walkable, Hex, UnHex;
    forall f | Carries(pdu, f)
      ensures Walkable(pdu) && Decoded(pdu) == Read(f)
    {
      CarriedIsRead(pdu, f);
    }
    if Walkable(pdu) {
      var f := WalkableCarries(pdu);
    }
    HexIsRead(pdu);
  }

  lemma TailOfTail(s: seq<u8>, i: nat, a: seq<u8>, b: seq<u8>)
    requires i <= |s| && s[i..] == a + b
    ensures s[i + |a|..] == b
    ensures forall k :: 0 <= k < |a| ==> s[i + k] == a[k]
  {
    assert s[i + |a|..] == s[i..][|a|..];
    assert forall k :: 0 <= k < |a| ==> s[i + k] == s[i..][k];
  }

  /** Where the pieces of a message are. */
  lemma Layout(front: seq<u8>, a: seq<u8>, b: seq<u8>, c: seq<u8>, d: seq<u8>, e: seq<u8>)
    ensures var s := front + (a + b + (c + d + e));
            var i, j := |front| + |a|, |front| + |a| + |b|;
            && (forall k :: 0 <= k < |front| ==> s[k] == front[k])
            && (forall k :: 0 <= k < |a| ==> s[|front| + k] == a[k])
            && s[i..j] == b
            && (forall k :: 0 <= k < |c| ==> s[j..][k] == c[k])
            && s[j..j + |c|] == c
            && s[j + |c|..j + |c| + |d|] == d
            && s[j + |c| + |d|..] == e
  {
    InPlace(front, a, b, c + d + e);
    InPlace(front + a + b, c, d, e);
    var s, j := front + (a + b + (c + d + e)), |front| + |a| + |b|;
    assert s == (front + a + b) + (c + d + e);
    assert s[j..] == c + d + e;
    assert s[j..j + |c|] == s[j..][..|c|] == c;
  }

  /** Where three pieces after a front are. */
  lemma InPlace(front: seq<u8>, a: seq<u8>, b: seq<u8>, c: seq<u8>)
    ensures var all := front + (a + b + c);
            && all == front + a + b + c
            && (forall k :: 0 <= k < |a| ==> all[|front| + k] == a[k])
            && all[|front| + |a|..|front| + |a| + |b|] == b
            && all[|front| + |a| + |b|..] == c
  {
    assert front + (a + b + c) == front + a + b + c;
  }

  // ----- SMS-STATUS-REPORT -------------------------------------------------------------------

  datatype Fate = Arrived | Pending | Failed | Unclear

  /** The ranges of TP-ST. */
  function FateOf(status: u8): Fate {
    if status < 0x20 then Arrived
    else if status < 0x40 then Pending
    else if status < 0x80 then Failed
    else Unclear
  }

  /** What a status says in its three highest bits (section 9.2.3.15 of 3GPP TS 23.040): the transfer is
      over and succeeded, goes on, is over and failed, or something reserved. */
  ghost predicate Means(status: u8, fate: Fate) {
    match fate
    case Arrived => status / 0x20 == 0
    case Pending => status / 0x20 == 1
    case Failed => status / 0x20 == 2 || status / 0x20 == 3
    case Unclear => status / 0x20 >= 4
  }

  lemma FateIsMeant(status: u8)
    ensures Means(status, FateOf(status)) && forall fate :: Means(status, fate) ==> fate == FateOf(status)
  {
  }

  datatype Report = Report(
    reference: u8,
    peer: string,
    fate: Fate,
    status: u8,
    submittedAt: Option<int>,
    deliveredAt: Option<int>)

  predicate IsReport(pdu: seq<u8>) {
    && pdu != []
    && pdu[Start(pdu)] % 4 == 2
    && Start(pdu) + 3 < |pdu|
    && Start(pdu) + 4 + Half(pdu[Start(pdu) + 2]) + 15 <= |pdu|
  }

  function ReportFrom(pdu: seq<u8>): Option<Report> {
    if !IsReport(pdu) then None
    else
      var i := Start(pdu);
      var n := Half(pdu[i + 2]);
      var status := pdu[i + n + 18];
      Some(Report(pdu[i + 1], DecodeAddress(pdu[i + 4..i + 4 + n], pdu[i + 2], pdu[i + 3]), FateOf(status), status,
                  DecodeStamp(pdu[i + n + 4..i + n + 11]), DecodeStamp(pdu[i + n + 11..i + n + 18])))
  }

  method DecodeStatusReport(pdu: seq<u8>) returns (report: Option<Report>)
    ensures report == ReportFrom(pdu)
  {
    hide DecodeStamp, DecodeAddress;
    if pdu == [] {
      return None;
    }
    var i := 0;
    var smscLen := pdu[0] as int;
    if 1 + smscLen < |pdu| {
      i := 1 + smscLen;
    }
    if i >= |pdu| || pdu[i] % 4 != 2 {
      return None;
    }
    i := i + 1;
    if i >= |pdu| {
      return None;
    }
    var reference := pdu[i];
    i := i + 1;
    if i + 1 >= |pdu| {
      return None;
    }
    var digits, toa := pdu[i], pdu[i + 1];
    i := i + 2;
    var addressBytes := (digits as int + 1) / 2;
    if i + addressBytes + 15 > |pdu| {
      return None;
    }
    var peer := DecodeAddress(pdu[i..i + addressBytes], digits, toa);
    i := i + addressBytes;
    var submittedAt := ReadStamp(pdu[i..i + 7]);
    i := i + 7;
    var deliveredAt := ReadStamp(pdu[i..i + 7]);
    i := i + 7;
    report := Some(Report(reference, peer, FateOf(pdu[i]), pdu[i], submittedAt, deliveredAt));
  }

  /** The fields of a report, and whatever follows them. */
  datatype ReportFields = ReportFields(
    first: u8,
    reference: u8,
    digits: u8,
    toa: u8,
    address: seq<u8>,
    submitted: seq<u8>,
    discharged: seq<u8>,
    status: u8,
    rest: seq<u8>)

  ghost predicate ReportSized(f: ReportFields) {
    f.first % 4 == 2 && |f.address| == Half(f.digits) && |f.submitted| == 7 && |f.discharged| == 7
  }

  function ReportTpdu(f: ReportFields): seq<u8> {
    [f.first, f.reference, f.digits, f.toa] + f.address + (f.submitted + f.discharged + ([f.status] + f.rest))
  }

  /** The report says what the fields say. */
  ghost predicate Reports(r: Report, f: ReportFields) {
    && Means(f.status, r.fate)
    && r == Report(f.reference, DecodeAddress(f.address, f.digits, f.toa), r.fate, f.status,
                   DecodeStamp(f.submitted), DecodeStamp(f.discharged))
  }

  /** Fields behind the address of a service centre, or alone with a first octet too large for one. */
  ghost predicate CarriesReport(pdu: seq<u8>, f: ReportFields) {
    && ReportSized(f)
    && (|| (exists smsc :: ReportBegins(pdu, smsc, f))
        || (pdu == ReportTpdu(f) && 1 + f.first as int >= |pdu|))
  }

  ghost predicate ReportBegins(pdu: seq<u8>, smsc: seq<u8>, f: ReportFields) {
    |smsc| < 0x100 && pdu == [|smsc|] + smsc + ReportTpdu(f)
  }

  lemma ReportIsReadAt(front: seq<u8>, f: ReportFields)
    requires ReportSized(f) && Start(front + ReportTpdu(f)) == |front|
    ensures ReportFrom(front + ReportTpdu(f)).Some? && Reports(ReportFrom(front + ReportTpdu(f)).value, f)
  {
    hide DecodeStamp, DecodeAddress, Half, FateOf, Start, Means;
    var head := [f.first, f.reference, f.digits, f.toa];
    Layout(front, head, f.address, f.submitted, f.discharged, [f.status] + f.rest);
    var pdu := front + ReportTpdu(f);
    var i, n := |front|, |f.address|;
    assert pdu[i] == head[0] && pdu[i + 1] == head[1] && pdu[i + 2] == head[2] && pdu[i + 3] == head[3];
    TailOfTail(pdu, i + n + 18, [f.status], f.rest);
    assert |pdu| == i + n + 19 + |f.rest|;
    assert IsReport(pdu);
    FateIsMeant(f.status);
  }

  lemma CarriedReportIsRead(pdu: seq<u8>, f: ReportFields)
    requires CarriesReport(pdu, f)
    ensures ReportFrom(pdu).Some? && Reports(ReportFrom(pdu).value, f)
  {
    hide ReportFrom, Reports;
    if smsc :| ReportBegins(pdu, smsc, f) {
      assert pdu[0] == |smsc|;
      ReportIsReadAt([|smsc|] + smsc, f);
    } else {
      assert [] + ReportTpdu(f) == pdu && pdu[0] == f.first;
      ReportIsReadAt([], f);
    }
  }

  lemma ReadReportIsCarried(pdu: seq<u8>) returns (f: ReportFields)
    requires ReportFrom(pdu).Some?
    ensures CarriesReport(pdu, f)
  {
    hide DecodeStamp, DecodeAddress, FateOf;
    var i := Start(pdu);
    var t := pdu[i..];
    var n := Half(t[2]);
    f := ReportFields(t[0], t[1], t[2], t[3], t[4..4 + n], t[4 + n..11 + n], t[11 + n..18 + n], t[18 + n], t[19 + n..]);
    ReportPieces(t, n);
    assert t == ReportTpdu(f);
    if i > 0 {
      assert pdu == [pdu[0]] + pdu[1..i] + t;
      assert ReportBegins(pdu, pdu[1..i], f);
    } else {
      assert t == pdu;
    }
  }

  lemma ReportPieces(t: seq<u8>, n: nat)
    requires 19 + n <= |t|
    ensures t == [t[0], t[1], t[2], t[3]] + t[4..4 + n]
                 + (t[4 + n..11 + n] + t[11 + n..18 + n] + ([t[18 + n]] + t[19 + n..]))
  {
    assert t[18 + n..] == [t[18 + n]] + t[19 + n..];
    assert t[4 + n..] == t[4 + n..11 + n] + t[11 + n..18 + n] + t[18 + n..];
    assert t == [t[0], t[1], t[2], t[3]] + t[4..4 + n] + t[4 + n..];
  }

  /** A status report is read from exactly the messages that carry the fields of one, and says what they
      say, the reference first of all: it is what ties the report to the message it is about. */
  lemma ReportIsReadExactlyWhenCarried(pdu: seq<u8>)
    ensures ReportFrom(pdu).Some? <==> exists f :: CarriesReport(pdu, f)
    ensures forall f :: CarriesReport(pdu, f) ==> ReportFrom(pdu).Some? && Reports(ReportFrom(pdu).value, f)
  {
    hide ReportFrom, CarriesReport, Reports;
    forall f | CarriesReport(pdu, f)
      ensures ReportFrom(pdu).Some? && Reports(ReportFrom(pdu).value, f)
    {
      CarriedReportIsRead(pdu, f);
    }
    if ReportFrom(pdu).Some? {
      var f := ReadReportIsCarried(pdu);
    }
  }

  /** Every field of every report is found where it was put. */
  lemma ReportIsRead(smsc: seq<u8>, f: ReportFields)
    requires |smsc| < 0x100 && ReportSized(f)
    ensures var pdu := [|smsc|] + smsc + ReportTpdu(f);
            ReportFrom(pdu).Some? && Reports(ReportFrom(pdu).value, f)
  {
    hide ReportFrom, Reports;
    var pdu := [|smsc|] + smsc + ReportTpdu(f);
    assert ReportBegins(pdu, smsc, f);
    CarriedReportIsRead(pdu, f);
  }
}

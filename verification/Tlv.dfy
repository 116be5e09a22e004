/** BER-TLV as this program reads and writes it, against the grammar it is meant to follow. */
module Tlv {
  import opened Basics

  // ----- The grammar ------------------------------------------------------------

  /** A tag: one byte, or, when its low five bits are all ones, that byte and a run of
      continuation bytes whose last has its top bit clear. */
  ghost predicate IsTag(tag: seq<u8>) {
    && tag != []
    && if tag[0] % 32 != 31 then |tag| == 1
       else
         && |tag| >= 2
         && (forall i :: 1 <= i < |tag| - 1 ==> tag[i] >= 0x80)
         && tag[|tag| - 1] < 0x80
  }

  function BigEndian(bytes: seq<u8>): nat {
    if bytes == [] then 0 else BigEndian(bytes[..|bytes| - 1]) * 256 + bytes[|bytes| - 1]
  }

  /** The octets that may stand for a length: the short form, or up to four big-endian octets
      after one that counts them. */
  ghost predicate IsLength(octets: seq<u8>, length: nat) {
    || (|octets| == 1 && octets[0] < 0x80 && octets[0] == length)
    || (2 <= |octets| <= 5 && octets[0] == 0x80 + |octets| - 1 && BigEndian(octets[1..]) == length)
  }

  ghost predicate Splits(bytes: seq<u8>, tag: seq<u8>, octets: seq<u8>, value: seq<u8>, tail: seq<u8>) {
    && bytes == tag + octets + value + tail
    && IsTag(tag)
    && IsLength(octets, |value|)
  }

  // ----- Reading ----------------------------------------------------------------

  datatype Item = Item(tag: seq<u8>, value: seq<u8>, tail: seq<u8>)

  function TagEnd(bytes: seq<u8>, i: nat): Option<nat>
    requires i <= |bytes|
    decreases |bytes| - i
  {
    if i == |bytes| then None
    else if bytes[i] < 0x80 then Some(i + 1)
    else TagEnd(bytes, i + 1)
  }

  function TagLength(bytes: seq<u8>): Option<nat> {
    if bytes == [] then None
    else if bytes[0] % 32 != 31 then Some(1)
    else TagEnd(bytes, 1)
  }

  lemma {:induction false} TagEndIsFirst(bytes: seq<u8>, i: nat, end: nat)
    requires i <= |bytes|
    ensures TagEnd(bytes, i) == Some(end) <==>
              (&& i < end <= |bytes| && bytes[end - 1] < 0x80
               && forall j :: i <= j < end - 1 ==> bytes[j] >= 0x80)
    decreases |bytes| - i
  {
    if i < |bytes| && bytes[i] >= 0x80 {
      TagEndIsFirst(bytes, i + 1, end);
    }
  }

  lemma TagLengthIsTag(bytes: seq<u8>, n: nat)
    ensures TagLength(bytes) == Some(n) <==> n <= |bytes| && IsTag(bytes[..n])
  {
    if bytes != [] {
      TagEndIsFirst(bytes, 1, n);
      if 0 < n <= |bytes| {
        var tag := bytes[..n];
        assert tag[0] == bytes[0] && tag[n - 1] == bytes[n - 1];
        assert forall i :: 0 <= i < n ==> tag[i] == bytes[i];
      }
    }
  }

  function Cut(bytes: seq<u8>, tag: nat, start: nat, length: nat): Option<Item>
    requires tag <= start <= |bytes|
  {
    if start + length > |bytes| then None
    else Some(Item(bytes[..tag], bytes[start..start + length], bytes[start + length..]))
  }

  function Parse(bytes: seq<u8>): Option<Item> {
    match TagLength(bytes)
    case None => None
    case Some(t) =>
      TagLengthIsTag(bytes, t);
      if t == |bytes| then None
      else if bytes[t] < 0x80 then Cut(bytes, t, t + 1, bytes[t])
      else
        var count := bytes[t] - 0x80;
        if count == 0 || count > 4 || t + 1 + count > |bytes| then None
        else Cut(bytes, t, t + 1 + count, BigEndian(bytes[t + 1..t + 1 + count]))
  }

  lemma FourPieces(bytes: seq<u8>, a: nat, b: nat, c: nat)
    requires a <= b <= c <= |bytes|
    ensures bytes == bytes[..a] + bytes[a..b] + bytes[b..c] + bytes[c..]
  {
  }

  /** What is read is an element of the grammar at the front of the bytes. */
  lemma ParseIsSound(bytes: seq<u8>) returns (octets: seq<u8>)
    requires Parse(bytes).Some?
    ensures var item := Parse(bytes).value;
            Splits(bytes, item.tag, octets, item.value, item.tail)
  {
    hide BigEndian, TagLength, IsTag;
    var item := Parse(bytes).value;
    var t := TagLength(bytes).value;
    TagLengthIsTag(bytes, t);
    var start := |bytes| - |item.tail| - |item.value|;
    octets := bytes[t..start];
    if bytes[t] >= 0x80 {
      assert octets[1..] == bytes[t + 1..start];
    }
    FourPieces(bytes, t, start, start + |item.value|);
  }

  /** Every element of the grammar is read, whatever follows it, and in the only way it can be. */
  lemma ParseIsComplete(bytes: seq<u8>, tag: seq<u8>, octets: seq<u8>, value: seq<u8>, tail: seq<u8>)
    requires Splits(bytes, tag, octets, value, tail)
    ensures Parse(bytes) == Some(Item(tag, value, tail))
  {
    var t, start := |tag|, |tag| + |octets|;
    assert bytes[..t] == tag;
    TagLengthIsTag(bytes, t);
    assert bytes[t] == octets[0];
    assert bytes[t..start] == octets;
    if |octets| > 1 {
      assert bytes[t + 1..start] == octets[1..];
    }
    assert bytes[start..start + |value|] == value;
    assert bytes[start + |value|..] == tail;
  }

  /** Reading succeeds exactly on the grammar, and there is one way to read. */
  lemma ParsesExactlyTheGrammar(bytes: seq<u8>, item: Item)
    ensures Parse(bytes) == Some(item) <==> exists octets :: Splits(bytes, item.tag, octets, item.value, item.tail)
  {
    if Parse(bytes) == Some(item) {
      var octets := ParseIsSound(bytes);
    }
    if octets :| Splits(bytes, item.tag, octets, item.value, item.tail) {
      ParseIsComplete(bytes, item.tag, octets, item.value, item.tail);
    }
  }

  /** The element itself: everything before the tail. */
  function Element(bytes: seq<u8>): seq<u8>
    requires Parse(bytes).Some?
  {
    TagLengthIsTag(bytes, TagLength(bytes).value);
    bytes[..|bytes| - |Parse(bytes).value.tail|]
  }

  function Header(bytes: seq<u8>): seq<u8>
    requires Parse(bytes).Some?
  {
    TagLengthIsTag(bytes, TagLength(bytes).value);
    bytes[..|bytes| - |Parse(bytes).value.tail| - |Parse(bytes).value.value|]
  }

  /** The first element reads the same on its own as with anything after it. */
  lemma ElementStandsAlone(bytes: seq<u8>, more: seq<u8>)
    requires Parse(bytes).Some?
    ensures var item := Parse(bytes).value;
            && |Element(bytes)| >= 2
            && bytes == Element(bytes) + item.tail
            && Element(bytes) == Header(bytes) + item.value
            && Parse(Element(bytes) + more) == Some(Item(item.tag, item.value, more))
            && Header(Element(bytes) + more) == Header(bytes)
            && Element(Element(bytes) + more) == Element(bytes)
  {
    var octets := ParseIsSound(bytes);
    var item := Parse(bytes).value;
    assert Element(bytes) == item.tag + octets + item.value;
    ParseIsComplete(Element(bytes) + more, item.tag, octets, item.value, more);
  }

  // ----- The two readers that loop ------------------------------------------------

  lemma BigEndianPush(bytes: seq<u8>, byte: u8)
    ensures BigEndian(bytes + [byte]) == BigEndian(bytes) * 256 + byte
  {
    assert (bytes + [byte])[..|bytes|] == bytes;
  }

  lemma NoOctetsAreZero(bytes: seq<u8>, i: nat)
    requires i <= |bytes|
    ensures BigEndian(bytes[i..i]) == 0
  {
  }

  lemma OneMoreOctet(bytes: seq<u8>, start: nat, cursor: nat)
    requires start <= cursor < |bytes|
    ensures BigEndian(bytes[start..cursor + 1]) == BigEndian(bytes[start..cursor]) * 256 + bytes[cursor]
  {
    BigEndianPush(bytes[start..cursor], bytes[cursor]);
    assert bytes[start..cursor + 1] == bytes[start..cursor] + [bytes[cursor]];
  }

  /** The tag loop of the card's reader. */
  method ScanTag(bytes: seq<u8>) returns (end: Option<nat>)
    ensures end == TagLength(bytes)
  {
    if bytes == [] {
      return None;
    }
    var cursor := 1;
    if bytes[0] % 32 == 31 {
      while true
        invariant 1 <= cursor <= |bytes|
        invariant TagEnd(bytes, cursor) == TagEnd(bytes, 1)
        decreases |bytes| - cursor
      {
        if cursor == |bytes| {
          return None;
        }
        var next := bytes[cursor];
        cursor := cursor + 1;
        if next < 0x80 {
          break;
        }
      }
    }
    end := Some(cursor);
  }

  /** Its length loop: big-endian octets folded into one number. */
  method ScanLength(bytes: seq<u8>, start: nat, count: nat) returns (length: Option<nat>)
    requires start <= |bytes|
    ensures length == if start + count > |bytes| then None else Some(BigEndian(bytes[start..start + count]))
  {
    hide BigEndian;
    var value: nat, cursor := 0, start;
    NoOctetsAreZero(bytes, start);
    for i := 0 to count
      invariant cursor == start + i <= |bytes|
      invariant value == BigEndian(bytes[start..cursor])
    {
      if cursor == |bytes| {
        return None;
      }
      OneMoreOctet(bytes, start, cursor);
      value := value * 256 + bytes[cursor];
      cursor := cursor + 1;
    }
    length := Some(value);
  }

  method ReadTlv(bytes: seq<u8>) returns (item: Option<Item>)
    ensures item == Parse(bytes)
  {
    var tag := ScanTag(bytes);
    if tag.None? {
      return None;
    }
    TagLengthIsTag(bytes, tag.value);
    var cursor := tag.value;
    if cursor == |bytes| {
      return None;
    }
    var lengthByte := bytes[cursor];
    cursor := cursor + 1;
    var length: nat := lengthByte;
    if lengthByte >= 0x80 {
      var count := lengthByte - 0x80;
      if count == 0 || count > 4 {
        return None;
      }
      var long := ScanLength(bytes, cursor, count);
      if long.None? {
        return None;
      }
      length := long.value;
      cursor := cursor + count;
    }
    if cursor + length > |bytes| {
      return None;
    }
    item := Some(Item(bytes[..tag.value], bytes[cursor..cursor + length], bytes[cursor + length..]));
  }

  /** Steps over the tag without collecting it. */
  method SkipDerTag(bytes: seq<u8>) returns (end: Option<nat>)
    ensures end == TagLength(bytes)
  {
    if bytes == [] {
      return None;
    }
    end := Some(1);
    if bytes[0] % 32 == 31 {
      var cursor := 1;
      while cursor < |bytes| && bytes[cursor] >= 0x80
        invariant 1 <= cursor <= |bytes|
        invariant TagEnd(bytes, 1) == TagEnd(bytes, cursor)
      {
        cursor := cursor + 1;
      }
      end := if cursor == |bytes| then None else Some(cursor + 1);
    }
  }

  /** The certificate parser has a reader of its own.  It keeps the tag as a slice, folds the length in
      place, and also hands over the bytes a signature is computed over.  Proved against the same
      grammar, it accepts what the card's reader accepts and splits it alike. */
  method ReadDer(bytes: seq<u8>) returns (r: Option<(Item, seq<u8>)>)
    ensures r.Some? <==> Parse(bytes).Some?
    ensures r.Some? ==>
              && r.value.0 == Parse(bytes).value
              && r.value.1 + r.value.0.tail == bytes
              && Parse(r.value.1) == Some(r.value.0.(tail := []))
  {
    hide BigEndian, TagLength, IsTag, TagEnd;
    var tagEnd := SkipDerTag(bytes);
    if tagEnd.None? {
      return None;
    }
    TagLengthIsTag(bytes, tagEnd.value);
    var cursor := tagEnd.value;
    var tag := bytes[..cursor];
    if cursor == |bytes| {
      return None;
    }
    var lengthByte := bytes[cursor];
    cursor := cursor + 1;
    var length: nat := lengthByte;
    if lengthByte >= 0x80 {
      var count := lengthByte - 0x80;
      if count == 0 || count > 4 {
        return None;
      }
      length := 0;
      NoOctetsAreZero(bytes, cursor);
      for i := 0 to count
        invariant cursor == |tag| + 1 + i <= |bytes|
        invariant length == BigEndian(bytes[|tag| + 1..cursor])
      {
        if cursor == |bytes| {
          return None;
        }
        OneMoreOctet(bytes, |tag| + 1, cursor);
        length := length * 256 + bytes[cursor];
        cursor := cursor + 1;
      }
    }
    var end := cursor + length;
    if end > |bytes| {
      return None;
    }
    r := Some((Item(tag, bytes[cursor..end], bytes[end..]), bytes[..end]));
    TotalIsTheElement(bytes, end);
  }

  lemma TotalIsTheElement(bytes: seq<u8>, end: nat)
    requires end <= |bytes| && Parse(bytes).Some? && Parse(bytes).value.tail == bytes[end..]
    ensures Parse(bytes[..end]) == Some(Parse(bytes).value.(tail := []))
  {
    ElementStandsAlone(bytes, []);
    assert Element(bytes) + [] == Element(bytes) == bytes[..end];
  }

  // ----- A row of elements -----------------------------------------------------------

  ghost predicate IsElement(bytes: seq<u8>) {
    Parse(bytes).Some? && Parse(bytes).value.tail == []
  }

  ghost predicate AreElements(row: seq<seq<u8>>) {
    forall i :: 0 <= i < |row| ==> IsElement(row[i])
  }

  /** The elements a value is made of, if it is made of elements and nothing else. */
  function Elements(bytes: seq<u8>): Option<seq<seq<u8>>>
    decreases |bytes|
  {
    if bytes == [] then Some([])
    else
      match Parse(bytes)
      case None => None
      case Some(item) =>
        ElementStandsAlone(bytes, []);
        match Elements(item.tail)
        case None => None
        case Some(row) => Some([Element(bytes)] + row)
  }

  lemma {:induction false} ElementsMakeUp(bytes: seq<u8>)
    ensures Elements(bytes).Some? ==> AreElements(Elements(bytes).value) && Flatten(Elements(bytes).value) == bytes
    decreases |bytes|
  {
    if bytes != [] && Parse(bytes).Some? {
      var item := Parse(bytes).value;
      ElementStandsAlone(bytes, []);
      assert Element(bytes) + [] == Element(bytes);
      ElementsMakeUp(item.tail);
    }
  }

  lemma {:induction false} ElementsAreFound(row: seq<seq<u8>>)
    requires AreElements(row)
    ensures Elements(Flatten(row)) == Some(row)
    decreases |row|
  {
    hide Parse, Header;
    if row != [] {
      var rest := row[1..];
      ElementsAreFound(rest);
      assert IsElement(row[0]);
      assert Element(row[0]) == row[0];
      ElementStandsAlone(row[0], Flatten(rest));
      assert row == [row[0]] + rest;
    }
  }

  /** There is one way to take bytes apart into elements, and it is found when there is one. */
  lemma ElementsAreTheOnlySplit(bytes: seq<u8>, row: seq<seq<u8>>)
    ensures Elements(bytes) == Some(row) <==> AreElements(row) && Flatten(row) == bytes
  {
    ElementsMakeUp(bytes);
    if AreElements(row) && Flatten(row) == bytes {
      ElementsAreFound(row);
    }
  }

  /** Puts what was found already in front of what is still to be found. */
  function After(done: seq<seq<u8>>, rest: Option<seq<seq<u8>>>): Option<seq<seq<u8>>> {
    match rest
    case None => None
    case Some(row) => Some(done + row)
  }

  method Children(bytes: seq<u8>) returns (row: Option<seq<seq<u8>>>)
    ensures row == Elements(bytes)
  {
    var done: seq<seq<u8>>, rest := [], bytes;
    assert Elements(bytes).Some? ==> [] + Elements(bytes).value == Elements(bytes).value;
    while rest != []
      invariant After(done, Elements(rest)) == Elements(bytes)
      decreases |rest|
    {
      var field := ReadDer(rest);
      if field.None? {
        return None;
      }
      ElementStandsAlone(rest, []);
      ghost var later := Elements(field.value.0.tail);
      assert field.value.1 == Element(rest);
      assert later.Some? ==> (done + [Element(rest)]) + later.value == done + ([Element(rest)] + later.value);
      done := done + [field.value.1];
      rest := field.value.0.tail;
    }
    assert done + [] == done;
    row := Some(done);
  }

  /** The value of the first child with the wanted tag, up to the first unreadable byte. */
  function Find(body: seq<u8>, tag: seq<u8>): Option<seq<u8>>
    decreases |body|
  {
    match Parse(body)
    case None => None
    case Some(item) =>
      ElementStandsAlone(body, []);
      if item.tag == tag then Some(item.value) else Find(item.tail, tag)
  }

  method FindTag(body: seq<u8>, tag: seq<u8>) returns (value: Option<seq<u8>>)
    ensures value == Find(body, tag)
  {
    var rest := body;
    while rest != []
      invariant Find(rest, tag) == Find(body, tag)
      decreases |rest|
    {
      var item := ReadTlv(rest);
      if item.None? {
        return None;
      }
      ElementStandsAlone(rest, []);
      rest := item.value.tail;
      if item.value.tag == tag {
        return Some(item.value.value);
      }
    }
    value := None;
  }

  /** The element with this tag and value stands behind others, none of which has the tag; what follows
      it may be anything. */
  ghost predicate StandsFirst(body: seq<u8>, tag: seq<u8>, value: seq<u8>, before: seq<seq<u8>>, e: seq<u8>, rest: seq<u8>) {
    && body == Flatten(before) + (e + rest)
    && AreElements(before) && (forall i :: 0 <= i < |before| ==> Parse(before[i]).value.tag != tag)
    && Parse(e) == Some(Item(tag, value, []))
  }

  lemma {:induction false} FirstIsFound(body: seq<u8>, tag: seq<u8>, value: seq<u8>, before: seq<seq<u8>>, e: seq<u8>, rest: seq<u8>)
    requires StandsFirst(body, tag, value, before, e, rest)
    ensures Find(body, tag) == Some(value)
    decreases |before|
  {
    hide Parse;
    if before == [] {
      assert body == e + rest && Element(e) == e;
      ElementStandsAlone(e, rest);
    } else {
      var later := Flatten(before[1..]) + (e + rest);
      assert IsElement(before[0]) && Element(before[0]) == before[0];
      assert body == before[0] + later;
      ElementStandsAlone(before[0], later);
      FirstIsFound(later, tag, value, before[1..], e, rest);
    }
  }

  lemma {:induction false} FoundIsFirst(body: seq<u8>, tag: seq<u8>) returns (before: seq<seq<u8>>, e: seq<u8>, rest: seq<u8>)
    requires Find(body, tag).Some?
    ensures StandsFirst(body, tag, Find(body, tag).value, before, e, rest)
    decreases |body|
  {
    hide Parse;
    var item := Parse(body).value;
    ElementStandsAlone(body, []);
    assert Element(body) + [] == Element(body);
    if item.tag == tag {
      before, e, rest := [], Element(body), item.tail;
      assert Flatten(before) + (e + rest) == body;
    } else {
      var later;
      later, e, rest := FoundIsFirst(item.tail, tag);
      before := [Element(body)] + later;
      assert before[1..] == later;
      assert Element(body) + (Flatten(later) + (e + rest)) == Flatten(before) + (e + rest);
    }
  }

  /** A value is found exactly if an element with the tag stands first of its tag in a row of elements. */
  lemma FoundExactlyWhenFirst(body: seq<u8>, tag: seq<u8>, value: seq<u8>)
    ensures Find(body, tag) == Some(value) <==> exists before, e, rest :: StandsFirst(body, tag, value, before, e, rest)
  {
    hide Find, StandsFirst;
    if Find(body, tag) == Some(value) {
      var before, e, rest := FoundIsFirst(body, tag);
    }
    if before, e, rest :| StandsFirst(body, tag, value, before, e, rest) {
      FirstIsFound(body, tag, value, before, e, rest);
    }
  }

  // ----- Writing --------------------------------------------------------------------

  function DerLength(length: nat): seq<u8> {
    if length < 0x80 then [length]
    else if length <= 0xff then [0x81, length]
    else if length <= 0xffff then [0x82, length / 0x100, length % 0x100]
    else [0x83, length / 0x1_0000 % 0x100, length / 0x100 % 0x100, length % 0x100]
  }

  function Encode(tag: seq<u8>, value: seq<u8>): seq<u8> {
    tag + DerLength(|value|) + value
  }

  lemma BigEndianOfThree(a: u8, b: u8, c: u8)
    ensures BigEndian([a]) == a
    ensures BigEndian([a, b]) == a * 0x100 + b
    ensures BigEndian([a, b, c]) == a * 0x1_0000 + b * 0x100 + c
  {
    assert [a][..0] == [] && [a, b][..1] == [a] && [a, b, c][..2] == [a, b];
    assert BigEndian([a]) == a;
    assert BigEndian([a, b]) == a * 0x100 + b;
  }

  lemma OctetsOf(n: nat, rest: nat, b: u8, c: u8)
    requires n == 0x1_0000 * rest + 0x100 * b + c
    ensures n / 0x1_0000 == rest && n % 0x1_0000 == 0x100 * b + c
    ensures n / 0x100 % 0x100 == b && n % 0x100 == c
  {
    assert n / 0x100 == 0x100 * rest + b;
  }

  lemma LowOctets(n: nat)
    ensures n % 0x1_0000 == n / 0x100 % 0x100 * 0x100 + n % 0x100
    ensures n % 0x100_0000 == n / 0x1_0000 % 0x100 * 0x1_0000 + n % 0x1_0000
  {
    var m := n / 0x100;
    var rest := m / 0x100;
    OctetsOf(n, rest, m % 0x100, n % 0x100);
    TopOctet(n, rest / 0x100, rest % 0x100, n % 0x1_0000);
  }

  lemma TopOctet(n: nat, top: nat, a: u8, low: nat)
    requires low < 0x1_0000 && n == 0x100_0000 * top + 0x1_0000 * a + low
    ensures n % 0x100_0000 == 0x1_0000 * a + low
  {
  }

  /** The octets written stand for the length, modulo what three octets can hold. */
  lemma DerLengthWrites(length: nat)
    ensures IsLength(DerLength(length), if length < 0x100_0000 then length else length % 0x100_0000)
  {
    if length > 0xffff {
      var o := DerLength(length);
      assert o[1..] == [o[1], o[2], o[3]];
      BigEndianOfThree(o[1], o[2], o[3]);
      LowOctets(length);
    } else if length > 0xff {
      var o := DerLength(length);
      assert o[1..] == [o[1], o[2]];
      BigEndianOfThree(o[1], o[2], 0);
      LowOctets(length);
    } else if length >= 0x80 {
      assert DerLength(length)[1..] == [length];
      BigEndianOfThree(length, 0, 0);
    }
  }

  /** What is written reads back as it was exactly when the value is shorter than 2^24 octets;
      beyond that the length is cut to its low three octets and the value with it. */
  lemma EncodeRoundTripsBelow16M(tag: seq<u8>, value: seq<u8>, tail: seq<u8>)
    requires IsTag(tag)
    ensures Parse(Encode(tag, value) + tail) == Some(Item(tag, value, tail)) <==> |value| < 0x100_0000
    ensures |value| >= 0x100_0000 ==>
              var kept := |value| % 0x100_0000;
              Parse(Encode(tag, value) + tail) == Some(Item(tag, value[..kept], value[kept..] + tail))
  {
    DerLengthWrites(|value|);
    var octets := DerLength(|value|);
    var kept := if |value| < 0x100_0000 then |value| else |value| % 0x100_0000;
    var bytes := Encode(tag, value) + tail;
    assert bytes == tag + octets + value[..kept] + (value[kept..] + tail);
    ParseIsComplete(bytes, tag, octets, value[..kept], value[kept..] + tail);
    assert kept == |value| ==> value[..kept] == value && value[kept..] + tail == tail;
  }

  function Pow256(n: nat): nat {
    if n == 0 then 1 else 256 * Pow256(n - 1)
  }

  lemma {:induction false} BigEndianBound(bytes: seq<u8>)
    ensures BigEndian(bytes) < Pow256(|bytes|)
  {
    if bytes != [] {
      BigEndianBound(bytes[..|bytes| - 1]);
    }
  }

  /** No other octets for the same length are shorter: the form DER demands. */
  lemma DerLengthIsMinimal(length: nat, octets: seq<u8>)
    requires IsLength(octets, length) && length < 0x100_0000
    ensures |DerLength(length)| <= |octets|
  {
    if |octets| > 1 {
      BigEndianBound(octets[1..]);
      assert Pow256(0) == 1 && Pow256(1) == 0x100 && Pow256(2) == 0x1_0000;
    }
  }

  // ----- Integers -----------------------------------------------------------------------

  function ToBytes(value: nat, n: nat): (bytes: seq<u8>)
    ensures |bytes| == n
  {
    if n == 0 then [] else ToBytes(value / 256, n - 1) + [value % 256]
  }

  lemma {:induction false} ToBytesReadsBack(value: nat, n: nat)
    requires value < Pow256(n)
    ensures BigEndian(ToBytes(value, n)) == value
  {
    if n > 0 {
      ToBytesReadsBack(value / 256, n - 1);
      BigEndianPush(ToBytes(value / 256, n - 1), value % 256);
    }
  }

  /** Where the first byte that is not zero stands, or the last byte if there is none. */
  function LeadingZeros(bytes: seq<u8>, i: nat): (n: nat)
    requires i < |bytes|
    ensures i <= n < |bytes|
    ensures forall j :: i <= j < n ==> bytes[j] == 0
    ensures n < |bytes| - 1 ==> bytes[n] != 0
    decreases |bytes| - i
  {
    if i == |bytes| - 1 || bytes[i] != 0 then i else LeadingZeros(bytes, i + 1)
  }

  function MinimalInteger(value: u64): seq<u8> {
    var bytes := ToBytes(value, 8);
    bytes[LeadingZeros(bytes, 0)..]
  }

  method ReadInteger(value: seq<u8>) returns (r: Option<u64>)
    ensures r == Integer(value)
  {
    if value == [] || |value| > 8 {
      return None;
    }
    var total: nat := 0;
    for i := 0 to |value|
      invariant total == BigEndian(value[..i])
    {
      BigEndianPush(value[..i], value[i]);
      assert value[..i + 1] == value[..i] + [value[i]];
      total := total * 256 + value[i];
    }
    assert value[..|value|] == value;
    EightBytesFit(value);
    r := Some(total);
  }

  lemma EightBytesFit(value: seq<u8>)
    requires |value| <= 8
    ensures BigEndian(value) < 0x1_0000_0000_0000_0000
  {
    BigEndianBound(value);
    PowGrows(|value|, 8);
    PowerOfEight();
  }

  lemma PowerOfEight()
    ensures Pow256(8) == 0x1_0000_0000_0000_0000
  {
    assert Pow256(2) == 0x1_0000;
    assert Pow256(4) == 0x1_0000_0000;
    assert Pow256(6) == 0x1_0000_0000_0000;
  }

  lemma {:induction false} PowGrows(a: nat, b: nat)
    requires a <= b
    ensures Pow256(a) <= Pow256(b)
    decreases b
  {
    if a < b {
      PowGrows(a, b - 1);
    }
  }

  function Integer(value: seq<u8>): Option<u64> {
    if value == [] || |value| > 8 then None
    else
      EightBytesFit(value);
      Some(BigEndian(value))
  }

  lemma {:induction false} LeadingZerosAreNothing(bytes: seq<u8>, n: nat)
    requires n <= |bytes| && forall j :: 0 <= j < n ==> bytes[j] == 0
    ensures BigEndian(bytes[n..]) == BigEndian(bytes)
    decreases |bytes|
  {
    if n == |bytes| {
      if n > 0 {
        var front := bytes[..n - 1];
        LeadingZerosAreNothing(front, n - 1);
        assert front[n - 1..] == [] && bytes[n..] == [];
      }
    } else {
      var front := bytes[..|bytes| - 1];
      LeadingZerosAreNothing(front, n);
      assert bytes[n..] == front[n..] + [bytes[|bytes| - 1]];
      BigEndianPush(front[n..], bytes[|bytes| - 1]);
    }
  }

  /** A number written in its shortest form reads back as itself, and the form is shortest: it
      starts with a zero only when it is a single one. */
  lemma MinimalIntegerRoundTrips(value: u64)
    ensures Integer(MinimalInteger(value)) == Some(value)
    ensures 1 <= |MinimalInteger(value)| <= 8
    ensures |MinimalInteger(value)| > 1 ==> MinimalInteger(value)[0] != 0
  {
    var bytes := ToBytes(value, 8);
    PowerOfEight();
    ToBytesReadsBack(value, 8);
    LeadingZerosAreNothing(bytes, LeadingZeros(bytes, 0));
  }

  // ----- A request and its answer ---------------------------------------------------------

  datatype Es10cError = Truncated | UnexpectedTag(actual: seq<u8>) | MissingField | EmptyPayload | PayloadTooLarge

  const NOTIFICATION_SENT: seq<u8> := [0xbf, 0x30]

  function Expect(bytes: seq<u8>, tag: seq<u8>): Result<seq<u8>, Es10cError> {
    match Parse(bytes)
    case None => Err(Truncated)
    case Some(item) => if item.tag == tag then Ok(item.value) else Err(UnexpectedTag(item.tag))
  }

  function RemoveNotification(sequence: u64): seq<u8> {
    Encode(NOTIFICATION_SENT, Encode([0x80], MinimalInteger(sequence)))
  }

  function ParseRemoveNotification(response: seq<u8>): Result<u64, Es10cError> {
    match Parse(response)
    case None => Err(Truncated)
    case Some(_) =>
      match Expect(Element(response), NOTIFICATION_SENT)
      case Err(e) => Err(e)
      case Ok(body) =>
        match Expect(body, [0x80])
        case Err(e) => Err(e)
        case Ok(value) => if Integer(value).Some? then Ok(Integer(value).value) else Err(Truncated)
  }

  /** A number wrapped for the card comes back out of the same wrapping, with any padding after
      it. */
  lemma NotificationRoundTrips(sequence: u64, padding: seq<u8>)
    ensures ParseRemoveNotification(RemoveNotification(sequence) + padding) == Ok(sequence)
  {
    var number := MinimalInteger(sequence);
    MinimalIntegerRoundTrips(sequence);
    var inner := Encode([0x80], number);
    EncodeRoundTripsBelow16M([0x80], number, []);
    assert inner + [] == inner;
    EncodeRoundTripsBelow16M(NOTIFICATION_SENT, inner, padding);
    ElementStandsAlone(RemoveNotification(sequence) + padding, []);
    var element := Element(RemoveNotification(sequence) + padding);
    assert element + [] == element;
  }

  /** The answer is an element of tag BF30 whose value begins with one of tag 80, of one to eight octets
      worth the number. */
  ghost predicate AnswersWith(response: seq<u8>, n: nat, outer: seq<u8>, body: seq<u8>, padding: seq<u8>,
                              inner: seq<u8>, number: seq<u8>, rest: seq<u8>) {
    && Splits(response, [0xbf, 0x30], outer, body, padding)
    && Splits(body, [0x80], inner, number, rest)
    && 1 <= |number| <= 8 && BigEndian(number) == n
  }

  /** An answer's number is read exactly if it is given so. */
  lemma AnswerIsReadExactlyWhenGiven(response: seq<u8>, n: u64)
    ensures ParseRemoveNotification(response) == Ok(n) <==>
            exists outer, body, padding, inner, number, rest :: AnswersWith(response, n, outer, body, padding, inner, number, rest)
  {
    hide Parse, Splits, BigEndian;
    if ParseRemoveNotification(response) == Ok(n) {
      ElementStandsAlone(response, []);
      assert Element(response) + [] == Element(response);
      var item := Parse(response).value;
      var outer := ParseIsSound(response);
      var inner := ParseIsSound(item.value);
      var field := Parse(item.value).value;
      assert AnswersWith(response, n, outer, item.value, item.tail, inner, field.value, field.tail);
    }
    if outer, body, padding, inner, number, rest :| AnswersWith(response, n, outer, body, padding, inner, number, rest) {
      ParseIsComplete(response, [0xbf, 0x30], outer, body, padding);
      ParseIsComplete(body, [0x80], inner, number, rest);
      ElementStandsAlone(response, []);
      assert Element(response) + [] == Element(response);
    }
  }

  // ----- The card reader's narrower reader --------------------------------------------------

  /** One byte of tag and at most two of length. */
  function ReadNarrow(data: seq<u8>): Option<Item> {
    if |data| < 2 then None
    else if data[1] == 0x81 then
      if |data| < 3 then None else Cut(data, 1, 3, data[2])
    else if data[1] == 0x82 then
      if |data| < 4 then None else Cut(data, 1, 4, (data[2] as int) * 0x100 + data[3])
    else if data[1] < 0x80 then Cut(data, 1, 2, data[1])
    else None
  }

  /** On single-byte tags it agrees with the full reader wherever the length takes at most two
      octets, and reads nothing else. */
  lemma NarrowAgrees(data: seq<u8>)
    requires data != [] && data[0] % 32 != 31
    ensures ReadNarrow(data) == if |data| > 1 && data[1] <= 0x82 then Parse(data) else None
  {
    if |data| > 2 && data[1] == 0x81 {
      assert data[2..3] == [data[2]];
      BigEndianOfThree(data[2], 0, 0);
    } else if |data| > 3 && data[1] == 0x82 {
      assert data[2..4] == [data[2], data[3]];
      BigEndianOfThree(data[2], data[3], 0);
    }
  }
}

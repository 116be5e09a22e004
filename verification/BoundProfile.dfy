/** Cutting a Bound Profile Package into the segments a card is given one at a time
    (section 5.7.5 of SGP.22). */
module BoundProfile {
  import opened Basics
  import opened Tlv
  import StoreData

  const BOUND_PROFILE_PACKAGE: seq<u8> := [0xbf, 0x36]
  const INITIALISE_SECURE_CHANNEL: seq<u8> := [0xbf, 0x23]

  datatype Label =
    | Opening
    | First87
    | Second87
    | Header88
    | Member88(index: nat)
    | Header86
    | Member86(index: nat)

  datatype Segment = Segment(name: Label, bytes: seq<u8>)

  /** The kinds of element met so far. */
  datatype Seen = Seen(of87: bool, of88: bool, of86: bool)

  type Cutting = Result<seq<Segment>, Es10cError>

  predicate IsWhole(tag: seq<u8>) {
    tag == [0xa0] || tag == [0xa2]
  }

  predicate IsOpened(tag: seq<u8>) {
    tag == [0xa1] || tag == [0xa3]
  }

  function HeaderLabel(tag: seq<u8>): Label {
    if tag == [0xa1] then Header88 else Header86
  }

  function MemberLabel(tag: seq<u8>, i: nat): Label {
    if tag == [0xa1] then Member88(i) else Member86(i)
  }

  function Members(tag: seq<u8>, row: seq<seq<u8>>): seq<Segment> {
    seq(|row|, i requires 0 <= i < |row| => Segment(MemberLabel(tag, i), row[i]))
  }

  function Note(seen: Seen, tag: seq<u8>): Seen {
    if IsWhole(tag) then seen.(of87 := true)
    else if tag == [0xa1] then seen.(of88 := true)
    else seen.(of86 := true)
  }

  function Prepend(front: seq<Segment>, rest: Cutting): Cutting {
    match rest
    case Err(e) => Err(e)
    case Ok(segments) => Ok(front + segments)
  }

  /** The walk over the elements after the first. */
  function Walk(rest: seq<u8>, seen: Seen): Cutting
    decreases |rest|
  {
    if rest == [] then
      if seen.of87 && seen.of88 && seen.of86 then Ok([]) else Err(MissingField)
    else
      match Parse(rest)
      case None => Err(Truncated)
      case Some(item) =>
        ElementStandsAlone(rest, []);
        if IsWhole(item.tag) then
          Prepend([Segment(if seen.of87 then Second87 else First87, Element(rest))],
                  Walk(item.tail, Note(seen, item.tag)))
        else if IsOpened(item.tag) then
          match Elements(item.value)
          case None => Err(Truncated)
          case Some(row) =>
            Prepend([Segment(HeaderLabel(item.tag), Header(rest))] + Members(item.tag, row),
                    Walk(item.tail, Note(seen, item.tag)))
        else Err(UnexpectedTag(item.tag))
  }

  function Segments(bpp: seq<u8>): Cutting {
    match Parse(bpp)
    case None => Err(Truncated)
    case Some(outer) =>
      if outer.tag != BOUND_PROFILE_PACKAGE then Err(UnexpectedTag(outer.tag))
      else
        match Parse(outer.value)
        case None => Err(Truncated)
        case Some(first) =>
          if first.tag != INITIALISE_SECURE_CHANNEL then Err(UnexpectedTag(first.tag))
          else Prepend([Segment(Opening, Header(bpp) + Element(outer.value))],
                       Walk(first.tail, Seen(false, false, false)))
  }

  // ----- The loops -------------------------------------------------------------------

  lemma PrependTwice(a: seq<Segment>, b: seq<Segment>, rest: Cutting)
    ensures Prepend(a, Prepend(b, rest)) == Prepend(a + b, rest)
  {
    if rest.Ok? {
      assert a + (b + rest.value) == (a + b) + rest.value;
    }
  }

  /** The inner loop: one segment per member. */
  method CutMembers(tag: seq<u8>, value: seq<u8>) returns (r: Option<seq<Segment>>)
    ensures r == (match Elements(value) case None => None case Some(row) => Some(Members(tag, row)))
  {
    hide Parse, Element;
    var segments: seq<Segment>, inner, index := [], value, 0;
    ghost var done: seq<seq<u8>> := [];
    assert Elements(value).Some? ==> [] + Elements(value).value == Elements(value).value;
    while inner != []
      invariant Tlv.After(done, Elements(inner)) == Elements(value)
      invariant index == |done| && segments == Members(tag, done)
      decreases |inner|
    {
      var item := ReadTlv(inner);
      if item.None? {
        return None;
      }
      ElementStandsAlone(inner, []);
      var child := inner[..|inner| - |item.value.tail|];
      ghost var later := Elements(item.value.tail);
      assert later.Some? ==> (done + [child]) + later.value == done + ([child] + later.value);
      segments := segments + [Segment(MemberLabel(tag, index), child)];
      done := done + [child];
      index := index + 1;
      inner := item.value.tail;
    }
    assert done + [] == done;
    r := Some(segments);
  }

  method CutRest(body: seq<u8>, opening: seq<Segment>) returns (r: Cutting)
    ensures r == Prepend(opening, Walk(body, Seen(false, false, false)))
  {
    hide Members, Elements;
    var segments, rest, seen := opening, body, Seen(false, false, false);
    ghost var all := Prepend(opening, Walk(body, seen));
    while rest != []
      invariant Prepend(segments, Walk(rest, seen)) == all
      decreases |rest|
    {
      var item := ReadTlv(rest);
      if item.None? {
        return Err(Truncated);
      }
      ElementStandsAlone(rest, []);
      var tag, value, tail := item.value.tag, item.value.value, item.value.tail;
      var element := rest[..|rest| - |tail|];
      var more: seq<Segment>;
      if IsWhole(tag) {
        more := [Segment(if seen.of87 then Second87 else First87, element)];
      } else if IsOpened(tag) {
        var members := CutMembers(tag, value);
        if members.None? {
          return Err(Truncated);
        }
        more := [Segment(HeaderLabel(tag), element[..|element| - |value|])] + members.value;
      } else {
        return Err(UnexpectedTag(tag));
      }
      PrependTwice(segments, more, Walk(tail, Note(seen, tag)));
      segments := segments + more;
      seen := Note(seen, tag);
      rest := tail;
    }
    if !seen.of87 || !seen.of88 || !seen.of86 {
      return Err(MissingField);
    }
    assert segments + [] == segments;
    r := Ok(segments);
  }

  method CutPackage(bpp: seq<u8>) returns (r: Cutting)
    ensures r == Segments(bpp)
  {
    hide Walk;
    var outer := ReadTlv(bpp);
    if outer.None? {
      return Err(Truncated);
    }
    ElementStandsAlone(bpp, []);
    var whole := bpp[..|bpp| - |outer.value.tail|];
    assert whole + [] == whole;
    var again := ReadTlv(whole);
    var body := again.value.value;
    if again.value.tag != BOUND_PROFILE_PACKAGE {
      return Err(UnexpectedTag(again.value.tag));
    }
    var first := ReadTlv(body);
    if first.None? {
      return Err(Truncated);
    }
    if first.value.tag != INITIALISE_SECURE_CHANNEL {
      return Err(UnexpectedTag(first.value.tag));
    }
    ElementStandsAlone(body, []);
    var channel := body[..|body| - |first.value.tail|];
    r := CutRest(first.value.tail, [Segment(Opening, whole[..|whole| - |body|] + channel)]);
  }

  // ----- What is accepted --------------------------------------------------------------

  function TagOf(element: seq<u8>): seq<u8>
    requires Parse(element).Some?
  {
    Parse(element).value.tag
  }

  function ValueOf(element: seq<u8>): seq<u8>
    requires Parse(element).Some?
  {
    Parse(element).value.value
  }

  /** The elements that are sent whole, and those that are sent a member at a time. */
  predicate StaysWhole(e: seq<u8>)
    requires Parse(e).Some?
  {
    TagOf(e) == [0xa0] || TagOf(e) == [0xa2]
  }

  predicate IsCutUp(e: seq<u8>)
    requires Parse(e).Some?
  {
    TagOf(e) == [0xa1] || TagOf(e) == [0xa3]
  }

  /** An element the walk can take: whole, or cut up with nothing but elements inside. */
  ghost predicate CanBeCut(e: seq<u8>) {
    && IsElement(e)
    && (StaysWhole(e) || (IsCutUp(e) && Elements(ValueOf(e)).Some?))
  }

  ghost predicate AllCanBeCut(row: seq<seq<u8>>) {
    forall i :: 0 <= i < |row| ==> CanBeCut(row[i])
  }

  /** Some element of the row is met by this test. */
  ghost predicate HasWhole(row: seq<seq<u8>>) {
    exists i :: 0 <= i < |row| && IsElement(row[i]) && StaysWhole(row[i])
  }

  ghost predicate Has(row: seq<seq<u8>>, tag: seq<u8>) {
    exists i :: 0 <= i < |row| && IsElement(row[i]) && TagOf(row[i]) == tag
  }

  ghost predicate Complete(row: seq<seq<u8>>, seen: Seen) {
    && (seen.of87 || HasWhole(row))
    && (seen.of88 || Has(row, [0xa1]))
    && (seen.of86 || Has(row, [0xa3]))
  }

  /** The bytes of the segments one element is cut into. */
  function Cuts(e: seq<u8>): seq<seq<u8>> {
    if Parse(e).None? || StaysWhole(e) || Elements(ValueOf(e)).None? then [e]
    else [Header(e)] + Elements(ValueOf(e)).value
  }

  function AllCuts(row: seq<seq<u8>>): seq<seq<u8>> {
    if row == [] then [] else Cuts(row[0]) + AllCuts(row[1..])
  }

  function BytesOf(segments: seq<Segment>): seq<seq<u8>> {
    seq(|segments|, i requires 0 <= i < |segments| => segments[i].bytes)
  }

  lemma CompleteStep(row: seq<seq<u8>>, seen: Seen)
    requires row != [] && CanBeCut(row[0])
    ensures Complete(row, seen) <==> Complete(row[1..], Note(seen, TagOf(row[0])))
  {
    var rest := row[1..];
    assert forall i :: 0 <= i < |rest| ==> rest[i] == row[i + 1];
    assert forall i :: 1 <= i < |row| ==> row[i] == rest[i - 1];
    assert HasWhole(row) <==> IsWhole(TagOf(row[0])) || HasWhole(rest);
    assert forall tag :: Has(row, tag) <==> TagOf(row[0]) == tag || Has(rest, tag);
  }

  lemma WalkStep(rest: seq<u8>, seen: Seen, item: Item)
    requires Parse(rest) == Some(item)
    ensures var e := Element(rest);
            && IsElement(e) && TagOf(e) == item.tag && ValueOf(e) == item.value && Header(e) == Header(rest)
            && e + item.tail == rest
            && (CanBeCut(e) && Walk(item.tail, Note(seen, item.tag)).Ok? <==> Walk(rest, seen).Ok?)
  {
    ElementStandsAlone(rest, []);
    assert Element(rest) + [] == Element(rest);
  }

  /** The walk succeeds exactly on rows of elements it can cut, among them each kind that was not
      seen before. */
  lemma {:induction false} WalkAccepts(row: seq<seq<u8>>, rest: seq<u8>, seen: Seen)
    requires Elements(rest) == Some(row)
    ensures Walk(rest, seen).Ok? <==> AllCanBeCut(row) && Complete(row, seen)
    decreases |rest|
  {
    if rest != [] {
      hide Walk, CanBeCut, Complete, Note;
      var item := Parse(rest).value;
      ElementStandsAlone(rest, []);
      WalkStep(rest, seen, item);
      assert row[0] == Element(rest) && row[1..] == Elements(item.tail).value;
      WalkAccepts(row[1..], item.tail, Note(seen, item.tag));
      assert AllCanBeCut(row) <==> CanBeCut(row[0]) && AllCanBeCut(row[1..]) by {
        assert forall i :: 1 <= i < |row| ==> row[i] == row[1..][i - 1];
      }
      if CanBeCut(row[0]) {
        CompleteStep(row, seen);
      }
    }
  }

  lemma {:induction false} WalkNeedsElements(rest: seq<u8>, seen: Seen)
    ensures Walk(rest, seen).Ok? ==> Elements(rest).Some?
    decreases |rest|
  {
    if rest != [] && Parse(rest).Some? {
      var item := Parse(rest).value;
      ElementStandsAlone(rest, []);
      WalkNeedsElements(item.tail, Note(seen, item.tag));
    }
  }

  /** A package the program accepts: one element with the package's tag, made of elements, the
      first of which opens the secure channel and the rest of which can be cut, with at least one
      of each kind among them and in any order. */
  ghost predicate IsPackage(bpp: seq<u8>) {
    && Parse(bpp).Some?
    && TagOf(bpp) == [0xbf, 0x36]
    && Elements(ValueOf(bpp)).Some?
    && var row := Elements(ValueOf(bpp)).value;
       && row != []
       && Parse(row[0]).Some?
       && TagOf(row[0]) == [0xbf, 0x23]
       && AllCanBeCut(row[1..])
       && Complete(row[1..], Seen(false, false, false))
  }

  lemma AcceptsExactlyPackages(bpp: seq<u8>)
    ensures Segments(bpp).Ok? <==> IsPackage(bpp)
  {
    hide Walk, CanBeCut, Complete, AllCanBeCut;
    if Parse(bpp).Some? && Parse(ValueOf(bpp)).Some? {
      var body := ValueOf(bpp);
      var first := Parse(body).value;
      ElementStandsAlone(body, []);
      assert Element(body) + [] == Element(body);
      var none := Seen(false, false, false);
      WalkNeedsElements(first.tail, none);
      if Elements(first.tail).Some? {
        var row := Elements(body).value;
        assert row[0] == Element(body) && row[1..] == Elements(first.tail).value;
        WalkAccepts(row[1..], first.tail, none);
      }
    }
  }

  // ----- What is sent --------------------------------------------------------------------

  lemma CutsAreWhole(e: seq<u8>)
    requires CanBeCut(e)
    ensures Flatten(Cuts(e)) == e
    ensures forall i :: 0 <= i < |Cuts(e)| ==> |Cuts(e)[i]| >= 2
  {
    ElementStandsAlone(e, []);
    assert Element(e) == e;
    if IsOpened(TagOf(e)) {
      var row := Elements(ValueOf(e)).value;
      ElementsMakeUp(ValueOf(e));
      var octets := ParseIsSound(e);
      forall i | 0 <= i < |row|
        ensures |row[i]| >= 2
      {
        assert IsElement(row[i]);
        ElementStandsAlone(row[i], []);
      }
      assert Flatten([Header(e)] + row) == Header(e) + Flatten(row);
    } else {
      assert Flatten([e]) == e + Flatten([]) == e;
    }
  }

  lemma BytesOfAppend(a: seq<Segment>, b: seq<Segment>)
    ensures BytesOf(a + b) == BytesOf(a) + BytesOf(b)
  {
  }

  lemma BytesOfMembers(tag: seq<u8>, row: seq<seq<u8>>, header: Segment)
    ensures BytesOf([header] + Members(tag, row)) == [header.bytes] + row
  {
  }

  lemma StepCuts(rest: seq<u8>, seen: Seen, item: Item)
    requires Parse(rest) == Some(item) && Walk(rest, seen).Ok?
    ensures var later := Walk(item.tail, Note(seen, item.tag));
            later.Ok? && BytesOf(Walk(rest, seen).value) == Cuts(Element(rest)) + BytesOf(later.value)
  {
    hide Members, BytesOf;
    WalkStep(rest, seen, item);
    var later := Walk(item.tail, Note(seen, item.tag)).value;
    if IsWhole(item.tag) {
      var whole := Segment(if seen.of87 then Second87 else First87, Element(rest));
      assert Walk(rest, seen).value == [whole] + later;
      BytesOfAppend([whole], later);
      OneSegment(whole);
      assert Cuts(Element(rest)) == [Element(rest)];
    } else {
      var row := Elements(item.value).value;
      var header := Segment(HeaderLabel(item.tag), Header(rest));
      BytesOfMembers(item.tag, row, header);
      BytesOfAppend([header] + Members(item.tag, row), later);
    }
  }

  lemma OneSegment(s: Segment)
    ensures BytesOf([s]) == [s.bytes]
  {
  }

  lemma {:induction false} WalkCuts(row: seq<seq<u8>>, rest: seq<u8>, seen: Seen)
    requires Elements(rest) == Some(row) && Walk(rest, seen).Ok?
    ensures BytesOf(Walk(rest, seen).value) == AllCuts(row)
    decreases |rest|
  {
    if rest != [] {
      hide Cuts, Parse, Note;
      var item := Parse(rest).value;
      ElementStandsAlone(rest, []);
      StepCuts(rest, seen, item);
      assert row[0] == Element(rest) && row[1..] == Elements(item.tail).value;
      WalkCuts(row[1..], item.tail, Note(seen, item.tag));
    }
  }

  lemma {:induction false} AllCutsAreWhole(row: seq<seq<u8>>)
    requires AllCanBeCut(row)
    ensures Flatten(AllCuts(row)) == Flatten(row)
    ensures forall i :: 0 <= i < |AllCuts(row)| ==> |AllCuts(row)[i]| >= 2
    decreases |row|
  {
    if row != [] {
      hide CanBeCut;
      assert CanBeCut(row[0]);
      assert forall i :: 0 <= i < |row[1..]| ==> row[1..][i] == row[i + 1];
      CutsAreWhole(row[0]);
      AllCutsAreWhole(row[1..]);
      FlattenAppend(Cuts(row[0]), AllCuts(row[1..]));
    }
  }

  /** What an accepted package is sent as: the outer header with the whole first element, then for
      each further element in order either all of it, or its header followed by each of its
      members alone; and put together again, exactly the package and nothing after it. */
  lemma SegmentsAreThePackage(bpp: seq<u8>)
    requires Segments(bpp).Ok?
    ensures Elements(ValueOf(bpp)).Some? && Elements(ValueOf(bpp)).value != []
    ensures var row := Elements(ValueOf(bpp)).value;
            BytesOf(Segments(bpp).value) == [Header(bpp) + row[0]] + AllCuts(row[1..])
    ensures Flatten(BytesOf(Segments(bpp).value)) == Element(bpp)
    ensures forall i :: 0 <= i < |Segments(bpp).value| ==> |Segments(bpp).value[i].bytes| >= 2
  {
    hide Walk, Complete, CanBeCut, AllCanBeCut, AllCuts, BytesOf, Parse, Header, Element;
    AcceptsExactlyPackages(bpp);
    var body := ValueOf(bpp);
    var row := Elements(body).value;
    var none := Seen(false, false, false);
    ElementStandsAlone(bpp, []);
    ElementStandsAlone(body, []);
    var tail := Parse(body).value.tail;
    assert row[0] == Element(body) && row[1..] == Elements(tail).value;
    WalkCuts(row[1..], tail, none);
    AllCutsAreWhole(row[1..]);
    ElementsMakeUp(tail);
    var opening := Segment(Opening, Header(bpp) + row[0]);
    var segments := BytesOf(Segments(bpp).value);
    BytesOfAppend([opening], Walk(tail, none).value);
    OneSegment(opening);
    assert segments == [opening.bytes] + AllCuts(row[1..]);
    assert segments[1..] == AllCuts(row[1..]);
    BytesOfAt(Segments(bpp).value);
  }

  lemma BytesOfAt(segments: seq<Segment>)
    ensures |BytesOf(segments)| == |segments|
    ensures forall i :: 0 <= i < |segments| ==> BytesOf(segments)[i] == segments[i].bytes
  {
  }

  // ----- What the segments are called ------------------------------------------------------

  /** What the segments of one element are called, by whether one that stays whole came before it. */
  function NamesOf(e: seq<u8>, already: bool): seq<Label>
    requires Parse(e).Some?
  {
    if StaysWhole(e) then [if already then Second87 else First87]
    else
      var members := if Elements(ValueOf(e)).Some? then |Elements(ValueOf(e)).value| else 0;
      if TagOf(e) == [0xa1] then [Header88] + seq(members, (i: nat) => Member88(i)) else [Header86] + seq(members, (i: nat) => Member86(i))
  }

  ghost predicate AreNamed(names: seq<Label>, row: seq<seq<u8>>, already: bool)
    decreases |row|
  {
    if row == [] then names == []
    else
      && Parse(row[0]).Some?
      && NamesOf(row[0], already) <= names
      && AreNamed(names[|NamesOf(row[0], already)|..], row[1..], already || StaysWhole(row[0]))
  }

  function Names(segments: seq<Segment>): seq<Label> {
    seq(|segments|, i requires 0 <= i < |segments| => segments[i].name)
  }

  lemma NamesAppend(a: seq<Segment>, b: seq<Segment>)
    ensures Names(a + b) == Names(a) + Names(b)
  {
  }

  lemma NamesOfMembers(e: seq<u8>, header: seq<u8>, already: bool)
    requires Parse(e).Some? && IsCutUp(e) && Elements(ValueOf(e)).Some?
    ensures Names([Segment(HeaderLabel(TagOf(e)), header)] + Members(TagOf(e), Elements(ValueOf(e)).value)) == NamesOf(e, already)
  {
    hide Parse, Elements;
  }

  lemma NameOfWhole(e: seq<u8>, already: bool)
    requires Parse(e).Some? && StaysWhole(e)
    ensures Names([Segment(if already then Second87 else First87, e)]) == NamesOf(e, already)
  {
    hide Parse, Elements;
  }

  lemma StepNames(rest: seq<u8>, seen: Seen, item: Item)
    requires Parse(rest) == Some(item) && Walk(rest, seen).Ok?
    ensures var later := Walk(item.tail, Note(seen, item.tag));
            && Parse(Element(rest)).Some?
            && later.Ok? && Names(Walk(rest, seen).value) == NamesOf(Element(rest), seen.of87) + Names(later.value)
            && (Note(seen, item.tag).of87 <==> seen.of87 || StaysWhole(Element(rest)))
  {
    hide Names, NamesOf, Members, Element, Header, Elements;
    WalkStep(rest, seen, item);
    var later := Walk(item.tail, Note(seen, item.tag)).value;
    var e := Element(rest);
    if IsWhole(item.tag) {
      var front := [Segment(if seen.of87 then Second87 else First87, e)];
      assert Walk(rest, seen).value == front + later;
      NameOfWhole(e, seen.of87);
      NamesAppend(front, later);
    } else {
      var front := [Segment(HeaderLabel(item.tag), Header(rest))] + Members(item.tag, Elements(item.value).value);
      assert Walk(rest, seen).value == front + later;
      NamesOfMembers(e, Header(rest), seen.of87);
      NamesAppend(front, later);
    }
  }

  lemma {:induction false} WalkNames(row: seq<seq<u8>>, rest: seq<u8>, seen: Seen)
    requires Elements(rest) == Some(row) && Walk(rest, seen).Ok?
    ensures AreNamed(Names(Walk(rest, seen).value), row, seen.of87)
    decreases |rest|
  {
    if rest != [] {
      hide NamesOf, Parse, Note, Walk;
      var item := Parse(rest).value;
      ElementStandsAlone(rest, []);
      StepNames(rest, seen, item);
      assert row[0] == Element(rest) && row[1..] == Elements(item.tail).value;
      WalkNames(row[1..], item.tail, Note(seen, item.tag));
      var names := Names(Walk(rest, seen).value);
      assert names[|NamesOf(row[0], seen.of87)|..] == Names(Walk(item.tail, Note(seen, item.tag)).value);
    }
  }

  /** Segments are called after what they hold: the opening; the first element that stays whole and any
      other; a header; and each member by its place in its own element. */
  lemma SegmentsAreNamed(bpp: seq<u8>)
    requires Segments(bpp).Ok?
    ensures Elements(ValueOf(bpp)).Some? && Elements(ValueOf(bpp)).value != []
    ensures var names := Names(Segments(bpp).value);
            names != [] && names[0] == Opening && AreNamed(names[1..], Elements(ValueOf(bpp)).value[1..], false)
  {
    hide Walk, Parse, CanBeCut, AllCanBeCut, Complete, AreNamed, NamesOf;
    AcceptsExactlyPackages(bpp);
    var body := ValueOf(bpp);
    var row := Elements(body).value;
    var none := Seen(false, false, false);
    ElementStandsAlone(body, []);
    var tail := Parse(body).value.tail;
    assert row[1..] == Elements(tail).value;
    WalkNames(row[1..], tail, none);
    assert Names(Segments(bpp).value)[1..] == Names(Walk(tail, none).value);
  }

  // ----- Why a package is refused ---------------------------------------------------------------

  lemma {:induction false} WalkOver(good: seq<seq<u8>>, more: seq<u8>, seen: Seen) returns (front: seq<Segment>, after: Seen)
    requires AllCanBeCut(good)
    ensures Walk(Flatten(good) + more, seen) == Prepend(front, Walk(more, after))
    decreases |good|
  {
    hide Parse, Elements, Members, Header;
    if good == [] {
      front, after := [], seen;
      assert Flatten(good) + more == more;
      assert Walk(more, seen).Ok? ==> [] + Walk(more, seen).value == Walk(more, seen).value;
    } else {
      var e := good[0];
      var later := Flatten(good[1..]) + more;
      var rest := Flatten(good) + more;
      assert CanBeCut(e) && Element(e) == e && rest == e + later;
      ElementStandsAlone(e, later);
      var tag := TagOf(e);
      var rest', after' := WalkOver(good[1..], more, Note(seen, tag));
      after := after';
      var first := if IsWhole(tag) then [Segment(if seen.of87 then Second87 else First87, e)]
        else [Segment(HeaderLabel(tag), Header(rest))] + Members(tag, Elements(ValueOf(e)).value);
      front := first + rest';
      assert Walk(rest, seen) == Prepend(first, Walk(later, Note(seen, tag)));
      PrependTwice(first, rest', Walk(more, after));
    }
  }

  /** Nothing that can be cut stands here: no element, one of another tag, or one to be cut up that is not
      made of elements. */
  ghost predicate IsStuck(more: seq<u8>) {
    more != [] && (Parse(more).None? || IsForeign(more) || (IsCutUp(more) && Elements(ValueOf(more)).None?))
  }

  ghost predicate IsForeign(more: seq<u8>) {
    Parse(more).Some? && !StaysWhole(more) && !IsCutUp(more)
  }

  lemma {:induction false} Reaches(rest: seq<u8>) returns (good: seq<seq<u8>>, more: seq<u8>)
    ensures AllCanBeCut(good) && rest == Flatten(good) + more && (more == [] || IsStuck(more))
    decreases |rest|
  {
    hide Elements, Header, Parse, IsStuck, CanBeCut;
    if rest == [] || IsStuck(rest) {
      good, more := [], rest;
      assert Flatten(good) + more == rest;
    } else {
      CutsOff(rest);
      var e := Element(rest);
      var later, end := Reaches(Parse(rest).value.tail);
      good, more := [e] + later, end;
      assert good[1..] == later;
      assert e + (Flatten(later) + more) == Flatten(good) + more;
    }
  }

  lemma CutsOff(rest: seq<u8>)
    requires rest != [] && !IsStuck(rest)
    ensures Parse(rest).Some? && CanBeCut(Element(rest)) && rest == Element(rest) + Parse(rest).value.tail
    ensures |Parse(rest).value.tail| < |rest|
  {
    hide Elements, Header, Parse;
    ElementStandsAlone(rest, []);
    assert Element(rest) + [] == Element(rest);
  }

  lemma WalkStuck(more: seq<u8>, seen: Seen)
    requires more == [] || IsStuck(more)
    ensures more == [] ==> Walk(more, seen).Ok? || Walk(more, seen) == Err(MissingField)
    ensures more != [] && IsForeign(more) ==> Walk(more, seen) == Err(UnexpectedTag(TagOf(more)))
    ensures more != [] && !IsForeign(more) ==> Walk(more, seen) == Err(Truncated)
  {
    hide Parse, Elements;
    if more != [] && Parse(more).Some? {
      ElementStandsAlone(more, []);
    }
  }

  /** What stands behind the first element is walked over as far as it can be cut; it is refused for the
      first thing that cannot be, or, if all of it can, for a kind that is missing. */
  ghost predicate Refuses(rest: seq<u8>, e: Es10cError, good: seq<seq<u8>>, more: seq<u8>) {
    && AllCanBeCut(good) && rest == Flatten(good) + more
    && match e
       case MissingField => more == [] && !Complete(good, Seen(false, false, false))
       case UnexpectedTag(tag) => IsForeign(more) && tag == TagOf(more)
       case Truncated => IsStuck(more) && !IsForeign(more)
       case _ => false
  }

  lemma RefusedForTheFirstFault(rest: seq<u8>, e: Es10cError)
    ensures Walk(rest, Seen(false, false, false)) == Err(e) <==> exists good, more :: Refuses(rest, e, good, more)
  {
    hide Walk, Elements, Parse, CanBeCut, IsForeign, Complete;
    var none := Seen(false, false, false);
    if Walk(rest, none) == Err(e) {
      var good, more := Reaches(rest);
      RefusedHere(rest, e, good, more);
    }
    if good: seq<seq<u8>>, more: seq<u8> :| Refuses(rest, e, good, more) {
      ForeignIsStuck(more);
      var front, after := WalkOver(good, more, none);
      WalkStuck(more, after);
      if more == [] {
        assert Flatten(good) + [] == Flatten(good);
        CutsAreElements(good);
        ElementsAreFound(good);
        WalkAccepts(good, rest, none);
      }
    }
  }

  lemma RefusedHere(rest: seq<u8>, e: Es10cError, good: seq<seq<u8>>, more: seq<u8>)
    requires Walk(rest, Seen(false, false, false)) == Err(e)
    requires AllCanBeCut(good) && rest == Flatten(good) + more && (more == [] || IsStuck(more))
    ensures Refuses(rest, e, good, more)
  {
    hide Walk, Elements, Parse, CanBeCut, IsForeign, Complete;
    var none := Seen(false, false, false);
    var front, after := WalkOver(good, more, none);
    WalkStuck(more, after);
    if more == [] {
      assert Flatten(good) + [] == Flatten(good);
      CutsAreElements(good);
      ElementsAreFound(good);
      WalkAccepts(good, rest, none);
    }
  }

  lemma ForeignIsStuck(more: seq<u8>)
    ensures IsForeign(more) ==> more != [] && IsStuck(more)
  {
  }

  lemma CutsAreElements(row: seq<seq<u8>>)
    requires AllCanBeCut(row)
    ensures AreElements(row)
  {
    forall i | 0 <= i < |row|
      ensures IsElement(row[i])
    {
      assert CanBeCut(row[i]);
    }
  }

  /** The package itself is refused for its own tag, for its first element, or for what follows. */
  lemma PackageIsRefused(bpp: seq<u8>, e: Es10cError)
    ensures Segments(bpp) == Err(e) <==>
            if Parse(bpp).None? then e == Truncated
            else if TagOf(bpp) != [0xbf, 0x36] then e == UnexpectedTag(TagOf(bpp))
            else if Parse(ValueOf(bpp)).None? then e == Truncated
            else if TagOf(ValueOf(bpp)) != [0xbf, 0x23] then e == UnexpectedTag(TagOf(ValueOf(bpp)))
            else exists good, more :: Refuses(Parse(ValueOf(bpp)).value.tail, e, good, more)
  {
    hide Walk, Parse, Refuses;
    if Parse(bpp).Some? && Parse(ValueOf(bpp)).Some? {
      RefusedForTheFirstFault(Parse(ValueOf(bpp)).value.tail, e);
    }
  }

  // ----- What the card gets -----------------------------------------------------------------

  /** What a card ends up with that takes each payload in as a chain of its own. */
  function Installed(payloads: seq<seq<u8>>): Option<seq<u8>> {
    if payloads == [] then Some([])
    else
      match StoreData.Chain(payloads[0])
      case Err(_) => None
      case Ok(chain) =>
        match StoreData.ReceiveAll(StoreData.Waiting, chain)
        case None => None
        case Some(card) =>
          match Installed(payloads[1..])
          case None => None
          case Some(rest) => if card.done then Some(card.buffer + rest) else None
  }

  lemma {:induction false} InstalledIsFlat(payloads: seq<seq<u8>>)
    requires forall i :: 0 <= i < |payloads| ==> 1 <= |payloads[i]|
    ensures Installed(payloads) ==
            if forall i :: 0 <= i < |payloads| ==> |payloads[i]| <= 65280
            then Some(Flatten(payloads)) else None
    decreases |payloads|
  {
    if payloads != [] {
      StoreData.CardReceivesPayload(payloads[0]);
      InstalledIsFlat(payloads[1..]);
      assert forall i :: 1 <= i < |payloads| ==> payloads[i] == payloads[1..][i - 1];
    }
  }

  /** End to end: an accepted package, cut, chained block by block and followed by the card, arrives
      byte for byte, exactly when no segment is too long for one chain. */
  lemma CardReceivesPackage(bpp: seq<u8>)
    requires Segments(bpp).Ok?
    ensures var segments := BytesOf(Segments(bpp).value);
            Installed(segments) ==
            if forall i :: 0 <= i < |segments| ==> |segments[i]| <= 65280
            then Some(Element(bpp)) else None
  {
    SegmentsAreThePackage(bpp);
    BytesOfAt(Segments(bpp).value);
    InstalledIsFlat(BytesOf(Segments(bpp).value));
  }

  /** Whether a row is accepted depends on which elements it holds and not on their order or number. */
  lemma OrderNeverMatters(row: seq<seq<u8>>, other: seq<seq<u8>>, seen: Seen)
    requires AreElements(row) && AreElements(other)
    requires forall e :: e in row <==> e in other
    ensures Walk(Flatten(row), seen).Ok? <==> Walk(Flatten(other), seen).Ok?
  {
    hide Walk, CanBeCut, Parse;
    ElementsAreFound(row);
    ElementsAreFound(other);
    WalkAccepts(row, Flatten(row), seen);
    WalkAccepts(other, Flatten(other), seen);
    SameKinds(row, other, seen);
    SameKinds(other, row, seen);
  }

  lemma SameKinds(row: seq<seq<u8>>, other: seq<seq<u8>>, seen: Seen)
    requires forall e :: e in row ==> e in other
    ensures AllCanBeCut(other) ==> AllCanBeCut(row)
    ensures Complete(row, seen) ==> Complete(other, seen)
  {
    hide CanBeCut, Parse;
    assert forall i :: 0 <= i < |row| ==> row[i] in other;
  }

  /** The order the specification fixes is not checked: elements in the opposite order are cut and
      sent as they come. */
  lemma OrderIsNotChecked(bpp: seq<u8>)
    requires bpp == [0xbf, 0x36, 0x09, 0xbf, 0x23, 0x00, 0xa3, 0x00, 0xa1, 0x00, 0xa0, 0x00]
    ensures Segments(bpp).Ok?
    ensures BytesOf(Segments(bpp).value) == [bpp[..6], [0xa3, 0x00], [0xa1, 0x00], [0xa0, 0x00]]
  {
    hide Parse, Segments, BytesOf, AllCanBeCut, Complete, AllCuts, Elements;
    var channel: seq<u8> := [0xbf, 0x23, 0x00];
    var rest: seq<seq<u8>> := [[0xa3, 0x00], [0xa1, 0x00], [0xa0, 0x00]];
    ReversePackage(bpp, channel, rest);
    ReverseRow(rest);
    assert ([channel] + rest)[1..] == rest;
    AcceptsExactlyPackages(bpp);
    SegmentsAreThePackage(bpp);
    assert bpp[..6] == bpp[..3] + channel;
  }

  lemma ReversePackage(bpp: seq<u8>, channel: seq<u8>, rest: seq<seq<u8>>)
    requires bpp == [0xbf, 0x36, 0x09, 0xbf, 0x23, 0x00, 0xa3, 0x00, 0xa1, 0x00, 0xa0, 0x00]
    requires channel == [0xbf, 0x23, 0x00] && rest == [[0xa3, 0x00], [0xa1, 0x00], [0xa0, 0x00]]
    ensures Parse(bpp).Some? && TagOf(bpp) == BOUND_PROFILE_PACKAGE && Header(bpp) == bpp[..3]
    ensures Parse(channel).Some? && TagOf(channel) == INITIALISE_SECURE_CHANNEL
    ensures Elements(ValueOf(bpp)) == Some([channel] + rest)
  {
    hide Parse, Elements, IsElement, TagOf, ValueOf, Header, AllCanBeCut, Complete, AllCuts;
    ReverseOuter(bpp);
    ChannelElement(channel);
    ReverseRow(rest);
    assert ([channel] + rest)[1..] == rest;
    assert bpp[3..] == channel + [0xa3, 0x00, 0xa1, 0x00, 0xa0, 0x00];
    ElementsAreTheOnlySplit(bpp[3..], [channel] + rest);
  }

  lemma ReverseOuter(bpp: seq<u8>)
    requires bpp == [0xbf, 0x36, 0x09, 0xbf, 0x23, 0x00, 0xa3, 0x00, 0xa1, 0x00, 0xa0, 0x00]
    ensures Parse(bpp).Some? && TagOf(bpp) == BOUND_PROFILE_PACKAGE && Header(bpp) == bpp[..3] && ValueOf(bpp) == bpp[3..]
  {
    hide Parse;
    var body := bpp[3..];
    assert bpp == BOUND_PROFILE_PACKAGE + [0x09] + body + [];
    ParseIsComplete(bpp, BOUND_PROFILE_PACKAGE, [0x09], body, []);
  }

  lemma ChannelElement(channel: seq<u8>)
    requires channel == [0xbf, 0x23, 0x00]
    ensures IsElement(channel) && TagOf(channel) == INITIALISE_SECURE_CHANNEL
  {
    assert channel == INITIALISE_SECURE_CHANNEL + [0x00] + [] + [];
    ParseIsComplete(channel, INITIALISE_SECURE_CHANNEL, [0x00], [], []);
  }

  lemma ReverseRow(row: seq<seq<u8>>)
    requires row == [[0xa3, 0x00], [0xa1, 0x00], [0xa0, 0x00]]
    ensures AreElements(row) && AllCanBeCut(row) && Complete(row, Seen(false, false, false))
    ensures AllCuts(row) == row
    ensures Flatten(row) == [0xa3, 0x00, 0xa1, 0x00, 0xa0, 0x00]
  {
    hide Parse, CanBeCut, Cuts;
    EmptyElement(0xa3);
    EmptyElement(0xa1);
    EmptyElement(0xa0);
    assert IsElement(row[0]) && IsElement(row[1]) && IsElement(row[2]);
    assert TagOf(row[0]) == [0xa3] && TagOf(row[1]) == [0xa1] && TagOf(row[2]) == [0xa0];
    var two, one: seq<seq<u8>>, none: seq<seq<u8>> := row[1..], [[0xa0, 0x00]], [];
    assert two == [[0xa1, 0x00], [0xa0, 0x00]] && two[1..] == one && one[1..] == none;
    assert AllCuts(one) == one + AllCuts(none) == one;
    assert AllCuts(two) == [[0xa1, 0x00]] + AllCuts(one);
    assert Flatten(one) == [0xa0, 0x00] + Flatten(none);
    assert Flatten(two) == [0xa1, 0x00] + Flatten(one);
  }

  lemma EmptyElement(tag: u8)
    requires tag in {0xa0, 0xa1, 0xa2, 0xa3}
    ensures IsElement([tag, 0x00]) && TagOf([tag, 0x00]) == [tag] && CanBeCut([tag, 0x00])
    ensures Cuts([tag, 0x00]) == [[tag, 0x00]]
  {
    var e := [tag, 0x00];
    assert e == [tag] + [0x00] + [] + [];
    ParseIsComplete(e, [tag], [0x00], [], []);
    assert Elements([]) == Some([]);
    assert Header(e) == e;
  }
}

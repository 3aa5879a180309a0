// What the parser makes of any message whose options are well encoded, known or not:
// which ones it refuses, and what a packet holds that it accepts.
module CoapMeaning {
  import opened Common
  import opened CoapOption
  import opened Coap

  // The option numbers of the program.
  const KNOWN: set<nat> := {1, 3, 4, 5, 6, 7, 8, 11, 12, 14, 15, 17, 20, 23, 27, 28, 35, 39, 60}

  predicate Proxying(number: nat) {
    number == 35 || number == 39
  }

  // Odd numbers are critical: they must be understood.
  predicate UnknownCritical(number: nat) {
    number !in KNOWN && number % 2 == 1
  }

  lemma KnownIff(number: nat)
    ensures KindOf(number).Some? <==> number in KNOWN
    ensures KindOf(number) == Some(ProxyKind) <==> Proxying(number)
  {
  }

  // The first option that is refused.
  ghost predicate RefusedAt(items: seq<Item>, i: nat)
    requires i < |items|
  {
    && (UnknownCritical(items[i].number) || Proxying(items[i].number))
    && forall j :: 0 <= j < i ==> !UnknownCritical(items[j].number) && !Proxying(items[j].number)
  }

  // Some unknown critical option has no proxy option before it.
  ghost predicate BadOptionIn(items: seq<Item>) {
    exists i :: 0 <= i < |items| && UnknownCritical(items[i].number) && NoProxyBefore(items, i)
  }

  ghost predicate NoProxyBefore(items: seq<Item>, i: nat)
    requires i <= |items|
  {
    forall j :: 0 <= j < i ==> !Proxying(items[j].number)
  }

  // Some proxy option has no unknown critical option before it.
  ghost predicate ProxyOptionIn(items: seq<Item>) {
    exists i :: 0 <= i < |items| && Proxying(items[i].number) && NoUnknownBefore(items, i)
  }

  ghost predicate NoUnknownBefore(items: seq<Item>, i: nat)
    requires i <= |items|
  {
    forall j :: 0 <= j < i ==> !UnknownCritical(items[j].number)
  }

  function Numbers(items: seq<Item>): set<nat> {
    set i | 0 <= i < |items| :: items[i].number
  }

  // The values given for one number, in order.
  function ValuesOf(items: seq<Item>, number: nat): seq<Bytes> {
    if items == [] then []
    else
      var last := items[|items| - 1];
      ValuesOf(items[..|items| - 1], number) + if last.number == number then [last.value] else []
  }

  // What the values given for one known number come to: lists are merged, everything
  // else is taken from the last of them.
  ghost predicate FieldIs(number: nat, values: seq<Bytes>, v: Value)
    requires values != []
  {
    var last := values[|values| - 1];
    if number == 1 || number == 4 then v == Octets(if |last| > 8 then last[..8] else last)
    else if number == 3 then v == Text(last)
    else if number == 5 then v == Present
    else if number == 8 || number == 11 then v == Text(MergeAll([], values, 0x2F))
    else if number == 15 || number == 20 then v == Text(MergeAll([], values, 0x26))
    else if number == 7 || number == 12 || number == 17 then v == Number(Low16(ParseInt(last)))
    else if number == 6 || number == 14 || number == 28 || number == 60 then v == Number(ParseInt(last))
    else IsBlock(ParseInt(last), v)
  }

  function Low16(x: u32): u32 {
    x % 0x1_0000
  }

  lemma NarrowIs(bits: nat, x: u32)
    ensures Narrow(bits, x) == if bits == 16 then Low16(x) else x
  {
  }

  // Number, more and size exponent are in the upper 28 bits, one bit and three bits.
  ghost predicate IsBlock(n: u32, v: Value) {
    && v.Block? && v.num == n / 16 && (v.more <==> n / 8 % 2 == 1) && v.size == 16 * Pow2(n % 8)
    && v.offset == n / 16 * 16 * Pow2(n % 8) % 0x1_0000_0000
  }

  lemma BlockRead(n: u32)
    ensures IsBlock(n, Block(BlockNum(n), BlockMore(n), BlockSize(n), BlockOffset(n)))
  {
  }

  // An accepted packet: exactly the given numbers in the bitmap, values for exactly the
  // known ones among them; nothing else is different.
  ghost predicate Accepted(before: Packet, items: seq<Item>, after: Packet) {
    && after.options == Numbers(items)
    && FieldsAre(items, after.fields)
    && after == before.(options := after.options, fields := after.fields)
  }

  ghost predicate FieldsAre(items: seq<Item>, fields: map<nat, Value>) {
    && fields.Keys == Numbers(items) * KNOWN
    && forall n :: n in fields ==> ValuesOf(items, n) != [] && FieldIs(n, ValuesOf(items, n), fields[n])
  }

  lemma NumbersSnoc(items: seq<Item>)
    requires items != []
    ensures Numbers(items) == Numbers(items[..|items| - 1]) + {items[|items| - 1].number}
  {
    var before := items[..|items| - 1];
    forall n
      ensures n in Numbers(items) <==> n in Numbers(before) || n == items[|items| - 1].number
    {
      if n in Numbers(items) {
        var i :| 0 <= i < |items| && items[i].number == n;
        assert i < |before| ==> before[i].number == n;
      }
      if n in Numbers(before) {
        var i :| 0 <= i < |before| && before[i].number == n;
        assert items[i].number == n;
      }
      assert items[|items| - 1].number in Numbers(items);
    }
  }

  // The value of a known option after one more of its number.
  lemma FieldNext(fields: map<nat, Value>, items: seq<Item>, number: nat, kind: Kind, value: Bytes)
    requires KindOf(number) == Some(kind) && !kind.ProxyKind?
    requires if number in fields
             then ValuesOf(items, number) != [] && FieldIs(number, ValuesOf(items, number), fields[number])
             else ValuesOf(items, number) == []
    ensures FieldIs(number, ValuesOf(items, number) + [value], Updated(fields, number, kind, value))
  {
    hide ParseInt, Merge, IsBlock, BlockNum, BlockMore, BlockSize, BlockOffset, Narrow, Low16;
    var values := ValuesOf(items, number);
    BlockRead(ParseInt(value));
    if kind.IntKind? {
      NarrowIs(kind.bits, ParseInt(value));
    }
    if kind.ListKind? {
      var merged := MergeAll([], values, kind.sep);
      assert TextOf(fields, number) == merged;
      assert (values + [value])[..|values|] == values;
    }
  }

  ghost predicate Clean(items: seq<Item>) {
    forall j :: 0 <= j < |items| ==> !UnknownCritical(items[j].number) && !Proxying(items[j].number)
  }

  lemma {:induction false} FirstRefused(items: seq<Item>) returns (i: nat)
    requires !Clean(items)
    ensures i < |items| && RefusedAt(items, i)
    decreases |items|
  {
    var n := |items| - 1;
    if Clean(items[..n]) {
      forall j | 0 <= j < n
        ensures !UnknownCritical(items[j].number) && !Proxying(items[j].number)
      {
        assert items[..n][j] == items[j];
      }
      i := n;
    } else {
      i := FirstRefused(items[..n]);
      forall j | 0 <= j < i
        ensures !UnknownCritical(items[j].number) && !Proxying(items[j].number)
      {
        assert items[..n][j] == items[j];
      }
      assert items[..n][i] == items[i];
    }
  }

  // The first refused option decides between the two refusals.
  lemma RefusalIs(items: seq<Item>, i: nat)
    requires i < |items| && RefusedAt(items, i)
    ensures BadOptionIn(items) <==> UnknownCritical(items[i].number)
    ensures ProxyOptionIn(items) <==> Proxying(items[i].number)
  {
    hide UnknownCritical;
    KnownProxyAlso(items[i].number);
    if UnknownCritical(items[i].number) {
      assert NoProxyBefore(items, i);
    } else {
      assert NoUnknownBefore(items, i);
    }
  }

  lemma CleanIff(items: seq<Item>)
    ensures Clean(items) <==> !BadOptionIn(items) && !ProxyOptionIn(items)
  {
    hide UnknownCritical, Proxying;
    if !Clean(items) {
      var i := FirstRefused(items);
      RefusalIs(items, i);
    }
  }

  lemma ApplyOne(p: Packet, number: nat, value: Bytes)
    ensures Proxying(number) ==> Apply(p, number, value) == Refused(ProxyingNotSupported)
    ensures UnknownCritical(number) ==> Apply(p, number, value) == Refused(BadOption)
    ensures !Proxying(number) && number in KNOWN ==>
              && KindOf(number).Some? && !KindOf(number).value.ProxyKind?
              && Apply(p, number, value) ==
                 Parsed(p.(options := p.options + {number},
                           fields := p.fields[number := Updated(p.fields, number, KindOf(number).value, value)]))
    ensures !UnknownCritical(number) && number !in KNOWN ==>
              Apply(p, number, value) == Parsed(p.(options := p.options + {number}))
  {
    KnownIff(number);
    hide KindOf, Updated;
  }

  // One more option that is not refused.
  lemma AcceptedNext(p: Packet, items: seq<Item>, q: Packet)
    requires p.options == {} && p.fields == map[] && items != []
    requires Accepted(p, items[..|items| - 1], q)
    requires var last := items[|items| - 1]; !UnknownCritical(last.number) && !Proxying(last.number)
    ensures var r := Apply(q, items[|items| - 1].number, items[|items| - 1].value);
            r.Parsed? && Accepted(p, items, r.p)
  {
    var before, last := items[..|items| - 1], items[|items| - 1];
    var number := last.number;
    NumbersSnoc(items);
    ApplyOne(q, number, last.value);
    if number in KNOWN {
      ValuesGiven(before, number);
      FieldNext(q.fields, before, number, KindOf(number).value, last.value);
      KnownNext(q.fields, items, Updated(q.fields, number, KindOf(number).value, last.value));
    } else {
      UnknownNext(q.fields, items);
    }
    hide Apply, Updated, KindOf, UnknownCritical, Proxying, FieldsAre, Numbers, ValuesOf, FieldIs;
  }

  // A known option gives its field a value.
  lemma KnownNext(fields: map<nat, Value>, items: seq<Item>, value: Value)
    requires items != [] && FieldsAre(items[..|items| - 1], fields)
    requires var before, last := items[..|items| - 1], items[|items| - 1];
             && last.number in KNOWN
             && FieldIs(last.number, ValuesOf(before, last.number) + [last.value], value)
    ensures FieldsAre(items, fields[items[|items| - 1].number := value])
  {
    var before, last := items[..|items| - 1], items[|items| - 1];
    var after := fields[last.number := value];
    NumbersSnoc(items);
    hide FieldIs, Numbers, ValuesOf;
    assert after.Keys == fields.Keys + {last.number};
    forall n | n in after
      ensures ValuesOf(items, n) != [] && FieldIs(n, ValuesOf(items, n), after[n])
    {
      ValuesStep(items, n);
      if n == last.number {
        assert ValuesOf(items, n) == ValuesOf(before, n) + [last.value];
        assert ValuesOf(items, n)[|ValuesOf(before, n)|] == last.value;
      }
    }
  }

  // An unknown one gives none.
  lemma UnknownNext(fields: map<nat, Value>, items: seq<Item>)
    requires items != [] && FieldsAre(items[..|items| - 1], fields)
    requires items[|items| - 1].number !in KNOWN
    ensures FieldsAre(items, fields)
  {
    NumbersSnoc(items);
    hide FieldIs, Numbers, ValuesOf;
    forall n | n in fields
      ensures ValuesOf(items, n) == ValuesOf(items[..|items| - 1], n)
    {
      ValuesStep(items, n);
    }
  }

  lemma ValuesStep(items: seq<Item>, number: nat)
    requires items != []
    ensures var before, last := items[..|items| - 1], items[|items| - 1];
            ValuesOf(items, number) ==
            if last.number == number then ValuesOf(before, number) + [last.value] else ValuesOf(before, number)
  {
  }

  lemma {:induction false} ValuesGiven(items: seq<Item>, number: nat)
    ensures ValuesOf(items, number) != [] <==> number in Numbers(items)
    decreases |items|
  {
    if items != [] {
      NumbersSnoc(items);
      ValuesGiven(items[..|items| - 1], number);
    }
  }

  // Applying any options: the refusals, or the packet they make.
  lemma {:induction false} AppliedIs(p: Packet, items: seq<Item>)
    requires p.options == {} && p.fields == map[]
    ensures var r := ApplyAll(p, items);
            if Clean(items) then r.Parsed? && Accepted(p, items, r.p)
            else r == Refused(if BadOptionIn(items) then BadOption else ProxyingNotSupported)
    decreases |items|
  {
    hide Apply, UnknownCritical, Proxying, Accepted, KindOf;
    if items == [] {
      NothingApplied(p);
    } else {
      var n := |items| - 1;
      var before, last := items[..n], items[n];
      AppliedIs(p, before);
      CleanStep(items);
      if Clean(items) {
        AcceptedNext(p, items, ApplyAll(p, before).p);
      } else if Clean(before) {
        ApplyOne(ApplyAll(p, before).p, last.number, last.value);
        RefusalIs(items, n);
        KnownProxyAlso(last.number);
      } else {
        var i := FirstRefused(before);
        RefusalIs(before, i);
        RefusedStill(items, i);
        RefusalIs(items, i);
      }
    }
  }

  lemma NothingApplied(p: Packet)
    requires p.options == {} && p.fields == map[]
    ensures Clean([]) && Accepted(p, [], p)
  {
  }

  lemma KnownProxyAlso(number: nat)
    ensures UnknownCritical(number) ==> !Proxying(number)
  {
  }

  lemma CleanStep(items: seq<Item>)
    requires items != []
    ensures var n := |items| - 1;
            && (Clean(items) <==>
                Clean(items[..n]) && !UnknownCritical(items[n].number) && !Proxying(items[n].number))
            && (Clean(items[..n]) && !Clean(items) ==> RefusedAt(items, n))
  {
    hide UnknownCritical, Proxying;
    var n := |items| - 1;
    assert forall j :: 0 <= j < n ==> items[..n][j] == items[j];
  }

  lemma RefusedStill(items: seq<Item>, i: nat)
    requires items != [] && i < |items| - 1 && RefusedAt(items[..|items| - 1], i)
    ensures RefusedAt(items, i) && items[..|items| - 1][i] == items[i]
  {
    hide UnknownCritical, Proxying;
    assert forall j :: 0 <= j < |items| - 1 ==> items[..|items| - 1][j] == items[j];
  }

  // ----- whole messages -----

  // Four bytes, the token as long as the first of them says but at most eight bytes, the
  // options, and nothing or a byte from 0xF0 on with the payload behind it.
  ghost predicate Composed(data: Bytes, first: Bytes, token: Bytes, items: seq<Item>, tail: Bytes) {
    && |first| == 4 && |token| == (if first[0] % 0x10 < 8 then first[0] % 0x10 else 8)
    && Encodable(items) && (tail == [] || tail[0] >= 0xF0)
    && data == first + token + EncodeItems(items) + tail
  }

  function PayloadOf(tail: Bytes): Bytes {
    if tail == [] then [] else if |tail| > 65 then tail[1..65] else tail[1..]
  }

  function HeaderPacket(first: Bytes, token: Bytes): Packet
    requires |first| == 4
  {
    Packet(first[0] / 0x10 % 4, first[1], 0x100 * (first[2] as int) + (first[3] as int), token, {}, map[], [])
  }

  lemma TailIs(data: Bytes, at: nat, number: nat, p: Packet, tail: Bytes)
    requires at <= |data| && data[at..] == tail && (tail == [] || tail[0] >= 0xF0) && p.payload == []
    ensures ParseOptions(data, at, number, p) == Parsed(p.(payload := PayloadOf(tail)))
  {
    if tail != [] {
      assert data[at] == tail[0] && data[at + 1..] == tail[1..];
      assert |tail| > 65 ==> tail[1..][..64] == tail[1..65];
    } else {
      assert at == |data|;
    }
  }

  lemma HeaderRead(data: Bytes, first: Bytes, token: Bytes)
    requires |first| == 4 && |token| == if first[0] % 0x10 < 8 then first[0] % 0x10 else 8
    requires 4 + |token| <= |data| && data[4..4 + |token|] == token
    requires data[0] == first[0] && data[1] == first[1] && data[2] == first[2] && data[3] == first[3]
    ensures ParseMessage(data) ==
            if first[0] / 0x40 != 1 then Refused(BadRequest)
            else ParseOptions(data, 4 + |token|, 0, HeaderPacket(first, token))
  {
    hide ParseOptions;
  }

  lemma FrontParts(data: Bytes, first: Bytes, token: Bytes, rest: Bytes)
    requires |first| == 4 && data == first + token + rest
    ensures 4 + |token| <= |data| && data[4..4 + |token|] == token
    ensures data[0] == first[0] && data[1] == first[1] && data[2] == first[2] && data[3] == first[3]
  {
  }

  // What parsing such a message gives. It is refused for its version first, then for the
  // first option that is critical and unknown or asks for a proxy.
  ghost predicate ParsedAs(first: Bytes, token: Bytes, items: seq<Item>, tail: Bytes, r: Parse)
    requires |first| == 4
  {
    if first[0] / 0x40 != 1 then r == Refused(BadRequest)
    else OptionsAs(HeaderPacket(first, token), items, tail, r)
  }

  ghost predicate OptionsAs(p: Packet, items: seq<Item>, tail: Bytes, r: Parse) {
    && (r == Refused(BadOption) <==> BadOptionIn(items))
    && (r == Refused(ProxyingNotSupported) <==> ProxyOptionIn(items))
    && (r.Parsed? <==> !BadOptionIn(items) && !ProxyOptionIn(items))
    && (r.Parsed? ==> Accepted(p.(payload := PayloadOf(tail)), items, r.p))
  }

  lemma ParsesAny(data: Bytes, first: Bytes, token: Bytes, items: seq<Item>, tail: Bytes)
    requires |first| == 4 && Composed(data, first, token, items, tail)
    ensures ParsedAs(first, token, items, tail, ParseMessage(data))
  {
    hide *;
    ComposedParts(data, first, token, items, tail);
    var p, at := HeaderPacket(first, token), 4 + |token|;
    EmptyPacket(first, token);
    if first[0] / 0x40 == 1 {
      ParsesItems(data, at, items, p);
      OptionsParsed(data, at + |EncodeItems(items)|, LastNumber(items), p, items, tail);
    }
    ParsedAsIs(first, token, items, tail, ParseMessage(data));
  }

  lemma EmptyPacket(first: Bytes, token: Bytes)
    requires |first| == 4
    ensures var p := HeaderPacket(first, token);
            p.options == {} && p.fields == map[] && p.payload == []
  {
  }

  lemma ParsedAsIs(first: Bytes, token: Bytes, items: seq<Item>, tail: Bytes, r: Parse)
    requires |first| == 4
    requires first[0] / 0x40 != 1 ==> r == Refused(BadRequest)
    requires first[0] / 0x40 == 1 ==> OptionsAs(HeaderPacket(first, token), items, tail, r)
    ensures ParsedAs(first, token, items, tail, r)
  {
    hide HeaderPacket, BadOptionIn, ProxyOptionIn, Accepted, PayloadOf;
  }

  lemma ComposedParts(data: Bytes, first: Bytes, token: Bytes, items: seq<Item>, tail: Bytes)
    requires Composed(data, first, token, items, tail)
    ensures |first| == 4 && Encodable(items) && (tail == [] || tail[0] >= 0xF0)
    ensures var at, coded := 4 + |token|, EncodeItems(items);
            && ParseMessage(data) == (if first[0] / 0x40 != 1 then Refused(BadRequest)
                                      else ParseOptions(data, at, 0, HeaderPacket(first, token)))
            && At(data, at, coded) && at + |coded| <= |data| && data[at + |coded|..] == tail
  {
    hide At, EncodeItems, Encodable, ParseMessage, ParseOptions, HeaderPacket;
    var coded := EncodeItems(items);
    MiddleAt(first + token, coded, tail);
    FrontParts(data, first, token, coded + tail);
    HeaderRead(data, first, token);
  }

  lemma MiddleAt(a: Bytes, b: Bytes, c: Bytes)
    ensures At(a + b + c, |a|, b) && (a + b + c)[|a| + |b|..] == c && a + b + c == a + (b + c)
  {
  }

  lemma OptionsParsed(data: Bytes, at: nat, number: nat, p: Packet, items: seq<Item>, tail: Bytes)
    requires at <= |data| && data[at..] == tail && (tail == [] || tail[0] >= 0xF0)
    requires p.options == {} && p.fields == map[] && p.payload == []
    ensures OptionsAs(p, items, tail, Continue(ApplyAll(p, items), data, at, number))
  {
    AppliedIs(p, items);
    CleanIff(items);
    if Clean(items) {
      TailIs(data, at, number, ApplyAll(p, items).p, tail);
    } else {
      var i := FirstRefused(items);
      RefusalIs(items, i);
      KnownProxyAlso(items[i].number);
    }
    hide ApplyAll, ParseOptions, BadOptionIn, ProxyOptionIn, PayloadOf, FieldIs, ValuesOf;
  }

  // ----- the wire format -----

  // Deltas and lengths below 13 stand in the first byte; from 13 on one byte follows
  // with what exceeds 13, from 269 on two bytes with what exceeds 269.
  ghost predicate Announces(nibble: nat, extension: Bytes, x: u16) {
    if x < 13 then nibble == x && extension == []
    else if x < 269 then nibble == 13 && |extension| == 1 && 13 + (extension[0] as int) == x
    else nibble == 14 && |extension| == 2 && 269 + 256 * (extension[0] as int) + (extension[1] as int) == x
  }

  lemma HeaderFormat(delta: u16, length: u16)
    ensures exists d: nat, l: nat, x, y ::
              d < 16 && l < 16 && Announces(d, x, delta) && Announces(l, y, length) &&
              Header(delta, length) == [16 * d + l] + x + y
  {
    var d, l, x, y := Nibble(delta), Nibble(length), Extension(delta), Extension(length);
    assert Announces(d, x, delta) && Announces(l, y, length);
    assert Header(delta, length) == [16 * d + l] + x + y;
  }

  // The value of bytes, most significant first.
  function BigEndian(b: Bytes): nat {
    if b == [] then 0 else 256 * BigEndian(b[..|b| - 1]) + b[|b| - 1]
  }

  lemma {:induction false} IntRead(b: Bytes)
    ensures ParseInt(b) == BigEndian(b) % 0x1_0000_0000
    decreases |b|
  {
    if b != [] {
      IntRead(b[..|b| - 1]);
      LowBytes(BigEndian(b[..|b| - 1]), b[|b| - 1]);
    }
  }

  lemma LowBytes(x: nat, b: u8)
    ensures (0x100 * (x % 0x1_0000_0000) + b) % 0x1_0000_0000 == (0x100 * x + b) % 0x1_0000_0000
  {
    var q := x / 0x1_0000_0000;
    assert x == 0x1_0000_0000 * q + x % 0x1_0000_0000;
    assert 0x100 * x + b == 0x1_0000_0000 * (0x100 * q) + (0x100 * (x % 0x1_0000_0000) + b);
    MultipleGone(0x100 * q, 0x100 * (x % 0x1_0000_0000) + b);
  }

  lemma MultipleGone(k: nat, r: nat)
    ensures (0x1_0000_0000 * k + r) % 0x1_0000_0000 == r % 0x1_0000_0000
  {
  }

  // The first four bytes: version 1, type and token length; the code; the message id,
  // high byte first. The token follows, except in an empty message.
  lemma StartFormat(p: Packet)
    requires p.typ < 4 && |p.token| <= TOKEN_LEN
    ensures var b := Start(p);
            && b[0] / 0x40 == 1 && b[0] / 0x10 % 4 == p.typ && b[0] % 0x10 == |p.token|
            && b[1] == p.code
            && BigEndian(b[2..4]) == p.mid
            && b[4..] == if p.code == 0 then [] else p.token
  {
    assert BigEndian([p.mid / 0x100]) == p.mid / 0x100;
    assert Start(p)[2..4] == [p.mid / 0x100, p.mid % 0x100] && [p.mid / 0x100, p.mid % 0x100][..1] == [p.mid / 0x100];
  }

  // No number is written with a leading zero byte.
  lemma IntFormat(v: u32)
    ensures BigEndian(IntBytes(v)) == v && (IntBytes(v) != [] ==> IntBytes(v)[0] != 0)
  {
    LeadingByte(v);
    hide IntBytes, ParseInt, BigEndian;
    IntRoundTrip(v);
    IntRead(IntBytes(v));
    FourBytes(IntBytes(v));
    SmallRest(BigEndian(IntBytes(v)));
  }

  lemma LeadingByte(v: u32)
    ensures IntBytes(v) != [] ==> IntBytes(v)[0] != 0
  {
  }

  lemma SmallRest(x: nat)
    requires x < 0x1_0000_0000
    ensures x % 0x1_0000_0000 == x
  {
  }

  lemma FourBytes(b: Bytes)
    requires |b| <= 4
    ensures BigEndian(b) < 0x1_0000_0000
  {
    if |b| > 0 {
      ShorterBytes(b[..|b| - 1]);
    }
  }

  lemma ShorterBytes(b: Bytes)
    requires |b| <= 3
    ensures BigEndian(b) < 0x100_0000
  {
    assert |b| > 1 ==> b[..|b| - 1][..|b| - 2] == b[..|b| - 2];
    assert |b| > 2 ==> b[..|b| - 2][..|b| - 3] == b[..|b| - 3] == [];
  }

  // The exponent of a block size: that of its sixteenth, rounded down; 0 below 16.
  ghost predicate SizeExponent(e: nat, size: u16) {
    if size < 16 then e == 0 else Pow2(e) <= size / 16 < Pow2(e + 1)
  }

  // A block on the wire: 28 bits of its number, more, and the size exponent; an exponent
  // of eight or more takes the place of the flag, too.
  lemma BlockFormat(num: u32, more: bool, size: u16)
    ensures exists e: nat ::
              e < 12 && SizeExponent(e, size) &&
              BlockValue(num, more, size) == 16 * (num % 0x1000_0000) + e + (if more && e < 8 then 8 else 0)
  {
    var e := Log2(size / 16);
    if size >= 16 {
      Log2Is(size / 16);
    }
    ExponentBelow(size / 16);
    assert SizeExponent(e, size);
    hide Log2;
  }

  lemma ExponentBelow(x: nat)
    requires x < 0x1000
    ensures Log2(x) < 12
  {
    assert Pow2(4) == 16 && Pow2(8) == 256 && Pow2(12) == 0x1000;
    Log2Below(x, 12);
  }
}

// CoAP messages (RFC 7252, section 3): what serializing a packet produces, what
// parsing bytes yields, and when parsing undoes serializing.
module Coap {
  import opened Common
  import opened CoapOption

  const HEADER_LEN := 4
  const TOKEN_LEN := 8
  const ETAG_LEN := 8
  const MAX_HEADER_SIZE := 62
  const MAX_CHUNK_SIZE := 64
  const OPTION_LIMIT := 64  // numbers the option bitmap has bits for

  const SLASH: u8 := 0x2F
  const AMPERSAND: u8 := 0x26

  datatype Kind = IntKind(bits: nat) | FlagKind | OctetsKind | TextKind | ListKind(sep: u8) | BlockKind | ProxyKind

  // The options the program knows. Content-format and accept are 16-bit enums.
  function KindOf(number: nat): Option<Kind> {
    match number
    case 1 => Some(OctetsKind)          // If-Match
    case 3 => Some(TextKind)            // Uri-Host
    case 4 => Some(OctetsKind)          // ETag
    case 5 => Some(FlagKind)            // If-None-Match
    case 6 => Some(IntKind(32))         // Observe
    case 7 => Some(IntKind(16))         // Uri-Port
    case 8 => Some(ListKind(SLASH))     // Location-Path
    case 11 => Some(ListKind(SLASH))    // Uri-Path
    case 12 => Some(IntKind(16))        // Content-Format
    case 14 => Some(IntKind(32))        // Max-Age
    case 15 => Some(ListKind(AMPERSAND))  // Uri-Query
    case 17 => Some(IntKind(16))        // Accept
    case 20 => Some(ListKind(AMPERSAND))  // Location-Query
    case 23 => Some(BlockKind)          // Block2
    case 27 => Some(BlockKind)          // Block1
    case 28 => Some(IntKind(32))        // Size2
    case 35 => Some(ProxyKind)          // Proxy-Uri
    case 39 => Some(ProxyKind)          // Proxy-Scheme
    case 60 => Some(IntKind(32))        // Size1
    case _ => None
  }

  // The order in which the serializer goes through them.
  const ORDER: seq<nat> := [1, 3, 4, 5, 6, 7, 8, 11, 12, 14, 15, 17, 20, 23, 27, 28, 35, 39, 60]

  datatype Value =
    | Number(n: u32)
    | Present
    | Octets(octets: Bytes)
    | Text(text: Bytes)
    | Block(num: u32, more: bool, size: u16, offset: u32)

  // options: the bitmap; fields: the values of the known options among them.
  datatype Packet = Packet(typ: nat, code: u8, mid: u16, token: Bytes, options: set<nat>, fields: map<nat, Value>,
                           payload: Bytes)

  predicate Typed(number: nat, v: Value) {
    match KindOf(number)
    case Some(IntKind(bits)) => v.Number? && (bits == 16 ==> v.n < 0x1_0000)
    case Some(FlagKind) => v.Present?
    case Some(OctetsKind) => v.Octets? && |v.octets| <= ETAG_LEN
    case Some(BlockKind) => v.Block?
    case Some(_) => v.Text?
    case None => false
  }

  ghost predicate AllTyped(fields: map<nat, Value>) {
    forall n :: n in fields ==> Typed(n, fields[n])
  }

  // What the program's struct can hold.
  ghost predicate WellFormed(p: Packet) {
    && p.typ < 4 && |p.token| <= TOKEN_LEN && |p.payload| < 0x1_0000
    && p.options == p.fields.Keys && (forall n :: n in p.fields && p.fields[n].Text? ==> |p.fields[n].text| < 0x1_0000)
    && AllTyped(p.fields)
  }

  // ----- serializing -----

  datatype Item = Item(number: nat, value: Bytes)

  // The byte behind a string's terminator, which can be read, is taken to be no separator.
  const BEHIND: (u8, u8) := (0, 0)

  function PartItems(number: nat, parts: seq<Bytes>): (items: seq<Item>)
    ensures |items| == |parts|
  {
    seq(|parts|, i requires 0 <= i < |parts| => Item(number, parts[i]))
  }

  function FieldItems(number: nat, v: Value): seq<Item>
    requires Typed(number, v)
  {
    match v
    case Number(n) => [Item(number, IntBytes(n))]
    case Present => [Item(number, [])]
    case Octets(b) => [Item(number, b)]
    case Text(s) =>
      var kind := KindOf(number).value;
      if kind.ListKind? then PartItems(number, Split(s, kind.sep, BEHIND)) else [Item(number, s)]
    case Block(num, more, size, _) => [Item(number, IntBytes(BlockValue(num, more, size)))]
  }

  function Items(fields: map<nat, Value>, order: seq<nat>): seq<Item>
    requires forall n :: n in fields && n in order ==> Typed(n, fields[n])
  {
    if order == [] then []
    else
      var number := order[|order| - 1];
      Items(fields, order[..|order| - 1]) + if number in fields then FieldItems(number, fields[number]) else []
  }

  function LastNumber(items: seq<Item>): nat {
    if items == [] then 0 else items[|items| - 1].number
  }

  // Numbers in order, lengths as the header can hold them.
  ghost predicate Encodable(items: seq<Item>) {
    && (forall i :: 0 <= i < |items| ==> items[i].number < OPTION_LIMIT && |items[i].value| < 0x1_0000)
    && forall i :: 0 < i < |items| ==> items[i - 1].number <= items[i].number
  }

  lemma EncodablePrefix(items: seq<Item>)
    requires Encodable(items) && items != []
    ensures Encodable(items[..|items| - 1]) && LastNumber(items[..|items| - 1]) <= items[|items| - 1].number
  {
  }

  function EncodeItems(items: seq<Item>): Bytes
    requires Encodable(items)
  {
    if items == [] then []
    else
      var last := items[|items| - 1];
      EncodablePrefix(items);
      EncodeItems(items[..|items| - 1]) + EncodeOption(last.number - LastNumber(items[..|items| - 1]), last.value)
  }

  // The fixed header and the token; an empty message has no token behind its header.
  function Start(p: Packet): (b: Bytes)
    requires p.typ < 4 && |p.token| <= TOKEN_LEN
    ensures |b| == 4 + if p.code == 0 then 0 else |p.token|
  {
    [0x40 + 0x10 * p.typ + |p.token|, p.code, p.mid / 0x100, p.mid % 0x100] + if p.code == 0 then [] else p.token
  }

  // ----- parsing -----

  datatype Status = BadRequest | BadOption | ProxyingNotSupported

  // Stray: the message makes the parser read behind its end or set a bit behind the bitmap.
  datatype Parse = Parsed(p: Packet) | Refused(status: Status) | Stray

  function Narrow(bits: nat, v: u32): u32 {
    if bits == 16 then v % 0x1_0000 else v
  }

  function TextOf(fields: map<nat, Value>, number: nat): Bytes {
    if number in fields && fields[number].Text? then fields[number].text else []
  }

  // The value of a known option after one more option of its number.
  function Updated(fields: map<nat, Value>, number: nat, kind: Kind, value: Bytes): Value {
    match kind
    case IntKind(bits) => Number(Narrow(bits, ParseInt(value)))
    case FlagKind => Present
    case OctetsKind => Octets(if |value| < ETAG_LEN then value else value[..ETAG_LEN])
    case ListKind(sep) => Text(Merge(TextOf(fields, number), value, sep))
    case BlockKind =>
      var v := ParseInt(value);
      Block(BlockNum(v), BlockMore(v), BlockSize(v), BlockOffset(v))
    case _ => Text(value)
  }

  function Apply(p: Packet, number: nat, value: Bytes): Parse {
    var q := p.(options := p.options + {number});
    match KindOf(number)
    case Some(ProxyKind) => Refused(ProxyingNotSupported)
    case Some(kind) => Parsed(q.(fields := p.fields[number := Updated(p.fields, number, kind, value)]))
    case None => if number % 2 == 1 then Refused(BadOption) else Parsed(q)
  }

  function ParseOptions(data: Bytes, at: nat, number: nat, p: Packet): Parse
    requires at <= |data|
    decreases |data| - at
  {
    if at == |data| then Parsed(p)
    else if data[at] / 0x10 == 15 then
      var rest := data[at + 1..];
      Parsed(p.(payload := if |rest| > MAX_CHUNK_SIZE then rest[..MAX_CHUNK_SIZE] else rest))
    else
      var head := ReadHead(data, at);
      if head.Short? || number + head.delta >= OPTION_LIMIT || head.value + head.length > |data| then Stray
      else
        var end := head.value + head.length;
        var r := Apply(p, number + head.delta, data[head.value..end]);
        if r.Parsed? then ParseOptions(data, end, number + head.delta, r.p) else r
  }

  function ParsedStart(data: Bytes): (p: Packet)
    requires |data| >= HEADER_LEN
  {
    Packet(data[0] / 0x10 % 4, data[1], 0x100 * (data[2] as int) + (data[3] as int), [], {}, map[], [])
  }

  function ParseMessage(data: Bytes): Parse {
    if |data| < HEADER_LEN then Stray
    else if data[0] / 0x40 != 1 then Refused(BadRequest)
    else
      var length := Common.Min(TOKEN_LEN, data[0] % 0x10);
      if HEADER_LEN + length > |data| then Stray
      else
        var p := ParsedStart(data).(token := data[HEADER_LEN..HEADER_LEN + length]);
        ParseOptions(data, HEADER_LEN + length, 0, p)
  }

  // ----- parsing what was serialized -----

  function ApplyAll(p: Packet, items: seq<Item>): Parse {
    if items == [] then Parsed(p)
    else
      var before := ApplyAll(p, items[..|items| - 1]);
      if before.Parsed? then Apply(before.p, items[|items| - 1].number, items[|items| - 1].value) else before
  }

  function Continue(r: Parse, data: Bytes, at: nat, number: nat): Parse
    requires at <= |data|
  {
    if r.Parsed? then ParseOptions(data, at, number, r.p) else r
  }

  lemma AtIs(data: Bytes, at: nat, b: Bytes)
    requires At(data, at, b)
    ensures at + |b| <= |data| && data[at..at + |b|] == b
  {
  }

  lemma OneOption(data: Bytes, at: nat, number: nat, item: Item, p: Packet)
    requires number <= item.number < OPTION_LIMIT && |item.value| < 0x1_0000
    requires At(data, at, EncodeOption(item.number - number, item.value))
    ensures var end := at + |EncodeOption(item.number - number, item.value)|;
            end <= |data| && ParseOptions(data, at, number, p) ==
              Continue(Apply(p, item.number, item.value), data, end, item.number)
  {
    hide At, Header, Apply, ReadHead;
    var delta := item.number - number;
    var header := Header(delta, |item.value|);
    AtConcat(data, at, header, item.value);
    HeaderRoundTrip(data, at, delta, |item.value|);
    AtIs(data, at, header);
    AtIs(data, at + |header|, item.value);
  }

  lemma {:induction false} ParsesItems(data: Bytes, at: nat, items: seq<Item>, p: Packet)
    requires Encodable(items) && At(data, at, EncodeItems(items))
    ensures at + |EncodeItems(items)| <= |data|
    ensures ParseOptions(data, at, 0, p) ==
            Continue(ApplyAll(p, items), data, at + |EncodeItems(items)|, LastNumber(items))
  {
    hide At, EncodeOption, Apply, ParseOptions;
    if items == [] {
      AtIs(data, at, []);
    } else {
      var before, last := items[..|items| - 1], items[|items| - 1];
      EncodablePrefix(items);
      AtConcat(data, at, EncodeItems(before), EncodeOption(last.number - LastNumber(before), last.value));
      ParsesItems(data, at, before, p);
      var r := ApplyAll(p, before);
      if r.Parsed? {
        OneOption(data, at + |EncodeItems(before)|, LastNumber(before), last, r.p);
      } else {
        AtIs(data, at, EncodeItems(items));
      }
    }
  }

  lemma {:induction false} ApplyConcat(p: Packet, a: seq<Item>, b: seq<Item>)
    ensures ApplyAll(p, a + b) == if ApplyAll(p, a).Parsed? then ApplyAll(ApplyAll(p, a).p, b) else ApplyAll(p, a)
    decreases |b|
  {
    hide Apply;
    if b == [] {
      assert a + b == a;
    } else {
      assert (a + b)[..|a + b| - 1] == a + b[..|b| - 1];
      ApplyConcat(p, a, b[..|b| - 1]);
    }
  }

  // The value a field has after serializing and parsing.
  function Reread(number: nat, v: Value): Value
    requires Typed(number, v)
  {
    match v
    case Text(s) =>
      var kind := KindOf(number).value;
      if kind.ListKind? then Text(MergeAll([], Split(s, kind.sep, BEHIND), kind.sep)) else v
    case Block(num, more, size, _) =>
      var b := BlockValue(num, more, size);
      Block(BlockNum(b), BlockMore(b), BlockSize(b), BlockOffset(b))
    case _ => v
  }

  predicate IsProxy(number: nat) {
    KindOf(number) == Some(ProxyKind)
  }

  lemma {:induction false} PartsApplied(p: Packet, number: nat, sep: u8, parts: seq<Bytes>)
    requires KindOf(number) == Some(ListKind(sep)) && number !in p.fields && |parts| > 0
    ensures ApplyAll(p, PartItems(number, parts)) ==
              Parsed(p.(options := p.options + {number}, fields := p.fields[number := Text(MergeAll([], parts, sep))]))
    decreases |parts|
  {
    hide KindOf, Merge;
    var items, n := PartItems(number, parts), |parts| - 1;
    assert items[..n] == PartItems(number, parts[..n]);
    var merged := MergeAll([], parts[..n], sep);
    var kind := ListKind(sep);
    if n == 0 {
      assert TextOf(p.fields, number) == [] == merged;
      assert items[..n] == [];
    } else {
      PartsApplied(p, number, sep, parts[..n]);
      var fields := p.fields[number := Text(merged)];
      assert TextOf(fields, number) == merged;
      assert fields[number := Text(Merge(merged, parts[n], sep))] ==
             p.fields[number := Text(Merge(merged, parts[n], sep))];
      assert p.options + {number} + {number} == p.options + {number};
    }
  }

  lemma SingleApplied(p: Packet, item: Item)
    ensures ApplyAll(p, [item]) == Apply(p, item.number, item.value)
  {
    assert [item][..0] == [];
  }

  lemma FieldApplied(p: Packet, number: nat, v: Value)
    requires Typed(number, v) && number !in p.fields
    ensures ApplyAll(p, FieldItems(number, v)) ==
              if IsProxy(number) then Refused(ProxyingNotSupported)
              else Parsed(p.(options := p.options + {number}, fields := p.fields[number := Reread(number, v)]))
  {
    hide KindOf, Split, IntBytes, ParseInt, BlockValue, BlockNum, BlockMore, BlockSize, BlockOffset;
    match v
    case Number(n) =>
      IntRoundTrip(n);
      SingleApplied(p, Item(number, IntBytes(n)));
    case Present => SingleApplied(p, Item(number, []));
    case Octets(b) =>
      assert |b| == ETAG_LEN ==> b[..ETAG_LEN] == b;
      SingleApplied(p, Item(number, b));
    case Text(s) =>
      var kind := KindOf(number).value;
      if kind.ListKind? {
        PartsApplied(p, number, kind.sep, Split(s, kind.sep, BEHIND));
      } else {
        SingleApplied(p, Item(number, s));
      }
    case Block(num, more, size, _) =>
      IntRoundTrip(BlockValue(num, more, size));
      SingleApplied(p, Item(number, IntBytes(BlockValue(num, more, size))));
  }

  ghost predicate Ascending(order: seq<nat>) {
    && (forall i, j :: 0 <= i < j < |order| ==> order[i] < order[j])
    && forall i :: 0 <= i < |order| ==> order[i] < OPTION_LIMIT
  }

  // The fields whose numbers are in the order, as parsing leaves them.
  ghost function RereadIn(fields: map<nat, Value>, order: seq<nat>): map<nat, Value>
    requires forall n :: n in fields && n in order ==> Typed(n, fields[n])
  {
    map n | n in fields && n in order :: Reread(n, fields[n])
  }

  ghost predicate ProxyIn(fields: map<nat, Value>, order: seq<nat>) {
    exists n :: n in fields && n in order && IsProxy(n)
  }

  lemma OrderSplit(order: seq<nat>)
    requires Ascending(order) && order != []
    ensures var last := order[|order| - 1]; var before := order[..|order| - 1];
            && Ascending(before) && last !in before
            && forall n :: n in order <==> n in before || n == last
  {
    var before := order[..|order| - 1];
    assert order == before + [order[|order| - 1]];
  }

  // One more number in the order.
  lemma RereadStep(fields: map<nat, Value>, order: seq<nat>)
    requires Ascending(order) && order != []
    requires forall n :: n in fields && n in order ==> Typed(n, fields[n])
    ensures var last := order[|order| - 1]; var before := order[..|order| - 1];
            && Ascending(before) && last !in RereadIn(fields, before)
            && (forall n :: n in fields && n in before ==> Typed(n, fields[n]))
            && (last in fields ==> Typed(last, fields[last]))
            && RereadIn(fields, order) ==
                 (if last in fields then RereadIn(fields, before)[last := Reread(last, fields[last])]
                  else RereadIn(fields, before))
            && RereadIn(fields, order).Keys == RereadIn(fields, before).Keys + (if last in fields then {last} else {})
            && Items(fields, order) ==
               Items(fields, before) + (if last in fields then FieldItems(last, fields[last]) else [])
            && (ProxyIn(fields, order) <==> ProxyIn(fields, before) || (last in fields && IsProxy(last)))
  {
    hide Typed, Reread, IsProxy;
    OrderSplit(order);
  }

  lemma {:induction false} OrderApplied(p: Packet, fields: map<nat, Value>, order: seq<nat>)
    requires p.options == {} && p.fields == map[] && Ascending(order)
    requires forall n :: n in fields && n in order ==> Typed(n, fields[n])
    ensures ApplyAll(p, Items(fields, order)) ==
              if ProxyIn(fields, order) then Refused(ProxyingNotSupported)
              else Parsed(p.(options := RereadIn(fields, order).Keys, fields := RereadIn(fields, order)))
    decreases |order|
  {
    hide Typed, FieldItems, Apply, Reread, KindOf, IsProxy;
    if order == [] {
      assert RereadIn(fields, order) == map[];
    } else {
      var before, last := order[..|order| - 1], order[|order| - 1];
      RereadStep(fields, order);
      OrderApplied(p, fields, before);
      hide RereadIn, ProxyIn, Ascending, Items, ApplyAll;
      if last in fields {
        ApplyConcat(p, Items(fields, before), FieldItems(last, fields[last]));
        if !ProxyIn(fields, before) {
          FieldApplied(p.(options := RereadIn(fields, before).Keys, fields := RereadIn(fields, before)), last,
                       fields[last]);
        }
      } else {
        assert Items(fields, order) == Items(fields, before);
      }
    }
  }

  lemma EncodableAppend(a: seq<Item>, b: seq<Item>, number: nat)
    requires Encodable(a) && LastNumber(a) <= number < OPTION_LIMIT
    requires forall i :: 0 <= i < |b| ==> b[i].number == number && |b[i].value| < 0x1_0000
    ensures Encodable(a + b) && LastNumber(a + b) <= number
  {
  }

  lemma {:induction false} ItemsEncodable(fields: map<nat, Value>, order: seq<nat>)
    requires Ascending(order)
    requires forall n :: n in fields && n in order ==> Typed(n, fields[n])
    requires forall n :: n in fields && fields[n].Text? ==> |fields[n].text| < 0x1_0000
    ensures Encodable(Items(fields, order))
    ensures LastNumber(Items(fields, order)) <= if order == [] then 0 else order[|order| - 1]
    decreases |order|
  {
    hide Typed, FieldItems, KindOf;
    if order != [] {
      var before, last := order[..|order| - 1], order[|order| - 1];
      RereadStep(fields, order);
      ItemsEncodable(fields, before);
      assert (if before == [] then 0 else before[|before| - 1]) <= last;
      hide Encodable, LastNumber, Items, Ascending;
      if last in fields {
        FieldItemsFit(last, fields[last]);
        EncodableAppend(Items(fields, before), FieldItems(last, fields[last]), last);
      } else {
        assert Items(fields, order) == Items(fields, before);
      }
    }
  }

  lemma FieldItemsFit(number: nat, v: Value)
    requires Typed(number, v) && (v.Text? ==> |v.text| < 0x1_0000)
    ensures forall i :: 0 <= i < |FieldItems(number, v)| ==>
              FieldItems(number, v)[i].number == number && |FieldItems(number, v)[i].value| < 0x1_0000
  {
    hide KindOf, IntBytes, Split;
    if v.Text? {
      var kind := KindOf(number).value;
      if kind.ListKind? {
        var parts := Split(v.text, kind.sep, BEHIND);
        forall i | 0 <= i < |parts|
          ensures |parts[i]| < 0x1_0000
        {
          PartFits(v.text, kind.sep, i);
        }
      }
    }
  }

  lemma PartFits(s: Bytes, sep: u8, i: nat)
    requires i < |Split(s, sep, BEHIND)|
    ensures |Split(s, sep, BEHIND)[i]| <= |s|
  {
    PartsShort([], s, sep, BEHIND, i);
  }

  lemma OrderFacts()
    ensures Ascending(ORDER)
    ensures forall n :: KindOf(n).Some? ==> n in ORDER
  {
    forall n | KindOf(n).Some?
      ensures n in ORDER
    {
      var i :=
        if n == 1 then 0 else if n <= 8 then n - 2
        else if n == 11 then 7 else if n == 12 then 8 else if n == 14 then 9 else if n == 15 then 10
        else if n == 17 then 11 else if n == 20 then 12 else if n == 23 then 13 else if n == 27 then 14
        else if n == 28 then 15 else if n == 35 then 16 else if n == 39 then 17 else 18;
      assert ORDER[i] == n;
    }
  }

  // The header with all options.
  ghost function WholeHeader(p: Packet): Bytes
    requires WellFormed(p)
  {
    OrderFacts();
    ItemsEncodable(p.fields, ORDER);
    Start(p) + if p.code == 0 then [] else EncodeItems(Items(p.fields, ORDER))
  }

  // None: the header is too long. An empty message is four bytes, whatever is set.
  ghost function Serialize(p: Packet): Option<Bytes>
    requires WellFormed(p)
  {
    if p.code == 0 then Some(Start(p))
    else if |WholeHeader(p)| > MAX_HEADER_SIZE then None
    else Some(WholeHeader(p) + if p.payload == [] then [] else [0xFF] + p.payload)
  }

  // What arrives of a packet.
  ghost function Arrived(p: Packet): Packet
    requires WellFormed(p)
  {
    p.(fields := RereadIn(p.fields, ORDER),
       payload := if |p.payload| > MAX_CHUNK_SIZE then p.payload[..MAX_CHUNK_SIZE] else p.payload)
  }

  lemma StartRead(data: Bytes, p: Packet)
    requires p.typ < 4 && |p.token| <= TOKEN_LEN && p.code != 0 && At(data, 0, Start(p))
    ensures |Start(p)| == HEADER_LEN + |p.token| <= |data|
    ensures ParsedStart(data) == Packet(p.typ, p.code, p.mid, [], {}, map[], [])
    ensures data[0] / 0x40 == 1 && data[0] % 0x10 == |p.token| && data[HEADER_LEN..HEADER_LEN + |p.token|] == p.token
  {
    var first := [0x40 + 0x10 * p.typ + |p.token|, p.code, p.mid / 0x100, p.mid % 0x100];
    AtConcat(data, 0, first, p.token);
    AtIs(data, 0, first);
    AtIs(data, HEADER_LEN, p.token);
    hide At;
    assert data[0] == first[0] && data[1] == first[1] && data[2] == first[2] && data[3] == first[3];
  }

  lemma StartParsed(data: Bytes, p: Packet)
    requires p.typ < 4 && |p.token| <= TOKEN_LEN && p.code != 0 && At(data, 0, Start(p))
    ensures ParseMessage(data) ==
              ParseOptions(data, |Start(p)|, 0, Packet(p.typ, p.code, p.mid, p.token, {}, map[], []))
  {
    StartRead(data, p);
    hide ParseOptions, ParsedStart, Start, At;
  }

  lemma TailParsed(data: Bytes, at: nat, number: nat, p: Packet, payload: Bytes)
    requires at <= |data| && data[at..] == (if payload == [] then [] else [0xFF] + payload) && p.payload == []
    ensures ParseOptions(data, at, number, p) ==
              Parsed(p.(payload := if |payload| > MAX_CHUNK_SIZE then payload[..MAX_CHUNK_SIZE] else payload))
  {
    if payload != [] {
      assert data[at] == data[at..][0] && data[at + 1..] == data[at..][1..] == payload;
    }
  }

  lemma AtPrefix(a: Bytes, b: Bytes, c: Bytes)
    ensures At(a + b + c, 0, a) && At(a + b + c, |a|, b) && (a + b + c)[|a| + |b|..] == c
  {
  }

  lemma SerializedParts(p: Packet)
    requires WellFormed(p) && p.code != 0 && Serialize(p).Some?
    ensures Encodable(Items(p.fields, ORDER))
    ensures var start, middle := Start(p), EncodeItems(Items(p.fields, ORDER));
            var tail := if p.payload == [] then [] else [0xFF] + p.payload;
            var data := Serialize(p).value;
            At(data, 0, start) && At(data, |start|, middle) && data[|start| + |middle|..] == tail
  {
    OrderFacts();
    ItemsEncodable(p.fields, ORDER);
    hide Start, Items, EncodeItems, Encodable, Typed, KindOf, At;
    var start, middle := Start(p), EncodeItems(Items(p.fields, ORDER));
    AtPrefix(start, middle, if p.payload == [] then [] else [0xFF] + p.payload);
  }

  lemma ParsesParts(data: Bytes, p: Packet, order: seq<nat>)
    requires p.typ < 4 && |p.token| <= TOKEN_LEN && p.code != 0 && Ascending(order)
    requires forall n :: n in p.fields && n in order ==> Typed(n, p.fields[n])
    requires Encodable(Items(p.fields, order))
    requires At(data, 0, Start(p)) && At(data, |Start(p)|, EncodeItems(Items(p.fields, order)))
    requires |Start(p)| + |EncodeItems(Items(p.fields, order))| <= |data|
    requires data[|Start(p)| + |EncodeItems(Items(p.fields, order))|..] ==
             if p.payload == [] then [] else [0xFF] + p.payload
    ensures ParseMessage(data) ==
              if ProxyIn(p.fields, order) then Refused(ProxyingNotSupported)
              else
                var chunk := if |p.payload| > MAX_CHUNK_SIZE then p.payload[..MAX_CHUNK_SIZE] else p.payload;
                Parsed(p.(options := RereadIn(p.fields, order).Keys, fields := RereadIn(p.fields, order),
                          payload := chunk))
  {
    hide *;
    var items := Items(p.fields, order);
    var q := Packet(p.typ, p.code, p.mid, p.token, {}, map[], []);
    OrderApplied(q, p.fields, order);
    StartParsed(data, p);
    ParsesItems(data, |Start(p)|, items, q);
    ParsesTail(data, |Start(p)| + |EncodeItems(items)|, LastNumber(items), ApplyAll(q, items), p.payload);
  }

  lemma ParsesTail(data: Bytes, at: nat, number: nat, r: Parse, payload: Bytes)
    requires at <= |data| && data[at..] == (if payload == [] then [] else [0xFF] + payload)
    requires r.Parsed? ==> r.p.payload == []
    ensures Continue(r, data, at, number) ==
              if r.Parsed? then
                Parsed(r.p.(payload := if |payload| > MAX_CHUNK_SIZE then payload[..MAX_CHUNK_SIZE] else payload))
              else r
  {
    if r.Parsed? {
      TailParsed(data, at, number, r.p, payload);
    }
  }

  // Parsing a serialized packet.
  lemma ParsesSerialized(p: Packet)
    requires WellFormed(p) && p.code != 0 && Serialize(p).Some?
    ensures ParseMessage(Serialize(p).value) ==
              if ProxyIn(p.fields, ORDER) then Refused(ProxyingNotSupported) else Parsed(Arrived(p))
  {
    OrderFacts();
    SerializedParts(p);
    AllInOrder(p.fields);
    hide Start, Items, EncodeItems, Encodable, At, ParseMessage, ApplyAll, Typed, KindOf, Ascending, Serialize,
      ProxyIn, RereadIn;
    ParsesParts(Serialize(p).value, p, ORDER);
  }

  lemma AllInOrder(fields: map<nat, Value>)
    requires AllTyped(fields)
    ensures forall n :: n in fields ==> n in ORDER
    ensures RereadIn(fields, ORDER).Keys == fields.Keys
  {
    hide Reread;
    OrderFacts();
    forall n | n in fields
      ensures n in ORDER
    {
      KnownNumber(n, fields[n]);
    }
  }

  // The fields that come back as they were.
  predicate FieldSurvives(number: nat, v: Value)
    requires Typed(number, v)
  {
    match v
    case Text(s) =>
      (match KindOf(number).value
       case ListKind(sep) => Survives(s, sep)
       case kind => !kind.ProxyKind?)
    case Block(num, more, size, offset) => num < 0x1000_0000 && IsBlockSize(size) && offset == ToU32(num * size)
    case _ => true
  }

  lemma RereadIff(number: nat, v: Value)
    requires Typed(number, v) && !IsProxy(number)
    ensures Reread(number, v) == v <==> FieldSurvives(number, v)
  {
    hide Split, Survives, BlockValue, BlockNum, BlockMore, BlockSize, BlockOffset, IsBlockSize, MergeAll;
    match v
    case Text(s) =>
      var kind := KindOf(number).value;
      if kind.ListKind? {
        TextSurvivesIff(s, kind.sep, BEHIND);
      }
    case Block(num, more, size, offset) =>
      BlockRoundTripIff(num, more, size);
      if num < 0x1000_0000 && IsBlockSize(size) {
        BlockOffsetIs(num, more, size);
      }
    case _ =>
  }

  lemma AllSurviveIff(fields: map<nat, Value>, order: seq<nat>)
    requires forall n :: n in fields ==> n in order && Typed(n, fields[n])
    ensures RereadIn(fields, order) == fields && !ProxyIn(fields, order) <==>
              forall n :: n in fields ==> FieldSurvives(n, fields[n])
  {
    hide Typed, KindOf, Reread, FieldSurvives, IsProxy;
    forall n | n in fields
      ensures IsProxy(n) ==> !FieldSurvives(n, fields[n])
      ensures !IsProxy(n) ==> (Reread(n, fields[n]) == fields[n] <==> FieldSurvives(n, fields[n]))
    {
      KnownNumber(n, fields[n]);
      if !IsProxy(n) {
        RereadIff(n, fields[n]);
      }
    }
    if forall n :: n in fields ==> FieldSurvives(n, fields[n]) {
      assert RereadIn(fields, order) == fields;
    } else {
      var n :| n in fields && !FieldSurvives(n, fields[n]);
      assert !IsProxy(n) ==> RereadIn(fields, order)[n] != fields[n];
    }
  }

  // Parsing undoes serializing exactly when every field survives and the payload
  // is at most one chunk.
  lemma RoundTripIff(p: Packet)
    requires WellFormed(p) && p.code != 0 && Serialize(p).Some?
    ensures ParseMessage(Serialize(p).value) == Parsed(p) <==>
              |p.payload| <= MAX_CHUNK_SIZE && forall n :: n in p.fields ==> FieldSurvives(n, p.fields[n])
  {
    hide Serialize, ParseMessage, Typed, FieldSurvives;
    ParsesSerialized(p);
    AllInOrder(p.fields);
    hide KindOf, RereadIn, ProxyIn;
    AllSurviveIff(p.fields, ORDER);
  }

  lemma KnownNumber(number: nat, v: Value)
    requires Typed(number, v)
    ensures KindOf(number).Some?
    ensures IsProxy(number) ==> !FieldSurvives(number, v)
  {
  }

  // An empty message carries its token length but no token: it can only be parsed
  // back without one, and then without options and payload.
  lemma EmptyMessage(p: Packet)
    requires WellFormed(p) && p.code == 0
    ensures ParseMessage(Serialize(p).value) ==
              if p.token == [] then Parsed(p.(options := {}, fields := map[], payload := [])) else Stray
  {
  }
}

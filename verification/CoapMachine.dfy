// The CoAP codec as the program runs it: a serializer that moves a cursor through a
// buffer, and a parser that merges strings inside the buffer it is reading.
module CoapMachine {
  import opened Common
  import opened CoapOption
  import opened Coap

  // ----- writing -----

  function Splice(s: Bytes, at: nat, b: Bytes): (r: Bytes)
    requires at + |b| <= |s|
    ensures |r| == |s|
  {
    s[..at] + b + s[at + |b|..]
  }

  lemma SpliceMore(s: Bytes, at: nat, a: Bytes, b: Bytes)
    requires at + |a| + |b| <= |s|
    ensures Splice(Splice(s, at, a), at + |a|, b) == Splice(s, at, a + b)
  {
  }

  lemma SpliceNothing(s: Bytes, at: nat)
    requires at <= |s|
    ensures Splice(s, at, []) == s
  {
  }

  method Put(buffer: array<u8>, at: nat, b: u8)
    requires at < buffer.Length
    modifies buffer
    ensures buffer[..] == Splice(old(buffer[..]), at, [b])
  {
    buffer[at] := b;
  }

  method PutExtension(buffer: array<u8>, at: nat, x: u16) returns (written: nat)
    requires at + |Extension(x)| <= buffer.Length
    modifies buffer
    ensures written == |Extension(x)| && buffer[..] == Splice(old(buffer[..]), at, Extension(x))
  {
    ghost var was := buffer[..];
    if x > 268 {
      Put(buffer, at, (x - 269) / 0x100);
      Put(buffer, at + 1, (x - 269) % 0x100);
      SpliceMore(was, at, [(x - 269) / 0x100], [(x - 269) % 0x100]);
      return 2;
    } else if x > 12 {
      Put(buffer, at, x - 13);
      return 1;
    }
    SpliceNothing(was, at);
    return 0;
  }

  // coap_set_option_header: the loop over the two numbers is unrolled.
  method SetOptionHeader(buffer: array<u8>, at: nat, delta: u16, length: u16) returns (written: nat)
    requires at + |Header(delta, length)| <= buffer.Length
    modifies buffer
    ensures written == |Header(delta, length)| && buffer[..] == Splice(old(buffer[..]), at, Header(delta, length))
  {
    hide Extension, Splice;
    ghost var was := buffer[..];
    var first := 0x10 * Nibble(delta) + Nibble(length);
    Put(buffer, at, first);
    var n := PutExtension(buffer, at + 1, delta);
    var m := PutExtension(buffer, at + 1 + n, length);
    SpliceMore(was, at, [first], Extension(delta));
    SpliceMore(was, at, [first] + Extension(delta), Extension(length));
    return 1 + n + m;
  }

  method Copy(buffer: array<u8>, at: nat, bytes: Bytes)
    requires at + |bytes| <= buffer.Length
    modifies buffer
    ensures buffer[..] == Splice(old(buffer[..]), at, bytes)
  {
    ghost var was := buffer[..];
    var i := 0;
    SpliceNothing(was, at);
    while i < |bytes|
      invariant 0 <= i <= |bytes| && buffer[..] == Splice(was, at, bytes[..i])
    {
      Put(buffer, at + i, bytes[i]);
      SpliceMore(was, at, bytes[..i], [bytes[i]]);
      assert bytes[..i] + [bytes[i]] == bytes[..i + 1];
      i := i + 1;
    }
    assert bytes[..i] == bytes;
  }

  method PutOption(buffer: array<u8>, at: nat, delta: u16, value: Bytes) returns (written: nat)
    requires |value| < 0x1_0000 && at + |EncodeOption(delta, value)| <= buffer.Length
    modifies buffer
    ensures written == |EncodeOption(delta, value)| &&
            buffer[..] == Splice(old(buffer[..]), at, EncodeOption(delta, value))
  {
    hide Splice, Header;
    ghost var was := buffer[..];
    var n := SetOptionHeader(buffer, at, delta, |value|);
    Copy(buffer, at + n, value);
    SpliceMore(was, at, Header(delta, |value|), value);
    return n + |value|;
  }

  // The big-endian bytes of an integer without leading zeros, one test per byte.
  method PutInt(buffer: array<u8>, at: nat, value: u32) returns (written: nat)
    requires at + |IntBytes(value)| <= buffer.Length
    modifies buffer
    ensures written == |IntBytes(value)| && buffer[..] == Splice(old(buffer[..]), at, IntBytes(value))
  {
    hide Splice;
    ghost var was := buffer[..];
    SpliceNothing(was, at);
    var i := 0;
    ghost var done: Bytes := [];
    if value >= 0x100_0000 {
      Put(buffer, at, value / 0x100_0000);
      SpliceMore(was, at, done, [value / 0x100_0000]);
      done := done + [value / 0x100_0000];
      i := i + 1;
    }
    if value >= 0x1_0000 {
      Put(buffer, at + i, value / 0x1_0000 % 0x100);
      SpliceMore(was, at, done, [value / 0x1_0000 % 0x100]);
      done := done + [value / 0x1_0000 % 0x100];
      i := i + 1;
    }
    if value >= 0x100 {
      Put(buffer, at + i, value / 0x100 % 0x100);
      SpliceMore(was, at, done, [value / 0x100 % 0x100]);
      done := done + [value / 0x100 % 0x100];
      i := i + 1;
    }
    if value > 0 {
      Put(buffer, at + i, value % 0x100);
      SpliceMore(was, at, done, [value % 0x100]);
      done := done + [value % 0x100];
      i := i + 1;
    }
    assert done == IntBytes(value);
    return i;
  }

  method SerializeIntOption(buffer: array<u8>, at: nat, delta: u16, value: u32) returns (written: nat)
    requires at + |EncodeOption(delta, IntBytes(value))| <= buffer.Length
    modifies buffer
    ensures written == |EncodeOption(delta, IntBytes(value))|
    ensures buffer[..] == Splice(old(buffer[..]), at, EncodeOption(delta, IntBytes(value)))
  {
    hide Splice, Header;
    ghost var was := buffer[..];
    var length := (if value >= 0x100_0000 then 1 else 0) + (if value >= 0x1_0000 then 1 else 0)
      + (if value >= 0x100 then 1 else 0) + (if value > 0 then 1 else 0);
    assert length == |IntBytes(value)|;
    hide IntBytes;
    var n := SetOptionHeader(buffer, at, delta, length);
    var m := PutInt(buffer, at + n, value);
    SpliceMore(was, at, Header(delta, length), IntBytes(value));
    return n + m;
  }

  // The options written so far, as they stand behind base.
  ghost predicate Written(now: Bytes, orig: Bytes, base: nat, items: seq<Item>, at: nat) {
    && Encodable(items) && |now| == |orig| && at == base + |EncodeItems(items)| <= |orig|
    && now == Splice(orig, base, EncodeItems(items))
  }

  lemma EncodeSnoc(items: seq<Item>, item: Item)
    requires Encodable(items + [item])
    ensures Encodable(items) && LastNumber(items) <= item.number < OPTION_LIMIT && |item.value| < 0x1_0000
    ensures EncodeItems(items + [item]) ==
            EncodeItems(items) + EncodeOption(item.number - LastNumber(items), item.value)
  {
    EncodablePrefix(items + [item]);
    assert (items + [item])[..|items|] == items;
  }

  lemma WrittenMore(now: Bytes, orig: Bytes, base: nat, items: seq<Item>, at: nat, item: Item, after: Bytes)
    requires Encodable(items + [item]) && base + |EncodeItems(items + [item])| <= |orig|
    requires Written(now, orig, base, items, at) && LastNumber(items) <= item.number < OPTION_LIMIT &&
             |item.value| < 0x1_0000
    requires at + |EncodeOption(item.number - LastNumber(items), item.value)| <= |now|
    requires after == Splice(now, at, EncodeOption(item.number - LastNumber(items), item.value))
    ensures Written(after, orig, base, items + [item], at + |EncodeOption(item.number - LastNumber(items), item.value)|)
  {
    hide Splice, EncodeItems, EncodeOption, Encodable;
    EncodeSnoc(items, item);
    SpliceMore(orig, base, EncodeItems(items), EncodeOption(item.number - LastNumber(items), item.value));
  }

  lemma {:induction false} EncodeMonotone(a: seq<Item>, b: seq<Item>)
    requires Encodable(a + b)
    ensures Encodable(a) && |EncodeItems(a)| <= |EncodeItems(a + b)|
    decreases |b|
  {
    if b == [] {
      assert a + b == a;
    } else {
      var last := b[|b| - 1];
      assert a + b == a + b[..|b| - 1] + [last];
      EncodeSnoc(a + b[..|b| - 1], last);
      EncodeMonotone(a, b[..|b| - 1]);
    }
  }

  method EmitOption(buffer: array<u8>, at: nat, number: nat, current: nat, value: Bytes,
                    ghost orig: Bytes, ghost base: nat, ghost done: seq<Item>) returns (written: nat)
    requires Written(buffer[..], orig, base, done, at) && current == LastNumber(done)
    requires Encodable(done + [Item(number, value)]) && base + |EncodeItems(done + [Item(number, value)])| <= |orig|
    modifies buffer
    ensures Written(buffer[..], orig, base, done + [Item(number, value)], at + written)
  {
    hide Splice, EncodeOption, Encodable, EncodeItems;
    EncodeSnoc(done, Item(number, value));
    ghost var was := buffer[..];
    written := PutOption(buffer, at, number - current, value);
    WrittenMore(was, orig, base, done, at, Item(number, value), buffer[..]);
  }

  method EmitInt(buffer: array<u8>, at: nat, number: nat, current: nat, value: u32,
                 ghost orig: Bytes, ghost base: nat, ghost done: seq<Item>) returns (written: nat)
    requires Written(buffer[..], orig, base, done, at) && current == LastNumber(done)
    requires Encodable(done + [Item(number, IntBytes(value))])
    requires base + |EncodeItems(done + [Item(number, IntBytes(value))])| <= |orig|
    modifies buffer
    ensures Written(buffer[..], orig, base, done + [Item(number, IntBytes(value))], at + written)
  {
    hide Splice, EncodeOption, Encodable, EncodeItems, IntBytes;
    EncodeSnoc(done, Item(number, IntBytes(value)));
    ghost var was := buffer[..];
    written := SerializeIntOption(buffer, at, number - current, value);
    WrittenMore(was, orig, base, done, at, Item(number, IntBytes(value)), buffer[..]);
  }

  lemma PartItemsConcat(number: nat, a: seq<Bytes>, b: seq<Bytes>)
    ensures PartItems(number, a + b) == PartItems(number, a) + PartItems(number, b)
  {
  }

  // What is still to be cut off, at position j of the splitting loop.
  function Remaining(text: Bytes, start: nat, j: nat, length: nat, sep: u8): seq<Bytes>
    requires |text| == length + 2 && start <= j && (j <= length + 1 ==> start <= length)
  {
    if j <= length then SplitRest(text[start..j], text[j..length], sep, (text[length], text[length + 1]))
    else if j == length + 1 && text[length + 1] == sep then [[text[length]]]
    else []
  }

  lemma TailOf(s: Bytes, a: nat, n: nat)
    requires a < n <= |s|
    ensures s[a..n][0] == s[a] && s[a..n][1..] == s[a + 1..n]
  {
  }

  lemma CutInside(text: Bytes, start: nat, j: nat, length: nat, sep: u8)
    requires |text| == length + 2 && start <= j && j + 1 < length && text[j] == sep
    ensures Remaining(text, start, j, length, sep) == [text[start..j]] + Remaining(text, j + 1, j + 2, length, sep)
  {
    TailOf(text, j, length);
    TailOf(text, j + 1, length);
    assert text[j..length][2..] == text[j..length][1..][1..];
    assert text[j + 1..j + 2] == [text[j..length][1]];
  }

  lemma CutAtEnd(text: Bytes, start: nat, j: nat, length: nat, sep: u8)
    requires |text| == length + 2 && start <= j && j + 1 == length && text[j] == sep
    ensures Remaining(text, start, j, length, sep) == [text[start..j]] + Remaining(text, j + 1, j + 2, length, sep)
  {
    assert text[j..length] == [sep];
  }

  lemma NoCut(text: Bytes, start: nat, j: nat, length: nat, sep: u8)
    requires |text| == length + 2 && start <= j < length && text[j] != sep
    ensures Remaining(text, start, j, length, sep) == Remaining(text, start, j + 1, length, sep)
  {
    TailOf(text, j, length);
    assert text[start..j] + [text[j]] == text[start..j + 1];
  }

  lemma RemainingStep(text: Bytes, start: nat, j: nat, length: nat, sep: u8)
    requires |text| == length + 2 && start <= j <= length + 1 && start <= length &&
             (j == length + 1 ==> start == length)
    ensures text[j] == sep || j == length ==>
              Remaining(text, start, j, length, sep) == [text[start..j]] + Remaining(text, j + 1, j + 2, length, sep)
    ensures !(text[j] == sep || j == length) ==>
              Remaining(text, start, j, length, sep) == Remaining(text, start, j + 1, length, sep)
  {
    if j >= length {
      assert j == length + 1 ==> text[start..j] == [text[length]];
    } else {
      hide Remaining;
      if text[j] != sep {
        NoCut(text, start, j, length, sep);
      } else if j + 1 < length {
        CutInside(text, start, j, length, sep);
      } else {
        CutAtEnd(text, start, j, length, sep);
      }
    }
  }

  // coap_serialize_array_option with a splitter. text holds the string and the two
  // bytes behind it.
  method SplitString(buffer: array<u8>, at: nat, number: nat, current: nat, text: Bytes, length: nat, sep: u8,
                     ghost orig: Bytes, ghost base: nat, ghost done: seq<Item>) returns (written: nat)
    requires |text| == length + 2
    requires Written(buffer[..], orig, base, done, at) && current == LastNumber(done)
    requires var parts := Split(text[..length], sep, (text[length], text[length + 1]));
             Encodable(done + PartItems(number, parts)) &&
               base + |EncodeItems(done + PartItems(number, parts))| <= |orig|
    modifies buffer
    ensures var parts := Split(text[..length], sep, (text[length], text[length + 1]));
            Written(buffer[..], orig, base, done + PartItems(number, parts), at + written)
  {
    hide Written, EncodeItems, Encodable, SplitRest;
    ghost var parts := Split(text[..length], sep, (text[length], text[length + 1]));
    ghost var emitted: seq<Bytes> := [];
    assert text[0..0] == [] && text[0..length] == text[..length] && [] + parts == parts;
    assert done + PartItems(number, []) == done;
    written := 0;
    var previous := current;
    var j, start := 0, 0;
    while j <= length + 1
      invariant start <= j <= length + 3 && (j <= length + 1 ==> start <= length) &&
                (j == length + 1 ==> start == length)
      invariant parts == emitted + Remaining(text, start, j, length, sep)
      invariant Written(buffer[..], orig, base, done + PartItems(number, emitted), at + written)
      invariant previous == LastNumber(done + PartItems(number, emitted))
      decreases length + 3 - j
    {
      RemainingStep(text, start, j, length, sep);
      if text[j] == sep || j == length {
        ghost var part := text[start..j];
        ghost var rest := Remaining(text, j + 1, j + 2, length, sep);
        PartFitsStep(number, done, emitted, part, rest, parts);
        var n := EmitOption(buffer, at + written, number, previous, text[start..j],
                            orig, base, done + PartItems(number, emitted));
        written := written + n;
        emitted := emitted + [part];
        previous := number;
        j := j + 1;
        start := j;
      }
      j := j + 1;
    }
    assert emitted + [] == emitted;
  }

  lemma PartFitsStep(number: nat, done: seq<Item>, emitted: seq<Bytes>, part: Bytes, rest: seq<Bytes>,
                     parts: seq<Bytes>)
    requires parts == emitted + ([part] + rest) && Encodable(done + PartItems(number, parts))
    ensures parts == emitted + [part] + rest
    ensures done + PartItems(number, emitted) + [Item(number, part)] == done + PartItems(number, emitted + [part])
    ensures Encodable(done + PartItems(number, emitted + [part]))
    ensures |EncodeItems(done + PartItems(number, emitted + [part]))| <= |EncodeItems(done + PartItems(number, parts))|
  {
    hide Encodable, EncodeItems;
    assert parts == emitted + [part] + rest;
    PartItemsConcat(number, emitted + [part], rest);
    PartItemsConcat(number, emitted, [part]);
    assert done + PartItems(number, parts) == done + PartItems(number, emitted + [part]) + PartItems(number, rest);
    EncodeMonotone(done + PartItems(number, emitted + [part]), PartItems(number, rest));
  }

  method BlockOptionValue(num: u32, more: bool, size: u16) returns (v: u32)
    ensures v == BlockValue(num, more, size)
  {
    var block := 0x10 * (num % 0x1000_0000);
    if more {
      block := block + 8;  // bitwise or: the low four bits are zero
    }
    var log := ComputeLog2(size / 16);
    var low := log % 0x10;
    // bitwise or with bits of which only the highest may be set already
    v := block + if more && low >= 8 then low - 8 else low;
  }

  // One of the serializing macros.
  method SerializeField(buffer: array<u8>, at: nat, number: nat, current: nat, v: Value,
                        ghost orig: Bytes, ghost base: nat, ghost done: seq<Item>) returns (written: nat)
    requires Typed(number, v)
    requires Written(buffer[..], orig, base, done, at) && current == LastNumber(done)
    requires Encodable(done + FieldItems(number, v)) && base + |EncodeItems(done + FieldItems(number, v))| <= |orig|
    modifies buffer
    ensures Written(buffer[..], orig, base, done + FieldItems(number, v), at + written)
  {
    hide Written, EncodeItems, Encodable, IntBytes, Split, BlockValue, KindOf;
    match v
    case Number(n) => written := EmitInt(buffer, at, number, current, n, orig, base, done);
    case Present => written := EmitOption(buffer, at, number, current, [], orig, base, done);
    case Octets(b) => written := EmitOption(buffer, at, number, current, b, orig, base, done);
    case Text(s) =>
      var kind := KindOf(number).value;
      if kind.ListKind? {
        var text := s + [BEHIND.0, BEHIND.1];
        assert text[..|s|] == s;
        written := SplitString(buffer, at, number, current, text, |s|, kind.sep, orig, base, done);
      } else {
        written := EmitOption(buffer, at, number, current, s, orig, base, done);
      }
    case Block(num, more, size, _) =>
      var value := BlockOptionValue(num, more, size);
      written := EmitInt(buffer, at, number, current, value, orig, base, done);
  }

  lemma {:induction false} ItemsGrow(fields: map<nat, Value>, order: seq<nat>, i: nat)
    requires AllTyped(fields) && i <= |order|
    ensures Items(fields, order[..i]) <= Items(fields, order)
    decreases |order|
  {
    hide FieldItems, Typed;
    if i == |order| {
      assert order[..i] == order;
    } else {
      assert order[..|order| - 1][..i] == order[..i];
      ItemsGrow(fields, order[..|order| - 1], i);
    }
  }

  lemma NextField(fields: map<nat, Value>, order: seq<nat>, i: nat)
    requires AllTyped(fields) && i < |order| && Encodable(Items(fields, order))
    ensures Items(fields, order[..i + 1]) ==
              Items(fields, order[..i]) + if order[i] in fields then FieldItems(order[i], fields[order[i]]) else []
    ensures Encodable(Items(fields, order[..i + 1]))
    ensures |EncodeItems(Items(fields, order[..i + 1]))| <= |EncodeItems(Items(fields, order))|
  {
    hide FieldItems, Typed, Encodable;
    assert order[..i + 1][..i] == order[..i];
    ItemsGrow(fields, order, i + 1);
    var a, whole := Items(fields, order[..i + 1]), Items(fields, order);
    assert a + whole[|a|..] == whole;
    EncodeMonotone(a, whole[|a|..]);
  }

  // One turn of the serializer's sequence of fields.
  method SerializeNext(buffer: array<u8>, at: nat, current: nat, fields: map<nat, Value>, order: seq<nat>, i: nat,
                       ghost orig: Bytes, ghost base: nat) returns (end: nat, last: nat)
    requires AllTyped(fields) && i < |order| && Encodable(Items(fields, order))
    requires base + |EncodeItems(Items(fields, order))| <= |orig|
    requires Written(buffer[..], orig, base, Items(fields, order[..i]), at)
    requires current == LastNumber(Items(fields, order[..i]))
    modifies buffer
    ensures Written(buffer[..], orig, base, Items(fields, order[..i + 1]), end)
    ensures last == LastNumber(Items(fields, order[..i + 1]))
  {
    hide FieldItems, Typed, Splice, Encodable, Items, EncodeItems, LastNumber;
    NextField(fields, order, i);
    end, last := at, current;
    if order[i] in fields {
      var n := SerializeField(buffer, at, order[i], current, fields[order[i]], orig, base, Items(fields, order[..i]));
      end, last := at + n, order[i];
      LastOfField(Items(fields, order[..i]), order[i], fields[order[i]]);
    } else {
      assert Items(fields, order[..i + 1]) == Items(fields, order[..i]);
    }
  }

  // The fields in the order of their numbers.
  method SerializeOptions(buffer: array<u8>, at: nat, fields: map<nat, Value>, order: seq<nat>) returns (end: nat)
    requires AllTyped(fields) && Encodable(Items(fields, order)) &&
             at + |EncodeItems(Items(fields, order))| <= buffer.Length
    modifies buffer
    ensures end == at + |EncodeItems(Items(fields, order))|
    ensures buffer[..] == Splice(old(buffer[..]), at, EncodeItems(Items(fields, order)))
  {
    ghost var orig := buffer[..];
    SpliceNothing(orig, at);
    assert order[..0] == [];
    assert Written(orig, orig, at, Items(fields, order[..0]), at) && LastNumber(Items(fields, order[..0])) == 0;
    hide AllTyped, FieldItems, Typed, Splice, Encodable, Items, EncodeItems, LastNumber;
    end := at;
    var current := 0;
    var i := 0;
    while i < |order|
      invariant 0 <= i <= |order| && Written(buffer[..], orig, at, Items(fields, order[..i]), end)
      invariant current == LastNumber(Items(fields, order[..i]))
    {
      end, current := SerializeNext(buffer, end, current, fields, order, i, orig, at);
      i := i + 1;
    }
    assert order[..i] == order;
  }

  lemma LastOfField(items: seq<Item>, number: nat, v: Value)
    requires Typed(number, v)
    ensures LastNumber(items + FieldItems(number, v)) == number
  {
    hide KindOf, Split, IntBytes;
  }

  method SerializeStart(buffer: array<u8>, p: Packet) returns (end: nat)
    requires WellFormed(p) && p.code != 0 && |Start(p)| <= buffer.Length
    modifies buffer
    ensures end == |Start(p)| && buffer[..] == Splice(old(buffer[..]), 0, Start(p))
  {
    ghost var was := buffer[..];
    SerializeFirstFour(buffer, p);
    ghost var first := [0x40 + 0x10 * p.typ + |p.token|, p.code, p.mid / 0x100, p.mid % 0x100];
    Copy(buffer, HEADER_LEN, p.token);
    SpliceMore(was, 0, first, p.token);
    return HEADER_LEN + |p.token|;
  }

  method SerializeFirstFour(buffer: array<u8>, p: Packet)
    requires WellFormed(p) && 4 <= buffer.Length
    modifies buffer
    ensures buffer[..] ==
              Splice(old(buffer[..]), 0, [0x40 + 0x10 * p.typ + |p.token|, p.code, p.mid / 0x100, p.mid % 0x100])
  {
    buffer[0] := 0x40 + 0x10 * p.typ + |p.token|;
    buffer[1] := p.code;
    buffer[2] := p.mid / 0x100;
    buffer[3] := p.mid % 0x100;
  }

  lemma HeaderParts(p: Packet)
    requires WellFormed(p) && p.code != 0
    ensures Encodable(Items(p.fields, ORDER)) && WholeHeader(p) == Start(p) + EncodeItems(Items(p.fields, ORDER))
  {
    OrderFacts();
    ItemsEncodable(p.fields, ORDER);
  }

  method SerializeHeader(p: Packet, buffer: array<u8>) returns (end: nat)
    requires WellFormed(p) && p.code != 0 && |WholeHeader(p)| <= buffer.Length
    modifies buffer
    ensures end == |WholeHeader(p)| && buffer[..] == Splice(old(buffer[..]), 0, WholeHeader(p))
  {
    hide Splice, Items, EncodeItems, Encodable, Start, WholeHeader, Typed;
    HeaderParts(p);
    SpliceMore(buffer[..], 0, Start(p), EncodeItems(Items(p.fields, ORDER)));
    end := SerializeStart(buffer, p);
    end := SerializeOptions(buffer, end, p.fields, ORDER);
  }

  method SerializePayload(buffer: array<u8>, at: nat, payload: Bytes) returns (end: nat)
    requires at + 1 + |payload| <= buffer.Length
    modifies buffer
    ensures at <= end <= buffer.Length
    ensures buffer[..end] == old(buffer[..at]) + if payload == [] then [] else [0xFF] + payload
  {
    ghost var was := buffer[..];
    end := at;
    if payload != [] {
      Put(buffer, at, 0xFF);
      end := end + 1;
      SpliceMore(was, at, [0xFF], payload);
    }
    Copy(buffer, end, payload);
    end := end + |payload|;
  }

  // coap_serialize_message; 0: the header is too long. The buffer has to hold the
  // header before its length is tested.
  method SerializeMessage(p: Packet, buffer: array<u8>) returns (n: nat)
    requires WellFormed(p) && 4 <= buffer.Length &&
             (p.code != 0 ==> |WholeHeader(p)| + 1 + |p.payload| <= buffer.Length)
    modifies buffer
    ensures Serialize(p).None? ==> n == 0
    ensures Serialize(p).Some? ==> n <= buffer.Length && buffer[..n] == Serialize(p).value
  {
    hide WholeHeader, Typed;
    if p.code == 0 {
      SerializeFirstFour(buffer, p);
      return 4;
    }
    n := SerializeHeader(p, buffer);
    assert buffer[..n] == WholeHeader(p);
    if n > MAX_HEADER_SIZE {
      return 0;
    }
    n := SerializePayload(buffer, n, p.payload);
  }

  // ----- a payload that lies in the buffer already -----

  lemma OtherPayload(p: Packet, payload: Bytes)
    requires WellFormed(p) && |payload| == |p.payload|
    ensures WellFormed(p.(payload := payload)) && WholeHeader(p.(payload := payload)) == WholeHeader(p)
  {
    hide Items, EncodeItems, Encodable, Typed, KindOf;
  }

  // The engine has the payload written behind the space it reserves for the
  // header, from `from` on. A header that reaches up to it leaves no room for the
  // marker, which then overwrites the payload's first byte before the payload is moved.
  ghost function InPlace(p: Packet, from: nat): (q: Packet)
    requires WellFormed(p)
    ensures WellFormed(q) && WholeHeader(q) == WholeHeader(p)
  {
    hide WellFormed, WholeHeader;
    if p.code != 0 && p.payload != [] && |WholeHeader(p)| == from then
      OtherPayload(p, p.payload[0 := 0xFF]);
      p.(payload := p.payload[0 := 0xFF])
    else p
  }

  // The packet that is sent is the one that was meant exactly when there is no
  // payload, the header is shorter than the space, or the first byte is the marker.
  lemma InPlaceIff(p: Packet, from: nat)
    requires WellFormed(p) && p.code != 0 && Serialize(p).Some? && from >= MAX_HEADER_SIZE
    ensures Serialize(InPlace(p, from)).Some?
    ensures Serialize(InPlace(p, from)).value == Serialize(p).value <==>
            p.payload == [] || |WholeHeader(p)| < from || p.payload[0] == 0xFF
    ensures InPlace(p, from) == p <==> p.payload == [] || |WholeHeader(p)| < from || p.payload[0] == 0xFF
  {
    var h := WholeHeader(p);
    if p.payload != [] && |h| == from {
      assert (h + ([0xFF] + p.payload))[|h| + 1] == p.payload[0];
      assert (h + ([0xFF] + p.payload[0 := 0xFF]))[|h| + 1] == 0xFF;
      if p.payload[0] == 0xFF {
        assert p.payload[0 := 0xFF] == p.payload;
      }
    }
  }

  // memmove.
  method Move(buffer: array<u8>, at: nat, from: nat, n: nat)
    requires at + n <= buffer.Length && from + n <= buffer.Length
    modifies buffer
    ensures buffer[..] == Splice(old(buffer[..]), at, old(buffer[from..from + n]))
  {
    forall i | 0 <= i < n {
      buffer[at + i] := buffer[from + i];
    }
  }

  lemma MarkedAndMoved(was: Bytes, h: nat, from: nat, n: nat)
    requires h <= from && from + n <= |was| && 0 < n && h + 1 + n <= |was|
    ensures var marked := Splice(was, h, [0xFF]);
            var payload := was[from..from + n];
            Splice(marked, h + 1, marked[from..from + n])[..h + 1 + n] ==
            was[..h] + ([0xFF] + if h == from then payload[0 := 0xFF] else payload)
  {
  }

  // The marker behind the header, and the payload moved up to it.
  method PayloadInPlace(buffer: array<u8>, h: nat, from: nat, n: nat) returns (end: nat)
    requires h <= from && from + n <= buffer.Length && h + 1 + n <= buffer.Length
    modifies buffer
    ensures h <= end <= buffer.Length
    ensures var payload := old(buffer[from..from + n]);
            buffer[..end] == old(buffer[..h]) +
            if n == 0 then [] else [0xFF] + if h == from then payload[0 := 0xFF] else payload
  {
    hide Splice;
    if n == 0 {
      return h;
    }
    MarkedAndMoved(buffer[..], h, from, n);
    Put(buffer, h, 0xFF);
    Move(buffer, h + 1, from, n);
    return h + 1 + n;
  }

  // coap_serialize_message on a packet whose payload lies in the buffer.
  method SerializeInPlace(p: Packet, from: nat, buffer: array<u8>) returns (n: nat)
    requires WellFormed(p) && 4 <= buffer.Length &&
             (p.code != 0 ==> |WholeHeader(p)| + 1 + |p.payload| <= buffer.Length)
    requires MAX_HEADER_SIZE <= from && from + |p.payload| <= buffer.Length
    requires buffer[from..from + |p.payload|] == p.payload
    modifies buffer
    ensures Serialize(p).None? ==> n == 0
    ensures Serialize(p).Some? ==>
              Serialize(InPlace(p, from)).Some? && n <= buffer.Length &&
                buffer[..n] == Serialize(InPlace(p, from)).value
  {
    hide WholeHeader, Typed;
    if p.code == 0 {
      SerializeFirstFour(buffer, p);
      return 4;
    }
    ghost var was := buffer[..];
    n := SerializeHeader(p, buffer);
    if n > MAX_HEADER_SIZE {
      return 0;
    }
    SpliceKeepsRest(was, WholeHeader(p), from, |p.payload|);
    n := PayloadInPlace(buffer, n, from, |p.payload|);
  }

  lemma SpliceKeepsRest(was: Bytes, b: Bytes, from: nat, n: nat)
    requires |b| <= from && from + n <= |was|
    ensures Splice(was, 0, b)[..|b|] == b && Splice(was, 0, b)[from..from + n] == was[from..from + n]
  {
  }

  // Headers of that length exist: with a full token, a host name of 48 characters.
  lemma FullHeader(typ: nat, code: u8, mid: u16, token: Bytes, host: Bytes, payload: Bytes)
    requires typ < 4 && code != 0 && |token| == TOKEN_LEN && |host| == 48 && |payload| < 0x1_0000
    ensures var p := Packet(typ, code, mid, token, {3}, map[3 := Text(host)], payload);
            WellFormed(p) && |WholeHeader(p)| == MAX_HEADER_SIZE
  {
    assert ORDER[1] == 3 && forall i :: 0 <= i < |ORDER| && i != 1 ==> ORDER[i] != 3;
    OnlyHost(host, ORDER);
    var items := [Item(3, host)];
    assert items[..0] == [] && Encodable(items) && EncodeItems(items[..0]) == [];
    assert EncodeItems(items) == EncodeOption(3, host);
  }

  lemma {:induction false} OnlyHost(host: Bytes, order: seq<nat>)
    requires |order| >= 2 && order[1] == 3 && forall i :: 0 <= i < |order| && i != 1 ==> order[i] != 3
    ensures Items(map[3 := Text(host)], order) == [Item(3, host)]
    decreases |order|
  {
    var fields, before := map[3 := Text(host)], order[..|order| - 1];
    if |order| == 2 {
      assert before[..0] == [] && before[0] == order[0];
      assert Items(fields, before) == [];
    } else {
      OnlyHost(host, before);
    }
  }
}

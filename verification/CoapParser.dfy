// coap_parse_message: the packet's strings point into the receive buffer, and the
// segments of a string are moved together there while later options are still unread.
module CoapParser {
  import opened Common
  import opened CoapOption
  import opened Coap

  datatype Span = Span(at: nat, len: nat) {
    function End(): nat {
      at + len
    }
  }

  // ----- the bitmap of options -----

  function Mask(i: nat): bv8
    requires i < 8
  {
    match i
    case 0 => 1
    case 1 => 2
    case 2 => 4
    case 3 => 8
    case 4 => 16
    case 5 => 32
    case 6 => 64
    case _ => 128
  }

  predicate HasBit(b: bv8, i: nat)
    requires i < 8
  {
    b & Mask(i) != 0
  }

  function SetBit(b: bv8, i: nat): bv8
    requires i < 8
  {
    b | Mask(i)
  }

  lemma BitChanged(b: bv8, i: nat, j: nat)
    requires i < 8 && j < 8
    ensures HasBit(SetBit(b, i), j) <==> HasBit(b, j) || i == j
  {
  }

  predicate IsOption(map8: seq<bv8>, number: nat)
    requires |map8| == 8 && number < OPTION_LIMIT
  {
    HasBit(map8[number / 8], number % 8)
  }

  ghost function Members(map8: seq<bv8>): set<nat>
    requires |map8| == 8
  {
    set n: nat | n < OPTION_LIMIT && IsOption(map8, n)
  }

  function WithBit(map8: seq<bv8>, number: nat): (r: seq<bv8>)
    requires |map8| == 8 && number < OPTION_LIMIT
    ensures |r| == 8
  {
    map8[number / 8 := SetBit(map8[number / 8], number % 8)]
  }

  lemma BitSet(map8: seq<bv8>, number: nat, n: nat)
    requires |map8| == 8 && number < OPTION_LIMIT && n < OPTION_LIMIT
    ensures IsOption(WithBit(map8, number), n) <==> IsOption(map8, n) || n == number
  {
    hide HasBit, SetBit;
    if n / 8 == number / 8 {
      BitChanged(map8[number / 8], number % 8, n % 8);
    }
  }

  lemma SetMember(map8: seq<bv8>, number: nat)
    requires |map8| == 8 && number < OPTION_LIMIT
    ensures Members(WithBit(map8, number)) == Members(map8) + {number}
  {
    hide IsOption, WithBit;
    forall n: nat | n < OPTION_LIMIT
      ensures IsOption(WithBit(map8, number), n) <==> IsOption(map8, n) || n == number
    {
      BitSet(map8, number, n);
    }
  }

  lemma OrderedLater(spans: map<nat, Span>, number: nat, pos: nat, end: nat)
    requires Ordered(spans, number, pos) && pos <= end
    ensures Ordered(spans, number, end)
  {
  }

  lemma NothingOrdered(spans: map<nat, Span>)
    requires spans == map[]
    ensures forall number, pos :: Ordered(spans, number, pos)
  {
  }

  lemma OrderedLaterNumber(spans: map<nat, Span>, number: nat, later: nat, pos: nat)
    requires Ordered(spans, number, pos) && number <= later
    ensures Ordered(spans, later, pos)
  {
  }

  lemma UpdatedString(fields: map<nat, Value>, strings: map<nat, Bytes>, number: nat, kind: Kind, value: Bytes)
    requires KindOf(number) == Some(kind) && IsString(number) && number !in fields
    ensures kind.ListKind? || kind.TextKind?
    ensures Updated(Combine(fields, strings), number, kind, value) ==
              Text(if kind.ListKind? then
                     Merge(if number in strings then strings[number] else [], value, kind.sep)
                   else value)
  {
  }

  // Options whose value is a string in the buffer.
  predicate IsString(number: nat) {
    match KindOf(number)
    case Some(ListKind(_)) => true
    case Some(TextKind) => true
    case _ => false
  }

  ghost predicate Inside(spans: map<nat, Span>, length: nat) {
    forall n :: n in spans ==> spans[n].End() <= length
  }

  // The strings as the buffer holds them.
  ghost function StringsIn(buffer: Bytes, spans: map<nat, Span>): map<nat, Bytes>
    requires Inside(spans, |buffer|)
  {
    map n | n in spans :: buffer[spans[n].at..spans[n].End()]
  }

  // Strings lie before pos in the order of their numbers, none later than number.
  ghost predicate Ordered(spans: map<nat, Span>, number: nat, pos: nat) {
    && (forall n :: n in spans ==> n <= number && spans[n].End() <= pos)
    && forall n, m :: n in spans && m in spans && n < m ==> spans[n].End() <= spans[m].at
  }

  // Bytes before from are the same in both buffers.
  lemma SliceWithin(now: Bytes, was: Bytes, from: nat, a: nat, b: nat)
    requires |now| == |was| && from <= |was| && now[..from] == was[..from] && a <= b <= from
    ensures now[a..b] == was[a..b]
  {
    assert now[a..b] == now[..from][a..b];
    assert was[a..b] == was[..from][a..b];
  }

  // Storing a string whose bytes begin at or behind from leaves all others alone.
  lemma OneStringChanged(was: Bytes, now: Bytes, spans: map<nat, Span>, number: nat, span: Span, from: nat, pos: nat)
    requires |now| == |was| && Inside(spans, |was|) && Ordered(spans, number, pos) && span.End() <= |now|
    requires from <= |was| && now[..from] == was[..from]
    requires from == if number in spans && spans[number].at == span.at then spans[number].End() else pos
    ensures Inside(spans[number := span], |now|)
    ensures StringsIn(now, spans[number := span]) == StringsIn(was, spans)[number := now[span.at..span.End()]]
  {
    hide Ordered;
    forall n | n in spans && n != number
      ensures now[spans[n].at..spans[n].End()] == was[spans[n].at..spans[n].End()]
    {
      OtherString(spans, number, span, from, pos, n);
      SliceWithin(now, was, from, spans[n].at, spans[n].End());
    }
  }

  lemma OtherString(spans: map<nat, Span>, number: nat, span: Span, from: nat, pos: nat, n: nat)
    requires Ordered(spans, number, pos) && n in spans && n != number
    requires from == if number in spans && spans[number].at == span.at then spans[number].End() else pos
    ensures spans[n].End() <= from
  {
  }

  lemma OrderedBounds(spans: map<nat, Span>, number: nat, pos: nat, n: nat)
    requires Ordered(spans, number, pos)
    ensures n in spans ==> spans[n].End() <= pos
  {
  }

  lemma StillOrdered(spans: map<nat, Span>, number: nat, pos: nat, span: Span, end: nat)
    requires Ordered(spans, number, pos) && pos <= end && span.End() <= end
    requires span.at >= pos || (number in spans && spans[number].at == span.at)
    ensures Ordered(spans[number := span], number, end)
  {
  }

  // A string that starts behind pos.
  lemma StringReplaced(buffer: Bytes, spans: map<nat, Span>, number: nat, span: Span, pos: nat)
    requires Inside(spans, |buffer|) && Ordered(spans, number, pos) && pos < span.at && span.End() <= |buffer|
    ensures Inside(spans[number := span], |buffer|) && Ordered(spans[number := span], number, span.End())
    ensures StringsIn(buffer, spans[number := span]) == StringsIn(buffer, spans)[number := buffer[span.at..span.End()]]
  {
    OrderedBounds(spans, number, pos, number);
    hide Ordered, Inside, StringsIn;
    OneStringChanged(buffer, buffer, spans, number, span, pos, pos);
    StillOrdered(spans, number, pos, span, span.End());
  }

  // A string with a segment appended to it.
  lemma StringGrown(was: Bytes, now: Bytes, spans: map<nat, Span>, number: nat, dst: Span, length: nat, pos: nat,
                    end: nat,
                    grown: Bytes)
    requires Inside(spans, |was|) && Ordered(spans, number, pos) && number in spans && spans[number] == dst
    requires |now| == |was| && dst.End() + 1 + length <= end <= |now| && pos <= end
    requires now[..dst.End()] == was[..dst.End()] && now[dst.at..dst.End() + 1 + length] == grown
    ensures var span := Span(dst.at, dst.len + 1 + length);
            && Inside(spans[number := span], |now|) && Ordered(spans[number := span], number, end)
            && StringsIn(now, spans[number := span]) == StringsIn(was, spans)[number := grown]
  {
    OrderedBounds(spans, number, pos, number);
    hide Ordered, Inside, StringsIn;
    var span := Span(dst.at, dst.len + 1 + length);
    OneStringChanged(was, now, spans, number, span, dst.End(), pos);
    StillOrdered(spans, number, pos, span, end);
  }

  lemma StringsStay(was: Bytes, now: Bytes, spans: map<nat, Span>, number: nat, pos: nat)
    requires |now| == |was| && Inside(spans, |was|) && Ordered(spans, number, pos)
    requires pos <= |was| && now[..pos] == was[..pos]
    ensures StringsIn(now, spans) == StringsIn(was, spans)
  {
    forall n | n in spans
      ensures now[spans[n].at..spans[n].End()] == was[spans[n].at..spans[n].End()]
    {
      SliceWithin(now, was, pos, spans[n].at, spans[n].End());
    }
  }

  lemma Terminated(was: Bytes, now: Bytes, pos: nat, at: nat, length: nat)
    requires pos < at && at + length < |was| && now == was[at + length := 0]
    ensures now[..pos] == was[..pos] && now[at..at + length] == was[at..at + length]
  {
  }

  // Reading a header only looks at what is not yet parsed.
  lemma HeadDepends(now: Bytes, was: Bytes, at: nat)
    requires |now| == |was| && at < |now| && now[at..] == was[at..]
    ensures now[at] == was[at] && ReadHead(now, at) == ReadHead(was, at)
  {
    assert forall k :: at <= k < |now| ==> now[k] == now[at..][k - at] && was[k] == was[at..][k - at];
  }

  // Buffers that agree behind at agree on every part behind it.
  lemma SameBehind(now: Bytes, was: Bytes, at: nat, a: nat, b: nat)
    requires |now| == |was| && at <= a <= b <= |now| && now[at..] == was[at..]
    ensures now[a..b] == was[a..b]
  {
    forall k | a <= k < b
      ensures now[k] == was[k]
    {
      assert now[at..][k - at] == was[at..][k - at];
    }
  }

  lemma PartOfPrefix(memory: Bytes, n: nat, a: nat, b: nat)
    requires a <= b <= n <= |memory|
    ensures memory[..n][a..b] == memory[a..b]
  {
  }

  // A separator written at the end of a string, then a segment moved down behind it.
  lemma Appended(was: Bytes, middle: Bytes, now: Bytes, dst: Span, sep: u8, at: nat, length: nat)
    requires dst.End() < at && at + length <= |was|
    requires middle == was[dst.End() := sep] && |now| == |middle|
    requires now[..dst.End() + 1] == middle[..dst.End() + 1]
    requires now[dst.End() + 1..dst.End() + 1 + length] == middle[at..at + length]
    requires now[dst.End() + 1 + length..] == middle[dst.End() + 1 + length..]
    ensures now[dst.at..dst.End() + 1 + length] == was[dst.at..dst.End()] + [sep] + was[at..at + length]
    ensures now[..dst.End()] == was[..dst.End()] && now[at + length..] == was[at + length..]
  {
    var end := dst.End();
    assert now[dst.at..end + 1 + length] == now[..end + 1][dst.at..] + now[end + 1..end + 1 + length];
    assert middle[..end + 1] == was[..end] + [sep];
    assert middle[at..at + length] == was[at..at + length];
    assert now[..end] == now[..end + 1][..end];
    assert now[at + length..] == now[end + 1 + length..][at - end - 1..];
    assert middle[at + length..] == middle[end + 1 + length..][at - end - 1..];
    assert middle[at + length..] == was[at + length..];
  }

  // ----- all fields of a packet -----

  ghost function Combine(fields: map<nat, Value>, strings: map<nat, Bytes>): map<nat, Value> {
    map n | n in fields.Keys + strings.Keys :: if n in strings then Text(strings[n]) else fields[n]
  }

  lemma CombineString(fields: map<nat, Value>, strings: map<nat, Bytes>, n: nat, s: Bytes)
    ensures Combine(fields, strings[n := s]) == Combine(fields, strings)[n := Text(s)]
  {
  }

  lemma CombineField(fields: map<nat, Value>, strings: map<nat, Bytes>, n: nat, v: Value)
    requires n !in strings
    ensures Combine(fields[n := v], strings) == Combine(fields, strings)[n := v]
  {
  }

  // ----- the packet being filled in -----

  class CoapPacket {
    const buffer: array<u8>
    const options: array<bv8>
    var typ: nat
    var code: u8
    var mid: u16
    var token: Bytes
    var fields: map<nat, Value>  // numbers, flags, tags and blocks
    var spans: map<nat, Span>    // strings, as places in the buffer
    var payloadAt: nat
    var payloadLen: nat

    ghost predicate Valid()
      reads this
    {
      && options.Length == 8 && (options as object) != buffer && Inside(spans, buffer.Length)
      && (forall n :: n in spans ==> IsString(n)) && (forall n :: n in fields ==> !IsString(n))
      && payloadAt + payloadLen <= buffer.Length
    }

    ghost function Memory(): (m: Bytes)
      reads buffer
      ensures m == buffer[..]
    {
      buffer[..]
    }

    ghost function Strings(): map<nat, Bytes>
      requires Valid()
      reads this, buffer
    {
      StringsIn(Memory(), spans)
    }

    ghost function Bitmap(): (m: seq<bv8>)
      requires options.Length == 8
      reads options
      ensures m == options[..]
    {
      options[..]
    }

    // The packet the object stands for, its strings and payload read from the buffer.
    ghost function View(): Packet
      requires Valid()
      reads this, buffer, options
    {
      Packet(typ, code, mid, token, Members(Bitmap()), Combine(fields, Strings()),
             Memory()[payloadAt..payloadAt + payloadLen])
    }

    constructor (buffer: array<u8>)
      ensures this.buffer == buffer && Valid() && fresh(options)
    {
      this.buffer := buffer;
      options := new bv8[8](i => 0);
      typ, code, mid, token, fields, spans, payloadAt, payloadLen := 0, 0, 0, [], map[], map[], 0, 0;
    }

    method SetBitOf(number: nat)
      requires Valid() && number < OPTION_LIMIT
      modifies options
      ensures Bitmap() == WithBit(old(Bitmap()), number)
    {
      options[number / 8] := SetBit(options[number / 8], number % 8);
    }

    method SetOption(number: nat)
      requires Valid() && number < OPTION_LIMIT
      modifies options
      ensures View() == old(View()).(options := old(View()).options + {number})
    {
      hide Members, Combine, StringsIn, Memory, Bitmap, WithBit, Inside, IsString;
      SetMember(Bitmap(), number);
      SetBitOf(number);
    }

    // memmove to a lower address.
    method MoveDown(dst: nat, src: nat, length: nat)
      requires dst <= src && src + length <= buffer.Length
      modifies buffer
      ensures buffer[dst..dst + length] == old(buffer[src..src + length])
      ensures buffer[..dst] == old(buffer[..dst]) && buffer[dst + length..] == old(buffer[dst + length..])
    {
      ghost var was := buffer[..];
      var k := 0;
      while k < length
        invariant 0 <= k <= length && buffer[dst..dst + k] == was[src..src + k]
        invariant buffer[..dst] == was[..dst] && buffer[dst + k..] == was[dst + k..]
      {
        assert buffer[src + k] == buffer[dst + k..][src - dst] == was[src + k];
        buffer[dst + k] := buffer[src + k];
        k := k + 1;
      }
    }

    // The segment at at is moved behind a separator at the end of the string.
    method Append(dst: Span, sep: u8, at: nat, length: nat, ghost grown: Bytes)
      requires dst.End() < at && at + length <= buffer.Length
      requires grown == buffer[dst.at..dst.End()] + [sep] + buffer[at..at + length]
      modifies buffer
      ensures buffer[dst.at..dst.End() + 1 + length] == grown
      ensures buffer[..dst.End()] == old(buffer[..dst.End()]) && buffer[at + length..] == old(buffer[at + length..])
    {
      ghost var was := buffer[..];
      buffer[dst.End()] := sep;
      ghost var middle := buffer[..];
      MoveDown(dst.End() + 1, at, length);
      Appended(was, middle, buffer[..], dst, sep, at, length);
    }

    method SetSpan(number: nat, span: Span, ghost end: nat)
      requires Valid() && IsString(number)
      requires Inside(spans[number := span], buffer.Length) && Ordered(spans[number := span], number, end)
      modifies this`spans
      ensures Valid() && Ordered(spans, number, end)
      ensures Memory() == old(Memory()) && Strings() == StringsIn(Memory(), old(spans)[number := span])
    {
      hide IsString, Ordered, StringsIn, Inside, Memory;
      spans := spans[number := span];
    }

    method StoreText(number: nat, at: nat, length: nat, ghost pos: nat)
      requires Valid() && Ordered(spans, number, pos) && pos < at && at + length <= buffer.Length && IsString(number)
      modifies this`spans
      ensures Valid() && Ordered(spans, number, at + length)
      ensures Strings() == old(Strings())[number := buffer[at..at + length]]
    {
      hide IsString, Ordered, StringsIn, Inside;
      StringReplaced(Memory(), spans, number, Span(at, length), pos);
      SetSpan(number, Span(at, length), at + length);
    }

    // The buffer as it has to be for the string to have grown.
    method GrowInBuffer(number: nat, sep: u8, at: nat, length: nat, ghost pos: nat, ghost grown: Bytes)
      returns (span: Span)
      requires Valid() && Ordered(spans, number, pos) && pos < at && at + length <= buffer.Length
      requires number in spans && grown == Strings()[number] + [sep] + buffer[at..at + length]
      modifies buffer
      ensures Inside(spans[number := span], buffer.Length) && Ordered(spans[number := span], number, at + length)
      ensures StringsIn(Memory(), spans[number := span]) == old(Strings())[number := grown]
      ensures buffer[at + length..] == old(buffer[at + length..])
    {
      var dst := spans[number];
      ghost var was := Memory();
      assert Strings()[number] == was[dst.at..dst.End()];
      OrderedBounds(spans, number, pos, number);
      hide IsString, Ordered, StringsIn, Inside;
      Append(dst, sep, at, length, grown);
      StringGrown(was, Memory(), spans, number, dst, length, pos, at + length, grown);
      return Span(dst.at, dst.len + 1 + length);
    }

    method GrowString(number: nat, sep: u8, at: nat, length: nat, ghost pos: nat, ghost grown: Bytes)
      requires Valid() && Ordered(spans, number, pos) && pos < at && at + length <= buffer.Length && IsString(number)
      requires number in spans && grown == Strings()[number] + [sep] + buffer[at..at + length]
      modifies this`spans, buffer
      ensures Valid() && Ordered(spans, number, at + length)
      ensures Strings() == old(Strings())[number := grown]
      ensures buffer[at + length..] == old(buffer[at + length..])
    {
      hide IsString, Ordered, StringsIn, Inside, Memory;
      var span := GrowInBuffer(number, sep, at, length, pos, grown);
      SetSpan(number, span, at + length);
    }

    // coap_merge_multi_option for the option whose value stands at at. All strings of
    // other options stay as they are, and so does everything behind this option.
    method MergeMultiOption(number: nat, sep: u8, at: nat, length: nat, ghost pos: nat)
      requires Valid() && Ordered(spans, number, pos) && pos < at && at + length <= buffer.Length && IsString(number)
      modifies this`spans, buffer
      ensures Valid() && Ordered(spans, number, at + length)
      ensures var dst := if number in old(Strings()) then old(Strings())[number] else [];
              Strings() == old(Strings())[number := Merge(dst, old(buffer[at..at + length]), sep)]
      ensures buffer[at + length..] == old(buffer[at + length..])
    {
      assert Strings().Keys == spans.Keys && forall n :: n in spans ==> |Strings()[n]| == spans[n].len;
      hide IsString, Ordered, StringsIn, Inside;
      if number in spans && spans[number].len > 0 {
        GrowString(number, sep, at, length, pos, Strings()[number] + [sep] + buffer[at..at + length]);
      } else {
        StoreText(number, at, length, pos);
      }
    }

    // A string option: one more segment, or the whole string.
    method StoreString(number: nat, kind: Kind, at: nat, length: nat, ghost pos: nat)
      requires Valid() && Ordered(spans, number, pos) && pos < at && at + length <= buffer.Length && payloadLen == 0
      requires KindOf(number) == Some(kind) && IsString(number)
      modifies this`spans, buffer
      ensures Valid() && Ordered(spans, number, at + length)
      ensures var p := old(View());
              View() == p.(fields := p.fields[number := Updated(p.fields, number, kind, old(buffer[at..at + length]))])
      ensures buffer[at + length..] == old(buffer[at + length..])
    {
      UpdatedString(fields, Strings(), number, kind, buffer[at..at + length]);
      hide KindOf, Ordered, Merge, Updated, StringsIn, Combine, Inside, IsString, Members, Bitmap, Memory;
      ghost var strings, members := Strings(), Members(Bitmap());
      assert View().payload == [];
      if kind.ListKind? {
        MergeMultiOption(number, kind.sep, at, length, pos);
      } else {
        StoreText(number, at, length, pos);
      }
      CombineString(fields, strings, number, Strings()[number]);
      assert View().payload == [] && Members(Bitmap()) == members;
    }

    // The value of any other known option.
    method ReadValue(kind: Kind, at: nat, length: nat, ghost known: map<nat, Value>, ghost number: nat)
      returns (v: Value)
      requires at + length <= buffer.Length && !kind.ListKind? && !kind.TextKind? && !kind.ProxyKind?
      ensures v == Updated(known, number, kind, buffer[at..at + length])
    {
      hide ParseInt, BlockSize, BlockOffset;
      var value := buffer[at..at + length];
      match kind {
        case IntKind(bits) =>
          var n := ParseIntOption(value);
          return Number(Narrow(bits, n));
        case FlagKind =>
          return Present;
        case OctetsKind =>
          assert length >= ETAG_LEN ==> value[..ETAG_LEN] == buffer[at..at + ETAG_LEN];
          return Octets(buffer[at..at + Common.Min(ETAG_LEN, length)]);
        case BlockKind =>
          var n := ParseIntOption(value);
          return Block(BlockNum(n), BlockMore(n), BlockSize(n), BlockOffset(n));
      }
    }

    method StoreValue(number: nat, kind: Kind, at: nat, length: nat)
      requires Valid() && at + length <= buffer.Length
      requires KindOf(number) == Some(kind) && !IsString(number) && !kind.ProxyKind?
      modifies this`fields
      ensures Valid()
      ensures var p := old(View());
              View() == p.(fields := p.fields[number := Updated(p.fields, number, kind, buffer[at..at + length])])
    {
      ghost var known := View().fields;
      var v := ReadValue(kind, at, length, known, number);
      hide KindOf, Updated, StringsIn, Combine, Inside;
      CombineField(fields, Strings(), number, v);
      fields := fields[number := v];
    }

    // The switch over the option numbers.
    method StoreOption(number: nat, at: nat, length: nat, ghost pos: nat) returns (refused: Option<Status>)
      requires Valid() && Ordered(spans, number, pos) && pos < at && at + length <= buffer.Length && payloadLen == 0
      requires number < OPTION_LIMIT
      modifies this`fields, this`spans, buffer, options
      ensures Valid() && Ordered(spans, number, at + length)
      ensures var r := Apply(old(View()), number, old(buffer[at..at + length]));
              if r.Refused? then refused == Some(r.status) else refused == None && r.Parsed? && View() == r.p
      ensures buffer[at + length..] == old(buffer[at + length..])
    {
      hide Ordered, Updated, StringsIn, Combine, Inside, Members;
      SetOption(number);
      OrderedLater(spans, number, pos, at + length);
      var kind := KindOf(number);
      if kind == Some(ProxyKind) {
        return Some(ProxyingNotSupported);
      }
      if kind.None? {
        return if number % 2 == 1 then Some(BadOption) else None;
      }
      if IsString(number) {
        StoreString(number, kind.value, at, length, pos);
      } else {
        StoreValue(number, kind.value, at, length);
      }
      return None;
    }

    // One turn of the loop over the two numbers of an option header.
    method ReadNumber(nibble: nat, at: nat, ghost data: Bytes) returns (x: u16, next: nat)
      requires nibble < 16 && |data| <= buffer.Length && data == buffer[..|data|] &&
               !ReadExtension(nibble, data, at).Beyond?
      ensures ReadExtension(nibble, data, at) == Extended(x, next)
    {
      x, next := nibble, at;
      if x == 13 {
        x := x + buffer[at];
        next := next + 1;
      } else if x == 14 {
        x := ToU16(14 + 255 + 0x100 * (buffer[at] as int) + (buffer[at + 1] as int));
        next := next + 2;
      }
    }

    method ReadHeader(at: nat, ghost data: Bytes) returns (delta: u16, length: u16, value: nat)
      requires |data| <= buffer.Length && data == buffer[..|data|] && at < |data| && ReadHead(data, at).Head?
      ensures ReadHead(data, at) == Head(delta, length, value)
    {
      var b := buffer[at];
      var next;
      delta, next := ReadNumber(b / 0x10, at + 1, data);
      length, value := ReadNumber(b % 0x10, next, data);
    }

    // Writing a terminator behind the payload touches neither it nor the strings.
    method Terminate(ghost pos: nat, ghost number: nat)
      requires Valid() && pos < payloadAt && payloadAt + payloadLen < buffer.Length && Ordered(spans, number, pos)
      modifies buffer
      ensures View() == old(View())
    {
      ghost var was, before := Memory(), View();
      hide Ordered, StringsIn, Inside, Members, Combine;
      buffer[payloadAt + payloadLen] := 0;
      Terminated(was, Memory(), pos, payloadAt, payloadLen);
      StringsStay(was, Memory(), spans, number, pos);
    }

    method SetPayloadPlace(at: nat, length: nat, ghost payload: Bytes)
      requires Valid() && at + length <= buffer.Length && payload == Memory()[at..at + length]
      modifies this`payloadAt, this`payloadLen
      ensures Valid() && payloadAt == at && payloadLen == length && View() == old(View()).(payload := payload)
    {
      hide StringsIn, Inside, Combine, Members, Memory, Bitmap, IsString;
      payloadAt, payloadLen := at, length;
    }

    // The payload behind its marker, cut to one chunk.
    method SetPayload(at: nat, dataLen: nat, ghost pos: nat, ghost number: nat)
      requires Valid() && pos < at <= dataLen < buffer.Length && Ordered(spans, number, pos)
      modifies this`payloadAt, this`payloadLen, buffer
      ensures Valid()
      ensures var rest := old(buffer[at..dataLen]);
              View() == old(View()).(payload := if |rest| > MAX_CHUNK_SIZE then rest[..MAX_CHUNK_SIZE] else rest)
    {
      ghost var rest := buffer[at..dataLen];
      ghost var cut := if |rest| > MAX_CHUNK_SIZE then rest[..MAX_CHUNK_SIZE] else rest;
      var length := dataLen - at;
      if length > MAX_CHUNK_SIZE {
        length := MAX_CHUNK_SIZE;
      }
      assert cut == Memory()[at..at + length];
      hide Ordered, Inside, Memory, View, Strings;
      SetPayloadPlace(at, length, cut);
      Terminate(pos, number);
    }

    method ClearOptions()
      requires options.Length == 8
      modifies options
      ensures Members(Bitmap()) == {}
    {
      var i := 0;
      while i < 8
        invariant 0 <= i <= 8 && forall k :: 0 <= k < i ==> options[k] == 0
      {
        options[i] := 0;
        i := i + 1;
      }
      NoMembers(options[..]);
    }

    method Clear(dataLen: nat)
      requires options.Length == 8 && (options as object) != buffer && 4 <= dataLen <= buffer.Length
      modifies this, options
      ensures Valid() && spans == map[] && payloadLen == 0
      ensures View() == ParsedStart(buffer[..dataLen])
    {
      typ := buffer[0] / 0x10 % 4;
      code := buffer[1];
      mid := 0x100 * (buffer[2] as int) + (buffer[3] as int);
      token, fields, spans, payloadAt, payloadLen := [], map[], map[], 0, 0;
      ClearOptions();
      hide Members;
    }

    // One option: read its header, store its value. Everything behind it is untouched.
    method ParseOption(pos: nat, number: nat, ghost data: Bytes) returns (refused: Option<Status>, next: nat, n: nat)
      requires Valid() && Ordered(spans, number, pos) && payloadLen == 0 && number < OPTION_LIMIT
      requires |data| < buffer.Length && pos < |data| && buffer[pos..|data|] == data[pos..] && data[pos] / 0x10 != 15
      requires !ParseOptions(data, pos, number, View()).Stray?
      modifies this`fields, this`spans, buffer, options
      ensures Valid() && pos < next <= |data| && n < OPTION_LIMIT && Ordered(spans, n, next)
      ensures buffer[next..|data|] == data[next..]
      ensures refused.Some? ==> ParseOptions(data, pos, number, old(View())) == Refused(refused.value)
      ensures refused.None? ==> ParseOptions(data, pos, number, old(View())) == ParseOptions(data, next, n, View())
    {
      hide Ordered, Apply, View, Strings, Inside, ReadHead;
      ghost var was := buffer[..];
      ghost var now := was[..|data|];
      HeadDepends(now, data, pos);
      var delta, length, value := ReadHeader(pos, now);
      n := number + delta;
      next := value + length;
      SameBehind(now, data, pos, value, next);
      PartOfPrefix(was, |data|, value, next);
      OrderedLaterNumber(spans, number, n, pos);
      refused := StoreOption(n, value, length, pos);
      SameBehind(buffer[..], was, next, next, |data|);
      PartOfPrefix(was, |data|, next, |data|);
      SameBehind(now, data, pos, next, |data|);
    }

    method ReadToken(dataLen: nat) returns (pos: nat)
      requires Valid() && 0 < dataLen <= buffer.Length &&
               HEADER_LEN + Common.Min(TOKEN_LEN, buffer[0] % 0x10) <= dataLen
      modifies this`token
      ensures Valid() && pos == HEADER_LEN + Common.Min(TOKEN_LEN, buffer[0] % 0x10)
      ensures View() == old(View()).(token := buffer[..dataLen][HEADER_LEN..pos])
    {
      hide Members, Combine, StringsIn, Inside, IsString;
      pos := HEADER_LEN + Common.Min(TOKEN_LEN, buffer[0] % 0x10);
      token := buffer[HEADER_LEN..pos];
      PartOfPrefix(buffer[..], dataLen, HEADER_LEN, pos);
      assert buffer[..][..dataLen] == buffer[..dataLen];
    }

    // coap_parse_message. The byte behind the message is there for the terminator of
    // the payload. None: NO_ERROR.
    method ParseMessage(dataLen: nat) returns (status: Option<Status>)
      requires options.Length == 8 && (options as object) != buffer && dataLen < buffer.Length
      requires !Coap.ParseMessage(buffer[..dataLen]).Stray?
      modifies this, buffer, options
      ensures Valid()
      ensures var r := Coap.ParseMessage(old(buffer[..dataLen]));
              if r.Refused? then status == Some(r.status) else status == None && View() == r.p
    {
      ghost var data := buffer[..dataLen];
      Clear(dataLen);
      assert data == buffer[..dataLen];
      if buffer[0] / 0x40 != 1 {
        return Some(BadRequest);
      }
      hide Ordered, View, ParseOptions;
      NothingOrdered(spans);
      var pos := ReadToken(dataLen);
      assert buffer[pos..dataLen] == data[pos..];
      status := ParseRest(dataLen, pos, 0, data);
    }

    // The loop over the options.
    method ParseRest(dataLen: nat, from: nat, first: nat, ghost data: Bytes) returns (status: Option<Status>)
      requires Valid() && Ordered(spans, first, from) && payloadLen == 0 && first < OPTION_LIMIT
      requires |data| == dataLen < buffer.Length && from <= dataLen && buffer[from..dataLen] == data[from..]
      requires !ParseOptions(data, from, first, View()).Stray?
      modifies this`fields, this`spans, this`payloadAt, this`payloadLen, buffer, options
      ensures Valid()
      ensures var r := ParseOptions(data, from, first, old(View()));
              if r.Refused? then status == Some(r.status) else status == None && View() == r.p
    {
      ghost var whole := ParseOptions(data, from, first, View());
      hide Ordered, View, Strings;
      var pos: nat, number: nat := from, first;
      while pos < dataLen
        invariant Valid() && Ordered(spans, number, pos) && payloadLen == 0 && number < OPTION_LIMIT
        invariant pos <= dataLen && buffer[pos..dataLen] == data[pos..]
        invariant ParseOptions(data, pos, number, View()) == whole
      {
        assert buffer[pos] == buffer[pos..dataLen][0] == data[pos];
        if buffer[pos] / 0x10 == 15 {
          assert buffer[pos + 1..dataLen] == buffer[pos..dataLen][1..] == data[pos + 1..];
          SetPayload(pos + 1, dataLen, pos, number);
          return None;
        }
        var refused;
        refused, pos, number := ParseOption(pos, number, data);
        if refused.Some? {
          return refused;
        }
      }
      return None;
    }
  }

  lemma NoMembers(map8: seq<bv8>)
    requires |map8| == 8 && forall k :: 0 <= k < 8 ==> map8[k] == 0
    ensures Members(map8) == {}
  {
    forall n: nat | n < OPTION_LIMIT
      ensures !IsOption(map8, n)
    {
      NoBit(n % 8);
    }
  }

  lemma NoBit(i: nat)
    requires i < 8
    ensures !HasBit(0, i)
  {
  }
}

// CoAP options on the wire (RFC 7252, section 3.1; Block options: RFC 7959, section
// 2.2): headers, integers, strings split into segments, blocks.
module CoapOption {
  import opened Common

  type Bytes = seq<u8>

  // ----- option headers -----

  function Nibble(x: nat): nat {
    if x < 13 then x else if x <= 0xFF + 13 then 13 else 14
  }

  function Extension(x: u16): (b: Bytes)
    ensures |b| <= 2
  {
    if x > 268 then [(x - 269) / 0x100, (x - 269) % 0x100]
    else if x > 12 then [x - 13]
    else []
  }

  function Header(delta: u16, length: u16): (b: Bytes)
    ensures 1 <= |b| <= 5
  {
    [0x10 * Nibble(delta) + Nibble(length)] + Extension(delta) + Extension(length)
  }

  function EncodeOption(delta: u16, value: Bytes): (b: Bytes)
    requires |value| < 0x1_0000
    ensures |b| > |value|
  {
    Header(delta, |value|) + value
  }

  // A header as the parser reads it; Short: it would read behind the message.
  datatype Head = Head(delta: u16, length: u16, value: nat) | Short

  datatype Extended = Extended(x: u16, next: nat) | Beyond

  function ReadExtension(nibble: nat, data: Bytes, at: nat): Extended
    requires nibble < 16
  {
    if nibble == 13 then
      if at >= |data| then Beyond else Extended(13 + (data[at] as int), at + 1)
    else if nibble == 14 then
      if at + 1 >= |data| then Beyond
        else Extended(ToU16(14 + 255 + 0x100 * (data[at] as int) + (data[at + 1] as int)), at + 2)
    else Extended(nibble, at)
  }

  function ReadHead(data: Bytes, at: nat): (h: Head)
    requires at < |data|
    ensures h.Head? ==> at < h.value
  {
    var delta := ReadExtension(data[at] / 0x10, data, at + 1);
    if delta.Beyond? then Short
    else
      var length := ReadExtension(data[at] % 0x10, data, delta.next);
      if length.Beyond? then Short else Head(delta.x, length.x, length.next)
  }

  lemma ExtensionRoundTrip(data: Bytes, at: nat, x: u16)
    requires At(data, at, Extension(x))
    ensures ReadExtension(Nibble(x), data, at) == Extended(x, at + |Extension(x)|)
  {
    if x > 268 {
      assert data[at] == Extension(x)[0] && data[at + 1] == Extension(x)[1];
    } else if x > 12 {
      assert data[at] == Extension(x)[0];
    }
  }

  lemma HeaderRoundTrip(data: Bytes, at: nat, delta: u16, length: u16)
    requires At(data, at, Header(delta, length))
    ensures ReadHead(data, at) == Head(delta, length, at + |Header(delta, length)|)
    ensures data[at] / 0x10 != 15
  {
    hide At, Extension;
    var first := [0x10 * Nibble(delta) + Nibble(length)];
    AtConcat(data, at, first + Extension(delta), Extension(length));
    AtConcat(data, at, first, Extension(delta));
    FirstByte(data, at, first[0]);
    ExtensionRoundTrip(data, at + 1, delta);
    ExtensionRoundTrip(data, at + 1 + |Extension(delta)|, length);
  }

  lemma FirstByte(data: Bytes, at: nat, b: u8)
    requires At(data, at, [b])
    ensures at < |data| && data[at] == b
  {
    assert [b][0] == b;
  }

  // ----- integers -----

  // The shortest big-endian form.
  function IntBytes(v: u32): (b: Bytes)
    ensures |b| <= 4
  {
    (if v >= 0x100_0000 then [v / 0x100_0000] else [])
    + (if v >= 0x1_0000 then [v / 0x1_0000 % 0x100] else [])
    + (if v >= 0x100 then [v / 0x100 % 0x100] else [])
    + (if v > 0 then [v % 0x100] else [])
  }

  function ParseInt(b: Bytes): u32 {
    if b == [] then 0 else ToU32(0x100 * (ParseInt(b[..|b| - 1]) as int) + (b[|b| - 1] as int))
  }

  lemma IntRoundTrip(v: u32)
    ensures ParseInt(IntBytes(v)) == v
  {
    if v >= 0x100 {
      var w := v / 0x100;
      IntPrefix(v);
      assert w % 0x1_0000 == w - w / 0x1_0000 * 0x1_0000;
      IntRoundTrip(w);
    } else if v > 0 {
      assert IntBytes(v) == [v] && [v][..0] == [];
    }
  }

  lemma IntPrefix(v: u32)
    requires v >= 0x100
    ensures IntBytes(v) == IntBytes(v / 0x100) + [v % 0x100]
  {
    assert v / 0x100 / 0x1_0000 == v / 0x100_0000 && v / 0x100 / 0x100 == v / 0x1_0000;
  }

  method ParseIntOption(bytes: Bytes) returns (v: u32)
    ensures v == ParseInt(bytes)
  {
    v := 0;
    var i := 0;
    while i < |bytes|
      invariant 0 <= i <= |bytes| && v == ParseInt(bytes[..i])
    {
      assert bytes[..i + 1][..i] == bytes[..i];
      v := ToU32(0x100 * (v as int) + (bytes[i] as int));
      i := i + 1;
    }
    assert bytes[..i] == bytes;
  }

  // ----- blocks -----

  function Log2(x: nat): nat {
    if x < 2 then 0 else 1 + Log2(x / 2)
  }

  // The exponent of the largest power of two that is not larger.
  lemma {:induction false} Log2Is(x: nat)
    requires x > 0
    ensures Pow2(Log2(x)) <= x < Pow2(Log2(x) + 1)
  {
    if x >= 2 {
      Log2Is(x / 2);
    }
  }

  lemma {:induction false} Log2Below(x: nat, n: nat)
    requires x < Pow2(n) && n > 0
    ensures Log2(x) < n
  {
    if x >= 2 {
      Log2Below(x / 2, n - 1);
    }
  }

  method ComputeLog2(value: u16) returns (result: u16)
    ensures result == Log2(value)
    ensures value > 0 ==> Pow2(result) <= value < Pow2(result + 1)
  {
    if value > 0 {
      Log2Is(value);
    }
    assert Pow2(4) == 16 && Pow2(8) == 256 && Pow2(12) == 0x1000 && Pow2(16) == 0x1_0000;
    Log2Below(value, 16);
    var v := value;
    result := 0;
    while true
      invariant result + Log2(v) == Log2(value)
      invariant result > 0 ==> v > 0
      decreases v
    {
      v := v / 2;
      result := result + 1;
      if v == 0 {
        break;
      }
    }
    if result > 0 {
      result := result - 1;
    }
  }

  // The low four bits: the more flag and the size exponent, which may overlap.
  function BlockNibble(more: bool, size: u16): (n: nat)
    ensures n < 16
  {
    var log := Log2(size / 16) % 16;
    if more && log < 8 then log + 8 else log
  }

  // Shifting the number left by four drops what does not fit 32 bits.
  function BlockValue(num: u32, more: bool, size: u16): u32 {
    0x10 * (num % 0x1000_0000) + BlockNibble(more, size)
  }

  function BlockNum(v: u32): u32 {
    v / 0x10
  }

  function BlockMore(v: u32): bool {
    v / 8 % 2 == 1
  }

  function BlockSize(v: u32): (s: u16)
    ensures s == 16 * Pow2(v % 8)
  {
    SmallPowers();
    16 * Pow2(v % 8)
  }

  function BlockOffset(v: u32): u32 {
    ToU32((v / 0x10 * 0x10) * Pow2(v % 8))
  }

  lemma SmallPowers()
    ensures Pow2(0) == 1 && Pow2(1) == 2 && Pow2(2) == 4 && Pow2(3) == 8
    ensures Pow2(4) == 16 && Pow2(5) == 32 && Pow2(6) == 64 && Pow2(7) == 128
  {
  }

  predicate IsBlockSize(size: u16) {
    size in [16, 32, 64, 128, 256, 512, 1024, 2048]
  }

  lemma Log2OfSize(size: u16)
    requires IsBlockSize(size)
    ensures Log2(size / 16) < 8 && 16 * Pow2(Log2(size / 16)) == size
  {
    SmallPowers();
    assert Log2(1) == 0 && Log2(2) == 1 && Log2(4) == 2 && Log2(8) == 3;
    assert Log2(16) == 4 && Log2(32) == 5 && Log2(64) == 6 && Log2(128) == 7;
  }

  lemma BlockParts(num: u32, more: bool, size: u16)
    ensures var v := BlockValue(num, more, size);
            && BlockNum(v) == num % 0x1000_0000 && v % 8 == BlockNibble(more, size) % 8
            && BlockMore(v) == (BlockNibble(more, size) >= 8)
  {
    hide BlockNibble;
    var n := BlockNibble(more, size);
    LowBits(num % 0x1000_0000, n);
    hide *;
  }

  lemma LowBits(m: nat, n: nat)
    requires n < 16
    ensures (0x10 * m + n) / 0x10 == m
    ensures (0x10 * m + n) % 8 == n % 8
    ensures (0x10 * m + n) / 8 % 2 == if n >= 8 then 1 else 0
  {
    var x := 0x10 * m + n;
    assert x == 8 * (2 * m + n / 8) + n % 8;
    assert x / 8 == 2 * m + n / 8;
  }

  lemma NibbleParts(more: bool, size: u16)
    requires IsBlockSize(size)
    ensures BlockNibble(more, size) == Log2(size / 16) + if more then 8 else 0
    ensures Log2(size / 16) < 8
  {
    hide Log2, IsBlockSize;
    Log2OfSize(size);
  }

  lemma ExponentGivesBlockSize(v: u32)
    ensures IsBlockSize(BlockSize(v))
  {
    SmallPowers();
    assert v % 8 in [0, 1, 2, 3, 4, 5, 6, 7];
  }

  // A block survives exactly with a number below 2^28 and a power-of-two size from
  // 16 to 2048.
  lemma BlockRoundTripIff(num: u32, more: bool, size: u16)
    ensures var v := BlockValue(num, more, size);
            BlockNum(v) == num && BlockMore(v) == more && BlockSize(v) == size <==>
              num < 0x1000_0000 && IsBlockSize(size)
  {
    hide BlockValue, BlockNum, BlockMore, BlockNibble, IsBlockSize, Log2;
    var v := BlockValue(num, more, size);
    BlockParts(num, more, size);
    if IsBlockSize(size) {
      Log2OfSize(size);
      NibbleParts(more, size);
    } else {
      ExponentGivesBlockSize(v);
    }
  }

  // The offset is number times size, as far as 32 bits hold it.
  lemma BlockOffsetIs(num: u32, more: bool, size: u16)
    requires num < 0x1000_0000 && IsBlockSize(size)
    ensures BlockOffset(BlockValue(num, more, size)) == ToU32(num * size)
  {
    hide BlockValue, BlockNibble, IsBlockSize, Log2;
    var v := BlockValue(num, more, size);
    BlockParts(num, more, size);
    Log2OfSize(size);
    NibbleParts(more, size);
    var k := Log2(size / 16);
    Reorder(v / 0x10, Pow2(k));
  }

  lemma Reorder(n: int, p: int)
    ensures n * 0x10 * p == n * (16 * p)
  {
  }

  // ----- strings -----

  // The loop that cuts a string at its separators never examines the character
  // behind a separator it has found. rest is what is still to be examined. behind:
  // the two bytes that follow the string; the second is read, and taken for a
  // separator if it is one, when the last character was found to be a separator.
  function SplitRest(pending: Bytes, rest: Bytes, sep: u8, behind: (u8, u8)): (parts: seq<Bytes>)
    ensures |parts| > 0
    decreases |rest|
  {
    if rest == [] then [pending]
    else if rest[0] == sep then
      if |rest| == 1 then [pending] + if behind.1 == sep then [[behind.0]] else []
      else [pending] + SplitRest([rest[1]], rest[2..], sep, behind)
    else SplitRest(pending + [rest[0]], rest[1..], sep, behind)
  }

  function Split(s: Bytes, sep: u8, behind: (u8, u8)): (parts: seq<Bytes>)
    ensures |parts| > 0
  {
    SplitRest([], s, sep, behind)
  }

  // What the parser makes of a sequence of options of one string.
  function Merge(dst: Bytes, part: Bytes, sep: u8): Bytes {
    if |dst| > 0 then dst + [sep] + part else part
  }

  function MergeAll(dst: Bytes, parts: seq<Bytes>, sep: u8): Bytes {
    if parts == [] then dst else Merge(MergeAll(dst, parts[..|parts| - 1], sep), parts[|parts| - 1], sep)
  }

  // The segments with separators between them.
  function Join(parts: seq<Bytes>, sep: u8): Bytes
    requires |parts| > 0
  {
    if |parts| == 1 then parts[0] else parts[0] + [sep] + Join(parts[1..], sep)
  }

  lemma {:induction false} MergeAllCons(dst: Bytes, part: Bytes, parts: seq<Bytes>, sep: u8)
    ensures MergeAll(dst, [part] + parts, sep) == MergeAll(Merge(dst, part, sep), parts, sep)
    decreases |parts|
  {
    hide Merge;
    if parts == [] {
      assert [part] + parts == [part] && [part][..0] == [];
    } else {
      var n := |parts| - 1;
      assert ([part] + parts)[..n + 1] == [part] + parts[..n];
      MergeAllCons(dst, part, parts[..n], sep);
    }
  }

  lemma {:induction false} MergeIntoJoins(dst: Bytes, parts: seq<Bytes>, sep: u8)
    requires |dst| > 0 && |parts| > 0
    ensures MergeAll(dst, parts, sep) == dst + [sep] + Join(parts, sep)
    decreases |parts|
  {
    MergeAllCons(dst, parts[0], parts[1..], sep);
    assert [parts[0]] + parts[1..] == parts;
    if |parts| > 1 {
      MergeIntoJoins(dst + [sep] + parts[0], parts[1..], sep);
      assert dst + [sep] + parts[0] + [sep] + Join(parts[1..], sep) ==
             dst + [sep] + (parts[0] + [sep] + Join(parts[1..], sep));
    }
  }

  // Merging is joining, except that leading empty segments are lost.
  lemma {:induction false} MergedIs(parts: seq<Bytes>, sep: u8)
    requires |parts| > 0
    ensures MergeAll([], parts, sep) ==
              if |parts| == 1 || parts[0] != [] then Join(parts, sep) else MergeAll([], parts[1..], sep)
  {
    MergeAllCons([], parts[0], parts[1..], sep);
    assert [parts[0]] + parts[1..] == parts;
    if |parts| > 1 && parts[0] != [] {
      MergeIntoJoins(parts[0], parts[1..], sep);
    }
  }

  // Will the last character be examined and found to be a separator?
  predicate EndsSplit(rest: Bytes, sep: u8)
    decreases |rest|
  {
    if rest == [] then false
    else if rest[0] == sep then |rest| == 1 || EndsSplit(rest[2..], sep)
    else EndsSplit(rest[1..], sep)
  }

  // The number of separators at the end.
  function TrailingRun(s: Bytes, sep: u8): (n: nat)
    ensures n <= |s|
  {
    if s == [] || s[|s| - 1] != sep then 0 else 1 + TrailingRun(s[..|s| - 1], sep)
  }

  lemma {:induction false} RunOfTail(s: Bytes, k: nat, sep: u8)
    requires k <= |s|
    ensures TrailingRun(s, sep) ==
              if TrailingRun(s[k..], sep) < |s| - k then TrailingRun(s[k..], sep)
              else |s| - k + TrailingRun(s[..k], sep)
    decreases |s|
  {
    var n := |s| - 1;
    if k == |s| {
      assert s[..k] == s;
    } else if s[n] == sep {
      RunOfTail(s[..n], k, sep);
      assert s[..n][k..] == s[k..][..|s[k..]| - 1] && s[..n][..k] == s[..k];
    }
  }

  lemma {:induction false} EndsSplitIff(rest: Bytes, sep: u8)
    ensures EndsSplit(rest, sep) <==> TrailingRun(rest, sep) % 2 == 1
    decreases |rest|
  {
    if rest == [] {
    } else if rest[0] != sep {
      RunOfTail(rest, 1, sep);
      EndsSplitIff(rest[1..], sep);
    } else if |rest| == 1 {
      assert rest[..0] == [];
    } else {
      RunOfTail(rest, 2, sep);
      EndsSplitIff(rest[2..], sep);
      TwoBytes(rest[..2], sep);
    }
  }

  lemma TwoBytes(s: Bytes, sep: u8)
    requires |s| == 2 && s[0] == sep
    ensures TrailingRun(s, sep) == if s[1] == sep then 2 else 0
  {
    assert s[..1] == [sep] && [sep][..0] == [];
  }

  // Joining what was cut gives the string back, up to its last separator.
  lemma {:induction false} SplitJoins(pending: Bytes, rest: Bytes, sep: u8, behind: (u8, u8))
    ensures Join(SplitRest(pending, rest, sep, behind), sep) == pending + Kept(rest, sep, behind)
    decreases |rest|
  {
    if rest == [] {
    } else if rest[0] != sep {
      SplitJoins(pending + [rest[0]], rest[1..], sep, behind);
      KeptCons([rest[0]], rest[1..], sep, behind);
      assert [rest[0]] + rest[1..] == rest;
      assert pending + [rest[0]] + Kept(rest[1..], sep, behind) == pending + ([rest[0]] + Kept(rest[1..], sep, behind));
    } else if |rest| == 1 {
      assert rest == [sep] && rest[..0] == [];
      assert behind.1 == sep ==> pending + [sep] + [behind.0] == pending + (rest + [behind.0]);
    } else {
      SplitJoins([rest[1]], rest[2..], sep, behind);
      JoinCons(pending, SplitRest([rest[1]], rest[2..], sep, behind), sep);
      KeptCons([sep, rest[1]], rest[2..], sep, behind);
      assert rest == [sep, rest[1]] + rest[2..];
      assert pending + [sep] + ([rest[1]] + Kept(rest[2..], sep, behind)) ==
             pending + ([sep, rest[1]] + Kept(rest[2..], sep, behind));
    }
  }

  // The string, without its last character if that was found to be a separator.
  function Kept(rest: Bytes, sep: u8, behind: (u8, u8)): Bytes {
    if !EndsSplit(rest, sep) then rest
    else if behind.1 == sep then rest + [behind.0]
    else rest[..|rest| - 1]
  }

  lemma JoinCons(part: Bytes, parts: seq<Bytes>, sep: u8)
    requires |parts| > 0
    ensures Join([part] + parts, sep) == part + [sep] + Join(parts, sep)
  {
    assert ([part] + parts)[1..] == parts;
  }

  lemma KeptCons(first: Bytes, rest: Bytes, sep: u8, behind: (u8, u8))
    requires EndsSplit(first + rest, sep) == EndsSplit(rest, sep)
    ensures Kept(first + rest, sep, behind) == first + Kept(rest, sep, behind)
  {
    if EndsSplit(rest, sep) {
      assert first + rest + [behind.0] == first + (rest + [behind.0]);
      assert (first + rest)[..|first + rest| - 1] == first + rest[..|rest| - 1];
    }
  }

  lemma {:induction false} FirstPartGrows(pending: Bytes, rest: Bytes, sep: u8, behind: (u8, u8))
    ensures pending <= SplitRest(pending, rest, sep, behind)[0]
    decreases |rest|
  {
    if rest != [] && rest[0] != sep {
      FirstPartGrows(pending + [rest[0]], rest[1..], sep, behind);
    }
  }

  lemma LastIsSeparator(s: Bytes, sep: u8)
    requires EndsSplit(s, sep)
    ensures s != [] && s[|s| - 1] == sep
  {
    EndsSplitIff(s, sep);
  }

  // A string survives being cut and merged exactly when it is empty, or does not
  // start with a separator and ends with an even number of them.
  predicate Survives(s: Bytes, sep: u8) {
    s == [] || (s[0] != sep && TrailingRun(s, sep) % 2 == 0)
  }

  lemma TextSurvivesIff(s: Bytes, sep: u8, behind: (u8, u8))
    requires behind.0 != sep
    ensures MergeAll([], Split(s, sep, behind), sep) == s <==> Survives(s, sep)
  {
    hide TrailingRun, EndsSplit, SplitRest, MergeAll, Join;
    if s == [] {
      EmptyText(sep, behind);
    } else if s[0] != sep {
      PlainText(s, sep, behind);
      EndsSplitIff(s, sep);
      if EndsSplit(s, sep) {
        LastIsSeparator(s, sep);
      }
    } else {
      LeadingSeparator(s, sep, behind);
    }
  }

  lemma EmptyText(sep: u8, behind: (u8, u8))
    ensures MergeAll([], Split([], sep, behind), sep) == []
  {
    MergedIs([[]], sep);
  }

  lemma PlainText(s: Bytes, sep: u8, behind: (u8, u8))
    requires s != [] && s[0] != sep
    ensures MergeAll([], Split(s, sep, behind), sep) == Kept(s, sep, behind)
  {
    hide MergeAll, Join, Kept;
    var parts := Split(s, sep, behind);
    assert [] + [s[0]] == [s[0]];
    FirstPartGrows([s[0]], s[1..], sep, behind);
    assert parts[0] != [];
    MergedIs(parts, sep);
    SplitJoins([], s, sep, behind);
  }

  lemma LeadingSeparator(s: Bytes, sep: u8, behind: (u8, u8))
    requires s != [] && s[0] == sep && behind.0 != sep
    ensures MergeAll([], Split(s, sep, behind), sep) != s
  {
    hide MergeAll, Join;
    var parts := Split(s, sep, behind);
    MergedIs(parts, sep);
    if |s| == 1 {
      assert parts == [[]] + if behind.1 == sep then [[behind.0]] else [];
      if behind.1 == sep {
        assert parts[1..] == [[behind.0]];
        MergedIs([[behind.0]], sep);
        SingleJoin([behind.0], sep);
      } else {
        assert parts == [[]];
        SingleJoin([], sep);
      }
    } else {
      var tail := SplitRest([s[1]], s[2..], sep, behind);
      assert parts == [[]] + tail && parts[1..] == tail;
      FirstPartGrows([s[1]], s[2..], sep, behind);
      MergedIs(tail, sep);
      SplitJoins([s[1]], s[2..], sep, behind);
      if EndsSplit(s[2..], sep) {
        LastIsSeparator(s[2..], sep);
      }
    }
  }

  lemma SingleJoin(part: Bytes, sep: u8)
    ensures Join([part], sep) == part
  {
  }

  lemma {:induction false} PartsShort(pending: Bytes, rest: Bytes, sep: u8, behind: (u8, u8), i: nat)
    requires i < |SplitRest(pending, rest, sep, behind)|
    ensures |SplitRest(pending, rest, sep, behind)[i]| <= |pending| + |rest|
    decreases |rest|
  {
    if rest == [] {
    } else if rest[0] != sep {
      PartsShort(pending + [rest[0]], rest[1..], sep, behind, i);
    } else if |rest| > 1 && i > 0 {
      PartsShort([rest[1]], rest[2..], sep, behind, i - 1);
    }
  }
}

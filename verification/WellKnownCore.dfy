// The /.well-known/core handler: a window of the link-format description of all
// resources, produced without building the description.
module WellKnownCore {
  import opened Common

  datatype Resource = Resource(url: string, attributes: string)

  // size_t is 16 bits wide
  const SIZE_LIMIT := 0x1_0000

  // ----- the description -----

  // An entry up to its path, and what follows the path.
  function Path(r: Resource, first: bool): string {
    (if first then "" else ",") + "<" + "/" + r.url
  }

  function Attributes(r: Resource): (s: string)
    ensures |s| > 0
  {
    ">" + if r.attributes == "" then "" else ";" + r.attributes
  }

  function Entry(r: Resource, first: bool): (s: string)
    ensures |s| >= 3
  {
    Path(r, first) + Attributes(r)
  }

  function Description(resources: seq<Resource>): string {
    if resources == [] then ""
    else
      var n := |resources| - 1;
      Description(resources[..n]) + Entry(resources[n], n == 0)
  }

  // One link: the path in angle brackets, and behind a semicolon the attributes, if any.
  function Link(r: Resource): string {
    "</" + r.url + ">" + if r.attributes == "" then "" else ";" + r.attributes
  }

  function Links(resources: seq<Resource>): string {
    if resources == [] then ""
    else if |resources| == 1 then Link(resources[0])
    else Link(resources[0]) + "," + Links(resources[1..])
  }

  lemma {:induction false} LinksSnoc(resources: seq<Resource>, r: Resource)
    requires resources != []
    ensures Links(resources + [r]) == Links(resources) + "," + Link(r)
    decreases |resources|
  {
    hide Link;
    if |resources| == 1 {
      assert resources + [r] == [resources[0], r] && [resources[0], r][1..] == [r];
    } else {
      assert (resources + [r])[1..] == resources[1..] + [r];
      LinksSnoc(resources[1..], r);
    }
  }

  // The description is the links of all resources, in order, with commas between them.
  lemma {:induction false} DescriptionIs(resources: seq<Resource>)
    ensures Description(resources) == Links(resources)
  {
    if |resources| == 1 {
      EntryIs(resources[0]);
      assert Description(resources[..0]) == "";
    } else if resources != [] {
      var n := |resources| - 1;
      DescriptionIs(resources[..n]);
      EntryIs(resources[n]);
      LinksSnoc(resources[..n], resources[n]);
      assert resources == resources[..n] + [resources[n]];
      hide Links, Link, Entry;
      Regroup(Links(resources[..n]), ",", Link(resources[n]));
    }
  }

  lemma Regroup(a: string, b: string, c: string)
    ensures (a + b) + c == a + (b + c)
  {
  }

  lemma EntryIs(r: Resource)
    ensures Entry(r, true) == Link(r) && Entry(r, false) == "," + Link(r)
  {
  }

  // At most size characters from offset on.
  function Window(text: string, offset: nat, size: nat): (w: string)
    ensures |w| <= size
  {
    if offset >= |text| then "" else text[offset..Common.Min(offset + size, |text|)]
  }

  lemma {:induction false} DescriptionGrows(resources: seq<Resource>, i: nat)
    requires i <= |resources|
    ensures Description(resources[..i]) <= Description(resources)
    ensures i < |resources| ==> Description(resources[..i]) + Entry(resources[i], i == 0) <= Description(resources)
    ensures Description(resources[..i]) == "" <==> i == 0
    decreases |resources|
  {
    if i == |resources| {
      assert resources[..i] == resources;
    } else {
      var before := resources[..|resources| - 1];
      if i < |before| {
        assert before[..i] == resources[..i];
        DescriptionGrows(before, i);
      } else {
        assert before == resources[..i];
        DescriptionGrows(before, i);
      }
    }
  }

  // The window of a text is decided by any beginning that is long enough.
  lemma WindowOfPrefix(text: string, whole: string, offset: nat, size: nat)
    requires text <= whole && |text| >= offset + size
    ensures Window(text, offset, size) == Window(whole, offset, size)
  {
  }

  // ----- the handler -----

  // After the characters of text have been offered, the buffer holds their window.
  ghost predicate Holds(buffer: array<char>, text: string, offset: nat, size: nat, bufpos: nat)
    reads buffer
  {
    var n := Common.Min(bufpos, size);
    n <= buffer.Length && buffer[..n] == Window(text, offset, size)
  }

  lemma WindowAddChar(text: string, c: char, offset: nat, size: nat)
    ensures Window(text + [c], offset, size) ==
              if |text| >= offset && |Window(text, offset, size)| < size then Window(text, offset, size) + [c]
              else Window(text, offset, size)
  {
  }

  method AddChar(buffer: array<char>, size: nat, offset: nat, strpos: nat, bufpos: nat, c: char, ghost text: string)
    returns (newStrpos: nat, newBufpos: nat)
    requires size < buffer.Length && bufpos <= size && strpos == |text| && Holds(buffer, text, offset, size, bufpos)
    modifies buffer
    ensures newStrpos == |text + [c]| && newBufpos <= size && Holds(buffer, text + [c], offset, size, newBufpos)
  {
    WindowAddChar(text, c, offset, size);
    newStrpos, newBufpos := strpos, bufpos;
    if strpos >= offset && bufpos < size {
      buffer[newBufpos] := c;
      newBufpos := newBufpos + 1;
    }
    newStrpos := newStrpos + 1;
  }

  // snprintf with format %s: at most room - 1 characters and a terminator are
  // written; the result is the full length.
  method Print(buffer: array<char>, at: nat, room: nat, s: string) returns (length: nat)
    requires room > 0 && at + room <= buffer.Length
    modifies buffer
    ensures length == |s| &&
            buffer[..at + Common.Min(|s|, room - 1)] == old(buffer[..at]) + s[..Common.Min(|s|, room - 1)]
  {
    var i := 0;
    while i < |s| && i < room - 1
      invariant 0 <= i <= |s| && i <= room - 1
      invariant buffer[..at + i] == old(buffer[..at]) + s[..i]
    {
      buffer[at + i] := s[i];
      i := i + 1;
    }
    buffer[at + i] := '\0';
    return |s|;
  }

  lemma WindowAddString(text: string, s: string, offset: nat, size: nat)
    ensures |text + s| <= offset ==> Window(text + s, offset, size) == "" == Window(text, offset, size)
    ensures |text + s| > offset ==>
              var skip := Common.Max(offset - |text|, 0);
              var w := Window(text, offset, size);
              && skip <= |s| && |w| <= size
              && Window(text + s, offset, size) == w + s[skip..][..Common.Min(|s| - skip, size - |w|)]
  {
  }

  // The string macro without its break: newBufpos is at least size exactly when the
  // text now fills the window, and more than size exactly when it goes beyond it.
  method AddString(buffer: array<char>, size: nat, offset: nat, strpos: nat, bufpos: nat, s: string, ghost text: string)
    returns (newBufpos: nat)
    requires 0 < size < buffer.Length && bufpos <= size && strpos == |text| && Holds(buffer, text, offset, size, bufpos)
    modifies buffer
    ensures Holds(buffer, text + s, offset, size, newBufpos)
    ensures newBufpos >= size <==> |text + s| >= offset + size
    ensures newBufpos > size <==> |text + s| > offset + size && s != ""
  {
    WindowAddString(text, s, offset, size);
    newBufpos := bufpos;
    if strpos + |s| > offset {
      var skip := if offset > strpos then offset - strpos else 0;
      var n := Print(buffer, bufpos, size - bufpos + 1, s[skip..]);
      newBufpos := newBufpos + n;
    }
  }

  // Up to the path; strpos does not count the path yet.
  method AddPath(r: Resource, buffer: array<char>, size: nat, offset: nat, strpos0: nat, bufpos0: nat, first: bool,
                 ghost before: string)
    returns (strpos: nat, bufpos: nat)
    requires 0 < size < buffer.Length && bufpos0 <= size && strpos0 == |before| && (first <==> before == "")
    requires Holds(buffer, before, offset, size, bufpos0)
    modifies buffer
    ensures Holds(buffer, before + Path(r, first), offset, size, bufpos)
    ensures bufpos >= size <==> |before + Path(r, first)| >= offset + size
    ensures strpos == |before + Path(r, first)| - |r.url|
  {
    hide Holds;
    strpos, bufpos := strpos0, bufpos0;
    ghost var text := before;
    if strpos > 0 {
      strpos, bufpos := AddChar(buffer, size, offset, strpos, bufpos, ',', text);
      text := text + ",";
    }
    assert text == before + if first then "" else ",";
    strpos, bufpos := AddChar(buffer, size, offset, strpos, bufpos, '<', text);
    strpos, bufpos := AddChar(buffer, size, offset, strpos, bufpos, '/', text + "<");
    bufpos := AddString(buffer, size, offset, strpos, bufpos, r.url, text + "<" + "/");
    assert text + "<" + "/" + r.url == before + Path(r, first);
  }

  // Behind the path; bufpos > size: the loop is left with the attributes unfinished.
  method AddAttributes(r: Resource, buffer: array<char>, size: nat, offset: nat, strpos0: nat, bufpos0: nat,
                       ghost before: string)
    returns (strpos: nat, bufpos: nat)
    requires bufpos0 < size < buffer.Length && strpos0 == |before| < offset + size &&
             Holds(buffer, before, offset, size, bufpos0)
    modifies buffer
    ensures Holds(buffer, before + Attributes(r), offset, size, bufpos)
    ensures bufpos > size <==> |before + Attributes(r)| > offset + size
    ensures bufpos <= size ==> strpos == |before + Attributes(r)|
  {
    hide Holds;
    strpos, bufpos := AddChar(buffer, size, offset, strpos0, bufpos0, '>', before);
    if r.attributes != "" {
      strpos, bufpos := AddChar(buffer, size, offset, strpos, bufpos, ';', before + ">");
      bufpos := AddString(buffer, size, offset, strpos, bufpos, r.attributes, before + ">" + ";");
      assert before + ">" + ";" + r.attributes == before + Attributes(r);
      if bufpos > size {
        return;
      }
      strpos := strpos + |r.attributes|;
    } else {
      assert before + ">" == before + Attributes(r);
    }
  }

  lemma HoldsMore(buffer: array<char>, text: string, whole: string, offset: nat, size: nat, bufpos: nat)
    requires text <= whole && |text| >= offset + size && Holds(buffer, text, offset, size, bufpos)
    ensures Holds(buffer, whole, offset, size, bufpos)
  {
    WindowOfPrefix(text, whole, offset, size);
  }

  // One turn of the loop; full: it is left early, the window being full and more text
  // to come.
  method AddEntry(r: Resource, buffer: array<char>, size: nat, offset: nat, strpos0: nat, bufpos0: nat, first: bool,
                  ghost before: string)
    returns (full: bool, strpos: nat, bufpos: nat)
    requires 0 < size < buffer.Length && bufpos0 <= size && strpos0 == |before| && (first <==> before == "")
    requires Holds(buffer, before, offset, size, bufpos0)
    modifies buffer
    ensures Holds(buffer, before + Entry(r, first), offset, size, bufpos)
    ensures full <==> |before + Entry(r, first)| > offset + size
    ensures full ==> bufpos >= size
    ensures !full ==> strpos == |before + Entry(r, first)| && bufpos <= size
  {
    hide Path, Attributes, Holds;
    ghost var text, whole := before + Path(r, first), before + Entry(r, first);
    assert whole == text + Attributes(r);
    strpos, bufpos := AddPath(r, buffer, size, offset, strpos0, bufpos0, first, before);
    if bufpos >= size {
      HoldsMore(buffer, text, whole, offset, size, bufpos);
      return true, strpos, bufpos;
    }
    strpos := strpos + |r.url|;
    strpos, bufpos := AddAttributes(r, buffer, size, offset, strpos, bufpos, text);
    // The test for a full buffer behind the attributes cannot succeed any more.
    return bufpos > size, strpos, bufpos;
  }

  lemma SomethingHeld(buffer: array<char>, text: string, offset: nat, size: nat, bufpos: nat)
    requires size > 0 && Holds(buffer, text, offset, size, bufpos)
    ensures bufpos > 0 <==> offset < |text|
  {
    assert |buffer[..Common.Min(bufpos, size)]| == |Window(text, offset, size)|;
  }

  datatype Outcome = Payload(length: nat) | BadOption | Nothing

  // next: the new offset; None: -1, there is no more.
  method GetHandler(resources: seq<Resource>, buffer: array<char>, size: nat, offset: nat)
    returns (outcome: Outcome, next: Option<nat>)
    requires 0 < size < buffer.Length && |Description(resources)| < SIZE_LIMIT
    modifies buffer
    ensures var text := Description(resources);
            && next == (if |text| <= offset + size then None else Some(offset + size))
            && (outcome.Payload? <==> offset < |text|)
            && (outcome.Payload? ==> outcome.length > 0 && Holds(buffer, text, offset, size, outcome.length))
            && (outcome.BadOption? <==> text != "" && |text| <= offset)
  {
    ghost var text := Description(resources);
    var strpos, bufpos: nat := 0, 0;
    assert resources[..0] == [] && Holds(buffer, "", offset, size, 0);
    var i := 0;
    hide Holds, Entry, Window;
    while i < |resources|
      invariant 0 <= i <= |resources| && strpos == |Description(resources[..i])|
      invariant bufpos <= size && Holds(buffer, Description(resources[..i]), offset, size, bufpos)
      invariant strpos <= offset + size
    {
      ghost var before := Description(resources[..i]);
      DescriptionGrows(resources, i);
      assert resources[..i + 1][..i] == resources[..i];
      var full;
      full, strpos, bufpos := AddEntry(resources[i], buffer, size, offset, strpos, bufpos, i == 0, before);
      if full {
        HoldsMore(buffer, before + Entry(resources[i], i == 0), text, offset, size, bufpos);
        break;
      }
      i := i + 1;
    }
    assert i == |resources| ==> resources[..i] == resources;
    SomethingHeld(buffer, text, offset, size, bufpos);
    if bufpos > 0 {
      outcome := Payload(bufpos);
    } else if strpos > 0 {
      outcome := BadOption;
    } else {
      outcome := Nothing;
    }
    next := if i == |resources| then None else Some(offset + size);
  }

  // ----- fetching the whole description -----

  lemma WindowsJoin(text: string, offset: nat, size: nat)
    requires offset <= |text|
    ensures text[..offset] + Window(text, offset, size) == text[..Common.Min(offset + size, |text|)]
  {
  }

  // Asking again with the returned offset until there is no more yields the whole
  // description.
  method Fetch(resources: seq<Resource>, buffer: array<char>, size: nat) returns (all: string)
    requires 0 < size < buffer.Length && |Description(resources)| < SIZE_LIMIT
    modifies buffer
    ensures all == Description(resources)
  {
    hide Description;
    ghost var text := Description(resources);
    all := "";
    var offset := Some(0);
    while offset.Some?
      invariant offset.Some? ==> offset.value <= |text| && all == text[..offset.value]
      invariant offset.None? ==> all == text
      decreases if offset.Some? then |text| + 1 - offset.value else 0
    {
      WindowsJoin(text, offset.value, size);
      var outcome;
      var at := offset.value;
      outcome, offset := GetHandler(resources, buffer, size, at);
      if outcome.Payload? {
        all := all + buffer[..Common.Min(outcome.length, size)];
      } else {
        assert Window(text, at, size) == "";
      }
    }
  }
}

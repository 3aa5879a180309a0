// Deluge: nodes gossip a paged image by summaries, profiles, requests and packets.
module Deluge {
  import opened Common

  const S_PKT := 64
  const N_PKT := 4
  const S_PAGE := 256
  const CONST_K := 1
  const CONST_LAMBDA := 2

  // Bytes of each kind of message; a profile's come before its version vector.
  const SUMMARY_SIZE := 4
  const REQUEST_SIZE := 5
  const PACKET_SIZE := 72  // 71 bytes, padded to the alignment of the CRC
  const PROFILE_HEADER := 4
  const PACKET_BUFFER := 128  // a longer message is cut off when it is handed to the link

  type Bytes = seq<u8>

  // Bit sets are modelled by the set of their bit positions.
  type Bits = set<nat>
  const ALL_PACKETS: Bits := {0, 1, 2, 3}
  const BYTE_BITS: Bits := {0, 1, 2, 3, 4, 5, 6, 7}

  datatype Page = Page(version: u8, packetSet: Bits, complete: bool)

  datatype Mode = Maintain | Rx | Tx

  // With the addresses the link layer carries: the sender of a summary, the only
  // receiver of a request.
  datatype Msg =
    | Summary(sender: nat, version: u8, highest: u8)
    | Request(dest: Option<nat>, version: u8, page: u8, set_: Bits)
    | Packet(version: u8, page: u8, num: u8, crc: u16, payload: Bytes)
    | Profile(version: u8, vector: seq<u8>)

  datatype Node = Node(
    version: u8,
    updateVersion: u8,
    pages: seq<Page>,
    rxPage: u8,
    txPage: s8,
    txSet: Bits,
    nrequests: nat,
    buffer: Bytes,           // current_page, the page being received
    file: seq<Bytes>,        // the stored image, page by page
    mode: Mode,
    rxTimer: bool,           // armed
    txTimer: bool,
    summaryFrom: Option<nat>,  // whom to ask; no address at first
    recvAdv: nat,
    broadcastProfile: bool,
    inconsistent: bool)

  // The steps of crc16_data on the word a byte has been added to.
  function AddedTo(b: u8, acc: u16): bv16 {
    (acc as bv16) ^ (b as bv16)
  }

  function Swap(a: bv16): bv16 {
    (a >> 8) | (a << 8)
  }

  function Fold(a: bv16): bv16 {
    a ^ ((a & 0xff00) << 4)
  }

  function Spread(a: bv16): bv16 {
    a ^ ((a >> 8) >> 4)
  }

  function Tail(a: bv16): bv16 {
    a ^ ((a & 0xff00) >> 5)
  }

  function Swirl(a: bv16): bv16 {
    Tail(Spread(Fold(Swap(a))))
  }

  // crc16_data, folded over the bytes from the accumulator acc.
  function Crc16Add(b: u8, acc: u16): u16 {
    Swirl(AddedTo(b, acc)) as int
  }

  function PayloadCrc(data: Bytes, acc: u16): u16 {
    if data == [] then acc else PayloadCrc(data[1..], Crc16Add(data[0], acc))
  }

  function ToS8(x: u8): s8 {
    if x < 128 then x else x - 256
  }

  predicate Complete(pages: seq<Page>, n: nat)
    requires n <= |pages|
  {
    forall i :: 0 <= i < n ==> pages[i].complete
  }

  // highest_available_page: the length of the complete prefix.
  function Highest(pages: seq<Page>): (h: nat)
    ensures h <= |pages|
    ensures Complete(pages, h)
    ensures h < |pages| ==> !pages[h].complete
  {
    if pages == [] || !pages[0].complete then 0
    else
      var t := Highest(pages[1..]);
      assert forall i :: 1 <= i <= t ==> pages[i] == pages[1..][i - 1];
      1 + t
  }

  // Nothing about the image, stored or being received, differs.
  predicate SameImage(n: Node, t: Node) {
    && t.version == n.version && t.updateVersion == n.updateVersion && t.pages == n.pages
    && t.rxPage == n.rxPage && t.buffer == n.buffer && t.file == n.file
  }

  // transition: leaving a state stops that state's timer.
  function Transition(n: Node, mode: Mode): (t: Node)
    ensures SameImage(n, t)
  {
    if mode == n.mode then n
    else n.(mode := mode,
            rxTimer := n.rxTimer && !n.mode.Rx?,
            txTimer := n.txTimer && !n.mode.Tx?)
  }

  predicate Shape(n: Node, npages: nat) {
    && 0 < npages <= 255
    && |n.pages| == |n.file| == npages
    && |n.buffer| == S_PAGE
    && forall p :: 0 <= p < npages ==> |n.file[p]| == S_PAGE
  }

  predicate WellFormed(m: Msg, npages: nat) {
    match m
    case Summary(_, _, _) => true
    case Request(_, _, page, _) => true
    case Packet(_, page, num, _, payload) => page < npages && num < N_PKT && |payload| == S_PKT
    case Profile(_, vector) => |vector| == npages
  }

  function Slice(page: Bytes, k: nat): Bytes
    requires |page| == S_PAGE && k < N_PKT
  {
    page[S_PKT * k..S_PKT * (k + 1)]
  }

  function Patch(page: Bytes, k: nat, payload: Bytes): (r: Bytes)
    requires |page| == S_PAGE && k < N_PKT && |payload| == S_PKT
    ensures |r| == S_PAGE && Slice(r, k) == payload
    ensures forall i :: 0 <= i < N_PKT && i != k ==> Slice(r, i) == Slice(page, i)
  {
    page[..S_PKT * k] + payload + page[S_PKT * (k + 1)..]
  }

  // ----- the handlers, as functions of the node -----

  // `hushed` stands for the test that this node or a neighbour has asked for or
  // received data too recently.
  function HandleSummary(n: Node, m: Msg, hushed: bool): (t: Node)
    requires m.Summary?
    ensures SameImage(n, t)
  {
    var n1 := Compare(n, m);
    if m.version == n.updateVersion && Highest(n.pages) < m.highest <= |n.pages| && !hushed then
      Transition(n1.(summaryFrom := Some(m.sender)), Rx).(rxTimer := true)
    else n1
  }

  // The bookkeeping of handle_summary: count agreement, note disagreement.
  function Compare(n: Node, m: Msg): (t: Node)
    requires m.Summary?
    ensures SameImage(n, t)
  {
    var n1 := if m.version != n.version || m.highest != Highest(n.pages) then n.(inconsistent := true)
              else n.(recvAdv := n.recvAdv + 1);
    if m.version < n.version then n1.(broadcastProfile := true) else n1
  }

  function HandleRequest(n: Node, m: Msg): (t: Node)
    requires m.Request?
    ensures SameImage(n, t)
  {
    if m.page >= |n.pages| then n
    else if m.version != n.version then n.(inconsistent := true)
    else if m.page > Highest(n.pages) then n
    else
      var n1 := if m.page == n.txPage then n.(txSet := n.txSet + m.set_)
                else n.(txPage := ToS8(m.page), txSet := m.set_);
      Transition(n1, Tx).(txTimer := true)
  }

  // A packet of another version is noted.
  function Noted(n: Node, m: Msg): (t: Node)
    requires m.Packet?
    ensures SameImage(n, t)
  {
    if m.version != n.version then n.(inconsistent := true) else n
  }

  function HandlePacket(n: Node, m: Msg): (t: Node)
    requires m.Packet? && Shape(n, |n.pages|) && WellFormed(m, |n.pages|)
    ensures |t.pages| == |n.pages| && Shape(t, |n.pages|)
  {
    if m.page != n.rxPage then n
    else if m.version != n.pages[m.page].version || n.pages[m.page].complete then Noted(n, m)
    else StorePacket(Noted(n, m), m)
  }

  // The part of handle_packet behind its version test.
  function StorePacket(n: Node, m: Msg): (t: Node)
    requires m.Packet? && Shape(n, |n.pages|) && WellFormed(m, |n.pages|)
    ensures |t.pages| == |n.pages| && Shape(t, |n.pages|)
  {
    var n1 := n.(buffer := Patch(n.buffer, m.num, m.payload));
    if m.crc != PayloadCrc(m.payload, 0) then n1 else CountPacket(n1, m.page, m.num)
  }

  function CountPacket(n: Node, p: nat, k: nat): (t: Node)
    requires Shape(n, |n.pages|) && p < |n.pages|
    ensures |t.pages| == |n.pages| && Shape(t, |n.pages|)
  {
    var got := n.pages[p].packetSet + {k};
    if got != ALL_PACKETS then n.(pages := n.pages[p := n.pages[p].(packetSet := got)])
    else PageDone(n, p)
  }

  // The last packet of page p has arrived: store the page and move on.
  function PageDone(n: Node, p: nat): (t: Node)
    requires Shape(n, |n.pages|) && p < |n.pages|
    ensures |t.pages| == |n.pages| && Shape(t, |n.pages|)
  {
    var n1 := n.(pages := n.pages[p := Page(n.pages[p].version, ALL_PACKETS, true)],
                 file := n.file[p := n.buffer],
                 rxPage := ToU8(p + 1));
    var n2 := if p == |n.pages| - 1 then n1.(version := n.updateVersion)
              else if n1.rxPage < |n.pages| then n1.(rxTimer := true)
              else n1;
    Transition(n2, Maintain)
  }

  function Renew(page: Page, version: u8): Page {
    if version > page.version then Page(version, {}, false) else page
  }

  function RenewAll(pages: seq<Page>, vector: seq<u8>): (r: seq<Page>)
    requires |pages| == |vector|
    ensures |r| == |pages| && forall i :: 0 <= i < |r| ==> r[i] == Renew(pages[i], vector[i])
  {
    seq(|pages|, i requires 0 <= i < |pages| => Renew(pages[i], vector[i]))
  }

  function HandleProfile(n: Node, m: Msg): Node
    requires m.Profile? && |m.vector| == |n.pages| <= 255
  {
    if m.version <= n.updateVersion then n
    else
      var pages := RenewAll(n.pages, m.vector);
      var n1 := n.(txSet := {}, pages := pages, rxPage := Highest(pages), updateVersion := m.version);
      Transition(n1, Rx).(rxTimer := true)
  }

  // The bytes a message is sent as.
  function SizeOf(m: Msg): nat {
    match m
    case Summary(_, _, _) => SUMMARY_SIZE
    case Request(_, _, _, _) => REQUEST_SIZE
    case Packet(_, _, _, _, _) => PACKET_SIZE
    case Profile(_, vector) => PROFILE_HEADER + |vector|
  }

  // command_dispatcher's length tests for a message received with `len` bytes.
  predicate LengthAccepted(m: Msg, len: nat) {
    match m
    case Summary(_, _, _) => len >= SUMMARY_SIZE
    case Request(_, _, _, _) => len >= REQUEST_SIZE
    case Packet(_, _, _, _, _) => len >= PACKET_SIZE
    case Profile(_, vector) => len >= PROFILE_HEADER && vector != [] && len >= PROFILE_HEADER + |vector| * vector[0]
  }

  // The rx timer fires: ask for the missing packets of the current page.
  function RequestFor(n: Node): Msg
    requires n.rxPage < |n.pages|
  {
    Request(n.summaryFrom, n.pages[n.rxPage].version, n.rxPage, BYTE_BITS - n.pages[n.rxPage].packetSet)
  }

  function AfterRequest(n: Node): Node {
    if n.nrequests + 1 == CONST_LAMBDA then Transition(n.(nrequests := 0, rxTimer := false), Maintain)
    else n.(nrequests := n.nrequests + 1, rxTimer := true)
  }

  // send_page: the packets of page p named in the transmit set.
  function PacketOf(n: Node, p: nat, k: nat): Msg
    requires Shape(n, |n.pages|) && p < |n.pages| && k < N_PKT
  {
    Packet(n.pages[p].version, p, k, PayloadCrc(Slice(n.file[p], k), 0), Slice(n.file[p], k))
  }

  function PagePackets(n: Node, p: nat): set<Msg>
    requires Shape(n, |n.pages|) && p < |n.pages|
  {
    set k: nat | k < N_PKT && k in n.txSet :: PacketOf(n, p, k)
  }

  function TxPackets(n: Node): set<Msg>
    requires Shape(n, |n.pages|) && n.txPage < |n.pages|
  {
    if n.txPage >= 0 && n.txSet != {} then PagePackets(n, n.txPage) else {}
  }

  function AfterTx(n: Node): Node {
    if n.txPage >= 0 && n.txSet != {} then
      Transition(n.(txTimer := false, txSet := {}, txPage := -1), Maintain)
    else n.(txTimer := false)
  }

  // The summary of node i.
  function SummaryOf(n: Node, i: nat): Msg
    requires |n.pages| <= 255
  {
    Summary(i, n.updateVersion, Highest(n.pages))
  }

  function ProfileOf(n: Node): Msg {
    Profile(n.version, seq(|n.pages|, i requires 0 <= i < |n.pages| => n.pages[i].version))
  }

  // A new round of the main loop.
  function NewRound(n: Node): Node {
    n.(inconsistent := false, recvAdv := 0)
  }

  // command_dispatcher, for a message received with `len` bytes.
  function Receive(n: Node, m: Msg, len: nat, hushed: bool): Node
    requires Shape(n, |n.pages|) && WellFormed(m, |n.pages|)
  {
    if !LengthAccepted(m, len) then n
    else
      match m
      case Summary(_, _, _) => HandleSummary(n, m, hushed)
      case Request(_, _, _, _) => HandleRequest(n, m)
      case Packet(_, _, _, _, _) => HandlePacket(n, m)
      case Profile(_, _) => HandleProfile(n, m)
  }

  // ----- the network -----

  // Messages are never removed, so they may be lost, duplicated and reordered.
  datatype System = System(nodes: seq<Node>, net: set<Msg>)

  datatype Step =
    | Deliver(i: nat, m: Msg, len: nat, hushed: bool)
    | RxFires(i: nat)
    | TxFires(i: nat)
    | Advertise(i: nat)
    | SendProfile(i: nat)
    | Round(i: nat)

  ghost predicate Sane(s: System, npages: nat) {
    && (forall i :: 0 <= i < |s.nodes| ==> Shape(s.nodes[i], npages) && s.nodes[i].txPage < npages)
    && forall m :: m in s.net ==> WellFormed(m, npages)
  }

  predicate Enabled(s: System, step: Step) {
    && step.i < |s.nodes|
    && var n := s.nodes[step.i];
       match step
       case Deliver(i, m, _, _) => m in s.net && (m.Request? ==> m.dest == Some(i))
       case RxFires(_) => n.rxTimer && n.rxPage < |n.pages|
       case TxFires(_) => n.txTimer
       case Advertise(_) => n.recvAdv < CONST_K
       case SendProfile(_) => n.broadcastProfile && n.recvAdv < CONST_K
       case Round(_) => true
  }

  // The node a step leaves behind and the messages it sends.
  ghost function Act(s: System, step: Step, npages: nat): (Node, set<Msg>)
    requires Sane(s, npages) && Enabled(s, step)
  {
    var n := s.nodes[step.i];
    match step
    case Deliver(_, m, len, hushed) => (Receive(n, m, len, hushed), {})
    case RxFires(_) => (AfterRequest(n), {RequestFor(n)})
    case TxFires(_) => (AfterTx(n), TxPackets(n))
    case Advertise(i) => (n, {SummaryOf(n, i)})
    case SendProfile(_) => (n.(broadcastProfile := false), {ProfileOf(n)})
    case Round(_) => (NewRound(n), {})
  }

  ghost function Apply(s: System, step: Step, npages: nat): System
    requires Sane(s, npages) && Enabled(s, step)
  {
    var (n, sent) := Act(s, step, npages);
    System(s.nodes[step.i := n], s.net + sent)
  }

  // ----- one upgrade -----

  datatype Upgrade = Upgrade(image: seq<Bytes>, from: u8, to: u8)

  ghost predicate ValidUpgrade(u: Upgrade) {
    && 0 < |u.image| <= 255
    && (forall p :: 0 <= p < |u.image| ==> |u.image[p]| == S_PAGE)
    && u.from < u.to
  }

  // init_object: a node started with a complete file of some version.
  ghost predicate Started(n: Node, u: Upgrade) {
    && Shape(n, |u.image|)
    && (n.version == u.from || (n.version == u.to && n.file == u.image))
    && n.updateVersion == n.version
    && (forall p :: 0 <= p < |n.pages| ==> n.pages[p] == Page(n.version, ALL_PACKETS, true))
    && n.rxPage == 0 && n.txPage == 0 && n.txSet == {} && n.nrequests == 0
    && n.mode == Maintain && !n.rxTimer && !n.txTimer && n.summaryFrom.None?
  }

  function Fresh0(version: u8, file: seq<Bytes>): Node {
    Node(version, version, seq(|file|, i => Page(version, ALL_PACKETS, true)), 0, 0, {}, 0,
         seq(S_PAGE, i => 0), file, Maintain, false, false, None, 0, false, false)
  }

  ghost predicate Init(s: System, u: Upgrade) {
    (forall i :: 0 <= i < |s.nodes| ==> Started(s.nodes[i], u)) && s.net == {}
  }

  // ----- the invariant -----

  // Every received packet of the page in progress is the image's.
  ghost predicate BufferOk(n: Node, u: Upgrade)
    requires ValidUpgrade(u) && Shape(n, |u.image|) && n.rxPage < |u.image|
  {
    forall k :: k in n.pages[n.rxPage].packetSet ==> k < N_PKT && Slice(n.buffer, k) == Slice(u.image[n.rxPage], k)
  }

  ghost predicate Idle(n: Node, u: Upgrade) {
    && n.version == n.updateVersion == u.from
    && (forall p :: 0 <= p < |n.pages| ==> n.pages[p].complete && n.pages[p].version == u.from)
    && !n.rxTimer && n.txSet == {}
  }

  ghost predicate Upgrading(n: Node, u: Upgrade)
    requires ValidUpgrade(u) && Shape(n, |u.image|)
  {
    && n.version == u.from && n.updateVersion == u.to
    && n.rxPage < |u.image|
    && (forall p :: 0 <= p < |n.pages| ==> n.pages[p].version == u.to && (n.pages[p].complete <==> p < n.rxPage))
    && (forall p :: n.rxPage < p < |n.pages| ==> n.pages[p].packetSet == {})
    && n.pages[n.rxPage].packetSet != ALL_PACKETS
    && (forall p :: 0 <= p < n.rxPage ==> n.file[p] == u.image[p])
    && BufferOk(n, u)
    && n.txSet == {}
  }

  ghost predicate Done(n: Node, u: Upgrade) {
    && n.version == n.updateVersion == u.to
    && (forall p :: 0 <= p < |n.pages| ==> n.pages[p].complete && n.pages[p].version == u.to)
    && n.file == u.image
    && (n.rxTimer ==> n.rxPage == |n.pages|)
  }

  ghost predicate NodeInv(n: Node, u: Upgrade)
    requires ValidUpgrade(u)
  {
    && Shape(n, |u.image|)
    && n.txPage < |u.image|
    && (Idle(n, u) || Upgrading(n, u) || Done(n, u))
  }

  ghost predicate MsgInv(m: Msg, u: Upgrade)
    requires ValidUpgrade(u)
  {
    && WellFormed(m, |u.image|)
    && match m
       case Summary(_, _, _) => true
       case Request(_, version, _, _) => version == u.to
       case Packet(version, page, num, crc, payload) =>
         version == u.to && payload == Slice(u.image[page], num) && crc == PayloadCrc(payload, 0)
       case Profile(version, vector) =>
         (version == u.from || version == u.to) &&
         (version == u.to ==> forall p :: 0 <= p < |vector| ==> vector[p] == u.to)
  }

  ghost predicate Inv(s: System, u: Upgrade)
    requires ValidUpgrade(u)
  {
    && (forall i :: 0 <= i < |s.nodes| ==> NodeInv(s.nodes[i], u))
    && forall m :: m in s.net ==> MsgInv(m, u)
  }

  lemma InitInv(s: System, u: Upgrade)
    requires ValidUpgrade(u) && Init(s, u)
    ensures Inv(s, u)
  {
    forall i | 0 <= i < |s.nodes|
      ensures NodeInv(s.nodes[i], u)
    {
      assert Started(s.nodes[i], u);
    }
  }

  lemma CompletePrefix(pages: seq<Page>, k: nat)
    requires k <= |pages| && Complete(pages, k) && (k < |pages| ==> !pages[k].complete)
    ensures Highest(pages) == k
  {
  }

  // Fields the invariant does not mention may change freely; the request timer
  // may start only during an upgrade, the transmit set only after it.
  lemma SameImageState(n: Node, t: Node, u: Upgrade)
    requires ValidUpgrade(u) && NodeInv(n, u)
    requires SameImage(n, t) && t.txPage < |u.image|
    requires t.rxTimer ==> n.rxTimer || Upgrading(n, u)
    requires t.txSet == {} || t.txSet == n.txSet || Done(n, u)
    ensures NodeInv(t, u)
    ensures Done(n, u) <==> Done(t, u)
    ensures Upgrading(n, u) <==> Upgrading(t, u)
  {
    if Upgrading(n, u) {
      assert BufferOk(t, u);
    }
  }

  // A summary starts receiving only in a node that is already upgrading.
  lemma SummaryKeeps(n: Node, m: Msg, hushed: bool, u: Upgrade)
    requires ValidUpgrade(u) && NodeInv(n, u) && m.Summary?
    ensures NodeInv(HandleSummary(n, m, hushed), u)
  {
    var n1 := Compare(n, m);
    SameImageState(n, n1, u);
    if Upgrading(n, u) {
      SameImageState(n1, Transition(n1, Rx).(rxTimer := true), u);
    } else {
      AllAvailable(n, u);
    }
  }

  lemma AllAvailable(n: Node, u: Upgrade)
    requires ValidUpgrade(u) && NodeInv(n, u) && !Upgrading(n, u)
    ensures Highest(n.pages) == |n.pages|
  {
    CompletePrefix(n.pages, |n.pages|);
  }

  // A request is answered only by a node that has finished the upgrade.
  lemma RequestKeeps(n: Node, m: Msg, u: Upgrade)
    requires ValidUpgrade(u) && NodeInv(n, u) && m.Request? && MsgInv(m, u)
    ensures NodeInv(HandleRequest(n, m), u)
  {
    SameImageState(n, HandleRequest(n, m), u);
  }

  lemma UnwantedPacket(n: Node, m: Msg, u: Upgrade)
    requires ValidUpgrade(u) && NodeInv(n, u) && m.Packet? && MsgInv(m, u)
    requires !Upgrading(n, u) || m.page != n.rxPage
    ensures HandlePacket(n, m) == n || HandlePacket(n, m) == n.(inconsistent := true)
  {
  }

  lemma WantedPacket(n: Node, m: Msg, u: Upgrade)
    requires ValidUpgrade(u) && NodeInv(n, u) && Upgrading(n, u) && m.Packet? && MsgInv(m, u) && m.page == n.rxPage
    ensures var n1 := Noted(n, m).(buffer := Patch(n.buffer, m.num, m.payload));
            HandlePacket(n, m) == CountPacket(n1, m.page, m.num)
  {
  }

  lemma PacketKeeps(n: Node, m: Msg, u: Upgrade)
    requires ValidUpgrade(u) && NodeInv(n, u) && m.Packet? && MsgInv(m, u)
    ensures NodeInv(HandlePacket(n, m), u)
    ensures !Upgrading(n, u) ==> (Done(n, u) <==> Done(HandlePacket(n, m), u))
  {
    var t := HandlePacket(n, m);
    if !Upgrading(n, u) || m.page != n.rxPage {
      UnwantedPacket(n, m, u);
      SameImageState(n, t, u);
    } else if n.pages[m.page].packetSet + {m.num} == ALL_PACKETS {
      PageDoneKeeps(n, m, u);
    } else {
      PacketCounted(n, m, u);
    }
  }

  // A packet that does not complete the page.
  lemma PacketCounted(n: Node, m: Msg, u: Upgrade)
    requires ValidUpgrade(u) && NodeInv(n, u) && Upgrading(n, u) && m.Packet? && MsgInv(m, u) && m.page == n.rxPage
    requires n.pages[m.page].packetSet + {m.num} != ALL_PACKETS
    ensures var t := HandlePacket(n, m);
            && NodeInv(t, u) && Upgrading(t, u) && t.rxPage == n.rxPage && t.txPage == n.txPage
            && t.pages[t.rxPage].packetSet == n.pages[m.page].packetSet + {m.num}
            && t.mode == n.mode && t.rxTimer == n.rxTimer && t.nrequests == n.nrequests
            && t.summaryFrom == n.summaryFrom
  {
    WantedPacket(n, m, u);
    assert BufferOk(HandlePacket(n, m), u);
  }

  lemma SlicesMakePage(a: Bytes, b: Bytes)
    requires |a| == |b| == S_PAGE
    requires forall k :: k in ALL_PACKETS ==> Slice(a, k) == Slice(b, k)
    ensures a == b
  {
    assert 0 in ALL_PACKETS && 1 in ALL_PACKETS && 2 in ALL_PACKETS && 3 in ALL_PACKETS;
    assert a == Slice(a, 0) + Slice(a, 1) + Slice(a, 2) + Slice(a, 3);
    assert b == Slice(b, 0) + Slice(b, 1) + Slice(b, 2) + Slice(b, 3);
  }

  // What a completed page leaves behind.
  lemma PageStored(n: Node, p: nat)
    requires Shape(n, |n.pages|) && p == n.rxPage < |n.pages|
    ensures var t := PageDone(n, p);
            && t.file == n.file[p := n.buffer] && t.rxPage == p + 1
            && t.pages == n.pages[p := Page(n.pages[p].version, ALL_PACKETS, true)]
            && t.version == (if t.rxPage == |n.pages| then n.updateVersion else n.version)
            && t.updateVersion == n.updateVersion && t.txSet == n.txSet && t.txPage == n.txPage
            && t.nrequests == n.nrequests && t.summaryFrom == n.summaryFrom && t.mode.Maintain?
            && (t.rxTimer <==> !n.mode.Rx? && (n.rxTimer || t.rxPage < |n.pages|))
  {
  }

  // What the packet that completes a page leaves behind.
  lemma PageDoneFields(n: Node, m: Msg, u: Upgrade)
    requires ValidUpgrade(u) && NodeInv(n, u) && Upgrading(n, u) && m.Packet? && MsgInv(m, u)
    requires m.page == n.rxPage && n.pages[m.page].packetSet + {m.num} == ALL_PACKETS
    ensures var t := HandlePacket(n, m);
            && t.file == n.file[n.rxPage := Patch(n.buffer, m.num, m.payload)] && t.rxPage == n.rxPage + 1
            && t.pages == n.pages[n.rxPage := Page(u.to, ALL_PACKETS, true)]
            && t.version == (if t.rxPage == |u.image| then u.to else u.from)
            && t.updateVersion == n.updateVersion && t.txSet == n.txSet && t.txPage == n.txPage
            && t.nrequests == n.nrequests && t.summaryFrom == n.summaryFrom && t.mode.Maintain?
            && (t.rxTimer <==> !n.mode.Rx? && (n.rxTimer || t.rxPage < |u.image|))
  {
    WantedPacket(n, m, u);
    PageStored(Noted(n, m).(buffer := Patch(n.buffer, m.num, m.payload)), m.page);
    hide HandlePacket, Patch, BufferOk, MsgInv, PageDone;
  }

  lemma PageDoneKeeps(n: Node, m: Msg, u: Upgrade)
    requires ValidUpgrade(u) && NodeInv(n, u) && Upgrading(n, u) && m.Packet? && MsgInv(m, u)
    requires m.page == n.rxPage && n.pages[m.page].packetSet + {m.num} == ALL_PACKETS
    ensures var t := HandlePacket(n, m);
            && NodeInv(t, u) && t.rxPage == n.rxPage + 1
            && (if t.rxPage == |u.image| then Done(t, u)
                else Upgrading(t, u) && t.pages[t.rxPage].packetSet == {})
  {
    BufferFills(n, m, u);
    PageDoneFields(n, m, u);
    hide HandlePacket;
    PageAdded(n, HandlePacket(n, m), u);
  }

  lemma PageAdded(n: Node, t: Node, u: Upgrade)
    requires ValidUpgrade(u) && NodeInv(n, u) && Upgrading(n, u) && Shape(t, |u.image|)
    requires t.file == n.file[n.rxPage := u.image[n.rxPage]] && t.rxPage == n.rxPage + 1
    requires t.pages == n.pages[n.rxPage := Page(u.to, ALL_PACKETS, true)]
    requires t.version == (if t.rxPage == |u.image| then u.to else u.from)
    requires t.updateVersion == n.updateVersion && t.txSet == n.txSet && t.txPage == n.txPage
    ensures if t.rxPage == |u.image| then Done(t, u) else Upgrading(t, u) && t.pages[t.rxPage].packetSet == {}
  {
    if t.rxPage == |u.image| {
      assert t.file == u.image;
    } else {
      assert t.pages[t.rxPage].packetSet == {};
    }
  }

  lemma ProfileKeeps(n: Node, m: Msg, u: Upgrade)
    requires ValidUpgrade(u) && NodeInv(n, u) && m.Profile? && MsgInv(m, u)
    ensures NodeInv(HandleProfile(n, m), u)
  {
    if m.version > n.updateVersion {
      var pages := RenewAll(n.pages, m.vector);
      CompletePrefix(pages, 0);
    }
  }

  lemma ReceiveKeeps(n: Node, m: Msg, len: nat, hushed: bool, u: Upgrade)
    requires ValidUpgrade(u) && NodeInv(n, u) && MsgInv(m, u)
    ensures NodeInv(Receive(n, m, len, hushed), u)
  {
    match m
    case Summary(_, _, _) => SummaryKeeps(n, m, hushed, u);
    case Request(_, _, _, _) => RequestKeeps(n, m, u);
    case Packet(_, _, _, _, _) => PacketKeeps(n, m, u);
    case Profile(_, _) => ProfileKeeps(n, m, u);
  }

  lemma TxKeeps(n: Node, u: Upgrade)
    requires ValidUpgrade(u) && NodeInv(n, u)
    ensures NodeInv(AfterTx(n), u)
    ensures forall m :: m in TxPackets(n) ==> MsgInv(m, u)
  {
    SameImageState(n, AfterTx(n), u);
  }

  lemma InvSane(s: System, u: Upgrade)
    requires ValidUpgrade(u) && Inv(s, u)
    ensures Sane(s, |u.image|)
  {
  }

  lemma ActKeeps(s: System, step: Step, u: Upgrade)
    requires ValidUpgrade(u) && Inv(s, u) && Sane(s, |u.image|) && Enabled(s, step)
    ensures NodeInv(Act(s, step, |u.image|).0, u)
    ensures forall m :: m in Act(s, step, |u.image|).1 ==> MsgInv(m, u)
  {
    var n := s.nodes[step.i];
    match step
    case Deliver(_, m, len, hushed) => ReceiveKeeps(n, m, len, hushed, u);
    case RxFires(_) =>
      assert Upgrading(n, u);
      SameImageState(n, AfterRequest(n), u);
    case TxFires(_) => TxKeeps(n, u);
    case Advertise(_) =>
    case SendProfile(_) => SameImageState(n, n.(broadcastProfile := false), u);
    case Round(_) => SameImageState(n, NewRound(n), u);
  }

  // Whatever step is taken, nodes and messages stay consistent with the upgrade.
  lemma StepKeepsInv(s: System, step: Step, u: Upgrade)
    requires ValidUpgrade(u) && Inv(s, u) && Sane(s, |u.image|) && Enabled(s, step)
    ensures Inv(Apply(s, step, |u.image|), u)
  {
    ActKeeps(s, step, u);
  }

  // ----- whole runs -----

  ghost predicate IsRun(run: seq<System>, steps: seq<Step>, u: Upgrade)
    requires ValidUpgrade(u)
  {
    && |run| == |steps| + 1
    && Init(run[0], u)
    && forall k :: 0 <= k < |steps| ==> Follows(run[k], steps[k], run[k + 1], |u.image|)
  }

  ghost predicate Follows(s: System, step: Step, t: System, npages: nat) {
    Sane(s, npages) && Enabled(s, step) && t == Apply(s, step, npages)
  }

  // No page flagged complete at the new version holds anything but the new
  // image's page, and a node at the new version holds the whole image.
  ghost predicate Safe(s: System, u: Upgrade) {
    forall i :: 0 <= i < |s.nodes| ==> SafeNode(s.nodes[i], u)
  }

  ghost predicate SafeNode(n: Node, u: Upgrade) {
    && |n.pages| == |n.file| == |u.image|
    && (forall p :: 0 <= p < |n.pages| && n.pages[p].complete && n.pages[p].version == u.to ==> n.file[p] == u.image[p])
    && (n.version == u.to ==> n.file == u.image && forall p :: 0 <= p < |n.pages| ==> n.pages[p].complete)
  }

  lemma {:induction false} RunInv(run: seq<System>, steps: seq<Step>, u: Upgrade, k: nat)
    requires ValidUpgrade(u) && IsRun(run, steps, u) && k <= |steps|
    ensures Inv(run[k], u)
  {
    if k == 0 {
      InitInv(run[0], u);
    } else {
      RunInv(run, steps, u, k - 1);
      assert Follows(run[k - 1], steps[k - 1], run[k], |u.image|);
      StepKeepsInv(run[k - 1], steps[k - 1], u);
    }
  }

  lemma RunSafe(run: seq<System>, steps: seq<Step>, u: Upgrade, k: nat)
    requires ValidUpgrade(u) && IsRun(run, steps, u) && k <= |steps|
    ensures Safe(run[k], u)
  {
    RunInv(run, steps, u, k);
    forall i | 0 <= i < |run[k].nodes|
      ensures SafeNode(run[k].nodes[i], u)
    {
      assert NodeInv(run[k].nodes[i], u);
    }
  }

  // A run is never cut short: any enabled step continues it.
  lemma RunContinues(run: seq<System>, steps: seq<Step>, u: Upgrade, step: Step)
    requires ValidUpgrade(u) && IsRun(run, steps, u) && Enabled(run[|steps|], step)
    ensures Sane(run[|steps|], |u.image|)
    ensures IsRun(run + [Apply(run[|steps|], step, |u.image|)], steps + [step], u)
  {
    RunInv(run, steps, u, |steps|);
    InvSane(run[|steps|], u);
    var t := Apply(run[|steps|], step, |u.image|);
    assert Follows(run[|steps|], step, t, |u.image|);
    forall k | 0 <= k < |steps + [step]|
      ensures Follows((run + [t])[k], (steps + [step])[k], (run + [t])[k + 1], |u.image|)
    {
      if k < |steps| {
        assert Follows(run[k], steps[k], run[k + 1], |u.image|);
      }
    }
  }

  // ----- progress -----

  // Pages and packets gained since the upgrade was heard of, most significant first.
  ghost function Progress(n: Node, u: Upgrade): nat {
    if n.version == u.to then 1 + N_PKT * |u.image|
    else if n.updateVersion == u.to && n.rxPage < |n.pages| then 1 + N_PKT * n.rxPage + |n.pages[n.rxPage].packetSet|
    else 0
  }

  ghost predicate Fresh(n: Node, m: Msg)
    requires Shape(n, |n.pages|) && m.Packet? && WellFormed(m, |n.pages|)
  {
    m.page == n.rxPage && m.version == n.pages[m.page].version && !n.pages[m.page].complete
    && m.num !in n.pages[m.page].packetSet
  }

  lemma PacketSetBound(got: Bits)
    requires forall k :: k in got ==> k < N_PKT
    ensures |got| <= N_PKT
    ensures |got| == N_PKT <==> got == ALL_PACKETS
  {
    assert |ALL_PACKETS| == 4;
    assert got <= ALL_PACKETS;
    SubsetSize(got, ALL_PACKETS);
  }

  lemma {:induction false} SubsetSize(a: Bits, b: Bits)
    requires a <= b
    ensures |a| <= |b| && (|a| == |b| ==> a == b)
    decreases a
  {
    if a != {} {
      var x :| x in a;
      SubsetSize(a - {x}, b - {x});
    }
  }

  // Every fresh packet is worth exactly one unit of progress, all others none.
  lemma PacketProgress(n: Node, m: Msg, u: Upgrade)
    requires ValidUpgrade(u) && NodeInv(n, u) && m.Packet? && MsgInv(m, u)
    ensures Progress(HandlePacket(n, m), u) == Progress(n, u) + if Fresh(n, m) then 1 else 0
  {
    PacketKeeps(n, m, u);
    if Upgrading(n, u) && m.page == n.rxPage {
      UpgradingPacketProgress(n, m, u);
    } else {
      SameImageState(n, HandlePacket(n, m), u);
    }
  }

  lemma UpgradingPacketProgress(n: Node, m: Msg, u: Upgrade)
    requires ValidUpgrade(u) && NodeInv(n, u) && Upgrading(n, u) && m.Packet? && MsgInv(m, u) && m.page == n.rxPage
    ensures Progress(HandlePacket(n, m), u) == Progress(n, u) + if Fresh(n, m) then 1 else 0
  {
    hide HandlePacket, Crc16Add;
    var had := n.pages[m.page].packetSet;
    var got := had + {m.num};
    PacketSetBound(had);
    PacketSetBound(got);
    assert m.num in had ==> got == had;
    if got == ALL_PACKETS {
      PageDoneKeeps(n, m, u);
    } else {
      PacketCounted(n, m, u);
    }
  }

  // With its last packet the buffer becomes the image's page.
  lemma BufferFills(n: Node, m: Msg, u: Upgrade)
    requires ValidUpgrade(u) && NodeInv(n, u) && Upgrading(n, u) && m.Packet? && MsgInv(m, u)
    requires m.page == n.rxPage && n.pages[m.page].packetSet + {m.num} == ALL_PACKETS
    ensures Patch(n.buffer, m.num, m.payload) == u.image[m.page]
  {
    var buffer := Patch(n.buffer, m.num, m.payload);
    forall k | k in ALL_PACKETS
      ensures Slice(buffer, k) == Slice(u.image[m.page], k)
    {
      assert k == m.num || k in n.pages[m.page].packetSet;
    }
    SlicesMakePage(buffer, u.image[m.page]);
  }

  lemma ProfileProgress(n: Node, m: Msg, u: Upgrade)
    requires ValidUpgrade(u) && NodeInv(n, u) && m.Profile? && MsgInv(m, u)
    ensures Progress(HandleProfile(n, m), u) >= Progress(n, u)
  {
    ProfileKeeps(n, m, u);
  }

  lemma ReceiveProgress(n: Node, m: Msg, len: nat, hushed: bool, u: Upgrade)
    requires ValidUpgrade(u) && NodeInv(n, u) && MsgInv(m, u)
    ensures Progress(Receive(n, m, len, hushed), u) >= Progress(n, u)
  {
    match m
    case Packet(_, _, _, _, _) => PacketProgress(n, m, u);
    case Profile(_, _) => ProfileProgress(n, m, u);
    case Summary(_, _, _) => assert SameImage(n, HandleSummary(n, m, hushed));
    case Request(_, _, _, _) => assert SameImage(n, HandleRequest(n, m));
  }

  // No step of any node ever undoes progress.
  lemma ProgressNeverFalls(s: System, step: Step, u: Upgrade, i: nat)
    requires ValidUpgrade(u) && Inv(s, u) && Sane(s, |u.image|) && Enabled(s, step) && i < |s.nodes|
    ensures Progress(Apply(s, step, |u.image|).nodes[i], u) >= Progress(s.nodes[i], u)
  {
    ActKeeps(s, step, u);
    if i == step.i && step.Deliver? {
      ReceiveProgress(s.nodes[i], step.m, step.len, step.hushed, u);
    }
  }

  // ----- completion -----

  function Feed(n: Node, ms: seq<Msg>): (t: Node)
    requires Shape(n, |n.pages|) && forall m :: m in ms ==> m.Packet? && WellFormed(m, |n.pages|)
    ensures |t.pages| == |n.pages| && Shape(t, |t.pages|)
    decreases |ms|
  {
    if ms == [] then n else Feed(HandlePacket(n, ms[0]), ms[1..])
  }

  ghost predicate Stream(ms: seq<Msg>, u: Upgrade)
    requires ValidUpgrade(u)
  {
    forall m :: m in ms ==> m.Packet? && WellFormed(m, |u.image|) && MsgInv(m, u)
  }

  // However the packets are ordered and repeated, a stream that contains every
  // packet of the page in progress completes at least that page.
  lemma {:induction false} StreamKeepsGains(n: Node, ms: seq<Msg>, u: Upgrade)
    requires ValidUpgrade(u) && NodeInv(n, u) && Upgrading(n, u)
    requires Stream(ms, u)
    ensures var t := Feed(n, ms);
            NodeInv(t, u) && (Done(t, u) || (Upgrading(t, u) && t.rxPage > n.rxPage) || SamePage(n, t, ms, u))
    decreases |ms|
  {
    if ms != [] {
      var n' := HandlePacket(n, ms[0]);
      PacketKeeps(n, ms[0], u);
      OnePacket(n, ms[0], u);
      if Done(n', u) {
        DoneStays(n', ms[1..], u);
      } else {
        StreamKeepsGains(n', ms[1..], u);
      }
    }
  }

  // t is still receiving n's page and has kept every packet of it seen in ms.
  ghost predicate SamePage(n: Node, t: Node, ms: seq<Msg>, u: Upgrade)
    requires ValidUpgrade(u) && Shape(n, |u.image|) && Shape(t, |u.image|) && n.rxPage < |u.image|
  {
    && Upgrading(t, u) && t.rxPage == n.rxPage
    && n.pages[n.rxPage].packetSet <= t.pages[n.rxPage].packetSet
    && forall m :: m in ms && m.Packet? && m.page == n.rxPage ==> m.num in t.pages[n.rxPage].packetSet
  }

  lemma OnePacket(n: Node, m: Msg, u: Upgrade)
    requires ValidUpgrade(u) && NodeInv(n, u) && Upgrading(n, u) && m.Packet? && MsgInv(m, u)
    ensures var t := HandlePacket(n, m);
            NodeInv(t, u) && (Done(t, u) || (Upgrading(t, u) && t.rxPage > n.rxPage) || SamePage(n, t, [m], u))
  {
    hide HandlePacket;
    if m.page != n.rxPage {
      UnwantedPacket(n, m, u);
      SameImageState(n, HandlePacket(n, m), u);
    } else if n.pages[m.page].packetSet + {m.num} == ALL_PACKETS {
      PageDoneKeeps(n, m, u);
    } else {
      PacketCounted(n, m, u);
    }
  }

  lemma {:induction false} DoneStays(n: Node, ms: seq<Msg>, u: Upgrade)
    requires ValidUpgrade(u) && NodeInv(n, u) && Done(n, u)
    requires Stream(ms, u)
    ensures NodeInv(Feed(n, ms), u) && Done(Feed(n, ms), u)
    decreases |ms|
  {
    if ms != [] {
      PacketKeeps(n, ms[0], u);
      DoneStays(HandlePacket(n, ms[0]), ms[1..], u);
    }
  }

  ghost predicate Contains(ms: seq<Msg>, p: nat, k: nat) {
    exists m :: m in ms && m.Packet? && m.page == p && m.num == k
  }

  ghost predicate Covers(ms: seq<Msg>, u: Upgrade)
    requires ValidUpgrade(u)
  {
    && Stream(ms, u)
    && forall p: nat, k: nat :: p < |u.image| && k < N_PKT ==> Contains(ms, p, k)
  }

  // A page in progress lacks some packet.
  lemma MissingPacket(n: Node, u: Upgrade) returns (k: nat)
    requires ValidUpgrade(u) && NodeInv(n, u) && Upgrading(n, u)
    ensures k < N_PKT && k !in n.pages[n.rxPage].packetSet
  {
    var got := n.pages[n.rxPage].packetSet;
    assert got <= ALL_PACKETS;
    k :| k in ALL_PACKETS && k !in got;
  }

  lemma CoveredPacket(n: Node, t: Node, ms: seq<Msg>, k: nat, u: Upgrade)
    requires ValidUpgrade(u) && NodeInv(n, u) && Upgrading(n, u) && Covers(ms, u) && k < N_PKT
    requires NodeInv(t, u) && SamePage(n, t, ms, u)
    ensures k in t.pages[n.rxPage].packetSet
  {
    assert Contains(ms, n.rxPage, k);
  }

  lemma CoveringStreamCompletesPage(n: Node, ms: seq<Msg>, u: Upgrade)
    requires ValidUpgrade(u) && NodeInv(n, u) && Upgrading(n, u) && Covers(ms, u)
    ensures var t := Feed(n, ms);
            NodeInv(t, u) && (Done(t, u) || (Upgrading(t, u) && t.rxPage > n.rxPage))
  {
    StreamKeepsGains(n, ms, u);
    var t := Feed(n, ms);
    if SamePage(n, t, ms, u) {
      var k := MissingPacket(t, u);
      CoveredPacket(n, t, ms, k, u);
    }
  }

  function FeedTimes(n: Node, ms: seq<Msg>, times: nat): (t: Node)
    requires Shape(n, |n.pages|) && forall m :: m in ms ==> m.Packet? && WellFormed(m, |n.pages|)
    ensures |t.pages| == |n.pages| && Shape(t, |t.pages|)
    decreases times
  {
    if times == 0 then n else FeedTimes(Feed(n, ms), ms, times - 1)
  }

  // Hearing the image as many times as it has pages, in any order, finishes the upgrade.
  lemma {:induction false} UpgradeCompletes(n: Node, ms: seq<Msg>, u: Upgrade, times: nat)
    requires ValidUpgrade(u) && NodeInv(n, u) && Covers(ms, u)
    requires Done(n, u) || (Upgrading(n, u) && n.rxPage + times >= |u.image|)
    ensures Done(FeedTimes(n, ms, times), u)
    decreases times
  {
    if times > 0 {
      if Done(n, u) {
        DoneStays(n, ms, u);
      } else {
        CoveringStreamCompletesPage(n, ms, u);
      }
      UpgradeCompletes(Feed(n, ms), ms, u, times - 1);
    }
  }
}

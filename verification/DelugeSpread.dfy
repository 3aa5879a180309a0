// Which upgrades spread to other nodes, what a node is left with, and what can go wrong on the way.
module DelugeSpread {
  import opened Common
  import opened Deluge

  // ----- runs with messages as they are sent -----

  // Deliveries hand over the bytes that were sent, as far as the link carries them:
  // a message longer than the packet buffer is cut off there, and the link may carry less.
  ghost predicate AsSent(step: Step, cap: nat) {
    step.Deliver? ==> step.len == Carried(step.m, cap)
  }

  function Carried(m: Msg, cap: nat): nat {
    if SizeOf(m) < cap then SizeOf(m) else cap
  }

  ghost predicate Unpadded(steps: seq<Step>, cap: nat) {
    forall k :: 0 <= k < |steps| ==> AsSent(steps[k], cap)
  }

  ghost predicate Leads(run: seq<System>, steps: seq<Step>, u: Upgrade, cap: nat, start: System, s: System)
    requires ValidUpgrade(u)
  {
    IsRun(run, steps, u) && Unpadded(steps, cap) && run[0] == start && run[|steps|] == s
  }

  // Some run of the upgrade takes the system from start to s.
  ghost predicate Reaches(u: Upgrade, cap: nat, start: System, s: System)
    requires ValidUpgrade(u)
  {
    exists run, steps :: Leads(run, steps, u, cap, start, s)
  }

  lemma ReachInv(u: Upgrade, cap: nat, start: System, s: System)
    requires ValidUpgrade(u) && Reaches(u, cap, start, s)
    ensures Inv(s, u) && Sane(s, |u.image|)
  {
    var run, steps :| Leads(run, steps, u, cap, start, s);
    RunInv(run, steps, u, |steps|);
    InvSane(s, u);
  }

  // Any enabled step leads on.
  lemma ReachStep(u: Upgrade, cap: nat, start: System, s: System, step: Step)
    requires ValidUpgrade(u) && Reaches(u, cap, start, s) && Enabled(s, step) && AsSent(step, cap)
    ensures Sane(s, |u.image|) && Reaches(u, cap, start, Apply(s, step, |u.image|))
    ensures Inv(Apply(s, step, |u.image|), u)
  {
    var run, steps :| Leads(run, steps, u, cap, start, s);
    RunContinues(run, steps, u, step);
    var t := Apply(s, step, |u.image|);
    assert Leads(run + [t], steps + [step], u, cap, start, t);
    ReachInv(u, cap, start, t);
  }

  // The same for two nodes: one of them takes the step.
  lemma Move(u: Upgrade, cap: nat, start: System, s: System, step: Step) returns (t: System)
    requires ValidUpgrade(u) && Reaches(u, cap, start, s) && Enabled(s, step) && AsSent(step, cap) && |s.nodes| == 2
    ensures Sane(s, |u.image|) && Reaches(u, cap, start, t) && Inv(t, u) && |t.nodes| == 2
    ensures t.nodes[step.i] == Act(s, step, |u.image|).0 && t.nodes[1 - step.i] == s.nodes[1 - step.i]
    ensures t.net == s.net + Act(s, step, |u.image|).1
  {
    ReachStep(u, cap, start, s, step);
    t := Apply(s, step, |u.image|);
  }

  // ----- what no run exceeds -----

  // As it arrives, a profile passes the dispatcher's length test only if the first
  // page's version is zero, or one and the link carries the whole message.
  lemma ProfileAcceptedIff(m: Msg, cap: nat)
    requires m.Profile? && m.vector != []
    ensures LengthAccepted(m, Carried(m, cap)) <==>
            (m.vector[0] == 0 && PROFILE_HEADER <= cap) || (m.vector[0] == 1 && SizeOf(m) <= cap)
  {
    if m.vector[0] >= 2 {
      assert |m.vector| * m.vector[0] >= |m.vector| * 2;
    }
  }

  // The upgrades whose profiles are accepted.
  predicate Heard(u: Upgrade, cap: nat) {
    u.to == 1 && PROFILE_HEADER + |u.image| <= cap
  }

  // What a node that started as n0 can have become. A page number of 128 or more
  // does not survive in the signed byte that holds the page to be sent.
  ghost predicate NodeBound(n0: Node, n: Node, u: Upgrade, cap: nat)
    requires ValidUpgrade(u) && NodeInv(n, u)
  {
    && n.rxPage <= 128
    && (n0.version == u.to ==> Done(n, u) && n.rxPage == 0)
    && (n0.version == u.from && !Heard(u, cap) ==> Idle(n, u))
    && (n0.version == u.from && Done(n, u) ==> n.rxPage == |u.image|)
    && (cap < PACKET_SIZE ==> n.rxPage == 0)
    && (|u.image| == 1 && n.rxTimer ==> Upgrading(n, u) && n.mode.Rx?)
  }

  ghost predicate LowPage(m: Msg) {
    m.Packet? ==> m.page <= 127
  }

  ghost predicate Bound(start: System, s: System, u: Upgrade, cap: nat)
    requires ValidUpgrade(u) && Inv(s, u)
  {
    && |s.nodes| == |start.nodes|
    && (forall i :: 0 <= i < |s.nodes| ==> NodeBound(start.nodes[i], s.nodes[i], u, cap))
    && forall m :: m in s.net ==> LowPage(m)
  }

  lemma SummaryBound(n0: Node, n: Node, m: Msg, hushed: bool, u: Upgrade, cap: nat)
    requires ValidUpgrade(u) && NodeInv(n, u) && m.Summary? && NodeBound(n0, n, u, cap)
    ensures NodeInv(HandleSummary(n, m, hushed), u) && NodeBound(n0, HandleSummary(n, m, hushed), u, cap)
  {
    SummaryKeeps(n, m, hushed, u);
    if !Upgrading(n, u) {
      AllAvailable(n, u);
    }
  }

  lemma RequestBound(n0: Node, n: Node, m: Msg, u: Upgrade, cap: nat)
    requires ValidUpgrade(u) && NodeInv(n, u) && m.Request? && MsgInv(m, u) && NodeBound(n0, n, u, cap)
    ensures NodeInv(HandleRequest(n, m), u) && NodeBound(n0, HandleRequest(n, m), u, cap)
  {
    RequestKeeps(n, m, u);
  }

  lemma PacketBound(n0: Node, n: Node, m: Msg, u: Upgrade, cap: nat)
    requires ValidUpgrade(u) && NodeInv(n, u) && m.Packet? && MsgInv(m, u) && LowPage(m) && NodeBound(n0, n, u, cap)
    requires PACKET_SIZE <= cap
    ensures NodeInv(HandlePacket(n, m), u) && NodeBound(n0, HandlePacket(n, m), u, cap)
  {
    hide HandlePacket;
    if !Upgrading(n, u) || m.page != n.rxPage {
      UnwantedPacket(n, m, u);
      PacketKeeps(n, m, u);
    } else if n.pages[m.page].packetSet + {m.num} == ALL_PACKETS {
      PageDoneFields(n, m, u);
      PageDoneKeeps(n, m, u);
    } else {
      PacketCounted(n, m, u);
    }
  }

  // The length test keeps every node from starting any other upgrade.
  lemma ProfileBound(n0: Node, n: Node, m: Msg, u: Upgrade, cap: nat)
    requires ValidUpgrade(u) && NodeInv(n, u) && m.Profile? && MsgInv(m, u) && NodeBound(n0, n, u, cap)
    ensures var t := Receive(n, m, Carried(m, cap), false);
            NodeInv(t, u) && NodeBound(n0, t, u, cap)
  {
    ProfileKeeps(n, m, u);
    ProfileAcceptedIff(m, cap);
    if m.version > n.updateVersion {
      CompletePrefix(RenewAll(n.pages, m.vector), 0);
    }
  }

  lemma ReceiveBound(n0: Node, n: Node, m: Msg, len: nat, hushed: bool, u: Upgrade, cap: nat)
    requires ValidUpgrade(u) && NodeInv(n, u) && NodeBound(n0, n, u, cap) && MsgInv(m, u) && LowPage(m)
    requires len == Carried(m, cap)
    ensures NodeInv(Receive(n, m, len, hushed), u) && NodeBound(n0, Receive(n, m, len, hushed), u, cap)
  {
    hide HandlePacket, HandleProfile, HandleSummary, HandleRequest, NodeBound, NodeInv;
    match m
    case Summary(_, _, _) => SummaryBound(n0, n, m, hushed, u, cap);
    case Request(_, _, _, _) => RequestBound(n0, n, m, u, cap);
    case Packet(_, _, _, _, _) =>
      if PACKET_SIZE <= cap {
        PacketBound(n0, n, m, u, cap);
      }
    case Profile(_, _) => ProfileBound(n0, n, m, u, cap);
  }

  lemma ActBound(n0: Node, s: System, step: Step, u: Upgrade, cap: nat)
    requires ValidUpgrade(u) && Inv(s, u) && Sane(s, |u.image|) && Enabled(s, step) && AsSent(step, cap)
    requires NodeBound(n0, s.nodes[step.i], u, cap) && forall m :: m in s.net ==> LowPage(m)
    ensures var (n, sent) := Act(s, step, |u.image|);
            NodeInv(n, u) && NodeBound(n0, n, u, cap) && forall m :: m in sent ==> LowPage(m)
  {
    ActKeeps(s, step, u);
    var n := s.nodes[step.i];
    match step
    case Deliver(_, m, len, hushed) => ReceiveBound(n0, n, m, len, hushed, u, cap);
    case RxFires(_) =>
    case TxFires(_) =>
    case Advertise(_) =>
    case SendProfile(_) =>
    case Round(_) =>
  }

  lemma {:induction false} RunBound(run: seq<System>, steps: seq<Step>, u: Upgrade, cap: nat, k: nat)
    requires ValidUpgrade(u) && IsRun(run, steps, u) && Unpadded(steps, cap) && k <= |steps|
    ensures Inv(run[k], u) && Bound(run[0], run[k], u, cap)
  {
    RunInv(run, steps, u, k);
    if k == 0 {
      forall i | 0 <= i < |run[0].nodes|
        ensures NodeBound(run[0].nodes[i], run[0].nodes[i], u, cap)
      {
        assert Started(run[0].nodes[i], u);
      }
    } else {
      RunBound(run, steps, u, cap, k - 1);
      var s, step := run[k - 1], steps[k - 1];
      assert Follows(s, step, run[k], |u.image|) && AsSent(step, cap);
      ActBound(run[0].nodes[step.i], s, step, u, cap);
    }
  }

  lemma ReachBound(u: Upgrade, cap: nat, start: System, s: System)
    requires ValidUpgrade(u) && Reaches(u, cap, start, s)
    ensures Init(start, u) && Inv(s, u) && Bound(start, s, u, cap)
  {
    var run, steps :| Leads(run, steps, u, cap, start, s);
    RunBound(run, steps, u, cap, |steps|);
  }

  // ----- a run that spreads the image from one node to another -----

  ghost predicate OldFile(f: seq<Bytes>, u: Upgrade) {
    |f| == |u.image| && forall p :: 0 <= p < |f| ==> |f[p]| == S_PAGE
  }

  // Node 0 has the new image, node 1 an older file f.
  ghost function Pair(u: Upgrade, f: seq<Bytes>): System {
    System([Fresh0(u.to, u.image), Fresh0(u.from, f)], {})
  }

  function ImagePacket(u: Upgrade, p: nat, k: nat): Msg
    requires p < |u.image| <= 255 && |u.image[p]| == S_PAGE && k < N_PKT
  {
    Packet(u.to, p, k, PayloadCrc(Slice(u.image[p], k), 0), Slice(u.image[p], k))
  }

  // Node 0 can serve, and node 1 waits to ask for page p, none of which it has.
  ghost predicate Ready(s: System, u: Upgrade, p: nat)
    requires ValidUpgrade(u) && Inv(s, u) && |s.nodes| == 2
  {
    && Serving(s, u, p)
    && s.nodes[1].rxTimer && s.nodes[1].nrequests == 0
  }

  ghost predicate Serving(s: System, u: Upgrade, p: nat)
    requires ValidUpgrade(u) && Inv(s, u) && |s.nodes| == 2
  {
    && Done(s.nodes[0], u) && s.nodes[0].txSet == {} && s.nodes[1].summaryFrom == Some(0)
    && Upgrading(s.nodes[1], u) && s.nodes[1].rxPage == p && s.nodes[1].pages[p].packetSet == {}
  }

  ghost predicate Offered(net: set<Msg>, u: Upgrade, p: nat)
    requires ValidUpgrade(u) && p < |u.image|
  {
    forall k: nat :: k < N_PKT ==> ImagePacket(u, p, k) in net
  }

  lemma PairReached(u: Upgrade, cap: nat, f: seq<Bytes>)
    requires ValidUpgrade(u) && OldFile(f, u)
    ensures Reaches(u, cap, Pair(u, f), Pair(u, f))
  {
    var s := Pair(u, f);
    assert Started(s.nodes[0], u) && Started(s.nodes[1], u);
    assert Leads([s], [], u, cap, s, s);
  }

  // The link carries whole packets, and the profile of the upgrade.
  predicate Carries(u: Upgrade, cap: nat) {
    Heard(u, cap) && PACKET_SIZE <= cap
  }

  // The old node advertises, the new one answers with its profile, and the old
  // one adopts the new version.
  lemma Adoption(u: Upgrade, cap: nat, f: seq<Bytes>) returns (t: System)
    requires ValidUpgrade(u) && OldFile(f, u) && Carries(u, cap)
    ensures Reaches(u, cap, Pair(u, f), t) && Inv(t, u) && |t.nodes| == 2
    ensures Done(t.nodes[0], u) && t.nodes[0].txSet == {} && t.nodes[0].recvAdv == 0
    ensures Upgrading(t.nodes[1], u) && t.nodes[1].rxPage == 0 && t.nodes[1].pages[0].packetSet == {}
    ensures t.nodes[1].nrequests == 0
  {
    var start := Pair(u, f);
    PairReached(u, cap, f);
    var s1 := Move(u, cap, start, start, Advertise(1));
    var s2 := Move(u, cap, start, s1, Deliver(0, SummaryOf(start.nodes[1], 1), SUMMARY_SIZE, false));
    var s3 := Move(u, cap, start, s2, SendProfile(0));
    var profile := ProfileOf(s2.nodes[0]);
    ProfileAcceptedIff(profile, cap);
    t := Move(u, cap, start, s3, Deliver(1, profile, PROFILE_HEADER + |u.image|, false));
    CompletePrefix(t.nodes[1].pages, 0);
  }

  // From the new node's summary the old one learns whom to ask.
  lemma SummaryHeard(n: Node, m: Msg, u: Upgrade)
    requires ValidUpgrade(u) && NodeInv(n, u) && Upgrading(n, u)
    requires m.Summary? && m.version == u.to && m.highest == |u.image|
    ensures var t := HandleSummary(n, m, false);
            && NodeInv(t, u) && Upgrading(t, u) && SameImage(n, t) && t.nrequests == n.nrequests
            && t.rxTimer && t.summaryFrom == Some(m.sender)
  {
    CompletePrefix(n.pages, n.rxPage);
    SummaryKeeps(n, m, false, u);
    SameImageState(n, HandleSummary(n, m, false), u);
  }

  lemma Introduction(u: Upgrade, cap: nat, f: seq<Bytes>) returns (t: System)
    requires ValidUpgrade(u) && OldFile(f, u) && Carries(u, cap)
    ensures Reaches(u, cap, Pair(u, f), t) && Inv(t, u) && |t.nodes| == 2 && Ready(t, u, 0)
  {
    var start := Pair(u, f);
    var s := Adoption(u, cap, f);
    var s1 := Move(u, cap, start, s, Advertise(0));
    AllAvailable(s.nodes[0], u);
    var summary := SummaryOf(s.nodes[0], 0);
    SummaryHeard(s.nodes[1], summary, u);
    t := Move(u, cap, start, s1, Deliver(1, summary, SUMMARY_SIZE, false));
  }

  lemma AskKeepsServing(n: Node, u: Upgrade)
    requires ValidUpgrade(u) && NodeInv(n, u) && Upgrading(n, u) && n.rxTimer
    ensures var t := AfterRequest(n);
            && NodeInv(t, u) && Upgrading(t, u) && t.rxPage == n.rxPage
            && t.pages == n.pages && t.summaryFrom == n.summaryFrom
  {
    SameImageState(n, AfterRequest(n), u);
  }

  lemma PageOffered(n: Node, u: Upgrade, p: nat)
    requires ValidUpgrade(u) && NodeInv(n, u) && Done(n, u) && n.txSet == BYTE_BITS && p == n.txPage < |u.image|
    ensures Offered(TxPackets(n), u, p)
  {
    forall k: nat | k < N_PKT
      ensures ImagePacket(u, p, k) in TxPackets(n)
    {
      assert k in BYTE_BITS && PacketOf(n, p, k) == ImagePacket(u, p, k);
    }
  }

  lemma RequestTaken(n: Node, u: Upgrade, p: nat)
    requires ValidUpgrade(u) && NodeInv(n, u) && Done(n, u) && n.txSet == {} && p < |u.image| && p < 128
    ensures var t := HandleRequest(n, Request(Some(0), u.to, p, BYTE_BITS));
            t.txPage == p && t.txSet == BYTE_BITS && t.txTimer
  {
    CompletePrefix(n.pages, |n.pages|);
  }

  // A node with the whole image, asked for a page below 128, offers its packets.
  lemma AnswerOffers(n: Node, u: Upgrade, p: nat)
    requires ValidUpgrade(u) && NodeInv(n, u) && Done(n, u) && n.txSet == {} && p < |u.image| && p < 128
    ensures var t := HandleRequest(n, Request(Some(0), u.to, p, BYTE_BITS));
            && t.txTimer && NodeInv(t, u) && Done(t, u)
            && Done(AfterTx(t), u) && AfterTx(t).txSet == {} && Offered(TxPackets(t), u, p)
  {
    var m := Request(Some(0), u.to, p, BYTE_BITS);
    RequestTaken(n, u, p);
    RequestKeeps(n, m, u);
    hide HandleRequest, TxPackets;
    var t := HandleRequest(n, m);
    SameImageState(n, t, u);
    SameImageState(t, AfterTx(t), u);
    PageOffered(t, u, p);
  }

  // Node 1 asks for the page, once or twice, and node 0 answers.
  lemma AskAndAnswer(u: Upgrade, cap: nat, start: System, s: System, p: nat, twice: bool) returns (t: System)
    requires ValidUpgrade(u) && Reaches(u, cap, start, s) && Inv(s, u) && |s.nodes| == 2 && Ready(s, u, p) && p < 128
    requires PACKET_SIZE <= cap
    ensures Reaches(u, cap, start, t) && Inv(t, u) && |t.nodes| == 2 && Serving(t, u, p) && Offered(t.net, u, p)
    ensures t.nodes[1] == if twice then AfterRequest(AfterRequest(s.nodes[1])) else AfterRequest(s.nodes[1])
  {
    var ask := RequestFor(s.nodes[1]);
    AskKeepsServing(s.nodes[1], u);
    var s1 := Move(u, cap, start, s, RxFires(1));
    var s2 := s1;
    if twice {
      AskKeepsServing(s1.nodes[1], u);
      s2 := Move(u, cap, start, s1, RxFires(1));
    }
    assert ask in s2.net && BYTE_BITS - {} == BYTE_BITS;
    hide AfterRequest, NodeInv;
    var s3 := Move(u, cap, start, s2, Deliver(0, ask, REQUEST_SIZE, false));
    AnswerOffers(s2.nodes[0], u, p);
    hide HandleRequest, TxPackets, AfterTx;
    t := Move(u, cap, start, s3, TxFires(0));
  }

  function FirstPackets(k: nat): Bits {
    set i | i in ALL_PACKETS && i < k
  }

  lemma OneMorePacket(k: nat)
    requires 0 < k <= N_PKT
    ensures FirstPackets(k) == FirstPackets(k - 1) + {k - 1}
    ensures k < N_PKT ==> FirstPackets(k) != ALL_PACKETS
    ensures k == N_PKT ==> FirstPackets(k) == ALL_PACKETS
  {
    assert k - 1 in ALL_PACKETS && 3 in ALL_PACKETS;
  }

  lemma PacketTaken(n: Node, u: Upgrade, k: nat)
    requires ValidUpgrade(u) && NodeInv(n, u) && Upgrading(n, u) && 0 < k < N_PKT
    requires n.pages[n.rxPage].packetSet == FirstPackets(k - 1)
    ensures var t := Receive(n, ImagePacket(u, n.rxPage, k - 1), PACKET_SIZE, false);
            && NodeInv(t, u) && Upgrading(t, u) && t.rxPage == n.rxPage
            && t.pages[n.rxPage].packetSet == FirstPackets(k)
            && t.mode == n.mode && t.rxTimer == n.rxTimer && t.nrequests == n.nrequests
            && t.summaryFrom == n.summaryFrom
  {
    OneMorePacket(k);
    PacketCounted(n, ImagePacket(u, n.rxPage, k - 1), u);
  }

  lemma TakePackets(u: Upgrade, cap: nat, start: System, s: System, p: nat, k: nat) returns (t: System)
    requires ValidUpgrade(u) && Reaches(u, cap, start, s) && Inv(s, u) && |s.nodes| == 2 && Serving(s, u, p)
    requires Offered(s.net, u, p) && k < N_PKT && PACKET_SIZE <= cap
    ensures Reaches(u, cap, start, t) && Inv(t, u) && |t.nodes| == 2 && t.nodes[0] == s.nodes[0] && t.net == s.net
    ensures Upgrading(t.nodes[1], u) && t.nodes[1].rxPage == p && t.nodes[1].pages[p].packetSet == FirstPackets(k)
    ensures t.nodes[1].mode == s.nodes[1].mode && t.nodes[1].rxTimer == s.nodes[1].rxTimer
    ensures t.nodes[1].nrequests == s.nodes[1].nrequests && t.nodes[1].summaryFrom == s.nodes[1].summaryFrom
    decreases k
  {
    if k == 0 {
      t := s;
    } else {
      var r := TakePackets(u, cap, start, s, p, k - 1);
      PacketTaken(r.nodes[1], u, k);
      hide Receive, Upgrading, NodeInv, FirstPackets;
      t := Move(u, cap, start, r, Deliver(1, ImagePacket(u, p, k - 1), PACKET_SIZE, false));
    }
  }

  // With the fourth packet node 1 completes the page.
  lemma TakePage(u: Upgrade, cap: nat, start: System, s: System, p: nat) returns (t: System)
    requires ValidUpgrade(u) && Reaches(u, cap, start, s) && Inv(s, u) && |s.nodes| == 2 && Serving(s, u, p)
    requires Offered(s.net, u, p) && PACKET_SIZE <= cap
    ensures Reaches(u, cap, start, t) && Inv(t, u) && |t.nodes| == 2 && t.nodes[0] == s.nodes[0]
    ensures if p == |u.image| - 1 then Done(t.nodes[1], u) && t.nodes[1].rxPage == |u.image| else Serving(t, u, p + 1)
    ensures t.nodes[1].mode.Maintain? && t.nodes[1].nrequests == s.nodes[1].nrequests
    ensures t.nodes[1].rxTimer <==> !s.nodes[1].mode.Rx? && (s.nodes[1].rxTimer || p < |u.image| - 1)
  {
    var r := TakePackets(u, cap, start, s, p, 3);
    var m := ImagePacket(u, p, 3);
    OneMorePacket(N_PKT);
    PageDoneFields(r.nodes[1], m, u);
    PageDoneKeeps(r.nodes[1], m, u);
    t := Move(u, cap, start, r, Deliver(1, m, PACKET_SIZE, false));
  }

  // Page after page: with two requests for each, node 1 ends up maintaining.
  lemma ServePages(u: Upgrade, cap: nat, f: seq<Bytes>, p: nat) returns (t: System)
    requires ValidUpgrade(u) && OldFile(f, u) && Carries(u, cap) && p < |u.image| <= 128
    ensures Reaches(u, cap, Pair(u, f), t) && Inv(t, u) && |t.nodes| == 2 && Ready(t, u, p)
    ensures p > 0 ==> t.nodes[1].mode.Maintain?
    decreases p
  {
    if p == 0 {
      t := Introduction(u, cap, f);
    } else {
      var s := ServePages(u, cap, f, p - 1);
      var r := AskAndAnswer(u, cap, Pair(u, f), s, p - 1, true);
      t := TakePage(u, cap, Pair(u, f), r, p - 1);
    }
  }

  // ----- which upgrades spread -----

  // A node started at the old version with file f can end with the new image.
  ghost predicate CanComplete(u: Upgrade, cap: nat, f: seq<Bytes>)
    requires ValidUpgrade(u)
  {
    exists start, s, i: nat :: Completes(u, cap, f, start, s, i)
  }

  ghost predicate Completes(u: Upgrade, cap: nat, f: seq<Bytes>, start: System, s: System, i: nat)
    requires ValidUpgrade(u)
  {
    && Reaches(u, cap, start, s) && i < |start.nodes| && i < |s.nodes|
    && start.nodes[i].version == u.from && start.nodes[i].file == f
    && s.nodes[i].version == u.to && s.nodes[i].file == u.image
  }

  // Another node can be brought to the new version and image exactly if that version
  // is 1, the link carries packets and the profile, and page numbers fit a signed byte.
  lemma CompletesIff(u: Upgrade, cap: nat, f: seq<Bytes>)
    requires ValidUpgrade(u) && OldFile(f, u)
    ensures CanComplete(u, cap, f) <==> Carries(u, cap) && |u.image| <= 128
  {
    if CanComplete(u, cap, f) {
      var start, s, i: nat :| Completes(u, cap, f, start, s, i);
      ReachBound(u, cap, start, s);
    }
    if Carries(u, cap) && |u.image| <= 128 {
      var s := ServePages(u, cap, f, |u.image| - 1);
      var r := AskAndAnswer(u, cap, Pair(u, f), s, |u.image| - 1, true);
      var t := TakePage(u, cap, Pair(u, f), r, |u.image| - 1);
      assert Completes(u, cap, f, Pair(u, f), t, 1);
    }
  }

  // The packet buffer holds 128 bytes; the link below it may carry fewer. Then the
  // bound on the page numbers is never reached.
  lemma BufferDecides(u: Upgrade, cap: nat)
    requires cap <= PACKET_BUFFER
    ensures Carries(u, cap) && |u.image| <= 128 <==>
            u.to == 1 && PACKET_SIZE <= cap && |u.image| <= cap - PROFILE_HEADER
    ensures Carries(u, cap) ==> |u.image| <= 124
  {
  }

  // ----- a request timer that outlives the upgrade -----

  // Some node's request timer can be running with no page left to ask for: when
  // it fires, the program reads behind its page table.
  ghost predicate CanOverrun(u: Upgrade, cap: nat)
    requires ValidUpgrade(u)
  {
    exists start, s, i: nat :: Overruns(u, cap, start, s, i)
  }

  ghost predicate Overruns(u: Upgrade, cap: nat, start: System, s: System, i: nat)
    requires ValidUpgrade(u)
  {
    Reaches(u, cap, start, s) && i < |s.nodes| && s.nodes[i].rxTimer && s.nodes[i].rxPage == |s.nodes[i].pages|
  }

  // It happens to the upgrades that can be completed, unless they have a single page.
  lemma OverrunsIff(u: Upgrade, cap: nat)
    requires ValidUpgrade(u)
    ensures CanOverrun(u, cap) <==> Carries(u, cap) && 2 <= |u.image| <= 128
  {
    if CanOverrun(u, cap) {
      var start, s, i: nat :| Overruns(u, cap, start, s, i);
      ReachBound(u, cap, start, s);
      assert NodeBound(start.nodes[i], s.nodes[i], u, cap) && Started(start.nodes[i], u);
    }
    if Carries(u, cap) && 2 <= |u.image| <= 128 {
      var s := ServePages(u, cap, u.image, |u.image| - 1);
      var r := AskAndAnswer(u, cap, Pair(u, u.image), s, |u.image| - 1, false);
      var t := TakePage(u, cap, Pair(u, u.image), r, |u.image| - 1);
      assert Overruns(u, cap, Pair(u, u.image), t, 1);
    }
  }

  // ----- corrupted packets -----

  // The payload is copied before its CRC is tested, so a packet that fails the
  // test still spoils a slot that had been received correctly.
  lemma CorruptPacketIff(n: Node, m: Msg, u: Upgrade)
    requires ValidUpgrade(u) && NodeInv(n, u) && Upgrading(n, u)
    requires m.Packet? && WellFormed(m, |u.image|) && m.page == n.rxPage && m.version == u.to
    requires m.crc != PayloadCrc(m.payload, 0)
    ensures var t := HandlePacket(n, m);
            && t.pages == n.pages && t.rxPage == n.rxPage
            && (BufferOk(t, u) <==>
                m.num !in n.pages[n.rxPage].packetSet || m.payload == Slice(u.image[n.rxPage], m.num))
  {
    var t := HandlePacket(n, m);
    assert t.buffer == Patch(n.buffer, m.num, m.payload);
    if m.num in n.pages[n.rxPage].packetSet && BufferOk(t, u) {
      assert Slice(t.buffer, m.num) == Slice(u.image[n.rxPage], m.num);
    }
  }

  // A copy of packet m, damaged on the way, that fails its CRC.
  ghost predicate Damaged(bad: Msg, m: Msg) {
    && bad.Packet? && m.Packet? && bad.version == m.version && bad.page == m.page && bad.num == m.num
    && |bad.payload| == S_PKT && bad.crc != PayloadCrc(bad.payload, 0)
  }

  // A packet that fails its CRC reaches no further than the buffer.
  lemma BadPacket(n: Node, bad: Msg, u: Upgrade)
    requires ValidUpgrade(u) && NodeInv(n, u)
    requires bad.Packet? && WellFormed(bad, |u.image|) && bad.version == u.to && bad.crc != PayloadCrc(bad.payload, 0)
    ensures HandlePacket(n, bad) ==
            if Upgrading(n, u) && bad.page == n.rxPage then
              Noted(n, bad).(buffer := Patch(n.buffer, bad.num, bad.payload))
            else if bad.page == n.rxPage then Noted(n, bad)
            else n
  {
  }

  // The packet that completes a page whose buffer may be damaged.
  lemma PageStoredAnyway(n: Node, buffer: Bytes, good: Msg, u: Upgrade)
    requires ValidUpgrade(u) && NodeInv(n, u) && Upgrading(n, u) && |buffer| == S_PAGE
    requires good.Packet? && MsgInv(good, u) && good.page == n.rxPage
    ensures var t := HandlePacket(n.(buffer := buffer), good);
            if n.pages[n.rxPage].packetSet + {good.num} == ALL_PACKETS then
              && t.pages == n.pages[n.rxPage := Page(u.to, ALL_PACKETS, true)]
              && t.version == (if n.rxPage == |u.image| - 1 then u.to else u.from)
              && t.file == n.file[n.rxPage := Patch(buffer, good.num, good.payload)]
            else
              t.version == u.from
  {
    var r := Noted(n, good).(buffer := Patch(buffer, good.num, good.payload));
    assert HandlePacket(n.(buffer := buffer), good) == CountPacket(r, good.page, good.num);
    PageStored(r, good.page);
    hide HandlePacket, PageDone, Patch;
  }

  // When the page is completed next, it is stored with the damage.
  lemma SpoiledPageIff(n: Node, bad: Msg, good: Msg, u: Upgrade)
    requires ValidUpgrade(u) && NodeInv(n, u) && Upgrading(n, u)
    requires bad.Packet? && WellFormed(bad, |u.image|) && bad.page == n.rxPage && bad.version == u.to
    requires bad.crc != PayloadCrc(bad.payload, 0)
    requires good.Packet? && MsgInv(good, u) && good.page == n.rxPage
    requires n.pages[n.rxPage].packetSet + {good.num} == ALL_PACKETS
    ensures var t := HandlePacket(HandlePacket(n, bad), good);
            && t.pages == n.pages[n.rxPage := Page(u.to, ALL_PACKETS, true)]
            && (n.rxPage == |u.image| - 1 ==> t.version == u.to)
            && (t.file[n.rxPage] == u.image[n.rxPage] <==>
                bad.num == good.num || bad.payload == Slice(u.image[n.rxPage], bad.num))
  {
    BadPacket(n, bad, u);
    SameImageState(n, Noted(n, bad), u);
    PageStoredAnyway(Noted(n, bad), Patch(n.buffer, bad.num, bad.payload), good, u);
    SpoiledBufferIff(n, bad, good, u);
  }

  lemma SpoiledBufferIff(n: Node, bad: Msg, good: Msg, u: Upgrade)
    requires ValidUpgrade(u) && NodeInv(n, u) && Upgrading(n, u)
    requires bad.Packet? && WellFormed(bad, |u.image|) && bad.page == n.rxPage
    requires good.Packet? && MsgInv(good, u) && good.page == n.rxPage
    requires n.pages[n.rxPage].packetSet + {good.num} == ALL_PACKETS
    ensures Patch(Patch(n.buffer, bad.num, bad.payload), good.num, good.payload) == u.image[n.rxPage] <==>
            bad.num == good.num || bad.payload == Slice(u.image[n.rxPage], bad.num)
  {
    var p := n.rxPage;
    var buffer := Patch(Patch(n.buffer, bad.num, bad.payload), good.num, good.payload);
    if bad.num == good.num || bad.payload == Slice(u.image[p], bad.num) {
      forall k | k in ALL_PACKETS
        ensures Slice(buffer, k) == Slice(u.image[p], k)
      {
        assert k == good.num || k in n.pages[p].packetSet;
      }
      SlicesMakePage(buffer, u.image[p]);
    }
  }

  // A node hears a damaged copy of one packet and then another packet as it was sent.
  function HearBoth(n: Node, cap: nat, bad: Msg, good: Msg): Node
    requires Shape(n, |n.pages|) && bad.Packet? && good.Packet?
    requires WellFormed(bad, |n.pages|) && WellFormed(good, |n.pages|)
  {
    if PACKET_SIZE <= cap then HandlePacket(HandlePacket(n, bad), good) else n
  }

  // Then it claims the new version with a wrong image.
  ghost predicate Spoils(u: Upgrade, cap: nat, start: System, s: System, i: nat, m: Msg, bad: Msg, good: Msg)
    requires ValidUpgrade(u)
  {
    && Reaches(u, cap, start, s) && Inv(s, u) && i < |s.nodes| && m in s.net && good in s.net && good.Packet?
    && Damaged(bad, m) && WellFormed(bad, |u.image|)
    && var t := HearBoth(s.nodes[i], cap, bad, good);
       t.version == u.to && t.file != u.image
  }

  ghost predicate CanBeSpoiled(u: Upgrade, cap: nat)
    requires ValidUpgrade(u)
  {
    exists start, s, i: nat, m, bad, good :: Spoils(u, cap, start, s, i, m, bad, good)
  }

  // Every upgrade that can be completed can be spoiled by one damaged packet.
  lemma SpoiledIff(u: Upgrade, cap: nat)
    requires ValidUpgrade(u)
    ensures CanBeSpoiled(u, cap) <==> Carries(u, cap) && |u.image| <= 128
  {
    if CanBeSpoiled(u, cap) {
      var start, s, i: nat, m, bad, good :| Spoils(u, cap, start, s, i, m, bad, good);
      ReachBound(u, cap, start, s);
      assert NodeBound(start.nodes[i], s.nodes[i], u, cap) && Started(start.nodes[i], u);
      if PACKET_SIZE <= cap {
        OnlyLastPageSpoils(s.nodes[i], m, bad, good, u);
      }
    }
    if Carries(u, cap) && |u.image| <= 128 {
      SpoilLastPage(u, cap);
    }
  }

  lemma OnlyLastPageSpoils(n: Node, m: Msg, bad: Msg, good: Msg, u: Upgrade)
    requires ValidUpgrade(u) && NodeInv(n, u) && m.Packet? && MsgInv(m, u) && good.Packet? && MsgInv(good, u)
    requires Damaged(bad, m) && WellFormed(bad, |u.image|)
    requires var t := HandlePacket(HandlePacket(n, bad), good); t.version == u.to && t.file != u.image
    ensures Upgrading(n, u) && good.page == |u.image| - 1
  {
    BadPacket(n, bad, u);
    var n1 := Noted(n, bad);
    SameImageState(n, n1, u);
    var r := HandlePacket(n, bad);
    if r == n || r == n1 {
      CleanPacket(r, good, u);
    } else if good.page == n.rxPage {
      PageStoredAnyway(n1, r.buffer, good, u);
    }
  }

  // Without damage, the new version comes with the new image.
  lemma CleanPacket(n: Node, good: Msg, u: Upgrade)
    requires ValidUpgrade(u) && NodeInv(n, u) && good.Packet? && MsgInv(good, u)
    ensures HandlePacket(n, good).version == u.to ==> HandlePacket(n, good).file == u.image
  {
    PacketKeeps(n, good, u);
  }

  lemma DamagedCopy(m: Msg) returns (bad: Msg)
    requires m.Packet? && |m.payload| == S_PKT
    ensures Damaged(bad, m) && bad.payload != m.payload
  {
    hide PayloadCrc;
    var payload := m.payload[0 := if m.payload[0] == 0 then 1 else 0];
    assert payload[0] != m.payload[0];
    bad := m.(payload := payload, crc := if PayloadCrc(payload, 0) == 0 then 1 else 0);
  }

  lemma NodeSpoiled(n: Node, bad: Msg, cap: nat, u: Upgrade)
    requires ValidUpgrade(u) && NodeInv(n, u) && Upgrading(n, u) && n.rxPage == |u.image| - 1 && PACKET_SIZE <= cap
    requires n.pages[n.rxPage].packetSet == FirstPackets(3)
    requires Damaged(bad, ImagePacket(u, n.rxPage, 0)) && bad.payload != Slice(u.image[n.rxPage], 0)
    ensures var t := HearBoth(n, cap, bad, ImagePacket(u, n.rxPage, 3));
            t.version == u.to && t.file != u.image
  {
    OneMorePacket(N_PKT);
    SpoiledPageIff(n, bad, ImagePacket(u, n.rxPage, 3), u);
  }

  // A node that lacks the last packet of the last page.
  lemma AlmostCompleted(u: Upgrade, cap: nat) returns (t: System)
    requires ValidUpgrade(u) && Carries(u, cap) && |u.image| <= 128
    ensures Reaches(u, cap, Pair(u, u.image), t) && Inv(t, u) && |t.nodes| == 2 && Upgrading(t.nodes[1], u)
    ensures t.nodes[1].rxPage == |u.image| - 1
    ensures t.nodes[1].pages[|u.image| - 1].packetSet == FirstPackets(3)
    ensures Offered(t.net, u, |u.image| - 1)
  {
    var p := |u.image| - 1;
    var s := ServePages(u, cap, u.image, p);
    var r := AskAndAnswer(u, cap, Pair(u, u.image), s, p, true);
    t := TakePackets(u, cap, Pair(u, u.image), r, p, 3);
  }

  lemma SpoilLastPage(u: Upgrade, cap: nat)
    requires ValidUpgrade(u) && Carries(u, cap) && |u.image| <= 128
    ensures CanBeSpoiled(u, cap)
  {
    var p := |u.image| - 1;
    var t := AlmostCompleted(u, cap);
    var m := ImagePacket(u, p, 0);
    var bad := DamagedCopy(m);
    NodeSpoiled(t.nodes[1], bad, cap, u);
    hide PayloadCrc, HandlePacket, HearBoth, Reaches, Upgrading;
    assert Spoils(u, cap, Pair(u, u.image), t, 1, m, bad, ImagePacket(u, p, 3));
  }

  // ----- two upgrades at once -----

  lemma OldRequestTaken(n: Node, dest: Option<nat>, bits: Bits, u: Upgrade)
    requires ValidUpgrade(u) && NodeInv(n, u) && Upgrading(n, u)
    ensures var t := HandleRequest(n, Request(dest, u.from, n.rxPage, bits));
            && Shape(t, |u.image|) && t.file == n.file && t.pages == n.pages
            && t.txPage == ToS8(n.rxPage) && t.txSet == bits
  {
    CompletePrefix(n.pages, n.rxPage);
    hide BufferOk, Highest;
  }

  // A node in the middle of an upgrade still answers requests for its old
  // version, but labels the answer with the page's new version: what it sends
  // is right only if it sends nothing, or the old file already has those packets.
  lemma OldRequestIff(n: Node, dest: Option<nat>, bits: Bits, u: Upgrade)
    requires ValidUpgrade(u) && NodeInv(n, u) && Upgrading(n, u)
    ensures var t := HandleRequest(n, Request(dest, u.from, n.rxPage, bits));
            && Shape(t, |u.image|) && t.txPage < |u.image|
            && ((forall a :: a in TxPackets(t) ==> MsgInv(a, u)) <==>
                n.rxPage >= 128 ||
                forall k :: k in bits && k < N_PKT ==> Slice(n.file[n.rxPage], k) == Slice(u.image[n.rxPage], k))
  {
    var t := HandleRequest(n, Request(dest, u.from, n.rxPage, bits));
    OldRequestTaken(n, dest, bits, u);
    hide HandleRequest;
    if n.rxPage < 128 {
      PagePacketsIff(t, n.rxPage, u);
    }
  }

  lemma PagePacketsIff(t: Node, p: nat, u: Upgrade)
    requires ValidUpgrade(u) && Shape(t, |u.image|) && p < |u.image| && t.pages[p].version == u.to
    ensures (forall a :: a in PagePackets(t, p) ==> MsgInv(a, u)) <==>
            forall k :: k in t.txSet && k < N_PKT ==> Slice(t.file[p], k) == Slice(u.image[p], k)
  {
    forall k: nat | k in t.txSet && k < N_PKT
      ensures MsgInv(PacketOf(t, p, k), u) <==> Slice(t.file[p], k) == Slice(u.image[p], k)
      ensures PacketOf(t, p, k) in PagePackets(t, p)
    {
    }
  }

  ghost predicate Chain(run: seq<System>, steps: seq<Step>, npages: nat) {
    |run| == |steps| + 1 && forall k :: 0 <= k < |steps| ==> Follows(run[k], steps[k], run[k + 1], npages)
  }

  ghost predicate LeadsTo(start: System, s: System, npages: nat) {
    exists run, steps :: Chain(run, steps, npages) && run[0] == start && run[|steps|] == s
  }

  lemma ReceiveSane(n: Node, m: Msg, len: nat, hushed: bool, npages: nat)
    requires Shape(n, npages) && n.txPage < npages && WellFormed(m, npages)
    ensures Shape(Receive(n, m, len, hushed), npages) && Receive(n, m, len, hushed).txPage < npages
  {
    match m
    case Summary(_, _, _) =>
    case Request(_, _, _, _) =>
    case Packet(_, _, _, _, _) => PacketSane(n, m, npages);
    case Profile(_, _) =>
  }

  lemma CountKeepsPlace(n: Node, p: nat, k: nat)
    requires Shape(n, |n.pages|) && p < |n.pages|
    ensures CountPacket(n, p, k).txPage == n.txPage
  {
    hide Shape;
  }

  lemma PacketSane(n: Node, m: Msg, npages: nat)
    requires Shape(n, npages) && m.Packet? && WellFormed(m, npages)
    ensures Shape(HandlePacket(n, m), npages) && HandlePacket(n, m).txPage == n.txPage
  {
    hide CountPacket, Patch;
    CountKeepsPlace(Noted(n, m).(buffer := Patch(n.buffer, m.num, m.payload)), m.page, m.num);
  }

  lemma ActSane(s: System, step: Step, npages: nat)
    requires Sane(s, npages) && Enabled(s, step)
    ensures var (n, sent) := Act(s, step, npages);
            Shape(n, npages) && n.txPage < npages && forall m :: m in sent ==> WellFormed(m, npages)
  {
    match step
    case Deliver(i, m, len, hushed) =>
      ReceiveSane(s.nodes[i], m, len, hushed, npages);
      hide Receive;
    case RxFires(_) =>
    case TxFires(_) =>
    case Advertise(_) =>
    case SendProfile(_) =>
    case Round(_) =>
  }

  lemma GoOn(start: System, s: System, step: Step, npages: nat) returns (t: System)
    requires LeadsTo(start, s, npages) && Sane(s, npages) && Enabled(s, step)
    ensures Sane(t, npages) && LeadsTo(start, t, npages) && |t.nodes| == |s.nodes|
    ensures t.nodes[step.i] == Act(s, step, npages).0 && t.net == s.net + Act(s, step, npages).1
    ensures forall j :: 0 <= j < |s.nodes| && j != step.i ==> t.nodes[j] == s.nodes[j]
  {
    ActSane(s, step, npages);
    hide Act, Enabled, Shape, WellFormed;
    t := Apply(s, step, npages);
    var run, steps :| Chain(run, steps, npages) && run[0] == start && run[|steps|] == s;
    var run', steps' := run + [t], steps + [step];
    forall k | 0 <= k < |steps'|
      ensures Follows(run'[k], steps'[k], run'[k + 1], npages)
    {
      if k < |steps| {
        assert Follows(run[k], steps[k], run[k + 1], npages);
      }
    }
    assert Chain(run', steps', npages);
  }

  // Three nodes with three successive versions of a one-page file.
  ghost function Trio(a: Upgrade, b: Upgrade, f: Bytes): System {
    System([Fresh0(a.from, [f]), Fresh0(a.to, a.image), Fresh0(b.to, b.image)], {})
  }

  ghost predicate TwoUpgrades(a: Upgrade, b: Upgrade, f: Bytes) {
    ValidUpgrade(a) && ValidUpgrade(b) && |a.image| == |b.image| == 1 && a.to == b.from && |f| == S_PAGE
  }

  // One after the other, the nodes' profiles are called for.
  lemma TrioGreets(a: Upgrade, b: Upgrade, f: Bytes) returns (t: System)
    requires TwoUpgrades(a, b, f)
    ensures LeadsTo(Trio(a, b, f), t, 1) && Sane(t, 1) && |t.nodes| == 3
    ensures Profile(a.to, [a.to]) in t.net && Profile(b.to, [b.to]) in t.net
    ensures SameImage(Trio(a, b, f).nodes[0], t.nodes[0]) && SameImage(Trio(a, b, f).nodes[1], t.nodes[1])
    ensures t.nodes[1].txPage == 0 && t.nodes[1].txSet == {} && t.nodes[0].nrequests == 0 && t.nodes[1].recvAdv == 0
  {
    var start := Trio(a, b, f);
    assert Chain([start], [], 1);
    var heard := SummaryOf(start.nodes[0], 0);
    var t1 := GoOn(start, start, Advertise(0), 1);
    CompletePrefix(start.nodes[0].pages, 1);
    CompletePrefix(start.nodes[1].pages, 1);
    CompletePrefix(start.nodes[2].pages, 1);
    var t2 := GoOn(start, t1, Deliver(1, heard, SUMMARY_SIZE, false), 1);
    var t3 := GoOn(start, t2, Deliver(2, heard, SUMMARY_SIZE, false), 1);
    assert ProfileOf(t3.nodes[1]).vector == [a.to] && ProfileOf(t3.nodes[2]).vector == [b.to];
    var t4 := GoOn(start, t3, SendProfile(1), 1);
    t := GoOn(start, t4, SendProfile(2), 1);
  }

  // A node of a one-page file adopts a version, given a long enough profile.
  lemma AdoptVersion(start: System, s: System, i: nat, version: u8) returns (t: System)
    requires LeadsTo(start, s, 1) && Sane(s, 1) && i < |s.nodes| && Profile(version, [version]) in s.net
    requires s.nodes[i].updateVersion < version && s.nodes[i].pages[0].version < version
    ensures LeadsTo(start, t, 1) && Sane(t, 1) && |t.nodes| == |s.nodes| && t.net == s.net
    ensures forall j :: 0 <= j < |s.nodes| && j != i ==> t.nodes[j] == s.nodes[j]
    ensures Adopted(s.nodes[i], t.nodes[i], version)
  {
    var n := s.nodes[i];
    CompletePrefix(RenewAll(n.pages, [version]), 0);
    assert Adopted(n, Receive(n, Profile(version, [version]), PROFILE_HEADER + version, false), version);
    hide Receive, Adopted;
    t := GoOn(start, s, Deliver(i, Profile(version, [version]), PROFILE_HEADER + version, false), 1);
  }

  ghost predicate Adopted(n: Node, t: Node, version: u8) {
    && t.pages == [Page(version, {}, false)] && t.rxPage == 0 && t.updateVersion == version
    && t.version == n.version && t.file == n.file && t.txSet == {} && t.txPage == n.txPage && t.rxTimer
    && t.nrequests == n.nrequests
  }

  // A node that has adopted the version learns whom to ask.
  lemma HearSummary(n: Node, m: Msg)
    requires Shape(n, 1) && n.pages == [Page(n.updateVersion, {}, false)]
    requires m.Summary? && m.version == n.updateVersion && m.highest == 1
    ensures var t := Receive(n, m, SUMMARY_SIZE, false);
            SameImage(n, t) && t.summaryFrom == Some(m.sender) && t.rxTimer
  {
    CompletePrefix(n.pages, 0);
  }

  // Node 0 adopts the first upgrade and hears of node 1.
  lemma TrioMeets(a: Upgrade, b: Upgrade, f: Bytes) returns (t: System)
    requires TwoUpgrades(a, b, f)
    ensures LeadsTo(Trio(a, b, f), t, 1) && Sane(t, 1) && |t.nodes| == 3
    ensures Profile(b.to, [b.to]) in t.net && t.nodes[0].rxTimer && t.nodes[0].summaryFrom == Some(1)
    ensures t.nodes[0].updateVersion == a.to && t.nodes[0].version == a.from && t.nodes[0].rxPage == 0
    ensures t.nodes[0].pages == [Page(a.to, {}, false)]
    ensures SameImage(Trio(a, b, f).nodes[1], t.nodes[1]) && t.nodes[1].txPage == 0 && t.nodes[1].txSet == {}
  {
    var start := Trio(a, b, f);
    var s := TrioGreets(a, b, f);
    var t1 := AdoptVersion(start, s, 0, a.to);
    CompletePrefix(t1.nodes[1].pages, 1);
    var summary := SummaryOf(t1.nodes[1], 1);
    var t2 := GoOn(start, t1, Advertise(1), 1);
    HearSummary(t2.nodes[0], summary);
    hide Receive;
    t := GoOn(start, t2, Deliver(0, summary, SUMMARY_SIZE, false), 1);
  }

  // It asks for the page of the first upgrade; node 1 adopts the second.
  lemma TrioAsks(a: Upgrade, b: Upgrade, f: Bytes) returns (t: System)
    requires TwoUpgrades(a, b, f)
    ensures LeadsTo(Trio(a, b, f), t, 1) && Sane(t, 1) && |t.nodes| == 3
    ensures Request(Some(1), a.to, 0, BYTE_BITS) in t.net && Profile(b.to, [b.to]) in t.net
    ensures t.nodes[0].updateVersion == a.to && t.nodes[0].version == a.from
    ensures t.nodes[0].pages == [Page(a.to, {}, false)]
    ensures t.nodes[1].version == a.to && t.nodes[1].pages == [Page(b.to, {}, false)]
    ensures t.nodes[1].file == a.image && t.nodes[1].txPage == 0 && t.nodes[1].txSet == {}
  {
    var start := Trio(a, b, f);
    var t1 := TrioMeets(a, b, f);
    assert BYTE_BITS - {} == BYTE_BITS;
    assert RequestFor(t1.nodes[0]) == Request(Some(1), a.to, 0, BYTE_BITS);
    var t2 := GoOn(start, t1, RxFires(0), 1);
    t := AdoptVersion(start, t2, 1, b.to);
  }

  // Node 1 answers for the first upgrade, labelling its old page as the new version.
  lemma OldPageOffered(n: Node, version: u8, u: Upgrade)
    requires ValidUpgrade(u) && |u.image| == 1 && Shape(n, 1)
    requires n.version == version && n.pages == [Page(u.to, {}, false)] && n.file == u.image
    requires n.txPage == 0 && n.txSet == {}
    ensures var t := HandleRequest(n, Request(Some(1), version, 0, BYTE_BITS));
            && t.txTimer && t.txPage == 0 && Shape(t, 1)
            && Offered(TxPackets(t), u, 0)
  {
    CompletePrefix(n.pages, 0);
    var t := HandleRequest(n, Request(Some(1), version, 0, BYTE_BITS));
    assert t.txSet == BYTE_BITS;
    forall k: nat | k < N_PKT
      ensures ImagePacket(u, 0, k) in TxPackets(t)
    {
      assert k in BYTE_BITS && PacketOf(t, 0, k) == ImagePacket(u, 0, k);
    }
  }

  lemma TrioMislabels(a: Upgrade, b: Upgrade, f: Bytes) returns (t: System)
    requires TwoUpgrades(a, b, f)
    ensures LeadsTo(Trio(a, b, f), t, 1) && Sane(t, 1) && |t.nodes| == 3
    ensures Offered(t.net, Upgrade(a.image, a.from, b.to), 0)
    ensures t.nodes[0].updateVersion == b.to && t.nodes[0].version == a.from && t.nodes[0].rxPage == 0
    ensures t.nodes[0].pages == [Page(b.to, {}, false)] && t.nodes[0].txSet == {}
  {
    var start, u := Trio(a, b, f), Upgrade(a.image, a.from, b.to);
    var s := TrioAsks(a, b, f);
    OldPageOffered(s.nodes[1], a.to, u);
    hide HandleRequest, TxPackets;
    var t1 := GoOn(start, s, Deliver(1, Request(Some(1), a.to, 0, BYTE_BITS), REQUEST_SIZE, false), 1);
    var t2 := GoOn(start, t1, TxFires(1), 1);
    t := AdoptVersion(start, t2, 0, b.to);
  }

  lemma TakeOldPage(start: System, s: System, u: Upgrade, k: nat) returns (t: System)
    requires ValidUpgrade(u) && |u.image| == 1 && LeadsTo(start, s, 1) && Sane(s, 1) && |s.nodes| == 3
    requires Offered(s.net, u, 0) && k < N_PKT
    requires NodeInv(s.nodes[0], u) && Upgrading(s.nodes[0], u) && s.nodes[0].pages[0].packetSet == {}
    ensures LeadsTo(start, t, 1) && Sane(t, 1) && |t.nodes| == 3 && t.net == s.net
    ensures NodeInv(t.nodes[0], u) && Upgrading(t.nodes[0], u) && t.nodes[0].pages[0].packetSet == FirstPackets(k)
    decreases k
  {
    if k == 0 {
      t := s;
    } else {
      var r := TakeOldPage(start, s, u, k - 1);
      PacketTaken(r.nodes[0], u, k);
      hide Receive, FirstPackets;
      t := GoOn(start, r, Deliver(0, ImagePacket(u, 0, k - 1), PACKET_SIZE, false), 1);
    }
  }

  // Node 0 then adopts the second upgrade, takes the mislabelled page, and holds
  // the first image under the second version.
  lemma UpgradesMix(a: Upgrade, b: Upgrade, f: Bytes) returns (t: System)
    requires TwoUpgrades(a, b, f)
    ensures LeadsTo(Trio(a, b, f), t, 1) && |t.nodes| == 3
    ensures t.nodes[0].version == b.to && t.nodes[0].file == a.image
  {
    var start, u := Trio(a, b, f), Upgrade(a.image, a.from, b.to);
    var s := TrioMislabels(a, b, f);
    var r := TakeOldPage(start, s, u, 3);
    OneMorePacket(N_PKT);
    PageDoneKeeps(r.nodes[0], ImagePacket(u, 0, 3), u);
    hide HandlePacket;
    t := GoOn(start, r, Deliver(0, ImagePacket(u, 0, 3), PACKET_SIZE, false), 1);
  }
}

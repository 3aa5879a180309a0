// CoAP retransmission (RFC 7252, section 4.2): a pool of four transactions, resent
// with doubled waiting times until an answer arrives or the attempts are used up.
module Transactions {
  import opened Common

  const POOL_SIZE := 4
  const MAX_RETRANSMIT := 4

  // At 128 ticks a second: three seconds, and the spread of the first interval. The
  // macro behind the spread is not parenthesised, so its + 1 is added after the modulo.
  const TIMEOUT_TICKS := 384
  const BACKOFF_TICKS := 192

  // owner: the transaction for which the slot's callback was registered; opening a
  // transaction does not reset it.
  datatype Slot = Slot(mid: u16, counter: nat, interval: nat, owner: Option<nat>, con: bool, id: nat)

  // id numbers the transactions in the order they are opened; wait is the interval the
  // timer is started with, 0 for none.
  datatype Event =
    | Opened(id: nat, registers: bool)
    | Sent(id: nat, wait: nat)
    | Freed(id: nat)
    | Fired(id: nat, owner: nat)

  // The transaction of the request handled last: its slot, and its number.
  datatype Request = Request(slot: nat, id: nat)

  // open: the transaction list, as slot numbers. last: what coap_receive still points
  // to when the next datagram comes in.
  datatype State = State(pool: seq<Slot>, used: seq<bool>, open: seq<nat>, count: nat, log: seq<Event>,
                         last: Option<Request>)

  ghost predicate Shaped(s: State) {
    && |s.pool| == |s.used| == POOL_SIZE
    && (forall i :: 0 <= i < |s.open| ==> s.open[i] < POOL_SIZE)
    && (s.last.Some? ==> s.last.value.slot < POOL_SIZE)
  }

  function Remove(list: seq<nat>, k: nat): (r: seq<nat>)
    ensures |r| <= |list| && forall i :: 0 <= i < |r| ==> r[i] in list
  {
    if list == [] then []
    else if list[0] == k then list[1..]
    else [list[0]] + Remove(list[1..], k)
  }

  // ----- the operations -----

  function FirstInterval(random: nat): nat {
    TIMEOUT_TICKS + random % BACKOFF_TICKS + 1
  }

  // coap_clear_transaction: the slot is freed, its contents stay.
  function Clear(s: State, k: nat): (r: State)
    requires Shaped(s) && k < POOL_SIZE
    ensures Shaped(r) && !r.used[k]
  {
    s.(used := s.used[k := false], open := Remove(s.open, k), log := s.log + [Freed(s.pool[k].id)])
  }

  // The slot is cleared before its callback is called.
  function Close(s: State, k: nat): (r: State)
    requires Shaped(s) && k < POOL_SIZE
    ensures Shaped(r) && !r.used[k]
  {
    var t := s.pool[k];
    var cleared := Clear(s, k);
    if t.owner.Some? then cleared.(log := cleared.log + [Fired(t.id, t.owner.value)]) else cleared
  }

  // coap_send_transaction.
  function Send(s: State, k: nat, random: nat): (r: State)
    requires Shaped(s) && k < POOL_SIZE
    ensures Shaped(r) && (r.used[k] ==> r.open == s.open)
  {
    var t := s.pool[k];
    if t.con && t.counter < MAX_RETRANSMIT then
      var interval := if t.counter == 0 then FirstInterval(random) else 2 * t.interval;
      s.(pool := s.pool[k := t.(interval := interval)], log := s.log + [Sent(t.id, interval)])
    else
      var sent := s.(log := s.log + [Sent(t.id, 0)]);
      if t.con then Close(sent, k) else Clear(sent, k)
  }

  function FreeSlot(used: seq<bool>): (k: Option<nat>)
    ensures k.Some? ==> k.value < |used| && !used[k.value] && forall j :: 0 <= j < k.value ==> used[j]
    ensures k.None? ==> forall j :: 0 <= j < |used| ==> used[j]
  {
    if used == [] then None
    else
      var k := FreeSlot(used[..|used| - 1]);
      if k.Some? then k else if !used[|used| - 1] then Some(|used| - 1) else None
  }

  // coap_new_transaction.
  function New(s: State, k: nat, mid: u16, con: bool, registers: bool): State
    requires Shaped(s) && k < POOL_SIZE
  {
    var owner := if registers then Some(s.count) else s.pool[k].owner;
    var t := Slot(mid, 0, s.pool[k].interval, owner, con, s.count);
    State(s.pool[k := t], s.used[k := true], s.open + [k], s.count + 1, s.log + [Opened(s.count, registers)],
          s.last)
  }

  // Opening a transaction and sending it for the first time.
  function Open(s: State, mid: u16, con: bool, registers: bool, random: nat): State
    requires Shaped(s)
  {
    var k := FreeSlot(s.used);
    if k.None? then s else Send(New(s, k.value, mid, con, registers), k.value, random)
  }

  // coap_get_transaction_by_mid.
  function Find(s: State, mid: u16, i: nat): (k: Option<nat>)
    requires Shaped(s) && i <= |s.open|
    ensures k.Some? ==> k.value < POOL_SIZE && k.value in s.open && s.pool[k.value].mid == mid
    ensures k.None? ==> forall j :: i <= j < |s.open| ==> s.pool[s.open[j]].mid != mid
    decreases |s.open| - i
  {
    if i == |s.open| then None
    else if s.pool[s.open[i]].mid == mid then Some(s.open[i])
    else Find(s, mid, i + 1)
  }

  // The branch of coap_receive for anything but requests.
  function Receive(s: State, mid: u16): State
    requires Shaped(s)
  {
    var k := Find(s, mid, 0);
    (if k.None? then s else Close(s, k.value)).(last := None)
  }

  // The branch of coap_receive for requests: their transaction carries the answer, which
  // is never confirmable, unless handling the request fails or leaves no answer to send.
  function Serve(s: State, mid: u16, answered: bool): State
    requires Shaped(s)
  {
    var k := FreeSlot(s.used);
    if k.None? then s.(last := None)
    else
      var r := New(s, k.value, mid, false, false).(last := Some(Request(k.value, s.count)));
      if answered then Send(r, k.value, 0) else Clear(r, k.value)
  }

  // A datagram that is not parsed: the slot of the last request is cleared once more,
  // which has no effect on a free one.
  function Refuse(s: State): State
    requires Shaped(s)
  {
    if s.last.Some? && s.used[s.last.value.slot] then Clear(s, s.last.value.slot) else s
  }

  function Retry(s: State, k: nat): (r: State)
    requires Shaped(s) && k < POOL_SIZE
    ensures Shaped(r) && (r.used[k] ==> r.open == s.open)
  {
    Send(s.(pool := s.pool[k := s.pool[k].(counter := s.pool[k].counter + 1)]), k, 0)
  }

  // coap_check_transactions from list position i. Removing a transaction cuts the
  // walk short.
  function Check(s: State, expired: set<nat>, i: nat): State
    requires Shaped(s) && i <= |s.open|
    decreases |s.open| - i
  {
    if i == |s.open| then s
    else
      var k := s.open[i];
      if k !in expired then Check(s, expired, i + 1)
      else
        var r := Retry(s, k);
        if r.used[k] then Check(r, expired, i + 1) else r
  }

  datatype Step =
    | OpenStep(mid: u16, con: bool, registers: bool, random: nat)
    | ReceiveStep(mid: u16)
    | ServeStep(mid: u16, answered: bool)
    | RefuseStep
    | CheckStep(expired: set<nat>)

  function Act(s: State, step: Step): State
    requires Shaped(s)
  {
    match step
    case OpenStep(mid, con, registers, random) => Open(s, mid, con, registers, random)
    case ReceiveStep(mid) => Receive(s, mid)
    case ServeStep(mid, answered) => Serve(s, mid, answered)
    case RefuseStep => Refuse(s)
    case CheckStep(expired) => Check(s, expired, 0)
  }

  // ----- what is kept -----

  // The waiting times of one transaction, in order.
  function Waits(log: seq<Event>, id: nat): seq<nat> {
    if log == [] then []
    else
      var last := log[|log| - 1];
      Waits(log[..|log| - 1], id) + if last.Sent? && last.id == id then [last.wait] else []
  }

  function Frees(log: seq<Event>, id: nat): nat {
    if log == [] then 0
    else Frees(log[..|log| - 1], id) + if log[|log| - 1] == Freed(id) then 1 else 0
  }

  function Fires(log: seq<Event>, id: nat): nat {
    if log == [] then 0
    else
      var last := log[|log| - 1];
      Fires(log[..|log| - 1], id) + if last.Fired? && last.id == id then 1 else 0
  }

  // One unconfirmed message; or at most five, each but the fifth followed by a wait,
  // which doubles from one to the next.
  ghost predicate Regular(waits: seq<nat>) {
    waits == [0] ||
    (&& 1 <= |waits| <= MAX_RETRANSMIT + 1
     && TIMEOUT_TICKS < waits[0] <= TIMEOUT_TICKS + BACKOFF_TICKS
     && (forall i :: 0 < i < |waits| && i < MAX_RETRANSMIT ==> waits[i] == 2 * waits[i - 1])
     && (|waits| == MAX_RETRANSMIT + 1 ==> waits[MAX_RETRANSMIT] == 0))
  }

  ghost predicate Ordered(waits: seq<nat>) {
    waits == [] || Regular(waits)
  }

  // An open transaction: sent once more than it was retried, never freed or answered.
  ghost predicate Live(t: Slot, log: seq<Event>) {
    var waits := Waits(log, t.id);
    && t.con && t.counter < MAX_RETRANSMIT && |waits| == t.counter + 1 && Regular(waits) &&
       waits[t.counter] == t.interval > 0
    && Frees(log, t.id) == 0 && Fires(log, t.id) == 0
  }

  // A freed transaction, sent unless it belonged to a request that was not answered.
  ghost predicate Dead(id: nat, log: seq<Event>) {
    Ordered(Waits(log, id)) && Frees(log, id) == 1 && Fires(log, id) <= 1
  }

  ghost predicate Unborn(id: nat, log: seq<Event>) {
    Waits(log, id) == [] && Frees(log, id) == 0 && Fires(log, id) == 0
  }

  ghost predicate ListOk(s: State) {
    && Shaped(s)
    && (forall i, j :: 0 <= i < j < |s.open| ==> s.open[i] != s.open[j])
    && (forall k :: 0 <= k < POOL_SIZE ==> (s.used[k] <==> k in s.open))
  }

  ghost predicate Holds(s: State, id: nat)
    requires Shaped(s)
  {
    exists k :: 0 <= k < POOL_SIZE && s.used[k] && s.pool[k].id == id
  }

  ghost predicate IdsOk(s: State)
    requires Shaped(s)
  {
    && (forall k :: 0 <= k < POOL_SIZE && s.used[k] ==> s.pool[k].id < s.count)
    && forall j, k :: 0 <= j < k < POOL_SIZE && s.used[j] && s.used[k] ==> s.pool[j].id != s.pool[k].id
  }

  ghost predicate Inv(s: State) {
    && ListOk(s) && IdsOk(s)
    && (forall k :: 0 <= k < POOL_SIZE && s.used[k] ==> Live(s.pool[k], s.log))
    && (forall id :: 0 <= id < s.count && !Holds(s, id) ==> Dead(id, s.log))
    && (forall id :: id >= s.count ==> Unborn(id, s.log))
  }

  // ----- the log -----

  lemma Logged(log: seq<Event>, e: Event, id: nat)
    ensures Waits(log + [e], id) == Waits(log, id) + if e.Sent? && e.id == id then [e.wait] else []
    ensures Frees(log + [e], id) == Frees(log, id) + if e == Freed(id) then 1 else 0
    ensures Fires(log + [e], id) == Fires(log, id) + if e.Fired? && e.id == id then 1 else 0
  {
    assert (log + [e])[..|log|] == log;
  }

  // The two logs differ in what they say of one transaction only.
  ghost predicate SameButFor(before: seq<Event>, after: seq<Event>, id: nat) {
    forall x: nat :: x != id ==>
      Waits(after, x) == Waits(before, x) && Frees(after, x) == Frees(before, x) && Fires(after, x) == Fires(before, x)
  }

  lemma OneEvent(log: seq<Event>, e: Event, id: nat)
    requires e.id == id
    ensures SameButFor(log, log + [e], id)
  {
    forall x: nat | x != id
      ensures Waits(log + [e], x) == Waits(log, x) && Frees(log + [e], x) == Frees(log, x) &&
              Fires(log + [e], x) == Fires(log, x)
    {
      Logged(log, e, x);
    }
  }

  // ----- the list -----

  ghost predicate Distinct(list: seq<nat>) {
    forall i, j :: 0 <= i < j < |list| ==> list[i] != list[j]
  }

  lemma {:induction false} RemoveDistinct(list: seq<nat>, k: nat)
    requires Distinct(list)
    ensures Distinct(Remove(list, k))
    ensures forall x :: x in Remove(list, k) <==> x in list && x != k
    decreases |list|
  {
    if list == [] {
    } else if list[0] == k {
      assert forall x :: x in list[1..] <==> x in list && x != k;
    } else {
      RemoveDistinct(list[1..], k);
      var tail := Remove(list[1..], k);
      assert list[0] !in list[1..] && list == [list[0]] + list[1..];
      assert forall i :: 0 <= i < |tail| ==> tail[i] in tail;
    }
  }

  // ----- one transaction at a time -----

  // The invariant for everything but the transaction in slot k.
  ghost predicate InvBeside(s: State, k: nat) {
    && ListOk(s) && IdsOk(s) && k < POOL_SIZE && s.used[k]
    && (forall j :: 0 <= j < POOL_SIZE && j != k && s.used[j] ==> Live(s.pool[j], s.log))
    && (forall id :: 0 <= id < s.count && !Holds(s, id) ==> Dead(id, s.log))
    && (forall id :: id >= s.count ==> Unborn(id, s.log))
  }

  // A transaction about to be sent.
  ghost predicate Due(t: Slot, log: seq<Event>) {
    var waits := Waits(log, t.id);
    && |waits| == t.counter <= MAX_RETRANSMIT && Frees(log, t.id) == 0 && Fires(log, t.id) == 0
    && (t.counter > 0 ==> t.con && Regular(waits) && waits[t.counter - 1] == t.interval > 0)
  }

  lemma SlotSent(s: State, k: nat, t: Slot, log: seq<Event>)
    requires InvBeside(s, k) && t.id == s.pool[k].id && SameButFor(s.log, log, t.id) && Live(t, log)
    ensures Inv(s.(pool := s.pool[k := t], log := log))
  {
    hide Live, Dead, Unborn;
    var r := s.(pool := s.pool[k := t], log := log);
    forall j | 0 <= j < POOL_SIZE && r.used[j]
      ensures Live(r.pool[j], r.log)
    {
      if j != k {
        assert s.pool[j].id != t.id;
        LiveStays(s.pool[j], s.log, log, t.id);
      }
    }
    forall id | 0 <= id < s.count && !Holds(r, id)
      ensures Dead(id, r.log)
    {
      assert r.used[k] && r.pool[k].id == t.id;
      assert id != t.id;
      forall j | 0 <= j < POOL_SIZE && s.used[j]
        ensures s.pool[j].id != id
      {
        assert r.used[j] && (j != k ==> r.pool[j] == s.pool[j]);
      }
      OthersStay(id, s.log, log, t.id);
    }
    forall id | id >= s.count
      ensures Unborn(id, r.log)
    {
      OthersStay(id, s.log, log, t.id);
    }
  }

  lemma LiveStays(t: Slot, before: seq<Event>, after: seq<Event>, id: nat)
    requires Live(t, before) && SameButFor(before, after, id) && t.id != id
    ensures Live(t, after)
  {
  }

  lemma OthersStay(x: nat, before: seq<Event>, after: seq<Event>, id: nat)
    requires SameButFor(before, after, id) && x != id
    ensures Dead(x, before) ==> Dead(x, after)
    ensures Unborn(x, before) ==> Unborn(x, after)
  {
  }

  lemma SlotCleared(s: State, k: nat, log: seq<Event>)
    requires InvBeside(s, k) && SameButFor(s.log, log, s.pool[k].id) && Dead(s.pool[k].id, log)
    ensures Inv(s.(used := s.used[k := false], open := Remove(s.open, k), log := log))
  {
    hide Live, Dead, Unborn;
    var id0 := s.pool[k].id;
    RemoveDistinct(s.open, k);
    var r := s.(used := s.used[k := false], open := Remove(s.open, k), log := log);
    forall j | 0 <= j < POOL_SIZE && r.used[j]
      ensures Live(r.pool[j], r.log)
    {
      LiveStays(s.pool[j], s.log, log, id0);
    }
    forall id | 0 <= id < s.count && !Holds(r, id)
      ensures Dead(id, r.log)
    {
      if id != id0 {
        forall j | 0 <= j < POOL_SIZE && s.used[j]
          ensures s.pool[j].id != id
        {
          assert j != k ==> r.used[j];
        }
        OthersStay(id, s.log, log, id0);
      }
    }
    forall id | id >= s.count
      ensures Unborn(id, r.log)
    {
      OthersStay(id, s.log, log, id0);
    }
  }

  lemma RegularGrows(waits: seq<nat>, w: nat)
    requires waits == [] ==> TIMEOUT_TICKS < w <= TIMEOUT_TICKS + BACKOFF_TICKS
    requires waits != [] ==> Regular(waits) && waits[|waits| - 1] > 0 && |waits| <= MAX_RETRANSMIT
    requires 0 < |waits| < MAX_RETRANSMIT ==> w == 2 * waits[|waits| - 1]
    requires |waits| == MAX_RETRANSMIT ==> w == 0
    ensures Regular(waits + [w])
  {
  }

  lemma FirstRange(random: nat)
    ensures TIMEOUT_TICKS < FirstInterval(random) <= TIMEOUT_TICKS + BACKOFF_TICKS
  {
  }

  lemma ResentKeeps(s: State, k: nat, random: nat)
    requires InvBeside(s, k) && Due(s.pool[k], s.log) && s.pool[k].con && s.pool[k].counter < MAX_RETRANSMIT
    ensures Inv(Send(s, k, random))
  {
    var t := s.pool[k];
    hide InvBeside, Inv, Regular, SameButFor;
    FirstRange(random);
    hide FirstInterval;
    var interval := if t.counter == 0 then FirstInterval(random) else 2 * t.interval;
    var sent := t.(interval := interval);
    var log := s.log + [Sent(t.id, interval)];
    OneEvent(s.log, Sent(t.id, interval), t.id);
    Logged(s.log, Sent(t.id, interval), t.id);
    RegularGrows(Waits(s.log, t.id), interval);
    SlotSent(s, k, sent, log);
  }

  lemma SameTwice(a: seq<Event>, b: seq<Event>, c: seq<Event>, id: nat)
    requires SameButFor(a, b, id) && SameButFor(b, c, id)
    ensures SameButFor(a, c, id)
  {
  }

  // A transaction whose messages are in order so far is freed, and its callback called.
  lemma ClosedKeeps(s: State, k: nat, before: seq<Event>)
    requires InvBeside(s.(log := before), k) && SameButFor(before, s.log, s.pool[k].id)
    requires Ordered(Waits(s.log, s.pool[k].id)) && Frees(s.log, s.pool[k].id) == 0 && Fires(s.log, s.pool[k].id) == 0
    ensures Inv(Clear(s, k)) && Inv(Close(s, k))
  {
    hide Inv, Ordered, SameButFor;
    var t := s.pool[k];
    var cleared := s.log + [Freed(t.id)];
    Logged(s.log, Freed(t.id), t.id);
    OneEvent(s.log, Freed(t.id), t.id);
    SameTwice(before, s.log, cleared, t.id);
    assert Waits(cleared, t.id) == Waits(s.log, t.id);
    SlotCleared(s.(log := before), k, cleared);
    if t.owner.Some? {
      var fired := Fired(t.id, t.owner.value);
      Logged(cleared, fired, t.id);
      OneEvent(cleared, fired, t.id);
      SameTwice(before, cleared, cleared + [fired], t.id);
      assert Waits(cleared + [fired], t.id) == Waits(cleared, t.id);
      SlotCleared(s.(log := before), k, cleared + [fired]);
    }
  }

  lemma LastSendKeeps(s: State, k: nat, random: nat)
    requires InvBeside(s, k) && Due(s.pool[k], s.log)
    requires s.pool[k].counter == MAX_RETRANSMIT || (!s.pool[k].con && s.pool[k].counter == 0)
    ensures Inv(Send(s, k, random))
  {
    var t := s.pool[k];
    hide InvBeside, Inv, SameButFor;
    OneEvent(s.log, Sent(t.id, 0), t.id);
    Logged(s.log, Sent(t.id, 0), t.id);
    if t.counter == MAX_RETRANSMIT {
      RegularGrows(Waits(s.log, t.id), 0);
    }
    ClosedKeeps(s.(log := s.log + [Sent(t.id, 0)]), k, s.log);
  }

  lemma SendKeeps(s: State, k: nat, random: nat)
    requires InvBeside(s, k) && Due(s.pool[k], s.log)
    ensures Inv(Send(s, k, random))
  {
    var t := s.pool[k];
    hide InvBeside, Inv;
    if t.con && t.counter < MAX_RETRANSMIT {
      ResentKeeps(s, k, random);
    } else {
      LastSendKeeps(s, k, random);
    }
  }

  lemma LiveBeside(s: State, k: nat)
    requires Inv(s) && k < POOL_SIZE && s.used[k]
    ensures InvBeside(s, k) && Live(s.pool[k], s.log)
  {
    hide Live, Dead, Unborn;
  }

  lemma CloseKeeps(s: State, k: nat)
    requires Inv(s) && k < POOL_SIZE && s.used[k]
    ensures Inv(Close(s, k)) && Inv(Clear(s, k))
  {
    LiveBeside(s, k);
    assert SameButFor(s.log, s.log, s.pool[k].id);
    hide Inv, InvBeside, SameButFor;
    ClosedKeeps(s, k, s.log);
  }

  lemma RetryDue(s: State, k: nat)
    requires Inv(s) && k < POOL_SIZE && s.used[k]
    ensures var t := s.pool[k].(counter := s.pool[k].counter + 1);
            InvBeside(s.(pool := s.pool[k := t]), k) && Due(t, s.log)
  {
    hide Dead, Unborn;
    LiveBeside(s, k);
    var t := s.pool[k].(counter := s.pool[k].counter + 1);
    var r := s.(pool := s.pool[k := t]);
    assert Due(t, s.log);
    hide Live, Due;
    forall id | 0 <= id < s.count && !Holds(r, id)
      ensures !Holds(s, id)
    {
      forall j | 0 <= j < POOL_SIZE && s.used[j]
        ensures s.pool[j].id != id
      {
        assert r.used[j] && r.pool[j].id == s.pool[j].id;
      }
    }
  }

  lemma RetryKeeps(s: State, k: nat)
    requires Inv(s) && k < POOL_SIZE && s.used[k]
    ensures Inv(Retry(s, k))
  {
    var t := s.pool[k].(counter := s.pool[k].counter + 1);
    var r := s.(pool := s.pool[k := t]);
    assert Retry(s, k) == Send(r, k, 0) by {
      hide Inv, Send;
    }
    hide *;
    RetryDue(s, k);
    SendKeeps(r, k, 0);
  }

  // A new transaction, not yet sent.
  lemma NewKeeps(s: State, k: nat, mid: u16, con: bool, registers: bool)
    requires Inv(s) && k < POOL_SIZE && !s.used[k]
    ensures var r := New(s, k, mid, con, registers);
            InvBeside(r, k) && Due(r.pool[k], r.log)
  {
    var r := New(s, k, mid, con, registers);
    var id0 := s.count;
    OneEvent(s.log, Opened(id0, registers), id0);
    Logged(s.log, Opened(id0, registers), id0);
    assert Unborn(id0, s.log);
    hide Live, Dead, Unborn, SameButFor;
    assert ListOk(r);
    forall j | 0 <= j < POOL_SIZE && j != k && r.used[j]
      ensures Live(r.pool[j], r.log)
    {
      LiveStays(s.pool[j], s.log, r.log, id0);
    }
    forall id | 0 <= id < r.count && !Holds(r, id)
      ensures Dead(id, r.log)
    {
      assert r.used[k] && r.pool[k].id == id0;
      forall j | 0 <= j < POOL_SIZE && s.used[j]
        ensures s.pool[j].id != id
      {
        assert r.used[j] && r.pool[j] == s.pool[j];
      }
      OthersStay(id, s.log, r.log, id0);
    }
    forall id | id >= r.count
      ensures Unborn(id, r.log)
    {
      OthersStay(id, s.log, r.log, id0);
    }
  }

  lemma {:induction false} CheckKeeps(s: State, expired: set<nat>, i: nat)
    requires Inv(s) && i <= |s.open|
    ensures Inv(Check(s, expired, i))
    decreases |s.open| - i
  {
    hide IdsOk, Live, Dead, Unborn, Retry;
    if i < |s.open| {
      var k := s.open[i];
      assert k in s.open && s.used[k];
      hide Inv, ListOk;
      if k in expired {
        RetryKeeps(s, k);
        var r := Retry(s, k);
        if r.used[k] {
          CheckKeeps(r, expired, i + 1);
        }
      } else {
        CheckKeeps(s, expired, i + 1);
      }
    }
  }

  lemma InvShaped(s: State)
    requires Inv(s)
    ensures Shaped(s) && forall k :: 0 <= k < POOL_SIZE ==> (s.used[k] <==> k in s.open)
  {
  }

  // Nothing but what coap_receive points to is different.
  lemma LastKeeps(s: State, last: Option<Request>)
    requires Inv(s) && (last.Some? ==> last.value.slot < POOL_SIZE)
    ensures Inv(s.(last := last))
  {
    hide Live, Dead, Unborn;
    var r := s.(last := last);
    forall id | 0 <= id < s.count && !Holds(r, id)
      ensures Dead(id, r.log)
    {
      assert !Holds(s, id);
    }
  }

  lemma ServeKeeps(s: State, mid: u16, answered: bool)
    requires Inv(s)
    ensures Inv(Serve(s, mid, answered))
  {
    InvShaped(s);
    hide Inv, InvBeside, Send, New, Clear;
    var k := FreeSlot(s.used);
    if k.None? {
      LastKeeps(s, None);
    } else {
      LastKeeps(s, Some(Request(k.value, s.count)));
      var t := s.(last := Some(Request(k.value, s.count)));
      NewLast(s, k.value, mid, s.count);
      NewKeeps(t, k.value, mid, false, false);
      var r := New(t, k.value, mid, false, false);
      if answered {
        SendKeeps(r, k.value, 0);
      } else {
        NotSentKeeps(r, k.value);
      }
    }
  }

  lemma NewLast(s: State, k: nat, mid: u16, id: nat)
    requires Shaped(s) && k < POOL_SIZE
    ensures New(s, k, mid, false, false).(last := Some(Request(k, id))) ==
            New(s.(last := Some(Request(k, id))), k, mid, false, false)
    ensures New(s.(last := Some(Request(k, id))), k, mid, false, false).pool[k].counter == 0
  {
  }

  lemma NotSentKeeps(s: State, k: nat)
    requires InvBeside(s, k) && Due(s.pool[k], s.log) && s.pool[k].counter == 0
    ensures Inv(Clear(s, k))
  {
    assert SameButFor(s.log, s.log, s.pool[k].id);
    hide Inv, InvBeside, SameButFor;
    ClosedKeeps(s, k, s.log);
  }

  lemma ReceiveKeeps(s: State, mid: u16)
    requires Inv(s)
    ensures Inv(Receive(s, mid))
  {
    InvShaped(s);
    hide Inv, Close;
    var k := Find(s, mid, 0);
    if k.Some? {
      CloseKeeps(s, k.value);
    }
    LastKeeps(if k.None? then s else Close(s, k.value), None);
  }

  lemma ActKeeps(s: State, step: Step)
    requires Inv(s)
    ensures Inv(Act(s, step))
  {
    InvShaped(s);
    hide Inv, Check, Send, New, Close, Clear, Serve, Receive;
    match step
    case OpenStep(mid, con, registers, random) =>
      var k := FreeSlot(s.used);
      if k.Some? {
        NewKeeps(s, k.value, mid, con, registers);
        SendKeeps(New(s, k.value, mid, con, registers), k.value, random);
      }
    case ReceiveStep(mid) => ReceiveKeeps(s, mid);
    case ServeStep(mid, answered) => ServeKeeps(s, mid, answered);
    case RefuseStep =>
      if s.last.Some? && s.used[s.last.value.slot] {
        CloseKeeps(s, s.last.value.slot);
      }
    case CheckStep(expired) => CheckKeeps(s, expired, 0);
  }

  // ----- runs -----

  // Nothing open; what the slots hold is arbitrary, but without callbacks.
  ghost predicate Initial(s: State) {
    && |s.pool| == POOL_SIZE && (forall k :: 0 <= k < POOL_SIZE ==> s.pool[k].owner == None)
    && s.used == [false, false, false, false] && s.open == [] && s.count == 0 && s.log == [] && s.last == None
  }

  ghost function RunFrom(s: State, steps: seq<Step>): (r: State)
    requires Inv(s)
    ensures Inv(r)
  {
    if steps == [] then s
    else
      var before := RunFrom(s, steps[..|steps| - 1]);
      ActKeeps(before, steps[|steps| - 1]);
      InvShaped(before);
      Act(before, steps[|steps| - 1])
  }

  lemma InitialInv(s: State)
    requires Initial(s)
    ensures Inv(s)
  {
  }

  const SLOTS: set<nat> := {0, 1, 2, 3}

  ghost function FreeSlots(s: State): set<nat>
    requires Shaped(s)
  {
    set k | k in SLOTS && !s.used[k]
  }

  function Members(list: seq<nat>): set<nat> {
    set k | k in list
  }

  lemma {:induction false} DistinctCount(list: seq<nat>)
    requires Distinct(list)
    ensures |Members(list)| == |list|
    decreases |list|
  {
    if list != [] {
      var n := |list| - 1;
      DistinctCount(list[..n]);
      assert list == list[..n] + [list[n]];
      assert Members(list) == Members(list[..n]) + {list[n]};
      assert list[n] !in list[..n];
    }
  }

  lemma BusyOrFree(s: State)
    requires ListOk(s)
    ensures FreeSlots(s) + Members(s.open) == SLOTS && FreeSlots(s) !! Members(s.open)
  {
    forall k | k in SLOTS
      ensures k in FreeSlots(s) <==> k !in Members(s.open)
    {
      assert s.used[k] <==> k in s.open;
    }
  }

  lemma DisjointCount(a: set<nat>, b: set<nat>)
    requires a !! b && a + b == SLOTS
    ensures |a| + |b| == POOL_SIZE
  {
    assert |SLOTS| == POOL_SIZE;
  }

  // Free slots and open transactions always make up the pool.
  lemma PoolConserved(s: State)
    requires Inv(s)
    ensures |FreeSlots(s)| + |s.open| == POOL_SIZE
  {
    assert Distinct(s.open);
    hide Live, Dead, Unborn, IdsOk;
    BusyOrFree(s);
    hide *;
    DistinctCount(s.open);
    DisjointCount(FreeSlots(s), Members(s.open));
  }

  // In every run: no message for a request left without an answer, one if unconfirmed,
  // at most five with doubling waits if confirmable; freed at most once, and answered at most once and only when freed.
  // After the fifth message no answer is waited for: the transaction is already freed.
  lemma RunSafe(s: State, steps: seq<Step>, id: nat)
    requires Initial(s)
    ensures Inv(s)
    ensures var r := RunFrom(s, steps);
            && |FreeSlots(r)| + |r.open| == POOL_SIZE
            && (id < r.count ==> Ordered(Waits(r.log, id)))
            && Fires(r.log, id) <= Frees(r.log, id) <= 1
            && (|Waits(r.log, id)| == MAX_RETRANSMIT + 1 ==> Frees(r.log, id) == 1)
            && (Frees(r.log, id) == 1 <==> id < r.count && !Holds(r, id))
  {
    InitialInv(s);
    var r := RunFrom(s, steps);
    PoolConserved(r);
    hide Initial, ListOk, IdsOk, Regular;
    if id < r.count && Holds(r, id) {
      var k :| 0 <= k < POOL_SIZE && r.used[k] && r.pool[k].id == id;
      assert Live(r.pool[k], r.log);
    } else if id < r.count {
      assert Dead(id, r.log);
    } else {
      assert Unborn(id, r.log);
      forall k | 0 <= k < POOL_SIZE && r.used[k]
        ensures r.pool[k].id != id
      {
        IdBelow(r, k);
      }
    }
  }

  lemma IdBelow(s: State, k: nat)
    requires Inv(s) && k < POOL_SIZE && s.used[k]
    ensures s.pool[k].id < s.count
  {
  }

  // ----- whose callback is called -----

  ghost predicate OwnersOk(s: State) {
    && Shaped(s)
    && (forall id: nat, b :: Opened(id, b) in s.log ==> id < s.count)
    && (forall k :: 0 <= k < POOL_SIZE && s.pool[k].owner.Some? ==> s.pool[k].owner.value < s.count)
    && (forall k :: 0 <= k < POOL_SIZE && s.used[k] ==>
          OwnerOk(s.pool[k].id, s.pool[k].owner, s.log) && s.pool[k].id < s.count)
    && (forall id: nat, o: nat :: Fired(id, o) in s.log ==> OwnerOk(id, Some(o), s.log) && id < s.count)
  }

  // The callback is the transaction's own exactly when it registered one; otherwise it
  // is an earlier one's.
  ghost predicate OwnerOk(id: nat, owner: Option<nat>, log: seq<Event>) {
    && (owner == Some(id) <==> Opened(id, true) in log)
    && (owner.Some? ==> owner.value <= id)
  }

  lemma ClosedOwners(s: State, k: nat)
    requires OwnersOk(s) && k < POOL_SIZE && s.used[k]
    ensures OwnersOk(Clear(s, k)) && OwnersOk(Close(s, k))
  {
  }

  lemma SentOwners(s: State, k: nat, random: nat)
    requires OwnersOk(s) && k < POOL_SIZE && s.used[k]
    ensures OwnersOk(Send(s, k, random))
  {
    var t := s.pool[k];
    var sent := s.(log := s.log + [Sent(t.id, 0)]);
    assert OwnersOk(sent);
    ClosedOwners(sent, k);
    hide Close;
  }

  lemma NewOwners(s: State, k: nat, mid: u16, con: bool, registers: bool)
    requires OwnersOk(s) && k < POOL_SIZE
    ensures OwnersOk(New(s, k, mid, con, registers))
  {
    var r := New(s, k, mid, con, registers);
    forall id: nat | id < s.count
      ensures Opened(id, true) in r.log <==> Opened(id, true) in s.log
    {
    }
  }

  lemma {:induction false} CheckOwners(s: State, expired: set<nat>, i: nat)
    requires OwnersOk(s) && i <= |s.open| && Inv(s)
    ensures OwnersOk(Check(s, expired, i))
    decreases |s.open| - i
  {
    hide OwnersOk;
    InvShaped(s);
    if i < |s.open| {
      var k := s.open[i];
      assert k in s.open && s.used[k];
      hide Inv;
      if k in expired {
        RetryKeeps(s, k);
        RetryOwners(s, k);
        var r := Retry(s, k);
        if r.used[k] {
          CheckOwners(r, expired, i + 1);
        }
      } else {
        CheckOwners(s, expired, i + 1);
      }
    }
  }

  lemma RetryOwners(s: State, k: nat)
    requires OwnersOk(s) && k < POOL_SIZE && s.used[k]
    ensures OwnersOk(Retry(s, k))
  {
    var r := s.(pool := s.pool[k := s.pool[k].(counter := s.pool[k].counter + 1)]);
    assert OwnersOk(r);
    hide OwnersOk;
    SentOwners(r, k, 0);
  }

  lemma LastOwners(s: State, last: Option<Request>)
    requires OwnersOk(s) && (last.Some? ==> last.value.slot < POOL_SIZE)
    ensures OwnersOk(s.(last := last))
  {
  }

  lemma ReceiveOwners(s: State, mid: u16)
    requires OwnersOk(s) && Inv(s)
    ensures OwnersOk(Receive(s, mid))
  {
    InvShaped(s);
    hide Inv, OwnersOk, Close;
    var k := Find(s, mid, 0);
    if k.Some? {
      ClosedOwners(s, k.value);
    }
    LastOwners(if k.None? then s else Close(s, k.value), None);
  }

  lemma ServeOwners(s: State, mid: u16, answered: bool)
    requires OwnersOk(s) && Shaped(s)
    ensures OwnersOk(Serve(s, mid, answered))
  {
    hide OwnersOk, Send, New, Clear;
    var k := FreeSlot(s.used);
    if k.None? {
      LastOwners(s, None);
    } else {
      NewOwners(s, k.value, mid, false, false);
      NewUsed(s, k.value, mid, false, false);
      var last := Some(Request(k.value, s.count));
      LastOwners(New(s, k.value, mid, false, false), last);
      SentOwners(New(s, k.value, mid, false, false).(last := last), k.value, 0);
      ClosedOwners(New(s, k.value, mid, false, false).(last := last), k.value);
    }
  }

  lemma ActOwners(s: State, step: Step)
    requires OwnersOk(s) && Inv(s)
    ensures OwnersOk(Act(s, step))
  {
    InvShaped(s);
    hide Inv, Check, OwnersOk, Send, New, Close, Clear, Serve, Receive;
    match step
    case OpenStep(mid, con, registers, random) =>
      var k := FreeSlot(s.used);
      if k.Some? {
        NewOwners(s, k.value, mid, con, registers);
        NewUsed(s, k.value, mid, con, registers);
        SentOwners(New(s, k.value, mid, con, registers), k.value, random);
      }
    case ReceiveStep(mid) => ReceiveOwners(s, mid);
    case ServeStep(mid, answered) => ServeOwners(s, mid, answered);
    case RefuseStep =>
      if s.last.Some? && s.used[s.last.value.slot] {
        ClosedOwners(s, s.last.value.slot);
      }
    case CheckStep(expired) => CheckOwners(s, expired, 0);
  }

  lemma NewUsed(s: State, k: nat, mid: u16, con: bool, registers: bool)
    requires Shaped(s) && k < POOL_SIZE
    ensures Shaped(New(s, k, mid, con, registers)) && New(s, k, mid, con, registers).used[k]
  {
  }

  lemma {:induction false} RunOwners(s: State, steps: seq<Step>)
    requires Initial(s) && Inv(s)
    ensures OwnersOk(RunFrom(s, steps))
  {
    if steps != [] {
      RunOwners(s, steps[..|steps| - 1]);
      ActOwners(RunFrom(s, steps[..|steps| - 1]), steps[|steps| - 1]);
    }
  }

  // A callback that is called was registered for the answered transaction exactly when
  // that transaction registered one at all.
  lemma OwnCallbackIff(s: State, steps: seq<Step>, id: nat, owner: nat)
    requires Initial(s)
    ensures Inv(s)
    ensures var log := RunFrom(s, steps).log;
            Fired(id, owner) in log ==> (owner == id <==> Opened(id, true) in log) && owner <= id
  {
    InitialInv(s);
    RunOwners(s, steps);
  }

  lemma FirstFree(used: seq<bool>)
    requires used == [false, false, false, false]
    ensures FreeSlot(used) == Some(0)
  {
    assert FreeSlot([false]) == Some(0) && FreeSlot([false, false]) == Some(0) by {
      assert [false][..0] == [] && [false, false][..1] == [false];
    }
    assert used[..3][..2] == [false, false] && used[..3] == [false, false, false];
  }

  lemma OpenedAlone(s: State, mid: u16, registers: bool, random: nat)
    requires Shaped(s) && s.used == [false, false, false, false] && s.open == []
    ensures var r := Open(s, mid, true, registers, random);
            && Shaped(r) && r.used == [true, false, false, false] && r.open == [0] && r.count == s.count + 1
            && r.pool[0].mid == mid && r.pool[0].id == s.count && r.last == s.last
            && r.pool[0].owner == (if registers then Some(s.count) else s.pool[0].owner)
  {
    FirstFree(s.used);
    hide FirstInterval, FreeSlot;
  }

  lemma ClosedAlone(s: State, mid: u16)
    requires Shaped(s) && s.used == [true, false, false, false] && s.open == [0] && s.pool[0].mid == mid
    ensures var r := Receive(s, mid);
            && Shaped(r) && r.used == [false, false, false, false] && r.open == [] && r.count == s.count &&
               r.pool == s.pool
            && r.log == s.log + [Freed(s.pool[0].id)] +
                 if s.pool[0].owner.Some? then [Fired(s.pool[0].id, s.pool[0].owner.value)] else []
  {
    assert Find(s, mid, 0) == Some(0);
  }

  lemma RunSnoc(s: State, steps: seq<Step>, step: Step)
    requires Inv(s)
    ensures Inv(RunFrom(s, steps)) && Shaped(RunFrom(s, steps))
    ensures RunFrom(s, steps + [step]) == Act(RunFrom(s, steps), step)
  {
    assert (steps + [step])[..|steps|] == steps;
    InvShaped(RunFrom(s, steps));
  }

  lemma RunFour(s: State, a: Step, b: Step, c: Step, d: Step)
    requires Inv(s)
    ensures Shaped(s) && Shaped(Act(s, a)) && Shaped(Act(Act(s, a), b)) && Shaped(Act(Act(Act(s, a), b), c))
    ensures RunFrom(s, [a, b, c, d]) == Act(Act(Act(Act(s, a), b), c), d)
  {
    assert RunFrom(s, []) == s;
    assert [] + [a] == [a] && [a] + [b] == [a, b] && [a, b] + [c] == [a, b, c] && [a, b, c] + [d] == [a, b, c, d];
    hide *;
    RunSnoc(s, [], a);
    RunSnoc(s, [a], b);
    RunSnoc(s, [a, b], c);
    RunSnoc(s, [a, b, c], d);
  }

  ghost predicate Empty(s: State) {
    Shaped(s) && s.used == [false, false, false, false] && s.open == []
  }

  // A transaction sent in an empty pool and answered.
  lemma Exchange(s: State, mid: u16, registers: bool, random: nat)
    requires Empty(s)
    ensures var sent := Open(s, mid, true, registers, random);
            && Shaped(sent)
            && var r := Receive(sent, mid);
               && Empty(r) && r.count == s.count + 1
               && r.pool[0].owner == (if registers then Some(s.count) else s.pool[0].owner)
               && (r.pool[0].owner.Some? ==> Fired(s.count, r.pool[0].owner.value) in r.log)
  {
    hide Open, Receive, Shaped;
    OpenedAlone(s, mid, registers, random);
    ClosedAlone(Open(s, mid, true, registers, random), mid);
  }

  lemma TwoExchanges(s: State, mid1: u16, mid2: u16, random: nat)
    requires Empty(s) && s.count == 0
    ensures Shaped(Open(s, mid1, true, true, random))
    ensures var s2 := Receive(Open(s, mid1, true, true, random), mid1);
            && Shaped(s2) && Shaped(Open(s2, mid2, true, false, random))
            && Fired(1, 0) in Receive(Open(s2, mid2, true, false, random), mid2).log
  {
    hide Open, Receive;
    Exchange(s, mid1, true, random);
    Exchange(Receive(Open(s, mid1, true, true, random), mid1), mid2, false, random);
  }

  // A transaction without a callback takes over its slot's last one: here the callback
  // of the first transaction is called for the second.
  lemma StaleCallback(s: State, mid1: u16, mid2: u16, random: nat)
    requires Initial(s)
    ensures Inv(s)
    ensures var steps := [OpenStep(mid1, true, true, random), ReceiveStep(mid1),
                          OpenStep(mid2, true, false, random), ReceiveStep(mid2)];
            Fired(1, 0) in RunFrom(s, steps).log
  {
    InitialInv(s);
    assert Empty(s) && s.count == 0;
    hide Inv, Initial, Shaped, Open, Receive, RunFrom, Empty;
    RunFour(s, OpenStep(mid1, true, true, random), ReceiveStep(mid1), OpenStep(mid2, true, false, random),
            ReceiveStep(mid2));
    TwoExchanges(s, mid1, mid2, random);
  }
}

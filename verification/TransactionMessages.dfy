// When messages are sent: which open transactions one look at the expired timers
// resends, and, over whole runs, when a transaction's n-th message goes out and with
// which wait behind it.
module TransactionMessages {
  import opened Common
  import opened Transactions
  import opened TransactionEnds

  // Only the last attempt is left to the transaction in slot k.
  ghost predicate UsedUp(s: State, k: nat)
    requires Shaped(s) && k < POOL_SIZE
  {
    |Waits(s.log, s.pool[k].id)| == MAX_RETRANSMIT
  }

  // The walk from list position i comes to position j: no expired transaction before it
  // is on its last attempt.
  ghost predicate Comes(s: State, expired: set<nat>, i: nat, j: nat)
    requires Shaped(s) && j <= |s.open|
  {
    forall m :: i <= m < j ==> s.open[m] !in expired || !UsedUp(s, s.open[m])
  }

  ghost predicate ResentAt(s: State, expired: set<nat>, i: nat, id: nat, j: nat)
    requires Shaped(s) && j < |s.open|
  {
    s.open[j] in expired && s.pool[s.open[j]].id == id && Comes(s, expired, i, j)
  }

  ghost predicate ResentFrom(s: State, expired: set<nat>, i: nat, id: nat)
    requires Shaped(s)
  {
    exists j :: i <= j < |s.open| && ResentAt(s, expired, i, id, j)
  }

  // The wait behind the next message: doubled, and none behind the fifth.
  function NextWait(waits: seq<nat>): nat
    requires waits != []
  {
    if |waits| < MAX_RETRANSMIT then 2 * waits[|waits| - 1] else 0
  }

  lemma LiveWaits(s: State, k: nat)
    requires Inv(s) && k < POOL_SIZE && s.used[k]
    ensures var t, waits := s.pool[k], Waits(s.log, s.pool[k].id);
            t.con && |waits| == t.counter + 1 <= MAX_RETRANSMIT && waits[t.counter] == t.interval
  {
    LiveBeside(s, k);
  }

  lemma SentWaits(s: State, k: nat, random: nat, id: nat)
    requires Shaped(s) && k < POOL_SIZE
    ensures var t, r := s.pool[k], Send(s, k, random);
            && Waits(r.log, id) == Waits(s.log, id) +
                 (if id != t.id then []
                  else if t.con && t.counter < MAX_RETRANSMIT
                  then [if t.counter == 0 then FirstInterval(random) else 2 * t.interval]
                  else [0])
            && (r.used[k] ==> r == s.(pool := r.pool, log := r.log) && r.pool == s.pool[k := r.pool[k]] &&
                              r.pool[k].id == t.id)
            && (t.con && t.counter < MAX_RETRANSMIT ==> r.used == s.used)
            && (!(t.con && t.counter < MAX_RETRANSMIT) ==> !r.used[k])
  {
    var t := s.pool[k];
    SendAccount(s, k, random, id);
    hide Frees, Fires, FirstInterval;
    if t.con && t.counter < MAX_RETRANSMIT {
      Logged(s.log, Sent(t.id, Send(s, k, random).pool[k].interval), id);
    }
  }

  lemma RetryWaits(s: State, k: nat, id: nat)
    requires Inv(s) && k < POOL_SIZE && s.used[k]
    ensures Shaped(s)
    ensures var t, r := s.pool[k], Retry(s, k);
            && Waits(s.log, t.id) != []
            && Waits(r.log, id) == Waits(s.log, id) + (if id == t.id then [NextWait(Waits(s.log, id))] else [])
            && (r.used[k] <==> !UsedUp(s, k))
            && (r.used[k] ==> r.open == s.open && r.used == s.used && r.pool == s.pool[k := r.pool[k]] &&
                              r.pool[k].id == t.id)
  {
    LiveWaits(s, k);
    var t := s.pool[k].(counter := s.pool[k].counter + 1);
    hide Inv, Waits;
    SentWaits(s.(pool := s.pool[k := t]), k, 0, id);
  }

  lemma OpenOnce(s: State, i: nat, j: nat)
    requires Inv(s) && i < j < |s.open|
    ensures Shaped(s) && s.open[i] != s.open[j] && s.used[s.open[i]] && s.used[s.open[j]]
    ensures s.pool[s.open[i]].id != s.pool[s.open[j]].id
  {
    assert s.open[i] in s.open && s.open[j] in s.open;
  }

  // An entry that is not resent does not stop the walk.
  lemma PassedOver(s: State, expired: set<nat>, i: nat, id: nat)
    requires Shaped(s) && i < |s.open| && s.open[i] !in expired
    ensures ResentFrom(s, expired, i, id) <==> ResentFrom(s, expired, i + 1, id)
  {
    if ResentFrom(s, expired, i, id) {
      var j :| i <= j < |s.open| && ResentAt(s, expired, i, id, j);
      assert ResentAt(s, expired, i + 1, id, j);
    }
    if ResentFrom(s, expired, i + 1, id) {
      var j :| i + 1 <= j < |s.open| && ResentAt(s, expired, i + 1, id, j);
      assert ResentAt(s, expired, i, id, j);
    }
  }

  // Nor does one that is resent with attempts left.
  lemma ResentPassed(s: State, r: State, expired: set<nat>, i: nat, id: nat)
    requires Shaped(s) && Shaped(r) && i < |s.open| && r.open == s.open && !UsedUp(s, s.open[i])
    requires s.pool[s.open[i]].id != id
    requires forall j :: i < j < |s.open| ==>
      r.pool[s.open[j]].id == s.pool[s.open[j]].id && (UsedUp(r, s.open[j]) <==> UsedUp(s, s.open[j]))
    ensures ResentFrom(s, expired, i, id) <==> ResentFrom(r, expired, i + 1, id)
  {
    hide UsedUp;
    if ResentFrom(s, expired, i, id) {
      var j :| i <= j < |s.open| && ResentAt(s, expired, i, id, j);
      assert ResentAt(r, expired, i + 1, id, j);
    }
    if ResentFrom(r, expired, i + 1, id) {
      var j :| i + 1 <= j < |s.open| && ResentAt(r, expired, i + 1, id, j);
      assert ResentAt(s, expired, i, id, j);
    }
  }

  // What the walk from list position i sends of one transaction.
  ghost predicate Spoken(s: State, expired: set<nat>, i: nat, id: nat)
    requires Shaped(s) && i <= |s.open|
  {
    var waits := Waits(s.log, id);
    && (ResentFrom(s, expired, i, id) ==> waits != [])
    && Waits(Check(s, expired, i).log, id) ==
       waits + if ResentFrom(s, expired, i, id) then [NextWait(waits)] else []
  }

  lemma SpokenRetry(s: State, expired: set<nat>, i: nat, id: nat)
    requires Inv(s) && Shaped(s) && i < |s.open| && s.used[s.open[i]] && s.open[i] in expired
    requires var r := Retry(s, s.open[i]);
             r.used[s.open[i]] ==> Inv(r) && Spoken(r, expired, i + 1, id)
    ensures Spoken(s, expired, i, id)
  {
    var k := s.open[i];
    var r := Retry(s, k);
    WalkStep(s, expired, i);
    RetryWaits(s, k, id);
    WalkedTo(s, expired, i, id);
    if r.used[k] {
      if s.pool[k].id == id {
        NotTwice(r, expired, i, id);
      } else {
        RetriedPassed(s, expired, i, id);
      }
    }
    hide Inv, Shaped, Check, Retry, Waits, NextWait, ResentFrom, UsedUp;
  }

  lemma RetriedPassed(s: State, expired: set<nat>, i: nat, id: nat)
    requires Inv(s) && Shaped(s) && i < |s.open| && s.used[s.open[i]] && s.pool[s.open[i]].id != id
    requires Retry(s, s.open[i]).used[s.open[i]]
    ensures ResentFrom(s, expired, i, id) <==> ResentFrom(Retry(s, s.open[i]), expired, i + 1, id)
  {
    var k := s.open[i];
    var r := Retry(s, k);
    hide Inv, Retry, Waits, ResentFrom;
    RetryWaits(s, k, id);
    forall j | i < j < |s.open|
      ensures r.pool[s.open[j]].id == s.pool[s.open[j]].id && (UsedUp(r, s.open[j]) <==> UsedUp(s, s.open[j]))
    {
      OpenOnce(s, i, j);
      RetryWaits(s, k, s.pool[s.open[j]].id);
    }
    ResentPassed(s, r, expired, i, id);
  }

  lemma {:induction false} WalkMessages(s: State, expired: set<nat>, i: nat, id: nat)
    requires Inv(s) && i <= |s.open|
    ensures Shaped(s) && Spoken(s, expired, i, id)
    decreases |s.open| - i
  {
    InvShaped(s);
    if i == |s.open| {
      WalkStep(s, expired, i);
      NothingLeft(s, expired, id);
    } else if s.open[i] !in expired {
      hide Inv, ResentFrom;
      WalkStep(s, expired, i);
      PassedOver(s, expired, i, id);
      WalkMessages(s, expired, i + 1, id);
      hide Check, Waits, NextWait;
    } else {
      hide Inv, Retry, Spoken;
      var k := s.open[i];
      assert k in s.open;
      RetryKeeps(s, k);
      RetryWaits(s, k, id);
      if Retry(s, k).used[k] {
        WalkMessages(Retry(s, k), expired, i + 1, id);
      }
      SpokenRetry(s, expired, i, id);
    }
  }

  lemma NothingLeft(s: State, expired: set<nat>, id: nat)
    requires Shaped(s)
    ensures !ResentFrom(s, expired, |s.open|, id)
  {
  }

  // The entry the walk stands at is resent if it has expired; if its attempts are used
  // up, no other one is.
  lemma WalkedTo(s: State, expired: set<nat>, i: nat, id: nat)
    requires Shaped(s) && i < |s.open| && s.open[i] in expired
    ensures s.pool[s.open[i]].id == id ==> ResentFrom(s, expired, i, id)
    ensures UsedUp(s, s.open[i]) && s.pool[s.open[i]].id != id ==> !ResentFrom(s, expired, i, id)
  {
    hide UsedUp;
    if s.pool[s.open[i]].id == id {
      assert ResentAt(s, expired, i, id, i);
    }
  }

  lemma NotTwice(s: State, expired: set<nat>, i: nat, id: nat)
    requires Inv(s) && Shaped(s) && i < |s.open| && s.pool[s.open[i]].id == id
    ensures !ResentFrom(s, expired, i + 1, id)
  {
    hide Inv;
    forall j | i < j < |s.open|
      ensures s.pool[s.open[j]].id != id
    {
      OpenOnce(s, i, j);
    }
  }

  // ----- one step -----

  // The step sends a message of the transaction: its first one, when it is opened in a
  // slot that is free, or a further one.
  ghost predicate Sends(s: State, step: Step, id: nat)
    requires Shaped(s)
  {
    match step
    case OpenStep(_, _, _, _) => id == s.count && |s.open| < POOL_SIZE
    case ServeStep(_, answered) => id == s.count && |s.open| < POOL_SIZE && answered
    case CheckStep(expired) => ResentFrom(s, expired, 0, id)
    case _ => false
  }

  // The wait behind that message.
  function WaitBehind(step: Step, waits: seq<nat>): nat {
    match step
    case OpenStep(_, con, _, random) => if con then TIMEOUT_TICKS + random % BACKOFF_TICKS + 1 else 0
    case CheckStep(_) => if waits != [] then NextWait(waits) else 0
    case _ => 0
  }

  lemma RoomIff(s: State)
    requires Inv(s)
    ensures Shaped(s) && (FreeSlot(s.used).Some? <==> |s.open| < POOL_SIZE)
  {
    InvShaped(s);
    PoolConserved(s);
    hide Inv, FreeSlot;
    var k := FreeSlot(s.used);
    if k.Some? {
      assert k.value in FreeSlots(s);
      assert |FreeSlots(s)| != 0;
    } else {
      assert FreeSlots(s) == {};
    }
  }

  lemma FirstMessage(s: State, k: nat, random: nat, id: nat)
    requires Shaped(s) && k < POOL_SIZE && s.pool[k].counter == 0
    ensures Waits(Send(s, k, random).log, id) ==
            Waits(s.log, id) +
            if id == s.pool[k].id
            then [if s.pool[k].con then TIMEOUT_TICKS + random % BACKOFF_TICKS + 1 else 0]
            else []
  {
    SentWaits(s, k, random, id);
    hide Send, Waits;
  }

  lemma NewSlot(s: State, k: nat, mid: u16, con: bool, registers: bool, id: nat)
    requires Shaped(s) && k < POOL_SIZE
    ensures var r := New(s, k, mid, con, registers);
            && Shaped(r) && r.pool[k].counter == 0 && r.pool[k].con == con && r.pool[k].id == s.count
            && Waits(r.log, id) == Waits(s.log, id)
  {
    Logged(s.log, Opened(s.count, registers), id);
    hide Waits, Frees, Fires;
  }

  lemma OpenMessage(s: State, mid: u16, con: bool, registers: bool, random: nat, id: nat)
    requires Shaped(s) && FreeSlot(s.used).Some?
    ensures Waits(Open(s, mid, con, registers, random).log, id) ==
            Waits(s.log, id) +
            if id == s.count then [WaitBehind(OpenStep(mid, con, registers, random), [])] else []
  {
    var k := FreeSlot(s.used).value;
    NewSlot(s, k, mid, con, registers, id);
    hide New, Send, Waits, FreeSlot, Shaped;
    FirstMessage(New(s, k, mid, con, registers), k, random, id);
  }

  lemma ServeMessage(s: State, mid: u16, answered: bool, id: nat)
    requires Inv(s) && Shaped(s) && FreeSlot(s.used).Some?
    ensures Waits(Serve(s, mid, answered).log, id) ==
            Waits(s.log, id) + if id == s.count && answered then [0] else []
  {
    ServeAccount(s, mid, answered, id);
    hide Inv, Waits, Frees, Fires, Serve;
  }

  lemma ClosedWaits(s: State, k: nat, id: nat)
    requires Shaped(s) && k < POOL_SIZE
    ensures Waits(Close(s, k).log, id) == Waits(s.log, id) && Waits(Clear(s, k).log, id) == Waits(s.log, id)
  {
    CloseAccount(s, k, id);
    ClearAccount(s, k, id);
  }

  // A step sends a transaction at most one message, and no step that does not send one
  // changes what was sent.
  lemma StepMessages(s: State, step: Step, id: nat)
    requires Inv(s)
    ensures Shaped(s)
    ensures var waits := Waits(s.log, id);
            Waits(Act(s, step).log, id) == waits + if Sends(s, step, id) then [WaitBehind(step, waits)] else []
  {
    RoomIff(s);
    hide Inv, Waits, Check, Send, Close, Clear, New, FreeSlot, Find, ResentFrom, NextWait;
    match step
    case OpenStep(mid, con, registers, random) =>
      if FreeSlot(s.used).Some? {
        OpenMessage(s, mid, con, registers, random, id);
      }
    case ServeStep(mid, answered) =>
      if FreeSlot(s.used).Some? {
        ServeMessage(s, mid, answered, id);
      }
    case ReceiveStep(mid) =>
      if Find(s, mid, 0).Some? {
        ClosedWaits(s, Find(s, mid, 0).value, id);
      }
    case RefuseStep =>
      if s.last.Some? {
        ClosedWaits(s, s.last.value.slot, id);
      }
    case CheckStep(expired) => CheckMessage(s, expired, id);
  }

  lemma CheckMessage(s: State, expired: set<nat>, id: nat)
    requires Inv(s) && Shaped(s)
    ensures var waits := Waits(s.log, id);
            Waits(Check(s, expired, 0).log, id) ==
            waits + if ResentFrom(s, expired, 0, id) then [WaitBehind(CheckStep(expired), waits)] else []
  {
    WalkMessages(s, expired, 0, id);
    hide Inv, Waits, Check, ResentFrom, NextWait;
  }

  // ----- whole runs -----

  // Step m of the run sends the transaction's n-th message.
  ghost predicate NthSent(s: State, steps: seq<Step>, m: nat, id: nat, n: nat)
    requires Inv(s) && m < |steps|
  {
    var before := RunFrom(s, steps[..m]);
    Shaped(before) && |Waits(before.log, id)| + 1 == n && Sends(before, steps[m], id)
  }

  lemma NthEarlier(s: State, steps: seq<Step>, m: nat, id: nat, n: nat)
    requires Inv(s) && m < |steps| - 1
    ensures NthSent(s, steps[..|steps| - 1], m, id, n) == NthSent(s, steps, m, id, n)
  {
    assert steps[..|steps| - 1][..m] == steps[..m];
  }

  lemma LastMessages(s: State, steps: seq<Step>, id: nat)
    requires Inv(s) && steps != []
    ensures var m := |steps| - 1;
            var before := RunFrom(s, steps[..m]);
            && Shaped(before)
            && Waits(RunFrom(s, steps).log, id) ==
               Waits(before.log, id) +
               if Sends(before, steps[m], id) then [WaitBehind(steps[m], Waits(before.log, id))] else []
  {
    StepMessages(RunFrom(s, steps[..|steps| - 1]), steps[|steps| - 1], id);
    hide Inv, Act, Waits, Sends;
  }

  // Once sent, a message stays the n-th one, with the wait it was given.
  lemma {:induction false} NthStays(s: State, steps: seq<Step>, m: nat, id: nat, n: nat)
    requires Initial(s) && Inv(s) && m < |steps| && NthSent(s, steps, m, id, n)
    ensures var waits := Waits(RunFrom(s, steps).log, id);
            0 < n <= |waits| && waits[n - 1] == WaitBehind(steps[m], waits[..n - 1])
    decreases |steps|
  {
    hide Initial, Inv, RunFrom, Waits, Sends, WaitBehind;
    var last := |steps| - 1;
    LastMessages(s, steps, id);
    var was := Waits(RunFrom(s, steps[..last]).log, id);
    var waits := Waits(RunFrom(s, steps).log, id);
    if m < last {
      NthEarlier(s, steps, m, id, n);
      hide NthSent;
      NthStays(s, steps[..last], m, id, n);
      assert waits[..n - 1] == was[..n - 1];
    } else {
      assert waits[..|was|] == was;
    }
  }

  lemma {:induction false} NthWasSent(s: State, steps: seq<Step>, id: nat, n: nat) returns (m: nat)
    requires Initial(s) && Inv(s) && 0 < n <= |Waits(RunFrom(s, steps).log, id)|
    ensures m < |steps| && NthSent(s, steps, m, id, n)
    decreases |steps|
  {
    if steps == [] {
      InitialLog(s);
      assert false;
    }
    hide Initial, Inv, RunFrom, Waits, Sends, WaitBehind;
    m := |steps| - 1;
    LastMessages(s, steps, id);
    if n <= |Waits(RunFrom(s, steps[..m]).log, id)| {
      m := NthWasSent(s, steps[..m], id, n);
      NthEarlier(s, steps, m, id, n);
    }
  }

  // In every run a transaction's n-th message has been sent exactly when some step sent
  // it, and the wait behind it is the one that step gives it.
  lemma NthMessageIff(s: State, steps: seq<Step>, id: nat, n: nat)
    requires Initial(s) && n > 0
    ensures Inv(s)
    ensures var waits := Waits(RunFrom(s, steps).log, id);
            && (n <= |waits| <==> exists m :: 0 <= m < |steps| && NthSent(s, steps, m, id, n))
            && forall m :: 0 <= m < |steps| && NthSent(s, steps, m, id, n) ==>
                 n <= |waits| && waits[n - 1] == WaitBehind(steps[m], waits[..n - 1])
  {
    InitialInv(s);
    hide Initial, Inv, RunFrom, Waits, NthSent, WaitBehind;
    if n <= |Waits(RunFrom(s, steps).log, id)| {
      var m := NthWasSent(s, steps, id, n);
    }
    forall m | 0 <= m < |steps| && NthSent(s, steps, m, id, n)
      ensures var waits := Waits(RunFrom(s, steps).log, id);
              n <= |waits| && waits[n - 1] == WaitBehind(steps[m], waits[..n - 1])
    {
      NthStays(s, steps, m, id, n);
    }
  }

  // ----- which transaction an answer belongs to -----

  // Step m opens the transaction.
  ghost predicate OpensAt(s: State, steps: seq<Step>, m: nat, id: nat)
    requires Inv(s) && m < |steps|
  {
    var before := RunFrom(s, steps[..m]);
    before.count == id && |before.open| < POOL_SIZE && (steps[m].OpenStep? || steps[m].ServeStep?)
  }

  lemma OpensEarlier(s: State, steps: seq<Step>, m: nat, id: nat)
    requires Inv(s) && m < |steps| - 1
    ensures OpensAt(s, steps[..|steps| - 1], m, id) == OpensAt(s, steps, m, id)
  {
    assert steps[..|steps| - 1][..m] == steps[..m];
  }

  // The open transactions stand in the list in the order they were opened.
  ghost predicate InOrder(pool: seq<Slot>, list: seq<nat>) {
    && (forall i :: 0 <= i < |list| ==> list[i] < |pool|)
    && forall i, j :: 0 <= i < j < |list| ==> pool[list[i]].id < pool[list[j]].id
  }

  lemma {:induction false} RemoveInOrder(pool: seq<Slot>, list: seq<nat>, k: nat)
    requires InOrder(pool, list)
    ensures InOrder(pool, Remove(list, k))
    decreases |list|
  {
    if list != [] && list[0] != k {
      assert list == [list[0]] + list[1..];
      RemoveInOrder(pool, list[1..], k);
      FrontInOrder(pool, list[0], list[1..], Remove(list[1..], k));
    }
  }

  lemma FrontInOrder(pool: seq<Slot>, first: nat, list: seq<nat>, tail: seq<nat>)
    requires InOrder(pool, [first] + list) && InOrder(pool, tail) && forall j :: 0 <= j < |tail| ==> tail[j] in list
    ensures InOrder(pool, [first] + tail)
  {
    assert ([first] + list)[0] == first;
    forall j | 0 <= j < |tail|
      ensures pool[first].id < pool[tail[j]].id
    {
      var i :| 0 <= i < |list| && list[i] == tail[j];
      assert ([first] + list)[i + 1] == tail[j];
    }
  }

  // What a step that opens nothing leaves: fewer transactions, in their order.
  ghost predicate Thins(s: State, r: State) {
    Shrinks(s, r) && (InOrder(s.pool, s.open) ==> InOrder(r.pool, r.open))
  }

  lemma SameIds(pool: seq<Slot>, after: seq<Slot>, list: seq<nat>)
    requires |after| == |pool| && forall k :: 0 <= k < |pool| ==> after[k].id == pool[k].id
    requires InOrder(pool, list)
    ensures InOrder(after, list)
  {
  }

  // Sending, resending and clearing keep the numbers in the slots, and take at most the
  // slot out of the list.
  lemma ListAfter(s: State, k: nat, random: nat)
    requires Shaped(s) && k < POOL_SIZE
    ensures Clear(s, k).open == Close(s, k).open == Remove(s.open, k)
    ensures Clear(s, k).pool == Close(s, k).pool == s.pool
    ensures var r := Send(s, k, random);
            && (r.open == s.open || r.open == Remove(s.open, k))
            && |r.pool| == |s.pool| && forall j :: 0 <= j < |s.pool| ==> r.pool[j].id == s.pool[j].id
  {
    hide FirstInterval, Remove;
  }

  lemma SendThins(s: State, k: nat, random: nat)
    requires Shaped(s) && k < POOL_SIZE
    ensures Thins(s, Clear(s, k)) && Thins(s, Close(s, k)) && Thins(s, Send(s, k, random))
  {
    SendShrinks(s, k, random);
    ListAfter(s, k, random);
    hide Clear, Close, Send, InOrder, Shrinks, Remove;
    if InOrder(s.pool, s.open) {
      RemoveInOrder(s.pool, s.open, k);
      SameIds(s.pool, Send(s, k, random).pool, Send(s, k, random).open);
    }
  }

  lemma RetryThins(s: State, k: nat)
    requires Shaped(s) && k < POOL_SIZE
    ensures Thins(s, Retry(s, k))
  {
    var r := s.(pool := s.pool[k := s.pool[k].(counter := s.pool[k].counter + 1)]);
    assert Shrinks(s, r);
    if InOrder(s.pool, s.open) {
      SameIds(s.pool, r.pool, s.open);
    }
    assert Retry(s, k) == Send(r, k, 0) by {
      hide Send;
    }
    hide *;
    SendThins(r, k, 0);
    ThinTwice(s, r, Send(r, k, 0));
  }

  lemma ThinTwice(s: State, m: State, r: State)
    requires Shrinks(s, m) && (InOrder(s.pool, s.open) ==> InOrder(m.pool, m.open)) && Thins(m, r)
    ensures Thins(s, r)
  {
    hide InOrder;
  }

  lemma {:induction false} CheckThins(s: State, expired: set<nat>, i: nat)
    requires Shaped(s) && i <= |s.open|
    ensures Thins(s, Check(s, expired, i))
    decreases |s.open| - i
  {
    hide Retry, Check, Spent, InOrder;
    WalkStep(s, expired, i);
    if i < |s.open| {
      RetryThins(s, s.open[i]);
      if s.open[i] !in expired {
        CheckThins(s, expired, i + 1);
      } else if Retry(s, s.open[i]).used[s.open[i]] {
        CheckThins(Retry(s, s.open[i]), expired, i + 1);
      }
    }
  }

  predicate Opens(s: State, step: Step) {
    |s.open| < POOL_SIZE && (step.OpenStep? || step.ServeStep?)
  }

  // A transaction open after the step was so before, or was opened by it.
  ghost predicate Succeeds(s: State, step: Step, r: State)
    requires Shaped(s)
  {
    && Shaped(r) && r.count == s.count + (if Opens(s, step) then 1 else 0)
    && (InOrder(s.pool, s.open) ==> InOrder(r.pool, r.open))
    && forall k :: 0 <= k < POOL_SIZE && r.used[k] ==>
         || (s.used[k] && r.pool[k].id == s.pool[k].id && r.pool[k].mid == s.pool[k].mid)
         || (Opens(s, step) && r.pool[k].id == s.count && r.pool[k].mid == step.mid)
  }

  lemma NewSucceeds(s: State, k: nat, mid: u16, con: bool, registers: bool, step: Step)
    requires Inv(s) && Shaped(s) && k < POOL_SIZE && Opens(s, step) && step.mid == mid && !s.used[k]
    ensures Succeeds(s, step, New(s, k, mid, con, registers))
  {
    forall i | 0 <= i < |s.open|
      ensures s.pool[s.open[i]].id < s.count && s.open[i] != k
    {
      assert s.open[i] in s.open;
    }
  }

  lemma ThinSucceeds(s: State, step: Step, m: State, r: State)
    requires Shaped(s) && Succeeds(s, step, m) && Thins(m, r)
    ensures Succeeds(s, step, r)
  {
    hide InOrder, Opens;
  }

  lemma StepSucceeds(s: State, step: Step)
    requires Inv(s)
    ensures Shaped(s) && Succeeds(s, step, Act(s, step))
  {
    RoomIff(s);
    hide Inv, InOrder, New, Send, Close, Clear, Check, FreeSlot, Find, Thins, Opens, Succeeds;
    match step
    case OpenStep(mid, con, registers, random) =>
      var k := FreeSlot(s.used);
      if k.Some? {
        var m := New(s, k.value, mid, con, registers);
        Room(s, step);
        NewSucceeds(s, k.value, mid, con, registers, step);
        SendThins(m, k.value, random);
        ThinSucceeds(s, step, m, Send(m, k.value, random));
      } else {
        Unchanged(s, step, s);
      }
    case ServeStep(mid, answered) =>
      var k := FreeSlot(s.used);
      if k.Some? {
        Room(s, step);
        NewSucceeds(s, k.value, mid, false, false, step);
        ServeSucceeds(s, k.value, mid, answered);
      } else {
        Unchanged(s, step, s.(last := None));
      }
    case ReceiveStep(mid) =>
      if Find(s, mid, 0).Some? {
        var k := Find(s, mid, 0).value;
        SendThins(s, k, 0);
        ThinOnly(s, step, Close(s, k));
        Unchanged(s, step, s);
        LastSucceeds(s, step, Close(s, k), None);
      } else {
        Unchanged(s, step, s.(last := None));
      }
    case RefuseStep =>
      Unchanged(s, step, s);
      if s.last.Some? {
        SendThins(s, s.last.value.slot, 0);
        ThinOnly(s, step, Clear(s, s.last.value.slot));
      }
    case CheckStep(expired) =>
      CheckThins(s, expired, 0);
      ThinOnly(s, step, Check(s, expired, 0));
  }

  lemma Room(s: State, step: Step)
    requires |s.open| < POOL_SIZE && (step.OpenStep? || step.ServeStep?)
    ensures Opens(s, step)
  {
  }

  lemma Unchanged(s: State, step: Step, r: State)
    requires Shaped(s) && (r == s || r == s.(last := None))
    requires step.OpenStep? || step.ServeStep? ==> |s.open| >= POOL_SIZE
    ensures Succeeds(s, step, r)
  {
    hide InOrder;
  }

  lemma ThinOnly(s: State, step: Step, r: State)
    requires Shaped(s) && Thins(s, r) && !step.OpenStep? && !step.ServeStep?
    ensures Succeeds(s, step, r)
  {
    hide InOrder;
  }

  lemma LastSucceeds(s: State, step: Step, r: State, last: Option<Request>)
    requires Shaped(s) && Succeeds(s, step, r) && (last.Some? ==> last.value.slot < POOL_SIZE)
    ensures Succeeds(s, step, r.(last := last))
  {
    hide InOrder, Opens;
  }

  lemma ServeSucceeds(s: State, k: nat, mid: u16, answered: bool)
    requires Shaped(s) && k < POOL_SIZE && FreeSlot(s.used) == Some(k)
    requires Succeeds(s, ServeStep(mid, answered), New(s, k, mid, false, false))
    ensures Succeeds(s, ServeStep(mid, answered), Serve(s, mid, answered))
  {
    var step := ServeStep(mid, answered);
    var last := Some(Request(k, s.count));
    var m := New(s, k, mid, false, false).(last := last);
    LastSucceeds(s, step, New(s, k, mid, false, false), last);
    hide Succeeds, New, Send, Clear, FreeSlot, Shaped, Thins;
    SendThins(m, k, 0);
    ThinSucceeds(s, step, m, if answered then Send(m, k, 0) else Clear(m, k));
  }

  // Some step opened the transaction with that message number.
  ghost predicate OpenedWith(s: State, steps: seq<Step>, id: nat, mid: u16)
    requires Inv(s)
  {
    exists m :: 0 <= m < |steps| && OpensWith(s, steps, m, id, mid)
  }

  ghost predicate OpensWith(s: State, steps: seq<Step>, m: nat, id: nat, mid: u16)
    requires Inv(s) && m < |steps|
  {
    OpensAt(s, steps, m, id) && steps[m].mid == mid
  }

  lemma OpenedLater(s: State, steps: seq<Step>, id: nat, mid: u16)
    requires Inv(s) && steps != [] && OpenedWith(s, steps[..|steps| - 1], id, mid)
    ensures OpenedWith(s, steps, id, mid)
  {
    var before := steps[..|steps| - 1];
    var m :| 0 <= m < |before| && OpensWith(s, before, m, id, mid);
    OpensEarlier(s, steps, m, id);
    assert OpensWith(s, steps, m, id, mid);
  }

  // In every run the list is in the order of opening, and slots have their
  // transaction's message number.
  lemma {:induction false} RunOpens(s: State, steps: seq<Step>)
    requires Initial(s) && Inv(s)
    ensures var r := RunFrom(s, steps);
            && Shaped(r) && InOrder(r.pool, r.open)
            && forall k :: 0 <= k < POOL_SIZE && r.used[k] ==> OpenedWith(s, steps, r.pool[k].id, r.pool[k].mid)
    decreases |steps|
  {
    var r := RunFrom(s, steps);
    if steps != [] {
      var last := |steps| - 1;
      var before := RunFrom(s, steps[..last]);
      hide Initial, Inv, InOrder, Act, OpenedWith;
      RunOpens(s, steps[..last]);
      StepSucceeds(before, steps[last]);
      forall k | 0 <= k < POOL_SIZE && r.used[k]
        ensures OpenedWith(s, steps, r.pool[k].id, r.pool[k].mid)
      {
        if before.used[k] && r.pool[k].id == before.pool[k].id && r.pool[k].mid == before.pool[k].mid {
          OpenedLater(s, steps, r.pool[k].id, r.pool[k].mid);
        } else {
          OpenedLast(s, steps);
        }
      }
    }
  }

  lemma OpenedLast(s: State, steps: seq<Step>)
    requires Inv(s) && steps != [] && Opens(RunFrom(s, steps[..|steps| - 1]), steps[|steps| - 1])
    ensures OpenedWith(s, steps, RunFrom(s, steps[..|steps| - 1]).count, steps[|steps| - 1].mid)
  {
    var m := |steps| - 1;
    assert OpensWith(s, steps, m, RunFrom(s, steps[..m]).count, steps[m].mid);
  }

  lemma {:induction false} CountGrows(s: State, steps: seq<Step>, m: nat, id: nat)
    requires Inv(s) && m < |steps| && OpensAt(s, steps, m, id)
    ensures id < RunFrom(s, steps).count
    decreases |steps|
  {
    var last := |steps| - 1;
    hide Inv, RunFrom, Opens, OpensAt;
    LastCount(s, steps);
    if m < last {
      OpensEarlier(s, steps, m, id);
      CountGrows(s, steps[..last], m, id);
    } else {
      OpensIs(s, steps, id);
    }
  }

  lemma OpensIs(s: State, steps: seq<Step>, id: nat)
    requires Inv(s) && steps != []
    ensures var before := RunFrom(s, steps[..|steps| - 1]);
            OpensAt(s, steps, |steps| - 1, id) <==> before.count == id && Opens(before, steps[|steps| - 1])
  {
    hide Inv, RunFrom;
  }

  lemma LastCount(s: State, steps: seq<Step>)
    requires Inv(s) && steps != []
    ensures var before := RunFrom(s, steps[..|steps| - 1]);
            RunFrom(s, steps).count == before.count + if Opens(before, steps[|steps| - 1]) then 1 else 0
  {
    CountStep(RunFrom(s, steps[..|steps| - 1]), steps[|steps| - 1]);
    hide Inv, Act, Opens;
  }

  lemma CountStep(s: State, step: Step)
    requires Inv(s)
    ensures Shaped(s) && Act(s, step).count == s.count + if Opens(s, step) then 1 else 0
  {
    StepSucceeds(s, step);
    hide Inv, Act, InOrder, Opens;
  }

  // A transaction is opened once, so its message number is that of one step.
  lemma OpensOnce(s: State, steps: seq<Step>, m: nat, n: nat, id: nat)
    requires Inv(s) && m <= n < |steps| && OpensAt(s, steps, m, id) && OpensAt(s, steps, n, id)
    ensures m == n
  {
    if m < n {
      assert steps[..n][..m] == steps[..m];
      hide Inv, RunFrom;
      CountGrows(s, steps[..n], m, id);
    }
  }

  lemma OneNumber(s: State, steps: seq<Step>, id: nat, mid: u16, mid2: u16)
    requires Inv(s) && OpenedWith(s, steps, id, mid) && OpenedWith(s, steps, id, mid2)
    ensures mid == mid2 && id < RunFrom(s, steps).count
  {
    var m :| 0 <= m < |steps| && OpensWith(s, steps, m, id, mid);
    var n :| 0 <= n < |steps| && OpensWith(s, steps, n, id, mid2);
    hide Inv, RunFrom;
    OpensOnce(s, steps, if m < n then m else n, if m < n then n else m, id);
    CountGrows(s, steps, m, id);
  }

  // The transaction was opened with that message number and has not been freed.
  ghost predicate Awaits(s: State, steps: seq<Step>, id: nat, mid: u16)
    requires Inv(s)
  {
    Frees(RunFrom(s, steps).log, id) == 0 && OpenedWith(s, steps, id, mid)
  }

  ghost predicate AwaitsIn(s: State, k: nat, id: nat, mid: u16)
    requires Shaped(s) && k < POOL_SIZE
  {
    s.used[k] && s.pool[k].id == id && s.pool[k].mid == mid
  }

  ghost predicate WaitsFor(s: State, id: nat, mid: u16)
    requires Shaped(s)
  {
    exists k :: 0 <= k < POOL_SIZE && AwaitsIn(s, k, id, mid)
  }

  lemma AwaitsIff(s: State, steps: seq<Step>, id: nat, mid: u16)
    requires Initial(s) && Inv(s)
    ensures Shaped(RunFrom(s, steps))
    ensures Awaits(s, steps, id, mid) <==> WaitsFor(RunFrom(s, steps), id, mid)
  {
    var r := RunFrom(s, steps);
    RunSafe(s, steps, id);
    RunOpens(s, steps);
    hide Initial, Inv, InOrder, OpenedWith, RunFrom;
    if Awaits(s, steps, id, mid) {
      OneNumber(s, steps, id, mid, mid);
      var k :| 0 <= k < POOL_SIZE && r.used[k] && r.pool[k].id == id;
      OneNumber(s, steps, id, mid, r.pool[k].mid);
      assert AwaitsIn(r, k, id, mid);
    }
    if k :| 0 <= k < POOL_SIZE && AwaitsIn(r, k, id, mid) {
      assert Holds(r, id);
      LiveBeside(r, k);
    }
  }

  // The search returns the first entry with the number.
  lemma {:induction false} FindsFirst(s: State, mid: u16, i: nat, j: nat)
    requires Shaped(s) && i <= j < |s.open| && s.pool[s.open[j]].mid == mid
    requires InOrder(s.pool, s.open)
    ensures Find(s, mid, i).Some? && s.pool[Find(s, mid, i).value].id <= s.pool[s.open[j]].id
    decreases |s.open| - i
  {
    if s.pool[s.open[i]].mid != mid {
      FindsFirst(s, mid, i + 1, j);
    }
  }

  // An answer frees a transaction exactly when that is the earliest opened one that was
  // opened with the answer's message number and has not been freed.
  lemma AnswerFreesIff(s: State, steps: seq<Step>, mid: u16, id: nat)
    requires Initial(s)
    ensures Inv(s)
    ensures Frees(RunFrom(s, steps + [ReceiveStep(mid)]).log, id) == Frees(RunFrom(s, steps).log, id) + 1 <==>
            Awaits(s, steps, id, mid) && forall x: nat :: x < id ==> !Awaits(s, steps, x, mid)
  {
    InitialInv(s);
    var r := RunFrom(s, steps);
    RunSnoc(s, steps, ReceiveStep(mid));
    RunOpens(s, steps);
    hide Initial, Inv, RunFrom, Act, Awaits, OpenedWith, InOrder, Find, IdAt, AwaitsIn, Frees;
    AnsweredNow(r, mid, id);
    FoundIff(r, mid, id);
    forall x: nat
      ensures Awaits(s, steps, x, mid) <==> WaitsFor(r, x, mid)
    {
      AwaitsIff(s, steps, x, mid);
    }
  }

  lemma AnsweredNow(s: State, mid: u16, id: nat)
    requires Inv(s) && Shaped(s)
    ensures Frees(Act(s, ReceiveStep(mid)).log, id) == Frees(s.log, id) + 1 <==> IdAt(s, Find(s, mid, 0)) == Some(id)
  {
    StepEffect(s, ReceiveStep(mid), id);
    hide Inv, Act, Waits, Fires, Frees, Holds, Find;
  }

  lemma FoundIff(s: State, mid: u16, id: nat)
    requires Inv(s) && Shaped(s) && InOrder(s.pool, s.open)
    ensures IdAt(s, Find(s, mid, 0)) == Some(id) <==>
            WaitsFor(s, id, mid) && forall x: nat :: x < id ==> !WaitsFor(s, x, mid)
  {
    InvShaped(s);
    FoundUsed(s, mid);
    hide Inv, Find, InOrder;
    forall x: nat | WaitsFor(s, x, mid)
      ensures Find(s, mid, 0).Some? && s.pool[Find(s, mid, 0).value].id <= x
    {
      var k :| 0 <= k < POOL_SIZE && AwaitsIn(s, k, x, mid);
      var j :| 0 <= j < |s.open| && s.open[j] == k;
      FindsFirst(s, mid, 0, j);
    }
    var found := Find(s, mid, 0);
    if found.Some? {
      assert AwaitsIn(s, found.value, s.pool[found.value].id, mid);
      assert WaitsFor(s, s.pool[found.value].id, mid);
    }
  }

  // Step m opens the transaction and registers a callback for it.
  ghost predicate RegistersAt(s: State, steps: seq<Step>, m: nat, id: nat)
    requires Inv(s) && m < |steps|
  {
    OpensAt(s, steps, m, id) && Registers(steps[m])
  }

  lemma RegistersEarlier(s: State, steps: seq<Step>, id: nat)
    requires Inv(s) && steps != []
    ensures var last := |steps| - 1;
            (exists m :: 0 <= m < |steps| && RegistersAt(s, steps, m, id)) <==>
            (exists m :: 0 <= m < last && RegistersAt(s, steps[..last], m, id)) || RegistersAt(s, steps, last, id)
  {
    var last := |steps| - 1;
    forall m | 0 <= m < last
      ensures RegistersAt(s, steps[..last], m, id) == RegistersAt(s, steps, m, id)
    {
      OpensEarlier(s, steps, m, id);
    }
    hide Inv, RegistersAt;
  }

  // A callback is registered for a transaction exactly when the step that opened it was
  // given one.
  lemma {:induction false} RegistersIff(s: State, steps: seq<Step>, id: nat)
    requires Initial(s)
    ensures Inv(s)
    ensures Opened(id, true) in RunFrom(s, steps).log <==>
            exists m :: 0 <= m < |steps| && RegistersAt(s, steps, m, id)
    decreases |steps|
  {
    InitialInv(s);
    if steps == [] {
      InitialLog(s);
    } else {
      hide Initial, Inv, OwnersOk;
      var last := |steps| - 1;
      RegistersIff(s, steps[..last], id);
      LastRegisters(s, steps, id);
      RegistersEarlier(s, steps, id);
      hide RunFrom, RegistersAt;
    }
  }

  lemma LastRegisters(s: State, steps: seq<Step>, id: nat)
    requires Initial(s) && Inv(s) && steps != []
    ensures var last := |steps| - 1;
            Opened(id, true) in RunFrom(s, steps).log <==>
            Opened(id, true) in RunFrom(s, steps[..last]).log || RegistersAt(s, steps, last, id)
  {
    var last := |steps| - 1;
    hide Initial, Inv, OwnersOk, Act;
    RunOwners(s, steps[..last]);
    StepRegisters(RunFrom(s, steps[..last]), steps[last], id);
  }

  predicate Registers(step: Step) {
    step.OpenStep? && step.registers
  }

  lemma OpenRegisters(s: State, k: nat, mid: u16, con: bool, registers: bool, random: nat)
    requires OwnersOk(s) && k < POOL_SIZE
    ensures var m := New(s, k, mid, con, registers);
            && Shaped(m)
            && (Opened(s.count, true) in Send(m, k, random).log <==> registers)
            && (Opened(s.count, true) in Clear(m, k).log <==> registers)
  {
    LoggedAccount(s.log, Opened(s.count, registers), s.count);
    var m := New(s, k, mid, con, registers);
    SendAccount(m, k, random, s.count);
    ClearAccount(m, k, s.count);
    hide Send, Clear, Waits, Frees, Fires;
  }

  lemma StepRegisters(s: State, step: Step, id: nat)
    requires Inv(s) && OwnersOk(s)
    ensures Shaped(s)
    ensures Opened(id, true) in Act(s, step).log <==>
            Opened(id, true) in s.log || (Opens(s, step) && id == s.count && Registers(step))
  {
    RoomIff(s);
    CountStep(s, step);
    if id < s.count {
      KeptRegisters(s, step, id);
    } else if Opens(s, step) && id == s.count {
      NewRegisters(s, step);
    } else {
      ActOwners(s, step);
      NotOpened(s, id);
      NotOpened(Act(s, step), id);
      hide Inv, OwnersOk, Act;
    }
  }

  lemma NotOpened(s: State, id: nat)
    requires OwnersOk(s) && id >= s.count
    ensures Opened(id, true) !in s.log
  {
  }

  lemma KeptRegisters(s: State, step: Step, id: nat)
    requires Inv(s) && id < s.count
    ensures Opened(id, true) in Act(s, step).log <==> Opened(id, true) in s.log
  {
    StepEffect(s, step, id);
    hide Inv, Act, Waits, Frees, Fires, Holds;
  }

  lemma NewRegisters(s: State, step: Step)
    requires Inv(s) && OwnersOk(s) && Opens(s, step)
    ensures Opened(s.count, true) in Act(s, step).log <==> Registers(step)
  {
    RoomIff(s);
    var k := FreeSlot(s.used).value;
    hide Inv, OwnersOk, New, Send, Clear, FreeSlot;
    match step
    case OpenStep(mid, con, registers, random) => OpenRegisters(s, k, mid, con, registers, random);
    case ServeStep(mid, answered) => ServeRegisters(s, k, mid);
  }

  lemma ServeRegisters(s: State, k: nat, mid: u16)
    requires OwnersOk(s) && k < POOL_SIZE
    ensures var m := New(s, k, mid, false, false).(last := Some(Request(k, s.count)));
            && Shaped(m)
            && Opened(s.count, true) !in Send(m, k, 0).log
            && Opened(s.count, true) !in Clear(m, k).log
  {
    LoggedAccount(s.log, Opened(s.count, false), s.count);
    NotOpened(s, s.count);
    var m := New(s, k, mid, false, false).(last := Some(Request(k, s.count)));
    SendAccount(m, k, 0, s.count);
    ClearAccount(m, k, s.count);
    hide Send, Clear, Waits, Frees, Fires;
  }
}

/** The transaction layer: a pool of open exchanges, retransmission with doubling intervals (section
    4.2 of RFC 7252), and a list that is walked whenever a timer may have expired. */
module Transactions {
  import opened Basics

  const MAX_OPEN: nat := 4
  const MAX_RETRANSMIT: nat := 4

  /** An exchange with the times of its transmissions; base is the interval it started with. */
  datatype Tx = Tx(mid: nat, con: bool, counter: nat, interval: nat, base: nat, sends: seq<nat>)

  datatype Reason = TimedOut | Acknowledged | NonConfirmable

  /** The end of an exchange; exchanges are numbered in the order in which they are started. */
  datatype Ending = Ending(no: nat, tx: Tx, why: Reason)

  /** The slots of the pool, the list of those in use, and a log: how many exchanges were started, the
      number of the one in each slot, and how the others ended. */
  datatype Pool = Pool(slots: seq<Option<Tx>>, list: seq<nat>, started: nat, numbers: map<nat, nat>,
                       closed: seq<Ending>)

  function NumberOf(numbers: map<nat, nat>, i: nat): nat {
    if i in numbers then numbers[i] else 0
  }

  // ----- lists -----

  function Remove(list: seq<nat>, i: nat): (r: seq<nat>)
    ensures |r| <= |list| && forall x :: x in r ==> x in list
    ensures i !in list ==> r == list
  {
    if list == [] then [] else if list[0] == i then list[1..] else [list[0]] + Remove(list[1..], i)
  }

  ghost predicate NoDuplicates(list: seq<nat>) {
    forall i, j :: 0 <= i < j < |list| ==> list[i] != list[j]
  }

  lemma {:induction false} RemoveOne(list: seq<nat>, i: nat)
    requires NoDuplicates(list) && i in list
    ensures var r := Remove(list, i);
      NoDuplicates(r) && |r| == |list| - 1 && forall x :: x in r <==> x in list && x != i
    decreases |list|
  {
    if list[0] == i {
      assert list == [i] + list[1..];
    } else {
      assert list == [list[0]] + list[1..];
      RemoveOne(list[1..], i);
      var r := Remove(list[1..], i);
      forall x, y | 0 <= x < y < |[list[0]] + r| ensures ([list[0]] + r)[x] != ([list[0]] + r)[y] {
        if x == 0 { assert r[y - 1] in list[1..]; }
      }
    }
  }

  // ----- one transmission -----

  /** What a confirmable exchange keeps while it is open: one transmission more than
      retransmissions, and waits that double from the initial interval. */
  ghost predicate Waiting(t: Tx) {
    && t.con && t.counter < MAX_RETRANSMIT && |t.sends| == t.counter + 1
    && t.interval == t.base * Pow2(t.counter)
    && Spaced(t)
  }

  /** The k-th wait is at least the initial interval times 2^k. */
  ghost predicate Spaced(t: Tx) {
    forall k :: 0 <= k && k + 1 < |t.sends| ==> t.sends[k + 1] >= t.sends[k] + t.base * Pow2(k)
  }

  /** A timeout comes with the fifth transmission, fifteen initial intervals after the first. */
  lemma TimeoutWait(t: Tx)
    requires Spaced(t) && |t.sends| == MAX_RETRANSMIT + 1
    ensures t.sends[4] >= t.sends[0] + 15 * t.base
  {
    assert Pow2(0) == 1 && Pow2(1) == 2 && Pow2(2) == 4 && Pow2(3) == 8;
    assert t.sends[1] >= t.sends[0] + t.base * Pow2(0) && t.sends[2] >= t.sends[1] + t.base * Pow2(1);
    assert t.sends[3] >= t.sends[2] + t.base * Pow2(2) && t.sends[4] >= t.sends[3] + t.base * Pow2(3);
  }

  function Close(y: Pool, i: nat, t: Tx, why: Reason): Pool
    requires i < |y.slots|
  {
    y.(slots := y.slots[i := None], list := Remove(y.list, i),
      closed := y.closed + [Ending(NumberOf(y.numbers, i), t, why)])
  }

  /** coap_send_transaction for a slot in use. */
  function Sent(y: Pool, i: nat, now: nat, initial: nat): Pool
    requires i < |y.slots| && y.slots[i].Some?
  {
    var t := y.slots[i].value;
    var t' := t.(sends := t.sends + [now]);
    if !t.con then Close(y, i, t', NonConfirmable)
    else if t.counter >= MAX_RETRANSMIT then Close(y, i, t', TimedOut)
    else if t.counter == 0 then y.(slots := y.slots[i := Some(t'.(interval := initial, base := initial))])
    else y.(slots := y.slots[i := Some(t'.(interval := 2 * t.interval))])
  }

  predicate Expired(t: Tx, now: nat) {
    |t.sends| > 0 && now >= t.sends[|t.sends| - 1] + t.interval
  }

  /** The loop of coap_check_transactions from a position of the list on. Removing an exchange cuts
      the rest of the walk off, because it clears the link that the walk would follow. */
  function Checked(y: Pool, at: nat, now: nat): Pool
    decreases |y.list| - at
  {
    if at >= |y.list| then y
    else
      var i := y.list[at];
      if i >= |y.slots| || y.slots[i].None? || !Expired(y.slots[i].value, now) then Checked(y, at + 1, now)
      else
        var t := y.slots[i].value;
        var y' := Sent(y.(slots := y.slots[i := Some(t.(counter := t.counter + 1))]), i, now, 0);
        if |y'.list| == |y.list| then Checked(y', at + 1, now) else y'
  }

  /** The invariant of every run. */
  ghost predicate PoolOk(y: Pool) {
    && |y.slots| == MAX_OPEN && NoDuplicates(y.list)
    && (forall i :: i in y.list ==> i < MAX_OPEN)
    && (forall i :: 0 <= i < MAX_OPEN ==> (i in y.list <==> y.slots[i].Some?))
    && (forall i :: 0 <= i < MAX_OPEN && y.slots[i].Some? ==> Waiting(y.slots[i].value))
    && y.started == |y.list| + |y.closed|
    && (forall k :: 0 <= k < |y.closed| ==> ClosedOk(y.closed[k].tx, y.closed[k].why))
  }

  /** How an exchange ends: after one transmission, after an acknowledgement to one of at most four,
      or after all five. */
  ghost predicate ClosedOk(t: Tx, why: Reason) {
    && Spaced(t)
    && match why
       case NonConfirmable => !t.con && |t.sends| == 1
       case Acknowledged => t.con && 1 <= |t.sends| <= MAX_RETRANSMIT
       case TimedOut => t.con && |t.sends| == MAX_RETRANSMIT + 1
  }

  // ----- the invariant holds in every run -----

  lemma OkAt(y: Pool, i: nat)
    requires PoolOk(y) && i < MAX_OPEN
    ensures |y.slots| == MAX_OPEN && (i in y.list <==> y.slots[i].Some?)
    ensures y.slots[i].Some? ==> Waiting(y.slots[i].value)
  {
  }

  /** Closing releases the slot, once. */
  lemma CloseOk(y: Pool, i: nat, t: Tx, why: Reason)
    requires |y.slots| == MAX_OPEN && NoDuplicates(y.list) && i in y.list
    requires forall x :: x in y.list ==> x < MAX_OPEN
    requires forall x :: 0 <= x < MAX_OPEN ==> (x in y.list <==> y.slots[x].Some?)
    requires forall x :: 0 <= x < MAX_OPEN && x != i && y.slots[x].Some? ==> Waiting(y.slots[x].value)
    requires y.started == |y.list| + |y.closed|
    requires forall k :: 0 <= k < |y.closed| ==> ClosedOk(y.closed[k].tx, y.closed[k].why)
    requires ClosedOk(t, why)
    ensures PoolOk(Close(y, i, t, why)) && |Close(y, i, t, why).list| == |y.list| - 1
  {
    hide Waiting, ClosedOk, NoDuplicates, Remove;
    RemoveOne(y.list, i);
  }

  lemma WaitingSends(t: Tx, now: nat)
    requires Waiting(t) && Expired(t, now)
    ensures var t' := t.(counter := t.counter + 1, sends := t.sends + [now]);
      && Spaced(t')
      && (t.counter + 1 == MAX_RETRANSMIT ==> ClosedOk(t', TimedOut))
      && (t.counter + 1 < MAX_RETRANSMIT ==> Waiting(t'.(interval := 2 * t.interval)))
  {
    hide Pow2;
    var t' := t.(counter := t.counter + 1, sends := t.sends + [now]);
    forall k | 0 <= k && k + 1 < |t'.sends| ensures t'.sends[k + 1] >= t'.sends[k] + t'.base * Pow2(k) {
      if k + 1 < |t.sends| {
        assert t.sends[k + 1] >= t.sends[k] + t.base * Pow2(k);
      }
    }
    Doubled(t.base, t.counter);
  }

  lemma Doubled(base: nat, counter: nat)
    ensures 2 * (base * Pow2(counter)) == base * Pow2(counter + 1)
  {
    assert Pow2(counter + 1) == 2 * Pow2(counter);
  }

  lemma Retransmitted(y: Pool, i: nat, now: nat)
    requires PoolOk(y) && i < MAX_OPEN && y.slots[i].Some? && Expired(y.slots[i].value, now)
    ensures var t := y.slots[i].value;
      var y' := Sent(y.(slots := y.slots[i := Some(t.(counter := t.counter + 1))]), i, now, 0);
      PoolOk(y') && |y'.list| <= |y.list|
  {
    hide Waiting, ClosedOk, NoDuplicates, Remove, Expired, Pow2;
    var t := y.slots[i].value;
    OkAt(y, i);
    WaitingCon(t);
    WaitingSends(t, now);
    var z := y.(slots := y.slots[i := Some(t.(counter := t.counter + 1))]);
    if t.counter + 1 == MAX_RETRANSMIT {
      CloseOk(z, i, t.(counter := t.counter + 1, sends := t.sends + [now]), TimedOut);
    }
  }

  lemma WaitingCon(t: Tx)
    requires Waiting(t)
    ensures t.con && t.counter < MAX_RETRANSMIT
  {
  }

  lemma {:induction false} CheckKeeps(y: Pool, at: nat, now: nat)
    requires PoolOk(y)
    ensures PoolOk(Checked(y, at, now))
    decreases |y.list| - at
  {
    hide Waiting, ClosedOk, NoDuplicates, Remove, Expired, Sent;
    if at < |y.list| {
      var i := y.list[at];
      OkAt(y, if i < MAX_OPEN then i else 0);
      if i >= |y.slots| || y.slots[i].None? || !Expired(y.slots[i].value, now) {
        CheckKeeps(y, at + 1, now);
      } else {
        Retransmitted(y, i, now);
        var t := y.slots[i].value;
        var y' := Sent(y.(slots := y.slots[i := Some(t.(counter := t.counter + 1))]), i, now, 0);
        if |y'.list| == |y.list| { CheckKeeps(y', at + 1, now); }
      }
    }
  }

  /** The first free slot of the pool. */
  function FreeSlot(slots: seq<Option<Tx>>): (i: nat)
    ensures i <= |slots| && (i < |slots| ==> slots[i].None?)
    ensures forall k :: 0 <= k < i ==> slots[k].Some?
  {
    if slots == [] || slots[0].None? then 0 else 1 + FreeSlot(slots[1..])
  }

  /** coap_new_transaction: a slot, if one is free. */
  function Allocated(y: Pool, mid: nat, con: bool): Pool {
    var i := FreeSlot(y.slots);
    if i == |y.slots| then y
    else y.(slots := y.slots[i := Some(Tx(mid, con, 0, 0, 0, []))], list := Remove(y.list, i) + [i],
             numbers := y.numbers[i := y.started], started := y.started + 1)
  }

  /** The slot of the first listed exchange with a message id. */
  function Find(y: Pool, mid: nat, at: nat): (r: Option<nat>)
    ensures r.Some? ==> r.value < |y.slots| && y.slots[r.value].Some? && r.value in y.list
    decreases |y.list| - at
  {
    if at >= |y.list| then None
    else
      var i := y.list[at];
      if i < |y.slots| && y.slots[i].Some? && y.slots[i].value.mid == mid then Some(i) else Find(y, mid, at + 1)
  }

  /** What can happen: a message is sent, a timer event, an acknowledgement. The initial interval is
      drawn when a confirmable message is sent first. */
  datatype Event =
    | SendNew(mid: nat, con: bool, now: nat, initial: nat)
    | CheckTimers(now: nat)
    | Acknowledge(mid: nat)

  function Step(y: Pool, e: Event): Pool {
    match e
    case SendNew(mid, con, now, initial) =>
      var i := FreeSlot(y.slots);
      if i == |y.slots| then y else Sent(Allocated(y, mid, con), i, now, initial)
    case CheckTimers(now) => Checked(y, 0, now)
    case Acknowledge(mid) =>
      var i := Find(y, mid, 0);
      if i.None? then y else Close(y, i.value, y.slots[i.value].value, Acknowledged)
  }

  lemma AllocatedOk(y: Pool, mid: nat, con: bool, now: nat, initial: nat)
    requires PoolOk(y) && FreeSlot(y.slots) < MAX_OPEN
    ensures PoolOk(Sent(Allocated(y, mid, con), FreeSlot(y.slots), now, initial))
  {
    hide NoDuplicates, Remove, Waiting, ClosedOk;
    var i := FreeSlot(y.slots);
    OkAt(y, i);
    FreshEntry(y.list, i);
    var z := Allocated(y, mid, con);
    var t := Tx(mid, con, 0, 0, 0, []);
    FirstSend(t, now, initial);
    if !con {
      CloseOk(z, i, t.(sends := [] + [now]), NonConfirmable);
    }
  }

  lemma FreshEntry(list: seq<nat>, i: nat)
    requires NoDuplicates(list) && i !in list
    ensures Remove(list, i) == list && NoDuplicates(list + [i]) && forall x :: x in list + [i] <==> x in list || x == i
  {
  }

  lemma FirstSend(t: Tx, now: nat, initial: nat)
    requires t.counter == 0 && t.sends == []
    ensures t.con ==> Waiting(t.(sends := [] + [now], interval := initial, base := initial))
    ensures !t.con ==> ClosedOk(t.(sends := [] + [now]), NonConfirmable)
  {
    assert Pow2(0) == 1;
  }

  lemma StepKeeps(y: Pool, e: Event)
    requires PoolOk(y)
    ensures PoolOk(Step(y, e))
  {
    hide NoDuplicates, Remove, Checked, Sent, Allocated;
    match e
    case SendNew(mid, con, now, initial) =>
      if FreeSlot(y.slots) < |y.slots| { AllocatedOk(y, mid, con, now, initial); }
    case CheckTimers(now) => CheckKeeps(y, 0, now);
    case Acknowledge(mid) =>
      var i := Find(y, mid, 0);
      if i.Some? {
        OkAt(y, i.value);
        CloseOk(y, i.value, y.slots[i.value].value, Acknowledged);
      }
  }

  function Run(y: Pool, events: seq<Event>): Pool
    decreases |events|
  {
    if events == [] then y else Run(Step(y, events[0]), events[1..])
  }

  function EmptyPool(): Pool {
    Pool([None, None, None, None], [], 0, map[], [])
  }

  lemma {:induction false} RunKeeps(y: Pool, events: seq<Event>)
    requires PoolOk(y)
    ensures PoolOk(Run(y, events))
    decreases |events|
  {
    hide PoolOk, Step;
    if events != [] {
      StepKeeps(y, events[0]);
      RunKeeps(Step(y, events[0]), events[1..]);
    }
  }

  // ----- every exchange is open or has ended once -----

  predicate IsOpen(y: Pool, no: nat) {
    exists i :: i in y.list && NumberOf(y.numbers, i) == no
  }

  predicate HasEnded(y: Pool, no: nat) {
    exists k :: 0 <= k < |y.closed| && y.closed[k].no == no
  }

  /** Each number that was given out belongs to an exchange that is open or has ended; no two of these
      have the same number. */
  ghost predicate Numbered(y: Pool) {
    && (forall i :: i in y.list ==> NumberOf(y.numbers, i) < y.started)
    && (forall k :: 0 <= k < |y.closed| ==> y.closed[k].no < y.started)
    && (forall i, j :: i in y.list && j in y.list && i != j ==> NumberOf(y.numbers, i) != NumberOf(y.numbers, j))
    && (forall j, k :: 0 <= j < k < |y.closed| ==> y.closed[j].no != y.closed[k].no)
    && (forall i, k :: i in y.list && 0 <= k < |y.closed| ==> NumberOf(y.numbers, i) != y.closed[k].no)
    && (forall n :: 0 <= n < y.started ==> IsOpen(y, n) || HasEnded(y, n))
  }

  lemma CloseNumbered(y: Pool, i: nat, t: Tx, why: Reason)
    requires Numbered(y) && NoDuplicates(y.list) && i in y.list && i < |y.slots|
    ensures Numbered(Close(y, i, t, why))
  {
    hide NoDuplicates, Remove, IsOpen, HasEnded;
    RemoveOne(y.list, i);
    var z := Close(y, i, t, why);
    assert z.closed[..|y.closed|] == y.closed && z.closed[|y.closed|].no == NumberOf(y.numbers, i);
    forall n | 0 <= n < z.started ensures IsOpen(z, n) || HasEnded(z, n) {
      ClosedOrStill(y, i, t, why, n);
    }
  }

  lemma ClosedOrStill(y: Pool, i: nat, t: Tx, why: Reason, n: nat)
    requires i < |y.slots| && (forall x :: x in Remove(y.list, i) <==> x in y.list && x != i)
    requires IsOpen(y, n) || HasEnded(y, n)
    ensures IsOpen(Close(y, i, t, why), n) || HasEnded(Close(y, i, t, why), n)
  {
    hide Remove;
    var z := Close(y, i, t, why);
    if IsOpen(y, n) {
      var j :| j in y.list && NumberOf(y.numbers, j) == n;
      if j == i { assert z.closed[|y.closed|].no == n; } else { assert j in z.list; }
    } else {
      var k :| 0 <= k < |y.closed| && y.closed[k].no == n;
      assert z.closed[k].no == n;
    }
  }

  lemma SentNumbered(y: Pool, i: nat, now: nat, initial: nat)
    requires Numbered(y) && NoDuplicates(y.list) && i in y.list && i < |y.slots| && y.slots[i].Some?
    ensures Numbered(Sent(y, i, now, initial))
  {
    hide NoDuplicates, Close;
    var t := y.slots[i].value;
    var t' := t.(sends := t.sends + [now]);
    CloseNumbered(y, i, t', NonConfirmable);
    CloseNumbered(y, i, t', TimedOut);
    SameNumbers(y, Sent(y, i, now, initial));
  }

  lemma SameNumbers(y: Pool, z: Pool)
    requires Numbered(y)
    ensures y.list == z.list && y.started == z.started && y.numbers == z.numbers && y.closed == z.closed ==> Numbered(z)
  {
    if y.list == z.list && y.started == z.started && y.numbers == z.numbers && y.closed == z.closed {
      assert forall n {:trigger IsOpen(z, n)} :: IsOpen(y, n) <==> IsOpen(z, n);
      assert forall n {:trigger HasEnded(z, n)} :: HasEnded(y, n) <==> HasEnded(z, n);
    }
  }

  lemma {:induction false} CheckNumbered(y: Pool, at: nat, now: nat)
    requires PoolOk(y) && Numbered(y)
    ensures Numbered(Checked(y, at, now))
    decreases |y.list| - at
  {
    hide Waiting, ClosedOk, NoDuplicates, Remove, Expired, Sent, Numbered;
    if at < |y.list| {
      var i := y.list[at];
      OkAt(y, if i < MAX_OPEN then i else 0);
      if i >= |y.slots| || y.slots[i].None? || !Expired(y.slots[i].value, now) {
        CheckNumbered(y, at + 1, now);
      } else {
        Retransmitted(y, i, now);
        var t := y.slots[i].value;
        var z := y.(slots := y.slots[i := Some(t.(counter := t.counter + 1))]);
        SameNumbers(y, z);
        SentNumbered(z, i, now, 0);
        var y' := Sent(z, i, now, 0);
        if |y'.list| == |y.list| { CheckNumbered(y', at + 1, now); }
      }
    }
  }

  lemma AllocatedNumbered(y: Pool, mid: nat, con: bool)
    requires PoolOk(y) && Numbered(y) && FreeSlot(y.slots) < MAX_OPEN
    ensures var i, z := FreeSlot(y.slots), Allocated(y, mid, con);
      Numbered(z) && NoDuplicates(z.list) && i in z.list && i < |z.slots| && z.slots[i].Some?
  {
    hide NoDuplicates, Remove, Waiting, ClosedOk, IsOpen, HasEnded;
    var i, z := FreeSlot(y.slots), Allocated(y, mid, con);
    OkAt(y, i);
    FreshEntry(y.list, i);
    forall n | 0 <= n < z.started ensures IsOpen(z, n) || HasEnded(z, n) {
      StartedOrBefore(y, i, z, n);
    }
  }

  lemma StartedOrBefore(y: Pool, i: nat, z: Pool, n: nat)
    requires i !in y.list && z.list == y.list + [i] && z.numbers == y.numbers[i := y.started] && z.closed == y.closed
    requires n == y.started || IsOpen(y, n) || HasEnded(y, n)
    ensures IsOpen(z, n) || HasEnded(z, n)
  {
    if n == y.started {
      assert i in z.list && NumberOf(z.numbers, i) == n;
    } else if IsOpen(y, n) {
      var j :| j in y.list && NumberOf(y.numbers, j) == n;
      assert j in z.list && NumberOf(z.numbers, j) == n;
    } else {
      var k :| 0 <= k < |y.closed| && y.closed[k].no == n;
      assert z.closed[k].no == n;
    }
  }

  lemma StepNumbered(y: Pool, e: Event)
    requires PoolOk(y) && Numbered(y)
    ensures Numbered(Step(y, e))
  {
    hide NoDuplicates, Remove, Checked, Sent, Allocated, Close, Numbered;
    match e
    case SendNew(mid, con, now, initial) =>
      if FreeSlot(y.slots) < |y.slots| {
        AllocatedNumbered(y, mid, con);
        SentNumbered(Allocated(y, mid, con), FreeSlot(y.slots), now, initial);
      }
    case CheckTimers(now) => CheckNumbered(y, 0, now);
    case Acknowledge(mid) =>
      var i := Find(y, mid, 0);
      if i.Some? { CloseNumbered(y, i.value, y.slots[i.value].value, Acknowledged); }
  }

  lemma {:induction false} RunNumbered(y: Pool, events: seq<Event>)
    requires PoolOk(y) && Numbered(y)
    ensures Numbered(Run(y, events))
    decreases |events|
  {
    hide PoolOk, Step, Numbered;
    if events != [] {
      StepKeeps(y, events[0]);
      StepNumbered(y, events[0]);
      RunNumbered(Step(y, events[0]), events[1..]);
    }
  }

  /** In every run: used and free slots add up to the pool; every exchange that was started is open or
      has ended, not both, and has ended only once; no message is sent more than five times, and one that
      times out was sent five times and has waited for at least fifteen initial intervals. */
  lemma TransactionRuns(events: seq<Event>)
    ensures var y := Run(EmptyPool(), events);
      && PoolOk(y)
      && |y.list| + |Free(y.slots)| == MAX_OPEN
      && y.started == |y.list| + |y.closed|
      && (forall n :: 0 <= n < y.started ==> (IsOpen(y, n) <==> !HasEnded(y, n)))
      && (forall j, k :: 0 <= j < k < |y.closed| ==> y.closed[j].no != y.closed[k].no)
      && (forall i, j :: i in y.list && j in y.list && i != j ==> NumberOf(y.numbers, i) != NumberOf(y.numbers, j))
      && (forall i :: 0 <= i < |y.slots| && y.slots[i].Some? ==> |y.slots[i].value.sends| <= MAX_RETRANSMIT)
      && (forall k :: 0 <= k < |y.closed| ==> |y.closed[k].tx.sends| <= MAX_RETRANSMIT + 1)
      && (forall k :: 0 <= k < |y.closed| && y.closed[k].why == TimedOut ==>
            var t := y.closed[k].tx; |t.sends| == 5 && t.sends[4] >= t.sends[0] + 15 * t.base)
  {
    hide Run, Remove;
    assert PoolOk(EmptyPool());
    RunKeeps(EmptyPool(), events);
    RunNumbered(EmptyPool(), events);
    var y := Run(EmptyPool(), events);
    SlotsConserved(y);
    forall k | 0 <= k < |y.closed| && y.closed[k].why == TimedOut
      ensures var t := y.closed[k].tx; |t.sends| == 5 && t.sends[4] >= t.sends[0] + 15 * t.base
    {
      assert ClosedOk(y.closed[k].tx, y.closed[k].why);
      TimeoutWait(y.closed[k].tx);
    }
  }

  function Free(slots: seq<Option<Tx>>): set<nat> {
    set i | 0 <= i < |slots| && slots[i].None?
  }

  lemma SlotsConserved(y: Pool)
    requires PoolOk(y)
    ensures |y.list| + |Free(y.slots)| == MAX_OPEN
  {
    hide Waiting, ClosedOk, NoDuplicates;
    var used, free := Elements(y.list), Free(y.slots);
    DistinctCount(y.list);
    assert used !! free;
    forall x ensures x in used + free <==> x in {0, 1, 2, 3} {
      if x in used + free { assert x < MAX_OPEN; }
    }
    assert used + free == {0, 1, 2, 3};
    assert |used + free| == |used| + |free|;
  }

  function Elements(list: seq<nat>): set<nat> {
    set i | i in list
  }

  lemma {:induction false} DistinctCount(list: seq<nat>)
    requires NoDuplicates(list)
    ensures |Elements(list)| == |list|
    decreases |list|
  {
    if list != [] {
      var rest := list[1..];
      DistinctCount(rest);
      assert list == [list[0]] + rest;
      assert list[0] !in Elements(rest);
      assert Elements(list) == {list[0]} + Elements(rest);
    } else {
      assert Elements(list) == {};
    }
  }

  // ----- the layer as it runs -----

  class Layer {
    const slots: array<Option<Tx>>
    var list: seq<nat>
    ghost var started: nat
    ghost var numbers: map<nat, nat>
    ghost var closed: seq<Ending>

    constructor ()
      ensures State() == EmptyPool() && fresh(slots)
    {
      slots := new Option<Tx>[MAX_OPEN](_ => None);
      list, started, numbers, closed := [], 0, map[], [];
    }

    ghost function State(): Pool
      reads this, slots
    {
      Pool(slots[..], list, started, numbers, closed)
    }

    /** memb_alloc: the first free slot. */
    method Allocate() returns (i: nat)
      ensures i == FreeSlot(slots[..])
    {
      i := 0;
      while i < slots.Length && slots[i].Some?
        invariant i <= slots.Length && forall k :: 0 <= k < i ==> slots[k].Some?
      {
        i := i + 1;
      }
      assert forall k :: 0 <= k < i ==> slots[..][k].Some?;
    }

    /** coap_new_transaction. */
    method NewTransaction(mid: nat, con: bool) returns (slot: Option<nat>)
      modifies this, slots
      ensures State() == old(Allocated(State(), mid, con))
      ensures slot == old(if FreeSlot(slots[..]) < slots.Length then Some(FreeSlot(slots[..])) else None)
    {
      hide FreeSlot, Remove;
      var i := Allocate();
      if i == slots.Length {
        return None;
      }
      slots[i] := Some(Tx(mid, con, 0, 0, 0, []));
      list := Remove(list, i) + [i];
      started, numbers := started + 1, numbers[i := started];
      slot := Some(i);
    }

    /** coap_clear_transaction. */
    method ClearTransaction(i: nat, ghost t: Tx, ghost why: Reason)
      requires i < slots.Length
      modifies this, slots
      ensures State() == old(Close(State(), i, t, why))
    {
      hide Remove;
      list := Remove(list, i);
      slots[i] := None;
      closed := closed + [Ending(NumberOf(numbers, i), t, why)];
    }

    /** coap_send_transaction. */
    method SendTransaction(i: nat, now: nat, initial: nat)
      requires i < slots.Length && slots[i].Some?
      modifies this, slots
      ensures State() == old(Sent(State(), i, now, initial))
    {
      hide Remove;
      var t := slots[i].value;
      t := t.(sends := t.sends + [now]);
      if t.con {
        if t.counter < MAX_RETRANSMIT {
          if t.counter == 0 {
            t := t.(interval := initial, base := initial);
          } else {
            t := t.(interval := 2 * t.interval);
          }
          slots[i] := Some(t);
        } else {
          ClearTransaction(i, t, TimedOut);
        }
      } else {
        ClearTransaction(i, t, NonConfirmable);
      }
    }

    /** coap_get_transaction_by_mid. */
    method GetTransactionByMid(mid: nat) returns (slot: Option<nat>)
      ensures slot == Find(State(), mid, 0)
    {
      var at := 0;
      while at < |list|
        invariant at <= |list| && Find(State(), mid, 0) == Find(State(), mid, at)
      {
        var i := list[at];
        if i < slots.Length && slots[i].Some? && slots[i].value.mid == mid {
          return Some(i);
        }
        at := at + 1;
      }
      slot := None;
    }

    /** coap_check_transactions. */
    method CheckTransactions(now: nat)
      modifies this, slots
      ensures State() == old(Checked(State(), 0, now))
    {
      hide Remove, Sent;
      var at := 0;
      while at < |list|
        invariant at <= |list| && Checked(State(), at, now) == old(Checked(State(), 0, now))
        decreases |list| - at
      {
        var i, n := list[at], |list|;
        if i < slots.Length && slots[i].Some? && Expired(slots[i].value, now) {
          ghost var before := slots[..];
          var t := slots[i].value;
          slots[i] := Some(t.(counter := t.counter + 1));
          assert slots[..] == before[i := Some(t.(counter := t.counter + 1))];
          SendTransaction(i, now, 0);
          if |list| != n {
            return;
          }
        }
        at := at + 1;
      }
    }
  }
}

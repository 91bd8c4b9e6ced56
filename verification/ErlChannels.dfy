/** A bounded channel whose thread forwards what any number of senders put in, until it is closed. */
module ErlChannels {
  import opened Wrappers

  datatype Message<T> = Here(value: T) | Close

  datatype Thread = Running | Returned(count: nat)

  /**
    * The channel between senders, the queue and the forwarding thread. `sent` lists what has entered
    * the queue and who sent it; `joined` is what closing the channel returned.
    */
  datatype Channel<T> = Channel(
    capacity: nat,
    remaining: seq<seq<T>>,
    queue: seq<Message<T>>,
    closing: bool,
    thread: Thread,
    forwarded: seq<T>,
    msgCount: nat,
    joined: Option<nat>,
    sent: seq<(nat, T)>)
  {
    predicate AllSent() {
      forall i :: 0 <= i < |remaining| ==> remaining[i] == []
    }

    /** Sends block while the queue is full; a channel without capacity hands over one message at a time. */
    predicate HasRoom() {
      |queue| < if capacity == 0 then 1 else capacity
    }
  }

  function New<T>(capacity: nat, values: seq<seq<T>>): Channel<T> {
    Channel(capacity, values, [], false, Running, [], 0, None, [])
  }

  /** What can happen next: one thread takes one step. */
  datatype Action = Send(sender: nat) | SendClose | Receive | Join

  predicate Enabled<T>(c: Channel<T>, a: Action) {
    match a
    case Send(i) => i < |c.remaining| && c.remaining[i] != [] && c.HasRoom()
    case SendClose => c.AllSent() && !c.closing && c.HasRoom()
    case Receive => c.thread.Running? && c.queue != []
    case Join => c.closing && c.thread.Returned? && c.joined.None?
  }

  function Step<T>(c: Channel<T>, a: Action): Channel<T>
    requires Enabled(c, a)
  {
    match a
    case Send(i) =>
      var value := c.remaining[i][0];
      c.(remaining := c.remaining[i := c.remaining[i][1..]],
         queue := c.queue + [Here(value)],
         sent := c.sent + [(i, value)])
    case SendClose =>
      c.(queue := c.queue + [Close], closing := true)
    case Receive =>
      match c.queue[0] {
        case Here(value) =>
          c.(queue := c.queue[1..], forwarded := c.forwarded + [value], msgCount := c.msgCount + 1)
        case Close =>
          c.(queue := c.queue[1..], thread := Returned(c.msgCount))
      }
    case Join =>
      c.(joined := Some(c.thread.count))
  }

  /** Every action of the run was possible when it was taken. */
  predicate IsRun<T>(c: Channel<T>, actions: seq<Action>)
    decreases |actions|
  {
    actions == [] || (Enabled(c, actions[0]) && IsRun(Step(c, actions[0]), actions[1..]))
  }

  function After<T>(c: Channel<T>, actions: seq<Action>): Channel<T>
    requires IsRun(c, actions)
    decreases |actions|
  {
    if actions == [] then c else After(Step(c, actions[0]), actions[1..])
  }

  /** What one sender has put in, in order. */
  function From<T>(sent: seq<(nat, T)>, sender: nat): seq<T> {
    if sent == [] then
      []
    else
      From(sent[..|sent| - 1], sender)
      + if sent[|sent| - 1].0 == sender then [sent[|sent| - 1].1] else []
  }

  function Values<T>(sent: seq<(nat, T)>): (r: seq<T>)
    ensures |r| == |sent|
  {
    seq(|sent|, i requires 0 <= i < |sent| => sent[i].1)
  }

  /** The values waiting in the queue. */
  function Waiting<T>(queue: seq<Message<T>>): seq<T> {
    if queue == [] then
      []
    else
      (if queue[0].Here? then [queue[0].value] else []) + Waiting(queue[1..])
  }

  function Count<T>(values: seq<seq<T>>): nat {
    if values == [] then 0 else |values[0]| + Count(values[1..])
  }

  ghost predicate Inv<T>(c: Channel<T>, values: seq<seq<T>>) {
    && |c.remaining| == |values|
    && (forall i :: 0 <= i < |values| ==> From(c.sent, i) + c.remaining[i] == values[i])
    && c.forwarded + Waiting(c.queue) == Values(c.sent)
    && c.msgCount == |c.forwarded|
    && |c.sent| + Count(c.remaining) == Count(values)
    && |c.queue| <= (if c.capacity == 0 then 1 else c.capacity)
    && (c.closing ==> c.AllSent())
    && (forall k :: 0 <= k < |c.queue| ==> (c.queue[k] == Close <==> c.closing && k == |c.queue| - 1))
    && (c.closing && c.thread.Running? ==> c.queue != [])
    && (c.thread.Returned? ==> c.closing && c.queue == [] && c.thread.count == c.msgCount)
    && (c.joined.Some? ==> c.thread.Returned? && c.joined.value == c.msgCount)
  }

  lemma {:induction false} WaitingAppend<T>(queue: seq<Message<T>>, m: Message<T>)
    ensures Waiting(queue + [m]) == Waiting(queue) + (if m.Here? then [m.value] else [])
  {
    if queue != [] {
      WaitingAppend(queue[1..], m);
      assert (queue + [m])[1..] == queue[1..] + [m];
    }
  }

  lemma {:induction false} CountTake<T>(values: seq<seq<T>>, i: nat)
    requires i < |values| && values[i] != []
    ensures Count(values) == Count(values[i := values[i][1..]]) + 1
  {
    var taken := values[i := values[i][1..]];
    if i > 0 {
      CountTake(values[1..], i - 1);
      assert taken[1..] == values[1..][i - 1 := values[1..][i - 1][1..]];
    } else {
      assert taken[1..] == values[1..];
    }
  }

  lemma {:induction false} CountNothing<T>(values: seq<seq<T>>)
    requires forall i :: 0 <= i < |values| ==> values[i] == []
    ensures Count(values) == 0
  {
    if values != [] {
      CountNothing(values[1..]);
    }
  }

  lemma {:induction false} FromAppend<T>(sent: seq<(nat, T)>, sender: nat, value: T, i: nat)
    ensures From(sent + [(sender, value)], i) == From(sent, i) + (if i == sender then [value] else [])
  {
  }

  lemma SendKeepsInv<T>(c: Channel<T>, values: seq<seq<T>>, sender: nat)
    requires Inv(c, values) && Enabled(c, Send(sender))
    ensures Inv(Step(c, Send(sender)), values)
  {
    var after, value := Step(c, Send(sender)), c.remaining[sender][0];
    forall i | 0 <= i < |values|
      ensures From(after.sent, i) + after.remaining[i] == values[i]
    {
      FromAppend(c.sent, sender, value, i);
    }
    WaitingAppend(c.queue, Here(value));
    assert Values(after.sent) == Values(c.sent) + [value];
    CountTake(c.remaining, sender);
  }

  lemma ReceiveKeepsInv<T>(c: Channel<T>, values: seq<seq<T>>)
    requires Inv(c, values) && Enabled(c, Receive)
    ensures Inv(Step(c, Receive), values)
  {
    assert c.queue == [c.queue[0]] + c.queue[1..];
    assert c.queue[0] == Close ==> c.queue[1..] == [];
  }

  lemma StepKeepsInv<T>(c: Channel<T>, values: seq<seq<T>>, a: Action)
    requires Inv(c, values) && Enabled(c, a)
    ensures Inv(Step(c, a), values)
  {
    match a
    case Send(i) => SendKeepsInv(c, values, i);
    case SendClose => WaitingAppend(c.queue, Close);
    case Receive => ReceiveKeepsInv(c, values);
    case Join =>
  }

  lemma {:induction false} RunKeepsInv<T>(c: Channel<T>, values: seq<seq<T>>, actions: seq<Action>)
    requires Inv(c, values) && IsRun(c, actions)
    ensures Inv(After(c, actions), values)
    decreases |actions|
  {
    if actions != [] {
      StepKeepsInv(c, values, actions[0]);
      RunKeepsInv(Step(c, actions[0]), values, actions[1..]);
    }
  }

  lemma NewInv<T>(capacity: nat, values: seq<seq<T>>)
    ensures Inv(New(capacity, values), values)
  {
  }

  /**
    * Whatever the interleaving, once closing has returned, everything every sender sent has been
    * forwarded exactly once, in queue order and so in each sender's own order, and the count returned
    * is the number of values.
    */
  lemma {:induction false} ClosedChannelDelivered<T>(capacity: nat, values: seq<seq<T>>, actions: seq<Action>)
    requires IsRun(New(capacity, values), actions) && After(New(capacity, values), actions).joined.Some?
    ensures var c := After(New(capacity, values), actions);
      && c.forwarded == Values(c.sent)
      && (forall i :: 0 <= i < |values| ==> From(c.sent, i) == values[i])
      && c.joined == Some(|c.forwarded|) && |c.forwarded| == Count(values)
  {
    var c := After(New(capacity, values), actions);
    NewInv(capacity, values);
    RunKeepsInv(New(capacity, values), values, actions);
    CountNothing(c.remaining);
    assert c.forwarded + [] == c.forwarded;
  }

  /** The thread outlives the senders, so no send can fail. */
  lemma {:induction false} SendsNeverFail<T>(capacity: nat, values: seq<seq<T>>, actions: seq<Action>)
    requires IsRun(New(capacity, values), actions)
    ensures var c := After(New(capacity, values), actions);
      c.thread.Returned? ==> c.AllSent() && c.closing
  {
    NewInv(capacity, values);
    RunKeepsInv(New(capacity, values), values, actions);
  }

  /** How many actions are left. */
  function Left<T>(c: Channel<T>): nat {
    2 * Count(c.remaining) + |c.queue| + (if c.closing then 0 else 2) + (if c.thread.Running? then 1 else 0)
    + (if c.joined.None? then 1 else 0)
  }

  /** The channel never deadlocks: until closing has returned, some thread can act ... */
  lemma NeverStuck<T>(c: Channel<T>, values: seq<seq<T>>) returns (a: Action)
    requires Inv(c, values) && c.joined.None?
    ensures Enabled(c, a)
  {
    if c.thread.Returned? {
      a := Join;
    } else if c.queue != [] {
      a := Receive;
    } else if c.AllSent() {
      a := SendClose;
    } else {
      var i :| 0 <= i < |c.remaining| && c.remaining[i] != [];
      a := Send(i);
    }
  }

  /** ... and every action brings the end nearer. */
  lemma EveryActionCounts<T>(c: Channel<T>, a: Action)
    requires Enabled(c, a)
    ensures Left(Step(c, a)) < Left(c)
  {
    if a.Send? {
      CountTake(c.remaining, a.sender);
    }
  }

  /** So a run takes a bounded number of actions, and one that cannot go on has closed the channel. */
  lemma {:induction false} RunsEnd<T>(c: Channel<T>, values: seq<seq<T>>, actions: seq<Action>)
    requires Inv(c, values) && IsRun(c, actions)
    ensures |actions| <= Left(c)
    ensures (forall a :: !Enabled(After(c, actions), a)) ==> After(c, actions).joined.Some?
    decreases |actions|
  {
    if actions == [] {
      if c.joined.None? {
        var a := NeverStuck(c, values);
      }
    } else {
      StepKeepsInv(c, values, actions[0]);
      EveryActionCounts(c, actions[0]);
      RunsEnd(Step(c, actions[0]), values, actions[1..]);
    }
  }

  // What can happen.

  /** Each sender occurs in the order as often as it has values left. */
  predicate Shuffles<T>(order: seq<nat>, remaining: seq<seq<T>>) {
    && (forall k :: 0 <= k < |order| ==> order[k] < |remaining|)
    && (forall i :: 0 <= i < |remaining| ==> multiset(order)[i] == |remaining[i]|)
  }

  function Senders<T>(sent: seq<(nat, T)>): (r: seq<nat>)
    ensures |r| == |sent|
  {
    seq(|sent|, i requires 0 <= i < |sent| => sent[i].0)
  }

  /** A channel with nothing on its way. */
  predicate Idle<T>(c: Channel<T>) {
    c.queue == [] && !c.closing && c.thread.Running? && c.joined.None?
  }

  lemma {:induction false} RunCons<T>(c: Channel<T>, a: Action, rest: seq<Action>)
    requires Enabled(c, a) && IsRun(Step(c, a), rest)
    ensures IsRun(c, [a] + rest) && After(c, [a] + rest) == After(Step(c, a), rest)
  {
    assert ([a] + rest)[1..] == rest;
  }

  lemma CloseFrom<T>(c: Channel<T>) returns (actions: seq<Action>)
    requires Idle(c) && c.AllSent()
    ensures IsRun(c, actions) && After(c, actions).joined.Some? && After(c, actions).sent == c.sent
  {
    var c1 := Step(c, SendClose);
    var c2 := Step(c1, Receive);
    RunCons(c2, Join, []);
    RunCons(c1, Receive, [Join] + []);
    RunCons(c, SendClose, [Receive] + ([Join] + []));
    actions := [SendClose] + ([Receive] + ([Join] + []));
  }

  lemma ShufflesRest<T>(order: seq<nat>, remaining: seq<seq<T>>)
    requires order != [] && Shuffles(order, remaining)
    ensures order[0] < |remaining| && remaining[order[0]] != []
    ensures Shuffles(order[1..], remaining[order[0] := remaining[order[0]][1..]])
  {
    assert order == [order[0]] + order[1..];
    assert multiset(order) == multiset{order[0]} + multiset(order[1..]);
  }

  lemma {:induction false} OrderFrom<T>(c: Channel<T>, order: seq<nat>) returns (actions: seq<Action>)
    requires Idle(c) && Shuffles(order, c.remaining)
    ensures IsRun(c, actions) && After(c, actions).joined.Some?
    ensures Senders(After(c, actions).sent) == Senders(c.sent) + order
    decreases |order|
  {
    hide Shuffles, IsRun, After;
    if order == [] {
      NobodyLeft(c.remaining);
      actions := CloseFrom(c);
    } else {
      ShufflesRest(order, c.remaining);
      var sent := Step(c, Send(order[0]));
      var received := Step(sent, Receive);
      var rest := OrderFrom(received, order[1..]);
      RunCons(sent, Receive, rest);
      RunCons(c, Send(order[0]), [Receive] + rest);
      actions := [Send(order[0])] + ([Receive] + rest);
      assert Senders(received.sent) == Senders(c.sent) + [order[0]];
      assert order == [order[0]] + order[1..];
    }
  }

  lemma NobodyLeft<T>(remaining: seq<seq<T>>)
    requires Shuffles([], remaining)
    ensures forall i :: 0 <= i < |remaining| ==> remaining[i] == []
  {
    assert forall i :: 0 <= i < |remaining| ==> multiset([])[i] == |remaining[i]|;
  }

  /** Whatever the capacity, the senders' values can go through the channel in any order. */
  lemma AnyOrderHappens<T>(capacity: nat, values: seq<seq<T>>, order: seq<nat>) returns (actions: seq<Action>)
    requires Shuffles(order, values)
    ensures IsRun(New(capacity, values), actions) && After(New(capacity, values), actions).joined.Some?
    ensures Senders(After(New(capacity, values), actions).sent) == order
  {
    actions := OrderFrom(New(capacity, values), order);
    assert Senders(New(capacity, values).sent) + order == order;
  }

  function Sends(n: nat): seq<Action> {
    if n == 0 then [] else [Send(0)] + Sends(n - 1)
  }

  lemma {:induction false} SendsFrom<T>(c: Channel<T>, n: nat)
    requires |c.remaining| == 1
    ensures IsRun(c, Sends(n)) <==>
      n == 0 || (n <= |c.remaining[0]| && |c.queue| + n <= if c.capacity == 0 then 1 else c.capacity)
    decreases n
  {
    if n > 0 {
      assert Sends(n)[0] == Send(0) && Sends(n)[1..] == Sends(n - 1);
      if Enabled(c, Send(0)) {
        SendsFrom(Step(c, Send(0)), n - 1);
      }
    }
  }

  /** While nothing is received, exactly as many sends as the channel has room for go through, and at least one. */
  lemma {:induction false} SendsBlockWhenFull<T>(capacity: nat, values: seq<T>, n: nat)
    requires n <= |values|
    ensures IsRun(New(capacity, [values]), Sends(n)) <==> n <= if capacity == 0 then 1 else capacity
  {
    SendsFrom(New(capacity, [values]), n);
  }

  lemma {:induction false} CloseAfter<T>(c: Channel<T>)
    requires |c.remaining| == 1 && !c.closing
    ensures IsRun(c, Sends(|c.remaining[0]|) + [SendClose]) <==>
      |c.queue| + |c.remaining[0]| + 1 <= if c.capacity == 0 then 1 else c.capacity
    decreases |c.remaining[0]|
  {
    var n := |c.remaining[0]|;
    if n > 0 {
      assert (Sends(n) + [SendClose])[0] == Send(0);
      assert (Sends(n) + [SendClose])[1..] == Sends(n - 1) + [SendClose];
      if Enabled(c, Send(0)) {
        CloseAfter(Step(c, Send(0)));
      }
    } else {
      assert Sends(n) + [SendClose] == [SendClose];
      assert [SendClose][1..] == [];
    }
  }

  /** The close waits for room like a value, but for nothing else: the values in front of it may still be waiting. */
  lemma {:induction false} CloseTakesRoom<T>(capacity: nat, values: seq<T>)
    ensures IsRun(New(capacity, [values]), Sends(|values|) + [SendClose]) <==>
      |values| + 1 <= if capacity == 0 then 1 else capacity
  {
    CloseAfter(New(capacity, [values]));
  }

  // The forwarding thread.

  /** Forwards messages until the channel is closed or its senders are gone: all values in front of the first close. */
  method Forward<T>(mailbox: seq<Message<T>>) returns (sent: seq<T>, msgCount: nat)
    ensures |sent| == msgCount <= |mailbox|
    ensures forall i :: 0 <= i < msgCount ==> mailbox[i] == Here(sent[i])
    ensures msgCount < |mailbox| ==> mailbox[msgCount] == Close
  {
    sent, msgCount := [], 0;
    var received := 0;
    while received < |mailbox|
      invariant |sent| == msgCount == received <= |mailbox|
      invariant forall i :: 0 <= i < received ==> mailbox[i] == Here(sent[i])
    {
      match mailbox[received] {
        case Here(msg) =>
          sent := sent + [msg];
          msgCount := msgCount + 1;
        case Close =>
          return;
      }
      received := received + 1;
    }
  }
}

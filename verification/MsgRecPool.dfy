/** The receive queue: I/O threads submit messages, a thread that drains hands them to the
    callback. The emptiness test is made outside the lock, so a drainer's test, its locked
    pop and its call of the callback are separate steps that others may come between. */
module ReceiveQueue {
  import opened Wire
  import opened Sequences

  datatype Item = Item(id: nat, msg: seq<byte>)

  function Zip(ids: seq<nat>, msgs: seq<seq<byte>>): seq<Item>
    requires |ids| == |msgs|
  {
    seq(|ids|, i requires 0 <= i < |ids| => Item(ids[i], msgs[i]))
  }

  /** Where a drainer is: outside, about to test, past a test that found the queue non-empty,
      or about to call back with what it popped. */
  datatype Drainer = Outside | AtTest | AtPop | Calling(item: Item)

  /** `broken` records a pop from an empty queue, which is undefined. */
  datatype State = State(
    msgs: seq<seq<byte>>,
    ids: seq<nat>,
    drainers: seq<Drainer>,
    called: seq<Item>,
    broken: bool)

  function Initial(n: nat): State {
    State([], [], seq(n, _ => Outside), [], false)
  }

  datatype Action =
    | Submit(item: Item)
    | Enter(d: nat)
    | Test(d: nat)
    | Pop(d: nat)
    | Call(d: nat)

  function Move(s: State, d: nat, to: Drainer): State
    requires d < |s.drainers|
  {
    s.(drainers := s.drainers[d := to])
  }

  ghost predicate Next(s: State, a: Action, t: State) {
    match a
    case Submit(item) =>
      t == s.(msgs := s.msgs + [item.msg], ids := s.ids + [item.id])
    case Enter(d) =>
      d < |s.drainers| && s.drainers[d].Outside? && t == Move(s, d, AtTest)
    case Test(d) =>
      && d < |s.drainers| && s.drainers[d].AtTest?
      && t == Move(s, d, if s.msgs != [] then AtPop else Outside)
    case Pop(d) =>
      && d < |s.drainers| && s.drainers[d].AtPop?
      && if s.msgs != [] && s.ids != [] then
           t == Move(s.(msgs := s.msgs[1..], ids := s.ids[1..]), d, Calling(Item(s.ids[0], s.msgs[0])))
         else
           t == s.(broken := true)
    case Call(d) =>
      && d < |s.drainers| && s.drainers[d].Calling?
      && t == Move(s.(called := s.called + [s.drainers[d].item]), d, AtTest)
  }

  ghost predicate Run(n: nat, states: seq<State>, actions: seq<Action>) {
    && |states| == |actions| + 1
    && states[0] == Initial(n)
    && forall i | 0 <= i < |actions| :: Next(states[i], actions[i], states[i + 1])
  }

  /** A run and one more step. */
  lemma RunOn(n: nat, states: seq<State>, actions: seq<Action>, a: Action, t: State)
    requires Run(n, states, actions) && Next(states[|actions|], a, t)
    ensures Run(n, states + [t], actions + [a])
  {
    hide Next;
    var states', actions' := states + [t], actions + [a];
    forall i | 0 <= i < |actions'| ensures Next(states'[i], actions'[i], states'[i + 1]) {
      if i < |actions| {
        assert states'[i] == states[i] && states'[i + 1] == states[i + 1];
      }
    }
  }

  /** The calls immediate mode would have made: one per submission, in order. */
  function Immediate(actions: seq<Action>): seq<Item> {
    if actions == [] then []
    else
      var earlier, a := Immediate(actions[..|actions| - 1]), actions[|actions| - 1];
      if a.Submit? then earlier + [a.item] else earlier
  }

  function InHand(d: Drainer): seq<Item> {
    if d.Calling? then [d.item] else []
  }

  /** With one drainer: nothing submitted is lost, duplicated, reordered or re-paired. */
  ghost predicate Conserved(s: State, submitted: seq<Item>) {
    && !s.broken
    && |s.drainers| == 1
    && |s.ids| == |s.msgs|
    && s.called + InHand(s.drainers[0]) + Zip(s.ids, s.msgs) == submitted
    && (s.drainers[0].AtPop? ==> s.msgs != [])
  }

  lemma NextConserved(s: State, a: Action, t: State, submitted: seq<Item>)
    requires Conserved(s, submitted) && Next(s, a, t)
    ensures Conserved(t, if a.Submit? then submitted + [a.item] else submitted)
  {
    var queue, hand := Zip(s.ids, s.msgs), InHand(s.drainers[0]);
    match a
    case Submit(item) =>
      assert Zip(t.ids, t.msgs) == queue + [item];
      Assoc(s.called + hand, queue, [item]);
    case Enter(_) =>
    case Test(_) =>
    case Pop(_) =>
      assert queue == [Item(s.ids[0], s.msgs[0])] + Zip(t.ids, t.msgs);
      assert s.called + [] == s.called;
      Assoc(s.called, InHand(t.drainers[0]), Zip(t.ids, t.msgs));
    case Call(_) =>
      assert t.called + [] == t.called;
  }

  lemma {:induction false} RunConserved(states: seq<State>, actions: seq<Action>, i: nat)
    requires Run(1, states, actions) && i < |states|
    ensures Conserved(states[i], Immediate(actions[..i]))
  {
    if i == 0 {
      assert Zip([], []) == [];
    } else {
      RunConserved(states, actions, i - 1);
      NextConserved(states[i - 1], actions[i - 1], states[i], Immediate(actions[..i - 1]));
      assert actions[..i] == actions[..i - 1] + [actions[i - 1]];
      TakeSnoc(actions[..i - 1], actions[i - 1]);
    }
  }

  function Of(id: nat, items: seq<Item>): seq<Item> {
    if items == [] then []
    else
      var earlier, x := Of(id, items[..|items| - 1]), items[|items| - 1];
      if x.id == id then earlier + [x] else earlier
  }

  lemma {:induction false} OfPrefix(id: nat, a: seq<Item>, b: seq<Item>)
    ensures Of(id, a) <= Of(id, a + b)
    decreases |b|
  {
    if b == [] {
      assert a + b == a;
    } else {
      var init := b[..|b| - 1];
      OfPrefix(id, a, init);
      assert (a + b)[..|a + b| - 1] == a + init;
    }
  }

  /** The items of one id: all of them, each as often as among all items. With `OfPrefix` they
      are in order. */
  lemma {:induction false} OfCounts(id: nat, items: seq<Item>, x: Item)
    ensures multiset(Of(id, items))[x] == if x.id == id then multiset(items)[x] else 0
  {
    if items != [] {
      OfCounts(id, items[..|items| - 1], x);
      Unsnoc(items);
    }
  }

  /** Finding the queue empty with nothing in hand means everything has been called. */
  lemma DrainedAll(s: State, submitted: seq<Item>)
    requires Conserved(s, submitted) && s.msgs == [] && InHand(s.drainers[0]) == []
    ensures s.called == submitted
  {
    assert Zip(s.ids, s.msgs) == [];
    assert s.called + [] + [] == s.called;
  }

  lemma CalledIsPrefix(s: State, submitted: seq<Item>, id: nat)
    requires Conserved(s, submitted)
    ensures s.called <= submitted && Of(id, s.called) <= Of(id, submitted)
  {
    hide Of, Zip;
    Assoc(s.called, InHand(s.drainers[0]), Zip(s.ids, s.msgs));
    OfPrefix(id, s.called, InHand(s.drainers[0]) + Zip(s.ids, s.msgs));
  }

  /** Deferred mode refines immediate mode: its calls are at every moment a prefix of those
      immediate mode would have made for the same submissions, for each connection too, and
      all of them at the moment the drainer finds the queue empty and leaves. */
  lemma DeferredRefinesImmediate(states: seq<State>, actions: seq<Action>, i: nat, id: nat)
    requires Run(1, states, actions) && i < |states|
    ensures !states[i].broken && |states[i].drainers| == 1 && |states[i].ids| == |states[i].msgs|
    ensures states[i].called <= Immediate(actions[..i])
    ensures Of(id, states[i].called) <= Of(id, Immediate(actions[..i]))
    ensures i > 0 && actions[i - 1].Test? && states[i].drainers[0].Outside? ==>
              states[i].called == Immediate(actions[..i])
  {
    hide Immediate, Of, Zip;
    RunConserved(states, actions, i);
    CalledIsPrefix(states[i], Immediate(actions[..i]), id);
    if i > 0 && actions[i - 1].Test? && states[i].drainers[0].Outside? {
      assert Next(states[i - 1], actions[i - 1], states[i]);
      DrainedAll(states[i], Immediate(actions[..i]));
    }
  }

  // ----- Several drainers -----

  function Count(x: Item, items: seq<Item>): nat {
    multiset(items)[x]
  }

  lemma CountAppend(x: Item, a: seq<Item>, b: seq<Item>)
    ensures Count(x, a + b) == Count(x, a) + Count(x, b)
  {
    assert multiset(a + b) == multiset(a) + multiset(b);
  }

  /** How many drainers have popped `x` and not called back yet. */
  function Hands(x: Item, drainers: seq<Drainer>): nat {
    if drainers == [] then 0
    else Hands(x, drainers[..|drainers| - 1]) + Count(x, InHand(drainers[|drainers| - 1]))
  }

  lemma {:induction false} HandsUpdate(x: Item, drainers: seq<Drainer>, d: nat, to: Drainer)
    requires d < |drainers|
    ensures Hands(x, drainers[d := to]) + Count(x, InHand(drainers[d]))
         == Hands(x, drainers) + Count(x, InHand(to))
    decreases |drainers|
  {
    hide Count, InHand;
    var n := |drainers| - 1;
    if d == n {
      assert drainers[d := to][..n] == drainers[..n];
    } else {
      HandsUpdate(x, drainers[..n], d, to);
      assert drainers[d := to][..n] == drainers[..n][d := to];
    }
  }

  lemma {:induction false} HandsOutside(x: Item, n: nat)
    ensures Hands(x, Initial(n).drainers) == 0
  {
    if n > 0 {
      HandsOutside(x, n - 1);
      assert Initial(n).drainers[..n - 1] == Initial(n - 1).drainers;
    }
  }

  /** With any number of drainers: the two queues stay paired, and every item has been called
      with, is in a drainer's hand or is queued as often as it was submitted; only the order
      is no longer promised. */
  ghost predicate Accounted(s: State, submitted: seq<Item>, x: Item) {
    && |s.ids| == |s.msgs|
    && Count(x, s.called) + Hands(x, s.drainers) + Count(x, Zip(s.ids, s.msgs)) == Count(x, submitted)
  }

  lemma NoneInEmpty(x: Item)
    ensures Count(x, []) == 0
  {
  }

  lemma ZipSnoc(ids: seq<nat>, msgs: seq<seq<byte>>, item: Item)
    requires |ids| == |msgs|
    ensures Zip(ids + [item.id], msgs + [item.msg]) == Zip(ids, msgs) + [item]
  {
  }

  lemma ZipCons(ids: seq<nat>, msgs: seq<seq<byte>>)
    requires |ids| == |msgs| > 0
    ensures Zip(ids, msgs) == [Item(ids[0], msgs[0])] + Zip(ids[1..], msgs[1..])
  {
  }

  lemma SubmitAccounted(s: State, item: Item, t: State, submitted: seq<Item>, x: Item)
    requires Accounted(s, submitted, x) && Next(s, Submit(item), t)
    ensures Accounted(t, submitted + [item], x)
  {
    hide Count, Hands, Zip;
    ZipSnoc(s.ids, s.msgs, item);
    CountAppend(x, Zip(s.ids, s.msgs), [item]);
    CountAppend(x, submitted, [item]);
  }

  lemma PopAccounted(s: State, d: nat, t: State, submitted: seq<Item>, x: Item)
    requires Accounted(s, submitted, x) && Next(s, Pop(d), t)
    ensures Accounted(t, submitted, x)
  {
    hide Count, Hands, Zip;
    if s.msgs != [] {
      var item := Item(s.ids[0], s.msgs[0]);
      NoneInEmpty(x);
      HandsUpdate(x, s.drainers, d, Calling(item));
      ZipCons(s.ids, s.msgs);
      CountAppend(x, [item], Zip(t.ids, t.msgs));
    }
  }

  lemma CallAccounted(s: State, d: nat, t: State, submitted: seq<Item>, x: Item)
    requires Accounted(s, submitted, x) && Next(s, Call(d), t)
    ensures Accounted(t, submitted, x)
  {
    hide Count, Hands, Zip;
    NoneInEmpty(x);
    HandsUpdate(x, s.drainers, d, AtTest);
    CountAppend(x, s.called, [s.drainers[d].item]);
  }

  lemma MoveAccounted(s: State, d: nat, to: Drainer, submitted: seq<Item>, x: Item)
    requires Accounted(s, submitted, x) && d < |s.drainers|
    requires !s.drainers[d].Calling? && !to.Calling?
    ensures Accounted(Move(s, d, to), submitted, x)
  {
    hide Count, Hands, Zip;
    HandsUpdate(x, s.drainers, d, to);
  }

  lemma {:induction false} NextAccounted(s: State, a: Action, t: State, submitted: seq<Item>, x: Item)
    requires Accounted(s, submitted, x) && Next(s, a, t)
    ensures Accounted(t, if a.Submit? then submitted + [a.item] else submitted, x)
  {
    hide Accounted;
    match a
    case Submit(item) => SubmitAccounted(s, item, t, submitted, x);
    case Enter(d) => MoveAccounted(s, d, AtTest, submitted, x);
    case Test(d) => MoveAccounted(s, d, t.drainers[d], submitted, x);
    case Pop(d) => PopAccounted(s, d, t, submitted, x);
    case Call(d) => CallAccounted(s, d, t, submitted, x);
  }

  lemma {:induction false} RunAccounted(n: nat, states: seq<State>, actions: seq<Action>, i: nat, x: Item)
    requires Run(n, states, actions) && i < |states|
    ensures Accounted(states[i], Immediate(actions[..i]), x)
  {
    if i == 0 {
      HandsOutside(x, n);
      assert Zip([], []) == [];
    } else {
      RunAccounted(n, states, actions, i - 1, x);
      hide Accounted;
      NextAccounted(states[i - 1], actions[i - 1], states[i], Immediate(actions[..i - 1]), x);
      assert actions[..i] == actions[..i - 1] + [actions[i - 1]];
      TakeSnoc(actions[..i - 1], actions[i - 1]);
    }
  }

  /** One message, and two drainers that have both seen it. */
  lemma BothPastTest(n: nat, item: Item) returns (states: seq<State>, actions: seq<Action>)
    requires n >= 2
    ensures Run(n, states, actions)
    ensures var s := states[|actions|];
            && s.msgs == [item.msg] && s.ids == [item.id] && |s.drainers| == n
            && s.drainers[0] == s.drainers[1] == AtPop
  {
    actions := [Submit(item), Enter(0), Enter(1), Test(0), Test(1)];
    var s0 := Initial(n);
    var s1 := s0.(msgs := [item.msg], ids := [item.id]);
    var s2 := Move(s1, 0, AtTest);
    var s3 := Move(s2, 1, AtTest);
    var s4 := Move(s3, 0, AtPop);
    states := [s0, s1, s2, s3, s4, Move(s4, 1, AtPop)];
    assert Next(s0, actions[0], s1);
  }

  /** Then one takes it and the other pops nothing. */
  lemma TwoDrainersBreak(n: nat, item: Item) returns (states: seq<State>, actions: seq<Action>)
    requires n >= 2
    ensures Run(n, states, actions) && states[|actions|].broken
  {
    states, actions := BothPastTest(n, item);
    var s := states[|actions|];
    var t := Move(s.(msgs := [], ids := []), 0, Calling(item));
    hide Run;
    RunOn(n, states, actions, Pop(0), t);
    RunOn(n, states + [t], actions + [Pop(0)], Pop(1), t.(broken := true));
    states, actions := states + [t] + [t.(broken := true)], actions + [Pop(0)] + [Pop(1)];
  }

  lemma {:induction false} NoDrainerNoPop(states: seq<State>, actions: seq<Action>, i: nat)
    requires Run(0, states, actions) && i < |states|
    ensures !states[i].broken && states[i].drainers == []
  {
    if i > 0 {
      NoDrainerNoPop(states, actions, i - 1);
      assert Next(states[i - 1], actions[i - 1], states[i]);
    }
  }

  /** Popping is safe in every interleaving exactly when at most one thread drains. */
  lemma SafeExactlyWithOneDrainer(n: nat)
    ensures (forall states: seq<State>, actions: seq<Action> | Run(n, states, actions) ::
               !states[|actions|].broken) <==> n <= 1
  {
    if n >= 2 {
      var states, actions := TwoDrainersBreak(n, Item(0, []));
    } else {
      forall states: seq<State>, actions: seq<Action> | Run(n, states, actions)
        ensures !states[|actions|].broken
      {
        if n == 0 {
          NoDrainerNoPop(states, actions, |actions|);
        } else {
          RunConserved(states, actions, |actions|);
        }
      }
    }
  }
}

/** The queue as the program keeps it, used from one thread at a time, with a callback that
    may submit messages of its own. */
module MessageQueue {
  import opened Wire
  import opened ReceiveQueue
  import opened Replies

  class MsgRecPool {
    const deferMsgSignal: bool
    const replies: Callback
    var repliesLeft: nat
    var recMsgVec: seq<seq<byte>>
    var recMsgIds: seq<nat>
    var called: seq<Item>

    // The run of the interleaved queue that this object has gone through in deferred mode.
    ghost var drainer: Drainer
    ghost var states: seq<State>
    ghost var actions: seq<Action>

    /** This object as a state of the interleaved queue with its one drainer. */
    ghost function Now(): State
      reads this
    {
      State(recMsgVec, recMsgIds, [drainer], called, false)
    }

    ghost predicate Traced()
      reads this
    {
      Run(1, states, actions) && states[|actions|] == Now()
    }

    ghost predicate Valid()
      reads this
    {
      && |recMsgIds| == |recMsgVec|
      && (if deferMsgSignal then Traced() else recMsgVec == [] && drainer == Outside)
    }

    ghost function Queue(): seq<Item>
      requires Valid()
      reads this
    {
      Zip(recMsgIds, recMsgVec)
    }

    constructor (defer: bool, replies: Callback, repliesLeft: nat)
      ensures Valid() && deferMsgSignal == defer && drainer == Outside && actions == []
      ensures Queue() == [] && called == []
      ensures this.replies == replies && this.repliesLeft == repliesLeft
    {
      deferMsgSignal, this.replies, this.repliesLeft := defer, replies, repliesLeft;
      recMsgVec, recMsgIds, called := [], [], [];
      drainer, states, actions := Outside, [Initial(1)], [];
    }

    /** What happened is a step of the interleaved queue. */
    ghost method Record(a: Action)
      requires Run(1, states, actions) && Next(states[|actions|], a, Now())
      modifies this`states, this`actions
      ensures Traced() && actions == old(actions) + [a]
    {
      hide Next;
      RunOn(1, states, actions, a, Now());
      states, actions := states + [Now()], actions + [a];
    }

    /** A step that only moves the drainer. */
    ghost method Advance(a: Action, to: Drainer)
      requires Valid() && deferMsgSignal && Next(Now(), a, Move(Now(), 0, to))
      modifies this`drainer, this`states, this`actions
      ensures Valid() && drainer == to
    {
      hide Run, Next;
      assert Move(Now(), 0, to).drainers == [to];
      drainer := to;
      Record(a);
    }

    /** In deferred mode the calls made are at every moment a prefix of the submissions, the
        rest of which are the one being called and the queue. */
    lemma CallsAndQueueAreSubmitted()
      requires Valid() && deferMsgSignal
      ensures called + InHand(drainer) + Queue() == Immediate(actions)
    {
      hide Immediate, Next;
      RunConserved(states, actions, |actions|);
      assert actions[..|actions|] == actions;
    }

    method SubmitMessage(id: nat, msg: seq<byte>)
      requires Valid()
      modifies this
      ensures Valid() && drainer == old(drainer)
      ensures if deferMsgSignal then
                && called == old(called) && repliesLeft == old(repliesLeft)
                && Queue() == old(Queue()) + [Item(id, msg)]
                && actions == old(actions) + [Submit(Item(id, msg))]
              else
                (called, repliesLeft) == CallNow(replies, old(called), Item(id, msg), old(repliesLeft))
      decreases repliesLeft, 2
    {
      if deferMsgSignal {
        Enqueue(id, msg);
      } else {
        OnMsgReceived(id, msg);
      }
    }

    method Enqueue(id: nat, msg: seq<byte>)
      requires Valid() && deferMsgSignal
      modifies this`recMsgVec, this`recMsgIds, this`states, this`actions
      ensures Valid() && Queue() == old(Queue()) + [Item(id, msg)]
      ensures actions == old(actions) + [Submit(Item(id, msg))]
    {
      hide Run, Zip;
      ZipSnoc(recMsgIds, recMsgVec, Item(id, msg));
      recMsgVec := recMsgVec + [msg];
      recMsgIds := recMsgIds + [id];
      Record(Submit(Item(id, msg)));
    }

    /** The callback given at construction: the call is recorded, and whatever it answers is
        submitted before it returns. */
    method OnMsgReceived(id: nat, msg: seq<byte>)
      requires Valid() && drainer == (if deferMsgSignal then Calling(Item(id, msg)) else Outside)
      modifies this
      ensures Valid() && drainer == (if deferMsgSignal then AtTest else Outside)
      ensures var item := Item(id, msg);
              if deferMsgSignal then
                var rs := Answer(replies, old(called) + [item], old(repliesLeft));
                && called == old(called) + [item] && Queue() == old(Queue()) + rs
                && repliesLeft == old(repliesLeft) - |rs|
              else
                (called, repliesLeft) == CallNow(replies, old(called), item, old(repliesLeft))
      decreases repliesLeft, 1
    {
      hide Run, Next, Answer, CallEach;
      RecordCall(Item(id, msg));
      var rs := Answer(replies, called, repliesLeft);
      repliesLeft := repliesLeft - |rs|;
      SubmitAll(rs);
    }

    method RecordCall(item: Item)
      requires Valid() && (deferMsgSignal ==> drainer == Calling(item))
      modifies this`called, this`drainer, this`states, this`actions
      ensures Valid() && drainer == (if deferMsgSignal then AtTest else Outside)
      ensures called == old(called) + [item]
    {
      hide Run;
      called := called + [item];
      if deferMsgSignal {
        drainer := AtTest;
        Record(Call(0));
      }
    }

    method SubmitAll(items: seq<Item>)
      requires Valid()
      modifies this
      ensures Valid() && drainer == old(drainer)
      ensures if deferMsgSignal then
                called == old(called) && repliesLeft == old(repliesLeft) && Queue() == old(Queue()) + items
              else
                (called, repliesLeft) == CallEach(replies, old(called), items, old(repliesLeft))
      decreases repliesLeft + |items|, 0
    {
      hide Run, Next, CallNow, Zip;
      assert Queue() + items[..0] == Queue() && items[0..] == items;
      for i := 0 to |items|
        invariant Valid() && drainer == old(drainer) && repliesLeft <= old(repliesLeft)
        invariant if deferMsgSignal then
                    && called == old(called) && repliesLeft == old(repliesLeft)
                    && Queue() == old(Queue()) + items[..i]
                  else
                    CallEach(replies, called, items[i..], repliesLeft)
                    == CallEach(replies, old(called), items, old(repliesLeft))
      {
        SubmitMessage(items[i].id, items[i].msg);
        assert old(Queue()) + items[..i + 1] == old(Queue()) + items[..i] + [items[i]];
        assert items[i..][1..] == items[i + 1..];
      }
      assert items[..|items|] == items && items[|items|..] == [];
    }

    /** Test, then pop: the queue was not empty and nobody else pops. */
    method PopFront() returns (id: nat, msg: seq<byte>)
      requires Valid() && deferMsgSignal && drainer == AtTest && recMsgVec != []
      modifies this`recMsgVec, this`recMsgIds, this`drainer, this`states, this`actions
      ensures Valid() && drainer == Calling(Item(id, msg)) && old(Queue()) == [Item(id, msg)] + Queue()
      ensures |recMsgVec| == |old(recMsgVec)| - 1
    {
      hide Run, Zip;
      ZipCons(recMsgIds, recMsgVec);
      Advance(Test(0), AtPop);
      msg, id := recMsgVec[0], recMsgIds[0];
      recMsgVec := recMsgVec[1..];
      recMsgIds := recMsgIds[1..];
      drainer := Calling(Item(id, msg));
      Record(Pop(0));
    }

    /** The loop: test, pop and call back until a test finds the queue empty. */
    method Drain()
      requires Valid() && deferMsgSignal && drainer == AtTest
      modifies this
      ensures Valid() && drainer == AtTest && recMsgVec == []
      ensures (called, repliesLeft) == Drained(replies, old(called), old(Queue()), old(repliesLeft))
    {
      hide Run, Next, Answer;
      while recMsgVec != []
        invariant Valid() && drainer == AtTest
        invariant Drained(replies, called, Queue(), repliesLeft)
               == Drained(replies, old(called), old(Queue()), old(repliesLeft))
        decreases repliesLeft + |recMsgVec|
      {
        var id, msg := PopFront();
        OnMsgReceived(id, msg);
      }
    }

    /** Drains the queue, including what the callback submits meanwhile. In the end the calls
        made are all the submissions made, in order. */
    method NotifyListeners()
      requires Valid() && drainer == Outside
      modifies this
      ensures Valid() && drainer == Outside && Queue() == []
      ensures if deferMsgSignal then
                (called, repliesLeft) == Drained(replies, old(called), old(Queue()), old(repliesLeft))
              else
                called == old(called) && repliesLeft == old(repliesLeft)
      ensures called == old(called) + old(Queue()) + AnswersTo(replies, |old(called)|, called, old(repliesLeft)).0
      ensures deferMsgSignal ==> called == Immediate(actions)
    {
      hide Run, Drained, Immediate, AnswersTo;
      if !deferMsgSignal {
        NoCallsNoAnswers(replies, called, repliesLeft);
        return;
      }
      DrainedInOrder(replies, called, Queue(), repliesLeft);
      Advance(Enter(0), AtTest);
      Drain();
      Advance(Test(0), Outside);
      CallsAndQueueAreSubmitted();
    }
  }
}

/** Message callbacks that submit messages themselves. A callback is any function from the
    calls so far, the latest last, to what it submits; `left` bounds how many messages it
    submits in all, so that every drain ends. */
module Replies {
  import opened Sequences
  import opened ReceiveQueue

  type Callback = seq<Item> -> seq<Item>

  /** What the callback submits during the last of `calls`. */
  function Answer(replies: Callback, calls: seq<Item>, left: nat): (rs: seq<Item>)
    ensures |rs| <= left
  {
    var rs := replies(calls);
    if |rs| <= left then rs else rs[..left]
  }

  // ----- Immediate mode: a submission is a call, inside the call that makes it -----

  /** The calls made once `item` has been submitted, and what is left. */
  function CallNow(replies: Callback, calls: seq<Item>, item: Item, left: nat): (r: (seq<Item>, nat))
    ensures r.1 <= left
    decreases left, 1
  {
    var rs := Answer(replies, calls + [item], left);
    CallEach(replies, calls + [item], rs, left - |rs|)
  }

  function CallEach(replies: Callback, calls: seq<Item>, items: seq<Item>, left: nat): (r: (seq<Item>, nat))
    ensures r.1 <= left
    decreases left + |items|, 0
  {
    if items == [] then (calls, left)
    else
      var r := CallNow(replies, calls, items[0], left);
      CallEach(replies, r.0, items[1..], r.1)
  }

  // ----- Deferred mode: a submission goes to the back of the queue -----

  /** The calls made when a queue has been drained, including what was submitted meanwhile. */
  function Drained(replies: Callback, calls: seq<Item>, queue: seq<Item>, left: nat): (r: (seq<Item>, nat))
    ensures r.1 <= left
    decreases left + |queue|
  {
    if queue == [] then (calls, left)
    else
      var rs := Answer(replies, calls + [queue[0]], left);
      Drained(replies, calls + [queue[0]], queue[1..] + rs, left - |rs|)
  }

  // ----- Every answer is called, in either mode -----

  /** All that was answered during the calls after the first `before`, and what is left. */
  function AnswersTo(replies: Callback, before: nat, calls: seq<Item>, left: nat): (r: (seq<Item>, nat))
    ensures |r.0| + r.1 == left
    decreases |calls|
  {
    if |calls| <= before then ([], left)
    else
      var earlier := AnswersTo(replies, before, calls[..|calls| - 1], left);
      var rs := Answer(replies, calls, earlier.1);
      (earlier.0 + rs, earlier.1 - |rs|)
  }

  lemma {:induction false} AnswersSplit(replies: Callback, before: nat, mid: nat, calls: seq<Item>, left: nat)
    requires before <= mid <= |calls|
    ensures
      var first := AnswersTo(replies, before, calls[..mid], left);
      var second := AnswersTo(replies, mid, calls, first.1);
      AnswersTo(replies, before, calls, left) == (first.0 + second.0, second.1)
    decreases |calls|
  {
    var first := AnswersTo(replies, before, calls[..mid], left);
    if mid == |calls| {
      assert calls[..mid] == calls && first.0 + [] == first.0;
    } else {
      var init := calls[..|calls| - 1];
      AnswersSplit(replies, before, mid, init, left);
      assert init[..mid] == calls[..mid];
      var second := AnswersTo(replies, mid, init, first.1);
      Assoc(first.0, second.0, Answer(replies, calls, second.1));
    }
  }

  /** The answers to one call and to those that follow it. */
  lemma {:induction false} AnswersAfterCall(replies: Callback, calls: seq<Item>, item: Item, all: seq<Item>, left: nat)
    requires calls + [item] <= all
    ensures
      var rs := Answer(replies, calls + [item], left);
      var later := AnswersTo(replies, |calls| + 1, all, left - |rs|);
      AnswersTo(replies, |calls|, all, left) == (rs + later.0, later.1)
  {
    var rs := Answer(replies, calls + [item], left);
    AnswersSplit(replies, |calls|, |calls| + 1, all, left);
    assert all[..|calls| + 1] == calls + [item];
    TakeSnoc(calls, item);
    assert AnswersTo(replies, |calls|, calls, left) == ([], left);
    assert [] + rs == rs;
  }

  /** Draining makes the queued calls first and then those answered meanwhile, in the order in
      which they were answered. */
  lemma {:induction false} DrainedInOrder(replies: Callback, calls: seq<Item>, queue: seq<Item>, left: nat)
    ensures
      var r := Drained(replies, calls, queue, left);
      var answered := AnswersTo(replies, |calls|, r.0, left);
      r == (calls + queue + answered.0, answered.1)
    decreases left + |queue|
  {
    hide Answer, AnswersTo;
    var r := Drained(replies, calls, queue, left);
    if queue == [] {
      NoCallsNoAnswers(replies, calls, left);
      assert calls + queue + [] == calls;
    } else {
      var rs := Answer(replies, calls + [queue[0]], left);
      DrainedInOrder(replies, calls + [queue[0]], queue[1..] + rs, left - |rs|);
      var later := AnswersTo(replies, |calls| + 1, r.0, left - |rs|).0;
      Reassociate(calls, queue, rs, later);
      AnswersAfterCall(replies, calls, queue[0], r.0, left);
    }
  }

  lemma NoCallsNoAnswers(replies: Callback, calls: seq<Item>, left: nat)
    ensures AnswersTo(replies, |calls|, calls, left) == ([], left)
  {
  }

  lemma Reassociate(calls: seq<Item>, queue: seq<Item>, rs: seq<Item>, later: seq<Item>)
    requires queue != []
    ensures calls + [queue[0]] + (queue[1..] + rs) + later == calls + queue + (rs + later)
    ensures calls + [queue[0]] <= calls + [queue[0]] + (queue[1..] + rs) + later
  {
    var called := calls + [queue[0]];
    assert called + (queue[1..] + rs) + later == called + queue[1..] + rs + later;
    assert called + queue[1..] == calls + queue;
    Assoc(calls + queue, rs, later);
  }

  /** Immediate mode starts with the first item and keeps all calls made before. */
  lemma {:induction false} CallEachExtends(replies: Callback, calls: seq<Item>, items: seq<Item>, left: nat)
    ensures var r := CallEach(replies, calls, items, left).0;
            calls <= r && (items != [] ==> calls + [items[0]] <= r)
    decreases left + |items|, 0
  {
    if items != [] {
      var rs := Answer(replies, calls + [items[0]], left);
      CallEachExtends(replies, calls + [items[0]], rs, left - |rs|);
      var r := CallNow(replies, calls, items[0], left);
      CallEachExtends(replies, r.0, items[1..], r.1);
    }
  }

  lemma CallNowExtends(replies: Callback, calls: seq<Item>, item: Item, left: nat)
    ensures var r, rs := CallNow(replies, calls, item, left).0, Answer(replies, calls + [item], left);
            && calls <= r && calls + [item] <= r
            && (rs != [] ==> calls + [item] + [rs[0]] <= r)
  {
    hide Answer, CallEach;
    var rs := Answer(replies, calls + [item], left);
    CallEachExtends(replies, calls + [item], rs, left - |rs|);
    assert calls <= calls + [item];
  }

  /** `r` continues `calls` with exactly `items` and what was answered meanwhile. */
  ghost predicate Continues(replies: Callback, calls: seq<Item>, items: seq<Item>, left: nat, r: (seq<Item>, nat)) {
    var answered := AnswersTo(replies, |calls|, r.0, left);
    && calls <= r.0 && r.1 == answered.1
    && multiset(r.0) == multiset(calls) + multiset(items) + multiset(answered.0)
  }

  /** Immediate mode calls back for everything answered, within the call that answered it: the
      first answer comes right after the call, and none is lost or called twice. */
  lemma {:induction false} CallNowCallsAnswers(replies: Callback, calls: seq<Item>, item: Item, left: nat)
    ensures var r, rs := CallNow(replies, calls, item, left), Answer(replies, calls + [item], left);
            && Continues(replies, calls, [item], left, r)
            && calls + [item] <= r.0
            && (rs != [] ==> calls + [item] + [rs[0]] <= r.0)
    decreases left, 1
  {
    hide AnswersTo, Answer, CallEach;
    var called := calls + [item];
    var r, rs := CallNow(replies, calls, item, left), Answer(replies, called, left);
    CallEachCallsAnswers(replies, called, rs, left - |rs|);
    CallNowExtends(replies, calls, item, left);
    AnswersAfterCall(replies, calls, item, r.0, left);
    var later := AnswersTo(replies, |calls| + 1, r.0, left - |rs|).0;
    CountCall(calls, item, rs, later);
  }

  lemma CountCall(calls: seq<Item>, item: Item, rs: seq<Item>, later: seq<Item>)
    ensures multiset(calls + [item]) + multiset(rs) + multiset(later)
         == multiset(calls) + multiset([item]) + multiset(rs + later)
  {
    assert multiset(rs + later) == multiset(rs) + multiset(later);
    assert multiset(calls + [item]) == multiset(calls) + multiset([item]);
  }

  lemma CountCalls(calls: multiset<Item>, items: seq<Item>, a: seq<Item>, b: seq<Item>)
    requires items != []
    ensures calls + multiset([items[0]]) + multiset(a) + multiset(items[1..]) + multiset(b)
         == calls + multiset(items) + multiset(a + b)
  {
    assert multiset(a + b) == multiset(a) + multiset(b);
    assert items == [items[0]] + items[1..];
    assert multiset(items) == multiset([items[0]]) + multiset(items[1..]);
  }

  lemma {:induction false} CallEachCallsAnswers(replies: Callback, calls: seq<Item>, items: seq<Item>, left: nat)
    ensures Continues(replies, calls, items, left, CallEach(replies, calls, items, left))
    decreases left + |items|, 0
  {
    hide Answer, CallNow;
    if items != [] {
      hide AnswersTo;
      var first := CallNow(replies, calls, items[0], left);
      CallNowCallsAnswers(replies, calls, items[0], left);
      var r := CallEach(replies, first.0, items[1..], first.1);
      CallEachCallsAnswers(replies, first.0, items[1..], first.1);
      AnswersSplit(replies, |calls|, |first.0|, r.0, left);
      assert r.0[..|first.0|] == first.0;
      var a, b := AnswersTo(replies, |calls|, first.0, left).0, AnswersTo(replies, |first.0|, r.0, first.1).0;
      CountCalls(multiset(calls), items, a, b);
    }
  }

  // ----- When the two make the same calls -----

  ghost predicate Silent(replies: Callback) {
    forall calls :: calls != [] ==> replies(calls) == []
  }

  lemma {:induction false} SilentDrained(replies: Callback, calls: seq<Item>, queue: seq<Item>, left: nat)
    requires Silent(replies)
    ensures Drained(replies, calls, queue, left) == (calls + queue, left)
    decreases |queue|
  {
    if queue == [] {
      assert calls + queue == calls;
    } else {
      SilentDrained(replies, calls + [queue[0]], queue[1..], left);
      assert queue[1..] + [] == queue[1..];
      assert calls + [queue[0]] + queue[1..] == calls + queue;
    }
  }

  lemma {:induction false} SilentCallEach(replies: Callback, calls: seq<Item>, items: seq<Item>, left: nat)
    requires Silent(replies)
    ensures CallEach(replies, calls, items, left) == (calls + items, left)
    decreases |items|
  {
    if items == [] {
      assert calls + items == calls;
    } else {
      assert Answer(replies, calls + [items[0]], left) == [];
      assert CallNow(replies, calls, items[0], left) == (calls + [items[0]], left);
      SilentCallEach(replies, calls + [items[0]], items[1..], left);
      assert calls + [items[0]] + items[1..] == calls + items;
    }
  }

  /** Draining calls with the whole queue first, in order. */
  lemma {:induction false} DrainedExtends(replies: Callback, calls: seq<Item>, queue: seq<Item>, left: nat)
    ensures calls + queue <= Drained(replies, calls, queue, left).0
    decreases left + |queue|
  {
    if queue == [] {
      assert calls + queue == calls;
    } else {
      var rs := Answer(replies, calls + [queue[0]], left);
      DrainedExtends(replies, calls + [queue[0]], queue[1..] + rs, left - |rs|);
      assert calls + [queue[0]] + (queue[1..] + rs) == (calls + queue) + rs;
    }
  }

  /** If the callback answers the last call of `calls`, there is a queue whose drain makes the
      calls in another order than immediate mode would have. */
  lemma AnsweringReorders(replies: Callback, calls: seq<Item>, left: nat) returns (queue: seq<Item>)
    requires calls != [] && replies(calls) != [] && left > 0
    ensures
      var before := calls[..|calls| - 1];
      Drained(replies, before, queue, left).0 != CallEach(replies, before, queue, left).0
  {
    var before, last := calls[..|calls| - 1], calls[|calls| - 1];
    assert before + [last] == calls;
    var rs := Answer(replies, calls, left);
    var other := Item(rs[0].id + 1, rs[0].msg);
    queue := [last, other];
    DrainedExtends(replies, before, queue, left);
    assert Drained(replies, before, queue, left).0[|calls|] == other;
    CallEachExtends(replies, calls, rs, left - |rs|);
    var r := CallNow(replies, before, last, left);
    CallEachExtends(replies, r.0, queue[1..], r.1);
    assert CallEach(replies, before, queue, left).0[|calls|] == rs[0];
  }

  ghost predicate SameCalls(replies: Callback, calls: seq<Item>, queue: seq<Item>, left: nat) {
    Drained(replies, calls, queue, left).0 == CallEach(replies, calls, queue, left).0
  }

  /** For a given callback, draining the queue makes the calls immediate mode would have made
      for the same outside submissions, in every situation, exactly if it never submits. */
  lemma SameCallsExactlyWhenSilent(replies: Callback)
    ensures (forall calls, queue, left :: SameCalls(replies, calls, queue, left)) <==> Silent(replies)
  {
    if Silent(replies) {
      forall calls, queue, left: nat ensures SameCalls(replies, calls, queue, left) {
        SilentDrained(replies, calls, queue, left);
        SilentCallEach(replies, calls, queue, left);
      }
    } else {
      var calls :| calls != [] && replies(calls) != [];
      var queue := AnsweringReorders(replies, calls, 1);
      assert !SameCalls(replies, calls[..|calls| - 1], queue, 1);
    }
  }
}

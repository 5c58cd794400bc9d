/** Connection ids: a 16-bit counter advanced by compare-and-swap. */
module ConnectionIds {
  const ID_LIMIT: nat := 0x1_0000
  type ConId = x: nat | x < ID_LIMIT

  /** A thread between loading the counter and trying to swap it holds what it loaded. */
  datatype Thread = Elsewhere | Loaded(value: ConId)

  /** `returned` is the history of successful calls, in the order of their swaps. */
  datatype State = State(nextId: ConId, threads: map<nat, Thread>, returned: seq<ConId>)

  const INITIAL: State := State(0, map[], [])

  datatype Action =
    | Load(t: nat)
    | Swap(t: nat, spurious: bool)

  ghost predicate Next(s: State, a: Action, u: State) {
    match a
    case Load(t) =>
      && (t in s.threads ==> s.threads[t].Elsewhere?)
      && u == s.(threads := s.threads[t := Loaded(s.nextId)])
    case Swap(t, spurious) =>
      && t in s.threads && s.threads[t].Loaded?
      && var v := s.threads[t].value;
         if s.nextId == v && !spurious then
           u == State((v + 1) % ID_LIMIT, s.threads[t := Elsewhere], s.returned + [v])
         else
           u == s.(threads := s.threads[t := Elsewhere])
  }

  ghost predicate Run(states: seq<State>, actions: seq<Action>) {
    && |states| == |actions| + 1
    && states[0] == INITIAL
    && forall i | 0 <= i < |actions| :: Next(states[i], actions[i], states[i + 1])
  }

  // ----- Which calls succeed, told from the actions alone -----

  datatype Option<T> = Some(value: T) | None

  /** How many swaps have succeeded: those that did not fail spuriously and before which, since
      their thread's load, a multiple of 65536 other swaps had succeeded. */
  function Successes(actions: seq<Action>): nat
    decreases |actions|, 1
  {
    if actions == [] then 0
    else
      var earlier := actions[..|actions| - 1];
      match actions[|actions| - 1]
      case Load(_) => Successes(earlier)
      case Swap(t, spurious) =>
        match LoadedAt(t, earlier)
        case None => Successes(earlier)
        case Some(n) =>
          if !spurious && (Successes(earlier) - n) % 65536 == 0 then Successes(earlier) + 1
          else Successes(earlier)
  }

  /** If thread `t` has loaded the counter and not tried to swap it yet: how many swaps had
      succeeded when it loaded. */
  function LoadedAt(t: nat, actions: seq<Action>): Option<nat>
    decreases |actions|, 0
  {
    if actions == [] then None
    else
      var earlier := actions[..|actions| - 1];
      match actions[|actions| - 1]
      case Load(u) => if u == t then Some(Successes(earlier)) else LoadedAt(t, earlier)
      case Swap(u, _) => if u == t then None else LoadedAt(t, earlier)
  }

  /** What a thread that loaded after `n` successes holds. */
  ghost predicate Holds(s: State, t: nat, loaded: Option<nat>) {
    match loaded
    case None => t in s.threads ==> s.threads[t].Elsewhere?
    case Some(n) => t in s.threads && s.threads[t] == Loaded(n % 65536)
  }

  ghost predicate Counted(s: State, actions: seq<Action>) {
    && s.returned == seq(Successes(actions), (k: int) requires 0 <= k => (k % 65536) as ConId)
    && s.nextId == Successes(actions) % 65536
    && forall t: nat :: Holds(s, t, LoadedAt(t, actions))
  }

  lemma SameModulo(a: nat, b: nat)
    ensures a % 65536 == b % 65536 <==> (a - b) % 65536 == 0
    ensures (a % 65536 + 1) % 65536 == (a + 1) % 65536
  {
  }

  lemma NextCounted(s: State, a: Action, u: State, actions: seq<Action>)
    requires Counted(s, actions) && Next(s, a, u)
    ensures Counted(u, actions + [a])
  {
    assert (actions + [a])[..|actions + [a]| - 1] == actions;
    if a.Swap? {
      assert Holds(s, a.t, LoadedAt(a.t, actions));
      SameModulo(Successes(actions), LoadedAt(a.t, actions).value);
    }
    forall t: nat ensures Holds(u, t, LoadedAt(t, actions + [a])) {
      assert Holds(s, t, LoadedAt(t, actions));
    }
  }

  lemma {:induction false} RunCounted(states: seq<State>, actions: seq<Action>, i: nat)
    requires Run(states, actions) && i < |states|
    ensures Counted(states[i], actions[..i])
  {
    if i > 0 {
      RunCounted(states, actions, i - 1);
      hide Counted, Next;
      NextCounted(states[i - 1], actions[i - 1], states[i], actions[..i - 1]);
      assert actions[..i] == actions[..i - 1] + [actions[i - 1]];
    }
  }

  /** Under any interleaving and any spurious failures, exactly the swaps that are due to
      succeed do, the k-th of them returns k mod 65536, and the counter is one further: no
      increment is lost, and two calls share an id exactly when their places differ by a
      multiple of 65536. */
  lemma IdsAreSequential(states: seq<State>, actions: seq<Action>)
    requires Run(states, actions)
    ensures
      var s := states[|actions|];
      && |s.returned| == Successes(actions)
      && s.nextId == |s.returned| % 65536
      && (forall k | 0 <= k < |s.returned| :: s.returned[k] == k % 65536)
      && forall j, k | 0 <= j <= k < |s.returned| ::
           s.returned[j] == s.returned[k] <==> (k - j) % 65536 == 0
  {
    RunCounted(states, actions, |actions|);
    assert actions[..|actions|] == actions;
    hide Run, Successes, LoadedAt, Holds;
    forall j: nat, k: nat
      ensures j % 65536 == k % 65536 <==> (k - j) % 65536 == 0
    {
      SameModulo(k, j);
    }
  }

  /** A call during which nobody else's succeeds, and which does not fail spuriously, succeeds. */
  lemma AloneInTime(actions: seq<Action>, t: nat)
    ensures Successes(actions + [Load(t), Swap(t, false)]) == Successes(actions) + 1
  {
    var loaded := actions + [Load(t)];
    assert loaded[..|loaded| - 1] == actions;
    var swapped := actions + [Load(t), Swap(t, false)];
    assert swapped[..|swapped| - 1] == loaded;
  }

  /** And it can always be made: from any moment of any run, by any thread not in the middle of
      one. */
  lemma CallSucceeds(states: seq<State>, actions: seq<Action>, t: nat) returns (loaded: State, swapped: State)
    requires Run(states, actions)
    requires t in states[|actions|].threads ==> states[|actions|].threads[t].Elsewhere?
    ensures Run(states + [loaded, swapped], actions + [Load(t), Swap(t, false)])
    ensures swapped.returned == states[|actions|].returned + [states[|actions|].nextId]
  {
    var s := states[|actions|];
    loaded := s.(threads := s.threads[t := Loaded(s.nextId)]);
    swapped := State((s.nextId + 1) % ID_LIMIT, loaded.threads[t := Elsewhere], s.returned + [s.nextId]);
    assert Next(s, Load(t), loaded) && Next(loaded, Swap(t, false), swapped);
    hide Next;
    var longer, more := states + [loaded, swapped], actions + [Load(t), Swap(t, false)];
    forall i | 0 <= i < |more| ensures Next(longer[i], more[i], longer[i + 1]) {
      if i < |actions| {
        assert longer[i] == states[i] && longer[i + 1] == states[i + 1];
      }
    }
  }

  /** What comes between a caller's load and its swap: how many calls of other threads
      succeed, and whether the swap fails although the counter holds what was loaded. */
  datatype Attempt = Attempt(others: nat, spurious: bool)

  /** A swap cannot tell a counter that was not advanced from one that came full circle. */
  predicate Succeeds(a: Attempt) {
    a.others % ID_LIMIT == 0 && !a.spurious
  }

  const ALONE: Attempt := Attempt(0, false)

  lemma AloneSucceeds()
    ensures Succeeds(ALONE)
  {
  }

  function Others(attempts: seq<Attempt>): nat {
    if attempts == [] then 0
    else Others(attempts[..|attempts| - 1]) + attempts[|attempts| - 1].others
  }

  lemma NoOthers()
    ensures Others([]) == 0
  {
  }

  /** The attempts made when the first `failed` of them fail and the next succeeds. */
  function UpTo(attempts: seq<Attempt>, failed: nat): seq<Attempt> {
    if failed < |attempts| then attempts[..failed + 1] else attempts
  }

  lemma OthersSnoc(attempts: seq<Attempt>, k: nat)
    requires k < |attempts|
    ensures Others(attempts[..k + 1]) == Others(attempts[..k]) + attempts[k].others
  {
    assert attempts[..k + 1][..k] == attempts[..k];
  }

  lemma AddModulo(n: nat, more: nat)
    ensures (n % ID_LIMIT + more) % ID_LIMIT == (n + more) % ID_LIMIT
    ensures (n + more) % ID_LIMIT == n % ID_LIMIT <==> more % ID_LIMIT == 0
  {
  }

  class Network {
    var nextId: ConId
    ghost var successes: nat

    /** The counter counts successful calls, modulo its width. */
    ghost predicate Valid()
      reads this
    {
      nextId == successes % ID_LIMIT
    }

    constructor ()
      ensures Valid() && successes == 0
    {
      nextId, successes := 0, 0;
    }

    /** A weak compare-and-swap: it may fail although the counter holds what was expected. */
    method CompareExchangeWeak(expected: ConId, desired: nat, spurious: bool) returns (ok: bool)
      modifies this`nextId
      ensures ok == (old(nextId) == expected && !spurious)
      ensures nextId == if ok then desired % ID_LIMIT else old(nextId)
    {
      ok := nextId == expected && !spurious;
      if ok {
        nextId := desired % ID_LIMIT;
      }
    }

    /** Calls of other threads succeed. */
    method OthersSucceed(calls: nat)
      requires Valid()
      modifies this
      ensures Valid() && successes == old(successes) + calls
      ensures nextId == old(nextId) <==> calls % ID_LIMIT == 0
    {
      AddModulo(successes, calls);
      nextId, successes := (nextId + calls) % ID_LIMIT, successes + calls;
    }

    /** One pass of the loop: load, be overtaken or not, and try to swap. */
    method Try(a: Attempt) returns (id: ConId, done: bool)
      requires Valid()
      modifies this
      ensures Valid() && done == Succeeds(a)
      ensures successes == old(successes) + a.others + if done then 1 else 0
      ensures done ==> id == (successes - 1) % ID_LIMIT
    {
      id := nextId;
      OthersSucceed(a.others);
      done := CompareExchangeWeak(id, id + 1, a.spurious);
      if done {
        successes := successes + 1;
      }
    }

    /** One call, with whatever happens during its attempts; after the listed ones nothing
        interferes. It ends at the first attempt that can succeed, and if `successes - 1`
        calls succeeded before its own, however many of them since it started, it returns
        that number modulo 2^16. */
    method GetNextId(attempts: seq<Attempt>) returns (id: ConId, failed: nat)
      requires Valid()
      modifies this
      ensures Valid()
      ensures failed <= |attempts| && forall k | 0 <= k < failed :: !Succeeds(attempts[k])
      ensures failed < |attempts| ==> Succeeds(attempts[failed])
      ensures successes == old(successes) + Others(UpTo(attempts, failed)) + 1
      ensures id == (successes - 1) % 65536
    {
      hide Valid, Succeeds, Others;
      AloneSucceeds();
      var done := false;
      id, failed := 0, 0;
      assert Others(attempts[..0]) == 0 by { NoOthers(); }
      while !done
        invariant Valid() && failed <= |attempts|
        invariant forall k | 0 <= k < failed :: !Succeeds(attempts[k])
        invariant if done then
                    && (failed < |attempts| ==> Succeeds(attempts[failed]))
                    && successes == old(successes) + Others(UpTo(attempts, failed)) + 1
                    && id == (successes - 1) % ID_LIMIT
                  else
                    successes == old(successes) + Others(attempts[..failed])
        decreases !done, |attempts| - failed
      {
        if failed < |attempts| {
          OthersSnoc(attempts, failed);
          id, done := Try(attempts[failed]);
        } else {
          assert attempts[..failed] == attempts;
          id, done := Try(ALONE);
        }
        if !done {
          failed := failed + 1;
        }
      }
    }
  }
}

/** The message pool as a transition system over buffer identities, so that the same
    transitions describe heap objects and interleaved runs. */
module Pool {
  import opened Wire

  const MAX_MESSAGES := 50

  /** The two deleters a shared pointer to a buffer can carry. */
  datatype Deleter = ReturnToPool | DeleteNow

  datatype PoolEvent<Id> = Allocated(id: Id) | Pooled(id: Id) | Freed(id: Id)

  /** `live` buffers are referenced from outside the pool, with the deleter their last
      reference will run; `log` is the history. */
  datatype PoolState<Id(==)> = PoolState(
    pooled: seq<Id>,
    live: map<Id, Deleter>,
    bytes: map<Id, seq<byte>>,
    freed: set<Id>,
    log: seq<PoolEvent<Id>>)
  {
    ghost function InPool(): set<Id> {
      set i | 0 <= i < |pooled| :: pooled[i]
    }

    ghost function Known(): set<Id> {
      live.Keys + InPool() + freed
    }

    ghost function Times(e: PoolEvent<Id>): nat {
      multiset(log)[e]
    }

    /** Overwrites the contents of a live buffer. */
    function Write(id: Id, content: seq<byte>): PoolState<Id> {
      this.(bytes := bytes[id := content])
    }
  }

  function Empty<Id>(): PoolState<Id> {
    PoolState([], map[], map[], {}, [])
  }

  // ----- Transitions -----

  /** Which buffer a request hands out: the last pooled one, or else a new one. */
  ghost predicate Offers<Id>(s: PoolState<Id>, id: Id) {
    if |s.pooled| > 0 then id == s.pooled[|s.pooled| - 1] else id !in s.Known()
  }

  /** A recycled buffer gets a plain deleter, a new one a deleter that brings it back. */
  function GetMessage<Id>(s: PoolState<Id>, id: Id): PoolState<Id> {
    if |s.pooled| > 0 then
      s.(pooled := s.pooled[..|s.pooled| - 1], live := s.live[id := DeleteNow])
    else
      s.(live := s.live[id := ReturnToPool],
         bytes := s.bytes[id := []],
         log := s.log + [Allocated(id)])
  }

  /** The last reference to `id` is dropped and its deleter runs. */
  function RunDeleter<Id>(s: PoolState<Id>, id: Id): PoolState<Id>
    requires id in s.live
  {
    match s.live[id]
    case ReturnToPool => ReturnMessage(s, id)
    case DeleteNow => Delete(s, id)
  }

  function ReturnMessage<Id>(s: PoolState<Id>, id: Id): PoolState<Id> {
    if |s.pooled| <= MAX_MESSAGES then
      s.(pooled := s.pooled + [id],
         live := s.live - {id},
         bytes := s.bytes[id := []],
         log := s.log + [Pooled(id)])
    else
      Delete(s, id)
  }

  function Delete<Id>(s: PoolState<Id>, id: Id): PoolState<Id> {
    s.(live := s.live - {id},
       bytes := s.bytes - {id},
       freed := s.freed + {id},
       log := s.log + [Freed(id)])
  }

  // ----- What every transition keeps -----

  /** Where a buffer is and what happened to it determine each other. */
  ghost predicate Lifecycle<Id>(s: PoolState<Id>, id: Id) {
    && s.Times(Allocated(id)) == 1
    && s.Times(Pooled(id)) <= 1
    && s.Times(Freed(id)) == (if id in s.freed then 1 else 0)
    && (id in s.live ==> s.Times(Pooled(id)) == if s.live[id].DeleteNow? then 1 else 0)
    && (id in s.InPool() ==> s.Times(Pooled(id)) == 1)
  }

  /** Every buffer ever allocated is in exactly one place, pooled buffers are distinct and
      empty, and the pool is bounded. */
  ghost predicate Placed<Id>(s: PoolState<Id>) {
    && (forall i, j | 0 <= i < j < |s.pooled| :: s.pooled[i] != s.pooled[j])
    && s.live.Keys !! s.InPool() !! s.freed
    && s.bytes.Keys == s.live.Keys + s.InPool()
    && (forall i | 0 <= i < |s.pooled| :: s.bytes[s.pooled[i]] == [])
    && |s.pooled| <= MAX_MESSAGES + 1
  }

  ghost predicate History<Id>(s: PoolState<Id>) {
    && (forall i | 0 <= i < |s.log| :: s.log[i].id in s.Known())
    && (forall id {:trigger Lifecycle(s, id)} | id in s.Known() :: Lifecycle(s, id))
  }

  ghost predicate Inv<Id>(s: PoolState<Id>) {
    Placed(s) && History(s)
  }

  lemma EmptyInv<Id>()
    ensures Inv(Empty<Id>())
  {
  }

  lemma LogSnoc<Id>(s: PoolState<Id>, t: PoolState<Id>, e: PoolEvent<Id>)
    requires t.log == s.log + [e]
    ensures forall x :: t.Times(x) == s.Times(x) + if x == e then 1 else 0
  {
    assert multiset(s.log + [e]) == multiset(s.log) + multiset{e};
  }

  lemma UnknownUnlogged<Id>(s: PoolState<Id>, id: Id)
    requires History(s) && id !in s.Known()
    ensures s.Times(Allocated(id)) == s.Times(Pooled(id)) == s.Times(Freed(id)) == 0
  {
    assert forall e | e in s.log :: e.id in s.Known();
    assert Allocated(id) !in s.log && Pooled(id) !in s.log && Freed(id) !in s.log;
  }

  lemma PooledSnoc<Id>(s: PoolState<Id>, t: PoolState<Id>, id: Id)
    requires t.pooled == s.pooled + [id]
    ensures t.InPool() == s.InPool() + {id}
  {
    assert forall i | 0 <= i < |s.pooled| :: t.pooled[i] == s.pooled[i];
    assert t.pooled[|s.pooled|] == id;
  }

  /** Everything but `id` is where it was. */
  ghost predicate OthersStay<Id>(s: PoolState<Id>, t: PoolState<Id>, id: Id) {
    && t.Known() == s.Known() + {id}
    && forall x | x in s.Known() && x != id ::
         && (x in t.live <==> x in s.live) && (x in s.live ==> t.live[x] == s.live[x])
         && (x in t.InPool() <==> x in s.InPool())
         && (x in t.freed <==> x in s.freed)
  }

  lemma HistoryLogged<Id>(s: PoolState<Id>, t: PoolState<Id>, e: PoolEvent<Id>)
    requires History(s) && OthersStay(s, t, e.id) && t.log == s.log + [e]
    requires Lifecycle(t, e.id)
    ensures History(t)
  {
    LogSnoc(s, t, e);
    forall x | x in t.Known() && x != e.id
      ensures Lifecycle(t, x)
    {
      assert Lifecycle(s, x);
    }
  }

  lemma HistoryUnlogged<Id>(s: PoolState<Id>, t: PoolState<Id>, id: Id)
    requires History(s) && OthersStay(s, t, id) && t.log == s.log
    requires Lifecycle(t, id)
    ensures History(t)
  {
    forall x | x in t.Known() && x != id
      ensures Lifecycle(t, x)
    {
      assert Lifecycle(s, x);
      assert s.Times(Allocated(x)) == t.Times(Allocated(x));
    }
  }

  /** The buffer handed out leaves the pool. */
  lemma GetPooledLeaves<Id>(s: PoolState<Id>, id: Id, t: PoolState<Id>)
    requires Placed(s) && Offers(s, id) && t == GetMessage(s, id) && |s.pooled| > 0
    ensures s.InPool() == t.InPool() + {id} && id !in t.InPool()
    ensures id !in s.live && id !in s.freed
  {
    assert s.pooled == t.pooled + [id];
    PooledSnoc(t, s, id);
  }

  lemma GetPooledStay<Id>(s: PoolState<Id>, id: Id, t: PoolState<Id>)
    requires Placed(s) && Offers(s, id) && t == GetMessage(s, id) && |s.pooled| > 0
    ensures OthersStay(s, t, id)
  {
    GetPooledLeaves(s, id, t);
    hide Placed;
  }

  lemma GetPooledPlaced<Id>(s: PoolState<Id>, id: Id, t: PoolState<Id>)
    requires Placed(s) && Offers(s, id) && t == GetMessage(s, id) && |s.pooled| > 0
    ensures Placed(t)
  {
    GetPooledLeaves(s, id, t);
    assert forall i | 0 <= i < |t.pooled| :: t.pooled[i] == s.pooled[i];
  }

  lemma GetNew<Id>(s: PoolState<Id>, id: Id, t: PoolState<Id>)
    requires Placed(s) && Offers(s, id) && t == GetMessage(s, id) && |s.pooled| == 0
    ensures Placed(t) && OthersStay(s, t, id)
    ensures id !in s.Known() && id !in t.InPool() && id !in t.freed
  {
    assert t.InPool() == s.InPool();
  }

  lemma GetPooledHistory<Id>(s: PoolState<Id>, id: Id, t: PoolState<Id>)
    requires Inv(s) && Offers(s, id) && t == GetMessage(s, id) && |s.pooled| > 0
    ensures History(t)
  {
    GetPooledLeaves(s, id, t);
    GetPooledStay(s, id, t);
    assert Lifecycle(s, id);
    assert t.Times(Pooled(id)) == 1;
    HistoryUnlogged(s, t, id);
  }

  lemma GetNewHistory<Id>(s: PoolState<Id>, id: Id, t: PoolState<Id>)
    requires Inv(s) && Offers(s, id) && t == GetMessage(s, id) && |s.pooled| == 0
    ensures History(t)
  {
    GetNew(s, id, t);
    UnknownUnlogged(s, id);
    LogSnoc(s, t, Allocated(id));
    HistoryLogged(s, t, Allocated(id));
  }

  lemma GetKeepsInv<Id>(s: PoolState<Id>, id: Id, t: PoolState<Id>)
    requires Inv(s) && Offers(s, id) && t == GetMessage(s, id)
    ensures Inv(t)
  {
    if |s.pooled| > 0 {
      GetPooledPlaced(s, id, t);
      GetPooledHistory(s, id, t);
    } else {
      GetNew(s, id, t);
      GetNewHistory(s, id, t);
    }
  }

  /** A buffer handed out was not referenced before, is empty, and leaves every referenced
      buffer as it was. */
  lemma GetFrame<Id>(s: PoolState<Id>, id: Id, t: PoolState<Id>)
    requires Placed(s) && Offers(s, id) && t == GetMessage(s, id)
    ensures id !in s.live && t.live.Keys == s.live.Keys + {id}
    ensures s.live.Keys <= s.bytes.Keys && t.live.Keys <= t.bytes.Keys
    ensures t.bytes[id] == []
    ensures forall x | x in s.live :: t.live[x] == s.live[x] && t.bytes[x] == s.bytes[x]
  {
    if |s.pooled| > 0 {
      assert s.pooled[|s.pooled| - 1] in s.InPool();
    }
  }

  lemma DeletePlaced<Id>(s: PoolState<Id>, id: Id)
    requires Placed(s) && id in s.live
    ensures var t := Delete(s, id); Placed(t) && OthersStay(s, t, id) && t.InPool() == s.InPool()
  {
  }

  lemma DeleteKeepsInv<Id>(s: PoolState<Id>, id: Id)
    requires Inv(s) && id in s.live
    ensures Inv(Delete(s, id))
  {
    DeletePlaced(s, id);
    assert Lifecycle(s, id);
    LogSnoc(s, Delete(s, id), Freed(id));
    HistoryLogged(s, Delete(s, id), Freed(id));
  }

  lemma ReturnStay<Id>(s: PoolState<Id>, id: Id, t: PoolState<Id>)
    requires id in s.live && |s.pooled| <= MAX_MESSAGES && t == ReturnMessage(s, id)
    ensures OthersStay(s, t, id) && t.InPool() == s.InPool() + {id}
  {
    PooledSnoc(s, t, id);
  }

  lemma ReturnPlaced<Id>(s: PoolState<Id>, id: Id, t: PoolState<Id>)
    requires Placed(s) && id in s.live && |s.pooled| <= MAX_MESSAGES && t == ReturnMessage(s, id)
    ensures Placed(t)
  {
    ReturnStay(s, id, t);
    assert id !in s.InPool();
    forall i | 0 <= i < |s.pooled|
      ensures t.pooled[i] == s.pooled[i] != id && t.bytes[t.pooled[i]] == []
    {
      assert s.pooled[i] in s.InPool();
    }
  }

  lemma ReturnHistory<Id>(s: PoolState<Id>, id: Id)
    requires Inv(s) && id in s.live && s.live[id].ReturnToPool? && |s.pooled| <= MAX_MESSAGES
    ensures History(ReturnMessage(s, id))
  {
    ReturnStay(s, id, ReturnMessage(s, id));
    assert Lifecycle(s, id);
    LogSnoc(s, ReturnMessage(s, id), Pooled(id));
    HistoryLogged(s, ReturnMessage(s, id), Pooled(id));
  }

  /** Running a deleter takes one buffer out of use and touches no other that is in use. */
  lemma RunDeleterKeepsInv<Id>(s: PoolState<Id>, id: Id)
    requires Inv(s) && id in s.live
    ensures Inv(RunDeleter(s, id))
    ensures RunDeleter(s, id).live == s.live - {id}
    ensures forall x | x in s.live && x != id :: RunDeleter(s, id).bytes[x] == s.bytes[x]
  {
    if s.live[id].ReturnToPool? && |s.pooled| <= MAX_MESSAGES {
      ReturnPlaced(s, id, ReturnMessage(s, id));
      ReturnHistory(s, id);
    } else {
      DeleteKeepsInv(s, id);
    }
  }

  lemma WriteKeepsInv<Id>(s: PoolState<Id>, id: Id, content: seq<byte>)
    requires Inv(s) && id in s.live
    ensures Inv(s.Write(id, content))
  {
    var t := s.Write(id, content);
    assert t.InPool() == s.InPool();
    assert forall i | 0 <= i < |s.pooled| :: s.pooled[i] in s.InPool();
    assert Lifecycle(s, id);
    assert t.Times(Pooled(id)) == s.Times(Pooled(id));
    HistoryUnlogged(s, t, id);
  }
}

/** The pool as the program keeps it: a vector of shared pointers to buffers on the heap. */
module MessagePool {
  import opened Wire
  import Pool

  /** A vector of bytes shared through pointers. */
  class Buffer {
    var bytes: seq<byte>

    constructor ()
      ensures bytes == []
    {
      bytes := [];
    }

    method PushBack(b: byte)
      modifies this
      ensures bytes == old(bytes) + [b]
    {
      bytes := bytes + [b];
    }

    method Clear()
      modifies this
      ensures bytes == []
    {
      bytes := [];
    }
  }

  /** A shared pointer: the buffer, and the deleter its last reference will run. */
  datatype MessagePtr = MessagePtr(buffer: Buffer, deleter: Pool.Deleter)

  function Buffers(ptrs: seq<MessagePtr>): seq<Buffer> {
    seq(|ptrs|, i requires 0 <= i < |ptrs| => ptrs[i].buffer)
  }

  class MsgPool {
    var msgVec: seq<MessagePtr>

    ghost var live: map<Buffer, Pool.Deleter>
    ghost var freed: set<Buffer>
    ghost var log: seq<Pool.PoolEvent<Buffer>>

    ghost function Pooled(): set<Buffer>
      reads this`msgVec
    {
      set p | p in msgVec :: p.buffer
    }

    /** The pool as a state of the transition system. */
    ghost function State(): Pool.PoolState<Buffer>
      reads this, live.Keys, Pooled()
    {
      Pool.PoolState(Buffers(msgVec), live, map b: Buffer | b in live.Keys + Pooled() :: b.bytes, freed, log)
    }

    ghost predicate Valid()
      reads this, live.Keys, Pooled()
    {
      && Pool.Inv(State())
      && forall i | 0 <= i < |msgVec| :: msgVec[i].deleter == Pool.DeleteNow
    }

    ghost predicate InUse(p: MessagePtr)
      reads this`live
    {
      p.buffer in live && live[p.buffer] == p.deleter
    }

    constructor ()
      ensures Valid() && State() == Pool.Empty()
      ensures live == map[] && msgVec == []
    {
      msgVec := [];
      live, freed, log := map[], {}, [];
    }

    lemma PooledIsInPool()
      ensures Pooled() == State().InPool()
    {
      forall b | b in Pooled() ensures b in State().InPool() {
        var p :| p in msgVec && p.buffer == b;
        var i :| 0 <= i < |msgVec| && msgVec[i] == p;
        assert State().pooled[i] == b;
      }
    }

    /** Writing through a pointer in use does not disturb the pool. */
    twostate lemma WriteKeepsValid(p: MessagePtr)
      requires old(Valid()) && old(InUse(p)) && unchanged(this)
      requires forall b | b in live.Keys + Pooled() && b != p.buffer :: b.bytes == old(b.bytes)
      ensures Valid() && State() == old(State()).Write(p.buffer, p.buffer.bytes)
    {
      assert State().bytes == old(State()).bytes[p.buffer := p.buffer.bytes];
      Pool.WriteKeepsInv(old(State()), p.buffer, p.buffer.bytes);
    }

    method GetMessage() returns (p: MessagePtr)
      requires Valid()
      modifies this
      ensures Valid() && InUse(p)
      ensures Pool.Offers(old(State()), p.buffer)
      ensures State() == Pool.GetMessage(old(State()), p.buffer)
      ensures p.buffer in old(Pooled()) || fresh(p.buffer)
      ensures Pooled() <= old(Pooled())
      ensures p.buffer.bytes == [] && p.buffer !in old(live)
      ensures live == old(live)[p.buffer := p.deleter]
      ensures if old(msgVec) != [] then
                old(msgVec) == msgVec + [p] && p.deleter.DeleteNow?
              else
                msgVec == [] && fresh(p.buffer) && p.deleter.ReturnToPool?
    {
      if |msgVec| > 0 {
        p := TakeLast();
      } else {
        p := Allocate();
      }
    }

    /** Once the last pointer has been moved out of the vector, the pool is as specified. */
    twostate lemma HasTaken(p: MessagePtr)
      requires old(|msgVec| > 0 && p == msgVec[|msgVec| - 1])
      requires msgVec == old(msgVec)[..|old(msgVec)| - 1] && live == old(live)[p.buffer := Pool.DeleteNow]
      requires log == old(log) && freed == old(freed)
      requires forall x | x in old(live.Keys + Pooled()) :: x.bytes == old(x.bytes)
      ensures State() == Pool.GetMessage(old(State()), p.buffer)
      ensures p.buffer in old(Pooled()) && Pooled() <= old(Pooled())
    {
      assert Buffers(msgVec) == Buffers(old(msgVec))[..|msgVec|];
      assert forall q | q in old(msgVec) :: q in msgVec || q == p;
      assert live.Keys + Pooled() == old(live.Keys + Pooled());
      assert State().bytes == old(State()).bytes;
    }

    method TakeLast() returns (p: MessagePtr)
      requires Valid() && |msgVec| > 0
      modifies this
      ensures Valid() && InUse(p)
      ensures Pool.Offers(old(State()), p.buffer)
      ensures State() == Pool.GetMessage(old(State()), p.buffer)
      ensures p.buffer in old(Pooled())
      ensures Pooled() <= old(Pooled())
      ensures p.buffer.bytes == [] && p.buffer !in old(live)
      ensures live == old(live)[p.buffer := p.deleter]
      ensures old(msgVec) == msgVec + [p] && p.deleter.DeleteNow?
    {
      p := msgVec[|msgVec| - 1];
      Pool.GetKeepsInv(State(), p.buffer, Pool.GetMessage(State(), p.buffer));
      Pool.GetFrame(State(), p.buffer, Pool.GetMessage(State(), p.buffer));
      hide Pool.Inv, Pool.GetMessage;
      msgVec := msgVec[..|msgVec| - 1];
      live := live[p.buffer := Pool.DeleteNow];
      HasTaken(p);
    }

    method Allocate() returns (p: MessagePtr)
      requires Valid() && |msgVec| == 0
      modifies this
      ensures Valid() && InUse(p)
      ensures Pool.Offers(old(State()), p.buffer)
      ensures State() == Pool.GetMessage(old(State()), p.buffer)
      ensures fresh(p.buffer)
      ensures Pooled() == {} && msgVec == [] && p.deleter.ReturnToPool?
      ensures p.buffer.bytes == [] && p.buffer !in old(live)
      ensures live == old(live)[p.buffer := p.deleter]
    {
      ghost var s := State();
      PooledIsInPool();
      var b := new Buffer();
      p := MessagePtr(b, Pool.ReturnToPool);
      live := live[b := Pool.ReturnToPool];
      log := log + [Pool.Allocated(b)];
      ghost var t := Pool.GetMessage(s, b);
      assert State().bytes == t.bytes;
      assert b !in s.Known();
      Pool.GetKeepsInv(s, b, t);
    }

    /** A buffer from the pool, resized to nothing, as connections ask for one. */
    method GetEmptied() returns (p: MessagePtr)
      requires Valid()
      modifies this, Pooled()
      ensures Valid() && InUse(p) && p.buffer.bytes == []
      ensures p.buffer in old(Pooled()) || fresh(p.buffer)
      ensures Pooled() <= old(Pooled())
      ensures p.buffer !in old(live) && live == old(live)[p.buffer := p.deleter]
      ensures forall b | b in old(live) :: b.bytes == old(b.bytes)
    {
      PooledIsInPool();
      p := GetMessage();
      label Got:
      p.buffer.Clear();
      WriteKeepsValid@Got(p);
    }

    /** What the deleter of a pool-allocated pointer does once no reference is left. */
    method ReturnMessage(b: Buffer)
      requires Valid() && b in live && live[b].ReturnToPool?
      modifies this, b
      ensures Valid() && State() == Pool.ReturnMessage(old(State()), b)
      ensures live == old(live) - {b} && Pooled() <= old(Pooled()) + {b}
      ensures if |old(msgVec)| <= 50 then
                msgVec == old(msgVec) + [MessagePtr(b, Pool.DeleteNow)] && b.bytes == []
              else
                msgVec == old(msgVec) && b in freed
    {
      if |msgVec| <= Pool.MAX_MESSAGES {
        KeepForReuse(b);
      } else {
        Delete(b);
      }
    }

    /** Once `b` has been emptied and moved into the vector, the pool is as specified. */
    twostate lemma HasKept(b: Buffer)
      requires old(b in live) && |old(msgVec)| <= Pool.MAX_MESSAGES
      requires msgVec == old(msgVec) + [MessagePtr(b, Pool.DeleteNow)] && live == old(live) - {b}
      requires log == old(log) + [Pool.Pooled(b)] && freed == old(freed)
      requires b.bytes == [] && forall x | x in old(live.Keys + Pooled()) && x != b :: x.bytes == old(x.bytes)
      ensures State() == Pool.ReturnMessage(old(State()), b) && Pooled() == old(Pooled()) + {b}
    {
      assert Buffers(msgVec) == Buffers(old(msgVec)) + [b];
      assert forall p | p in msgVec :: p in old(msgVec) || p.buffer == b;
      assert msgVec[|msgVec| - 1].buffer == b;
      assert forall p | p in old(msgVec) :: p in msgVec;
      assert Pooled() == old(Pooled()) + {b};
      assert State().bytes == old(State()).bytes[b := []];
    }

    method KeepForReuse(b: Buffer)
      requires Valid() && b in live && live[b].ReturnToPool? && |msgVec| <= Pool.MAX_MESSAGES
      modifies this, b
      ensures Valid() && State() == Pool.ReturnMessage(old(State()), b)
      ensures live == old(live) - {b} && Pooled() == old(Pooled()) + {b}
      ensures msgVec == old(msgVec) + [MessagePtr(b, Pool.DeleteNow)] && b.bytes == []
    {
      Pool.RunDeleterKeepsInv(State(), b);
      hide Pool.Inv, Pool.ReturnMessage;
      b.Clear();
      msgVec := msgVec + [MessagePtr(b, Pool.DeleteNow)];
      live := live - {b};
      log := log + [Pool.Pooled(b)];
      HasKept(b);
    }

    method Delete(b: Buffer)
      requires Valid() && b in live && (live[b].ReturnToPool? ==> |msgVec| > Pool.MAX_MESSAGES)
      modifies this
      ensures Valid() && State() == Pool.Delete(old(State()), b)
      ensures live == old(live) - {b} && Pooled() == old(Pooled())
      ensures msgVec == old(msgVec) && freed == old(freed) + {b}
    {
      PooledIsInPool();
      Pool.DeleteKeepsInv(State(), b);
      assert b !in Pooled();
      hide Pool.Inv;
      freed := freed + {b};
      log := log + [Pool.Freed(b)];
      live := live - {b};
      assert State().bytes == old(State()).bytes - {b};
    }

    /** The last reference to a message is dropped. */
    method Release(p: MessagePtr)
      requires Valid() && InUse(p)
      modifies this, p.buffer
      ensures Valid() && State() == Pool.RunDeleter(old(State()), p.buffer)
      ensures live == old(live) - {p.buffer} && Pooled() <= old(Pooled()) + {p.buffer}
      ensures if p.deleter.ReturnToPool? && |old(msgVec)| <= 50 then
                msgVec == old(msgVec) + [MessagePtr(p.buffer, Pool.DeleteNow)]
              else
                msgVec == old(msgVec) && p.buffer in freed
    {
      match p.deleter {
        case ReturnToPool => ReturnMessage(p.buffer);
        case DeleteNow => Delete(p.buffer);
      }
    }
  }
}

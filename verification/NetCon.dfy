/** One connection on the heap: the reused read buffer, the escape flag, the message being
    assembled in a pooled buffer, and the callbacks it makes. */
module NetCon {
  import opened Wire
  import opened Sequences
  import opened Framing
  import Conn = Connection
  import Pool
  import opened MessagePool

  const BUFFER_SIZE := 2048

  /** What the new-message callback does with a message: keep a reference to it or let the
      last one go, and close the connection or not. */
  datatype Reaction = Reaction(keep: bool, close: bool)

  ghost function Pointed(ptrs: seq<MessagePtr>): set<Buffer> {
    set p | p in ptrs :: p.buffer
  }

  /** The pointers are in use, each to a buffer of its own that reads as its payload. */
  ghost predicate Hold(pool: MsgPool, ptrs: seq<MessagePtr>, payloads: seq<Payload>)
    reads pool`live, Pointed(ptrs)
  {
    && |ptrs| == |payloads|
    && (forall i | 0 <= i < |ptrs| :: pool.InUse(ptrs[i]) && ptrs[i].buffer.bytes == payloads[i])
    && (forall i, j | 0 <= i < j < |ptrs| :: ptrs[i].buffer != ptrs[j].buffer)
  }

  lemma HoldSnoc(pool: MsgPool, ptrs: seq<MessagePtr>, payloads: seq<Payload>, p: MessagePtr)
    requires Hold(pool, ptrs, payloads) && pool.InUse(p) && p.buffer !in Pointed(ptrs)
    ensures Hold(pool, ptrs + [p], payloads + [p.buffer.bytes])
    ensures Pointed(ptrs + [p]) == Pointed(ptrs) + {p.buffer}
  {
    assert forall i | 0 <= i < |ptrs| :: ptrs[i].buffer in Pointed(ptrs);
    assert (ptrs + [p])[|ptrs|] == p;
    assert forall q | q in ptrs :: q in ptrs + [p];
  }

  lemma HoldTail(pool: MsgPool, ptrs: seq<MessagePtr>, payloads: seq<Payload>)
    requires Hold(pool, ptrs, payloads) && ptrs != []
    ensures payloads != [] && pool.InUse(ptrs[0]) && Hold(pool, ptrs[1..], payloads[1..])
    ensures Pointed(ptrs[1..]) == Pointed(ptrs) - {ptrs[0].buffer}
  {
    assert forall q | q in ptrs :: q == ptrs[0] || q in ptrs[1..];
  }

  lemma HoldInUse(pool: MsgPool, ptrs: seq<MessagePtr>, payloads: seq<Payload>)
    requires Hold(pool, ptrs, payloads)
    ensures Pointed(ptrs) <= pool.live.Keys
  {
  }

  /** The owner of the callbacks. `react` is any function of the messages received so far,
      the latest last, so proofs hold for every callback. */
  class Application {
    const react: seq<Payload> -> Reaction
    var log: seq<Payload>
    var held: seq<MessagePtr>
    var released: nat
    var closedCalls: nat

    constructor (react: seq<Payload> -> Reaction)
      ensures this.react == react && log == [] && held == [] && released == 0 && closedCalls == 0
    {
      this.react := react;
      log, held, released, closedCalls := [], [], 0, 0;
    }

    /** The messages this application has chosen to keep, as payloads. */
    ghost function Chosen(messages: seq<Payload>): seq<Payload> {
      if messages == [] then []
      else
        var earlier := Chosen(messages[..|messages| - 1]);
        if react(messages).keep then earlier + [messages[|messages| - 1]] else earlier
    }

    lemma ChosenSnoc(messages: seq<Payload>, m: Payload)
      ensures var keep := react(messages + [m]).keep;
              Chosen(messages + [m]) == if keep then Chosen(messages) + [m] else Chosen(messages)
    {
      TakeSnoc(messages, m);
    }

    ghost function Held(): set<Buffer>
      reads this`held
    {
      Pointed(held)
    }

    /** Of the messages it chose to keep it has let the first `released` go and holds the
        rest: each is in use, is its own buffer, and reads as the payload delivered. */
    ghost predicate HoldsChosen(pool: MsgPool)
      reads this`log, this`held, this`released, pool`live, Held()
    {
      released <= |Chosen(log)| && Hold(pool, held, Chosen(log)[released..])
    }

    lemma HeldInUse(pool: MsgPool)
      requires HoldsChosen(pool)
      ensures Held() <= pool.live.Keys
    {
      HoldInUse(pool, held, Chosen(log)[released..]);
    }

    /** Held messages stay held while they stay in use and nobody writes to them. */
    twostate lemma StillHolds(pool: MsgPool)
      requires old(HoldsChosen(pool)) && unchanged(this`held) && unchanged(this`released)
      requires Chosen(log) == old(Chosen(log))
      requires forall b | b in Held() ::
                 b in pool.live && pool.live[b] == old(pool.live)[b] && b.bytes == old(b.bytes)
      ensures HoldsChosen(pool)
    {
      hide Chosen;
      assert forall i | 0 <= i < |held| :: held[i].buffer in Held();
    }

    /** The application is done with the message it has kept longest. */
    method ReleaseOldest(pool: MsgPool)
      requires pool.Valid() && HoldsChosen(pool) && held != []
      modifies this`held, this`released, pool, held[0].buffer
      ensures pool.Valid() && HoldsChosen(pool)
      ensures held == old(held)[1..] && released == old(released) + 1
      ensures pool.Pooled() <= old(pool.Pooled()) + {old(held[0].buffer)}
      ensures forall b | b in old(pool.live) && b != old(held[0].buffer) ::
                b in pool.live && pool.live[b] == old(pool.live)[b]
    {
      hide Hold, Chosen, Pool.Inv, Pool.RunDeleter;
      HeldInUse(pool);
      ghost var payloads := Chosen(log)[released..];
      HoldTail(pool, held, payloads);
      var p := held[0];
      held := held[1..];
      released := released + 1;
      assert payloads[1..] == Chosen(log)[released..];
      label Before:
      pool.Release(p);
      StillHolds@Before(pool);
    }

    method OnClosed()
      modifies this`closedCalls
      ensures closedCalls == old(closedCalls) + 1
    {
      closedCalls := closedCalls + 1;
    }

    /** The message delivered is kept: it is the latest of those held. */
    method Keep(pool: MsgPool, p: MessagePtr)
      requires pool.InUse(p) && HoldsChosen(pool) && p.buffer !in Held()
      requires react(log + [p.buffer.bytes]).keep
      modifies this`log, this`held
      ensures HoldsChosen(pool)
      ensures log == old(log) + [p.buffer.bytes] && held == old(held) + [p]
      ensures Held() == old(Held()) + {p.buffer}
    {
      hide Hold, Chosen;
      ghost var payloads := Chosen(log)[released..];
      ChosenSnoc(log, p.buffer.bytes);
      HoldSnoc(pool, held, payloads, p);
      log := log + [p.buffer.bytes];
      held := held + [p];
      assert payloads + [p.buffer.bytes] == Chosen(log)[released..];
    }

    /** The message delivered is let go, so its deleter runs. */
    method LetGo(pool: MsgPool, p: MessagePtr)
      requires pool.Valid() && pool.InUse(p) && HoldsChosen(pool) && p.buffer !in Held()
      requires !react(log + [p.buffer.bytes]).keep
      modifies this`log, pool, p.buffer
      ensures pool.Valid() && HoldsChosen(pool)
      ensures log == old(log) + [old(p.buffer.bytes)]
      ensures pool.Pooled() <= old(pool.Pooled()) + {p.buffer}
      ensures forall b | b in old(pool.live) && b != p.buffer :: b in pool.live && pool.live[b] == old(pool.live[b])
    {
      hide Chosen, HoldsChosen, Pool.Inv, Pool.RunDeleter;
      ChosenSnoc(log, p.buffer.bytes);
      HeldInUse(pool);
      log := log + [p.buffer.bytes];
      pool.Release(p);
      StillHolds(pool);
    }

    /** The new-message callback: `p` is the only reference to the message. */
    method OnMessage(pool: MsgPool, p: MessagePtr) returns (close: bool)
      requires pool.Valid() && pool.InUse(p) && HoldsChosen(pool) && p.buffer !in Held()
      modifies this`log, this`held, pool, p.buffer
      ensures pool.Valid() && HoldsChosen(pool)
      ensures log == old(log) + [old(p.buffer.bytes)] && close == react(log).close
      ensures held == if react(log).keep then old(held) + [p] else old(held)
      ensures forall b | b in Held() :: b in old(Held()) || b == p.buffer
      ensures pool.Pooled() <= old(pool.Pooled()) + {p.buffer}
      ensures forall b | b in old(pool.live) && b != p.buffer :: b in pool.live && pool.live[b] == old(pool.live[b])
    {
      hide Pool.Inv, HoldsChosen;
      var reaction := react(log + [p.buffer.bytes]);
      close := reaction.close;
      if reaction.keep {
        Keep(pool, p);
      } else {
        LetGo(pool, p);
      }
    }
  }

  /** The buffers one may write to, and all those in use with what they held. */
  datatype Snapshot = Snapshot(
    foot: set<Buffer>,
    live: map<Buffer, Pool.Deleter>,
    bytes: map<Buffer, seq<byte>>)

  class NetCon {
    const pool: MsgPool
    const app: Application
    const buff: array<byte>
    var conOpen: bool
    var recvMsg: MessagePtr
    var nextIsEscape: bool
    var currentIndex: nat
    var msgSize: nat
    var readScheduled: bool

    /** The buffers this connection may write to. */
    ghost function Footprint(): set<Buffer>
      reads this`recvMsg, pool`msgVec
    {
      {recvMsg.buffer} + pool.Pooled()
    }

    ghost predicate Valid()
      reads this`recvMsg, this`msgSize
      reads pool, pool.live.Keys, pool.Pooled(), app`log, app`held, app`released, app.Held()
    {
      && pool.Valid() && pool.InUse(recvMsg)
      && app.HoldsChosen(pool) && recvMsg.buffer !in app.Held()
      && buff.Length == BUFFER_SIZE
      && msgSize <= BUFFER_SIZE
    }

    /** Between reads on an open connection the next read starts at the front. */
    ghost predicate Idle()
      reads this`conOpen, this`currentIndex
    {
      conOpen ==> currentIndex == 0
    }

    /** The connection as the specification sees it. */
    ghost function State(): Conn.Connection
      reads this`recvMsg, this`nextIsEscape, this`conOpen, app`log, app`closedCalls, recvMsg.buffer
    {
      Conn.Connection(Decoder(app.log, recvMsg.buffer.bytes, nextIsEscape), conOpen, app.closedCalls)
    }

    ghost function Closes(): Conn.Closes {
      var react := app.react; messages => react(messages).close
    }

    constructor (pool: MsgPool, app: Application)
      requires pool.Valid() && app.held == [] && app.released == 0 && app.log == [] && app.closedCalls == 0
      modifies pool, pool.Pooled()
      ensures Valid() && Idle() && State() == Conn.OPENED
      ensures this.pool == pool && this.app == app && fresh(buff) && buff.Length == 2048
      ensures forall b | b in Footprint() :: b in old(pool.Pooled()) || fresh(b)
    {
      hide Pool.Inv, MsgPool.State;
      this.pool, this.app := pool, app;
      buff := new byte[BUFFER_SIZE];
      conOpen, nextIsEscape, currentIndex, msgSize, readScheduled := true, false, 0, 0, false;
      var p := pool.GetEmptied();
      recvMsg := p;
    }

    /** May be called at any time, by a callback too: a second close does nothing. */
    method CloseCon()
      modifies this`conOpen, app`closedCalls
      ensures !conOpen && app.closedCalls == old(app.closedCalls) + if old(conOpen) then 1 else 0
      ensures State() == Conn.Close(old(State()))
      ensures State().decoder == old(State()).decoder
      ensures old(Valid()) ==> Valid()
    {
      hide Pool.Inv, Application.HoldsChosen;
      if !conOpen {
        return;
      }
      conOpen := false;
      app.OnClosed();
    }

    /** Between reads the application may release messages: the connection does not notice. */
    method ApplicationReleases()
      requires Valid() && app.held != []
      modifies app`held, app`released, pool, app.held[0].buffer
      ensures Valid() && State() == old(State())
      ensures app.held == old(app.held)[1..]
    {
      hide Pool.Inv, MsgPool.Valid, Application.HoldsChosen;
      assert app.held[0].buffer in app.Held();
      app.ReleaseOldest(pool);
      assert forall p | p in app.held :: p in old(app.held);
    }

    method GetNextByte() returns (more: bool, b: byte)
      requires Valid()
      modifies this`currentIndex
      ensures more == (msgSize != 0 && old(currentIndex) < msgSize && conOpen)
      ensures more ==> b == buff[old(currentIndex)] && currentIndex == old(currentIndex) + 1
      ensures !more ==> currentIndex == 0
      ensures Valid()
    {
      hide Pool.Inv;
      if msgSize == 0 || currentIndex >= msgSize || !conOpen {
        currentIndex := 0;
        return false, 0;
      }
      b := buff[currentIndex];
      currentIndex := currentIndex + 1;
      more := true;
    }

    /** What any number of steps may do to the heap: the buffers written to are those of the
        footprint or new ones, and every other buffer in use stays in use and unchanged. */
    twostate predicate Framed()
      reads this`recvMsg, pool`msgVec, pool`live, pool.live.Keys
    {
      && (forall b | b in Footprint() :: b in old(Footprint()) || fresh(b))
      && (forall b | b in old(pool.live) && b !in old(Footprint()) ::
            b in pool.live && pool.live[b] == old(pool.live)[b] && b.bytes == old(b.bytes))
    }

    method PushByte(b: byte)
      requires Valid()
      modifies recvMsg.buffer
      ensures Valid() && Framed()
      ensures recvMsg.buffer.bytes == old(recvMsg.buffer.bytes) + [b]
    {
      app.HeldInUse(pool);
      recvMsg.buffer.PushBack(b);
      pool.WriteKeepsValid(recvMsg);
      app.StillHolds(pool);
    }

    ghost function Now(): Snapshot
      reads this`recvMsg, pool, pool.live.Keys
    {
      Snapshot(Footprint(), pool.live, map b: Buffer | b in pool.live :: b.bytes)
    }

    /** The buffers that were in use at the snapshot, other than those one may write to, still
        are, and read the same. */
    ghost predicate Intact(s: Snapshot)
      reads pool`live, s.live.Keys
    {
      forall b: Buffer | b in s.live && b !in s.foot ::
        b in s.bytes && b in pool.live && pool.live[b] == s.live[b] && b.bytes == s.bytes[b]
    }

    twostate lemma StillIntact(s: Snapshot)
      requires old(Intact(s)) && Framed()
      requires forall x | x in old(Footprint()) :: x in s.foot || x !in s.live
      ensures Intact(s)
    {
    }

    twostate lemma IntactIsFramed()
      requires forall b | b in Footprint() :: b in old(Footprint()) || fresh(b)
      requires Intact(old(Now()))
      ensures Framed()
    {
    }

    /** While the callback runs the pointer has been moved away: everything is in order
        except that no message is being assembled. */
    ghost predicate BetweenMessages()
      reads this`msgSize
      reads pool, pool.live.Keys, pool.Pooled(), app`log, app`held, app`released, app.Held()
    {
      && pool.Valid() && app.HoldsChosen(pool)
      && buff.Length == BUFFER_SIZE
      && msgSize <= BUFFER_SIZE
    }

    /** Assemble the next message in whatever buffer the pool offers. */
    method StartMessage()
      requires BetweenMessages()
      modifies this`recvMsg, pool, pool.Pooled()
      ensures Valid() && recvMsg.buffer.bytes == []
      ensures forall b | b in Footprint() :: b in old(pool.Pooled()) || fresh(b)
      ensures forall b | b in old(pool.live) ::
                b in pool.live && pool.live[b] == old(pool.live)[b] && b.bytes == old(b.bytes)
    {
      hide Pool.Inv;
      app.HeldInUse(pool);
      var p := pool.GetEmptied();
      app.StillHolds(pool);
      assert p.buffer !in app.Held();
      recvMsg := p;
    }

    /** The callback runs, and closes the connection if that is what it does. */
    method NewMsgCallback(p: MessagePtr)
      requires Valid() && conOpen && p == recvMsg
      modifies this`conOpen, app`log, app`held, app`closedCalls, pool, p.buffer
      ensures BetweenMessages()
      ensures app.log == old(app.log) + [old(p.buffer.bytes)]
      ensures conOpen == !app.react(app.log).close
      ensures app.closedCalls == old(app.closedCalls) + if conOpen then 0 else 1
      ensures pool.Pooled() <= old(pool.Pooled()) + {p.buffer}
      ensures forall b | b in old(pool.live) && b != p.buffer ::
                b in pool.live && pool.live[b] == old(pool.live)[b]
    {
      hide Pool.Inv, MsgPool.Valid, Application.HoldsChosen;
      var close := app.OnMessage(pool, p);
      if close {
        CloseCon();
      }
    }

    /** The end marker: hand the whole message over, then start the next one. */
    method EndMessage()
      requires Valid() && conOpen && nextIsEscape
      modifies this`recvMsg, this`conOpen, app`log, app`held, app`closedCalls, pool, Footprint()
      ensures Valid() && Framed()
      ensures State().(decoder := State().decoder.(escaped := false))
           == Conn.Receive(Closes(), old(State()), MSG_END_ESCAPED)
    {
      hide Pool.Inv, MsgPool.Valid, Application.HoldsChosen;
      NewMsgCallback(recvMsg);
      ghost var live := pool.live;
      assert forall b | b in old(pool.live) && b != old(recvMsg.buffer) ::
            b in live && live[b] == old(pool.live)[b] && b.bytes == old(b.bytes);
      assert pool.Pooled() <= old(Footprint());
      StartMessage();
    }

    /** The second byte of an escape pair. */
    method FinishEscape(b: byte)
      requires Valid() && conOpen && nextIsEscape
      modifies this`recvMsg, this`nextIsEscape, this`conOpen, app`log, app`held, app`closedCalls, pool, Footprint()
      ensures Valid() && Framed()
      ensures State() == Conn.Receive(Closes(), old(State()), b)
    {
      hide Pool.Inv;
      if b == MSG_ORIGI_CHAR {
        PushByte(ESCAPE_VAL);
      } else if b == MSG_END_ESCAPED {
        EndMessage();
      }
      nextIsEscape := false;
    }

    /** One iteration of the read loop, on the byte just taken from the buffer. */
    method ProcessByte(b: byte)
      requires Valid() && conOpen
      modifies this`recvMsg, this`nextIsEscape, this`conOpen, app`log, app`held, app`closedCalls, pool, Footprint()
      ensures Valid() && Framed()
      ensures State() == Conn.Receive(Closes(), old(State()), b)
    {
      hide Pool.Inv;
      if b != ESCAPE_VAL && !nextIsEscape {
        PushByte(b);
      } else if b == ESCAPE_VAL && !nextIsEscape {
        nextIsEscape := true;
      } else {
        FinishEscape(b);
      }
    }

    /** The read handler: `bytesTransferred` bytes have been placed in the buffer, or the read
        failed. It consumes exactly the bytes placed there, in order and once each, until the
        connection is closed, and asks for the next read only on an open connection. */
    method HandleRead(err: bool, bytesTransferred: nat)
      requires Valid() && Idle() && bytesTransferred <= BUFFER_SIZE
      modifies this, app`log, app`held, app`closedCalls, pool, Footprint()
      ensures Valid() && Idle() && Framed()
      ensures State() == Conn.Handle(Closes(), old(State()),
                                     if err then Conn.ReadError else Conn.Read(buff[..bytesTransferred]))
      ensures readScheduled == (!err && conOpen)
      ensures err ==> !conOpen && State().decoder == old(State().decoder)
      ensures err ==> app.closedCalls == old(app.closedCalls) + if old(conOpen) then 1 else 0
    {
      hide Valid, Conn.ReceiveAll, Conn.Close;
      ReadCompleted(bytesTransferred);
      if !err {
        ReadAll();
        if conOpen {
          ScheduleReadHandler();
        }
      } else {
        CloseCon();
      }
    }

    method ScheduleReadHandler()
      requires Valid()
      modifies this`readScheduled
      ensures Valid() && readScheduled
    {
      hide Pool.Inv, Application.HoldsChosen;
      readScheduled := true;
    }

    /** The read that was asked for is over. */
    method ReadCompleted(bytesTransferred: nat)
      requires Valid() && bytesTransferred <= BUFFER_SIZE
      modifies this`msgSize, this`readScheduled
      ensures Valid() && msgSize == bytesTransferred && !readScheduled
    {
      hide Pool.Inv, Application.HoldsChosen;
      msgSize := bytesTransferred;
      readScheduled := false;
    }

    method ReadAll()
      requires Valid() && Idle()
      modifies this`recvMsg, this`nextIsEscape, this`conOpen, this`currentIndex
      modifies app`log, app`held, app`closedCalls, pool, Footprint()
      ensures Valid() && Idle() && Framed()
      ensures State() == Conn.ReceiveAll(Closes(), old(State()), buff[..msgSize])
    {
      ghost var chunk := buff[..msgSize];
      assert State() == Conn.ReceiveAll(Closes(), State(), chunk[..0]);
      hide Pool.Inv, MsgPool.Valid, Application.HoldsChosen, Conn.ReceiveAll, Conn.Receive;
      var more, n := ReadLoop(chunk, State(), Now());
      IntactIsFramed();
      Conn.StoppedEarly(Closes(), old(State()), chunk, n);
    }

    /** The loop invariant: the first `n` bytes of the buffer have been consumed from state
        `c`, and what was intact at `s` still is. */
    ghost predicate Consumed(chunk: seq<byte>, n: nat, more: bool, c: Conn.Connection, s: Snapshot)
      reads this, buff, pool, pool.live.Keys, pool.Pooled(), app, app.Held(), s.live.Keys
    {
      && Valid() && Intact(s)
      && |chunk| == msgSize && n <= msgSize && buff[..msgSize] == chunk
      && (if more then conOpen ==> currentIndex == n else n == msgSize && currentIndex == 0)
      && State() == Conn.ReceiveAll(Closes(), c, chunk[..n])
    }

    /** One pass through the loop: a byte is taken from the buffer and processed, or there
        is none left. */
    method ReadByte(ghost chunk: seq<byte>, ghost n: nat, ghost c: Conn.Connection, ghost s: Snapshot)
        returns (more: bool)
      requires conOpen && Consumed(chunk, n, true, c, s)
      requires forall x | x in Footprint() :: x in s.foot || x !in s.live
      modifies this`recvMsg, this`nextIsEscape, this`conOpen, this`currentIndex
      modifies app`log, app`held, app`closedCalls, pool, Footprint()
      ensures forall x | x in Footprint() :: x in old(Footprint()) || fresh(x)
      ensures more ==> n < |chunk|
      ensures Consumed(chunk, if more then n + 1 else n, more, c, s)
    {
      hide Pool.Inv, Conn.Receive, MsgPool.Valid, Application.HoldsChosen;
      var b;
      more, b := GetNextByte();
      assert Framed() && State() == old(State());
      if more {
        ProcessByte(b);
        assert chunk[..n + 1] == chunk[..n] + [b];
        Conn.ReceiveAllSnoc(Closes(), c, chunk[..n], b);
      }
      StillIntact(s);
    }

    /** The loop over the buffer, which has consumed the first `n` bytes when it ends. */
    method ReadLoop(ghost chunk: seq<byte>, ghost c: Conn.Connection, ghost s: Snapshot)
        returns (more: bool, ghost n: nat)
      requires Consumed(chunk, 0, true, c, s) && s == Now()
      modifies this`recvMsg, this`nextIsEscape, this`conOpen, this`currentIndex
      modifies app`log, app`held, app`closedCalls, pool, Footprint()
      ensures Consumed(chunk, n, more, c, s) && (conOpen ==> !more)
      ensures forall x | x in Footprint() :: x in s.foot || fresh(x)
    {
      hide Consumed;
      n := 0;
      more := true;
      while conOpen && more
        invariant Consumed(chunk, n, more, c, s)
        invariant n <= |chunk|
        invariant forall x | x in Footprint() :: x in s.foot || fresh(x)
        decreases |chunk| - n + (if more then 1 else 0)
      {
        more := ReadByte(chunk, n, c, s);
        n := if more then n + 1 else n;
      }
    }
  }
}

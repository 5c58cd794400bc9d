/** The layers put together: typed values written, framed, cut up by the network, received,
    kept by the application, and read back. */
module Stack {
  import opened Wire
  import opened Sequences
  import opened Framing
  import opened Integers
  import opened Schema
  import opened ExactReading
  import Conn = Connection
  import Pool
  import opened MessagePool
  import opened NetCon
  import opened Serializer
  import opened Deserializer

  /** One message: a value and its type. Several values in a row are a struct. */
  datatype Typed = Typed(schema: Schema, value: Value)

  ghost predicate Sendable(ms: seq<Typed>) {
    forall m | m in ms :: HasType(m.value, m.schema) && Sized(m.schema, m.value)
  }

  function Payloads(ms: seq<Typed>): seq<Payload> {
    seq(|ms|, i requires 0 <= i < |ms| => Encoding(ms[i].schema, ms[i].value))
  }

  lemma PayloadsSnoc(ms: seq<Typed>, m: Typed)
    ensures Payloads(ms + [m]) == Payloads(ms) + [Encoding(m.schema, m.value)]
  {
  }

  /** The law the library exists for: however the network cuts the frames up, one buffer per
      message is delivered, in order, and the decoder ends idle; reading each into any target
      merges in exactly the value written and consumes exactly the whole buffer. */
  lemma FullStackRoundTrip(ms: seq<Typed>, targets: seq<Value>, chunks: seq<seq<byte>>)
    requires Sendable(ms) && |targets| == |ms|
    requires Concat(chunks) == Frames(Payloads(ms))
    ensures
      var d := FeedChunks(FRESH, chunks);
      && |d.delivered| == |ms| && d.partial == [] && !d.escaped
      && forall i | 0 <= i < |ms| ::
           Read(ms[i].schema, targets[i], d.delivered[i])
           == Some(Merge(ms[i].schema, targets[i], ms[i].value), [])
  {
    FramesRoundTrip(Payloads(ms), chunks);
    forall i | 0 <= i < |ms|
      ensures Read(ms[i].schema, targets[i], Payloads(ms)[i])
           == Some(Merge(ms[i].schema, targets[i], ms[i].value), [])
    {
      assert ms[i] in ms;
      RoundTrip(ms[i].schema, targets[i], ms[i].value, []);
      assert Payloads(ms)[i] + [] == Payloads(ms)[i];
    }
  }

  /** Into blank targets, the values come back exactly as they were written. */
  lemma FullStackExact(ms: seq<Typed>, targets: seq<Value>, chunks: seq<seq<byte>>)
    requires Sendable(ms) && |targets| == |ms|
    requires Concat(chunks) == Frames(Payloads(ms))
    requires forall i | 0 <= i < |ms| :: Blank(ms[i].schema, targets[i])
    ensures
      var d := FeedChunks(FRESH, chunks);
      && |d.delivered| == |ms|
      && forall i | 0 <= i < |ms| ::
           Read(ms[i].schema, targets[i], d.delivered[i]) == Some(ms[i].value, [])
  {
    FullStackRoundTrip(ms, targets, chunks);
    forall i | 0 <= i < |ms|
      ensures Merge(ms[i].schema, targets[i], ms[i].value) == ms[i].value
    {
      assert ms[i] in ms;
      BlankMerge(ms[i].schema, targets[i], ms[i].value);
    }
  }

  // ----- The same, run through the heap objects -----

  /** Writes and ends each message in a buffer of its own and sends it whole. */
  method SendAll(host: Host, ms: seq<Typed>) returns (wire: seq<byte>)
    requires Sendable(ms)
    ensures wire == Frames(Payloads(ms))
  {
    hide Frames, Encoding, HasType;
    NoFrames();
    assert Payloads(ms[..0]) == [];
    wire := [];
    for i := 0 to |ms|
      invariant wire == Frames(Payloads(ms[..i]))
    {
      assert ms[i] in ms;
      var data := new Buffer();
      WriteInto(host, ms[i].schema, ms[i].value, data);
      EndMsg(data);
      wire := wire + data.bytes;
      var p := Encoding(ms[i].schema, ms[i].value);
      assert [] + Escape(p) == Escape(p);
      PayloadsSnoc(ms[..i], ms[i]);
      FramesSnoc(Payloads(ms[..i]), p);
      assert ms[..i + 1] == ms[..i] + [ms[i]];
    }
    assert ms[..|ms|] == ms;
  }

  lemma NoFrames()
    ensures Frames([]) == []
  {
  }

  /** The network places a chunk in the connection's buffer and completes its read. */
  method Arrive(con: NetCon, chunk: seq<byte>)
    requires con.Valid() && con.Idle() && |chunk| <= BUFFER_SIZE
    modifies con, con.buff, con.app`log, con.app`held, con.app`closedCalls, con.pool, con.Footprint()
    ensures con.Valid() && con.Idle() && con.Framed()
    ensures con.State() == Conn.ReceiveAll(con.Closes(), old(con.State()), chunk)
  {
    hide Conn.ReceiveAll, Pool.Inv, Application.HoldsChosen;
    forall k | 0 <= k < |chunk| {
      con.buff[k] := chunk[k];
    }
    assert con.buff[..|chunk|] == chunk;
    con.HandleRead(false, |chunk|);
  }

  /** What the read loop below keeps: the connection has received a prefix of the stream. */
  ghost predicate Received(con: NetCon, c: Conn.Connection, stream: seq<byte>)
    reads con, con.pool, con.pool.live.Keys, con.pool.Pooled(), con.app, con.app.Held(), con.recvMsg.buffer
  {
    && con.Valid() && con.Idle()
    && con.State() == Conn.ReceiveAll(con.Closes(), c, stream)
  }

  method ArriveNext(con: NetCon, ghost c: Conn.Connection, ghost earlier: seq<byte>, chunk: seq<byte>)
    requires Received(con, c, earlier) && |chunk| <= BUFFER_SIZE
    modifies con, con.buff, con.app`log, con.app`held, con.app`closedCalls, con.pool, con.Footprint()
    ensures Received(con, c, earlier + chunk)
    ensures forall x | x in con.Footprint() :: x in old(con.Footprint()) || fresh(x)
  {
    hide Conn.ReceiveAll, NetCon.Valid;
    Arrive(con, chunk);
    Conn.ReceiveAllAppend(con.Closes(), c, earlier, chunk);
  }

  /** The whole stream arrives in reads of any sizes the buffer allows. */
  method ReceiveAll(con: NetCon, stream: seq<byte>, size: nat -> nat)
    requires con.Valid() && con.Idle()
    requires forall i :: 0 < size(i) <= BUFFER_SIZE
    modifies con, con.buff, con.app`log, con.app`held, con.app`closedCalls, con.pool, con.Footprint()
    ensures con.Valid() && con.Idle()
    ensures con.State() == Conn.ReceiveAll(con.Closes(), old(con.State()), stream)
    ensures forall x | x in con.Footprint() :: x in old(con.Footprint()) || fresh(x)
  {
    ghost var c := con.State();
    assert Received(con, c, stream[..0]);
    ReadLoop(con, c, stream, size);
  }

  method ReadLoop(con: NetCon, ghost c: Conn.Connection, stream: seq<byte>, size: nat -> nat)
    requires Received(con, c, stream[..0])
    requires forall i :: 0 < size(i) <= BUFFER_SIZE
    modifies con, con.buff, con.app`log, con.app`held, con.app`closedCalls, con.pool, con.Footprint()
    ensures Received(con, c, stream)
    ensures forall x | x in con.Footprint() :: x in old(con.Footprint()) || fresh(x)
  {
    hide Received;
    var pos, i := 0, 0;
    while pos < |stream|
      invariant pos <= |stream|
      invariant Received(con, c, stream[..pos])
      invariant forall x | x in con.Footprint() :: x in old(con.Footprint()) || fresh(x)
    {
      var end := if |stream| - pos < size(i) then |stream| else pos + size(i);
      ArriveNext(con, c, stream[..pos], stream[pos..end]);
      assert stream[..pos] + stream[pos..end] == stream[..end];
      pos, i := end, i + 1;
    }
    assert stream[..pos] == stream;
  }

  /** Reads one held message into a target, through an iterator of its own that ends at the
      end of the message. */
  method ReadMessage(m: Typed, target: Value, p: MessagePtr) returns (v: Value, iter: MessageIter)
    requires HasType(m.value, m.schema) && Sized(m.schema, m.value)
    requires p.buffer.bytes == Encoding(m.schema, m.value)
    ensures v == Merge(m.schema, target, m.value)
    ensures fresh(iter) && ReadUp(iter, p)
  {
    hide Read, Merge, HasType, Sized, Encoding;
    iter := new MessageIter(p.buffer);
    RoundTrip(m.schema, target, m.value, []);
    assert iter.Rest() + [] == iter.Rest();
    v := ReadInto(m.schema, target, iter);
  }

  /** The iterator is at the end of the message. */
  ghost predicate ReadUp(iter: MessageIter, p: MessagePtr)
    reads iter, iter.message
  {
    iter.message == p.buffer && iter.Valid() && iter.Rest() == []
  }

  method ReadHeld(ms: seq<Typed>, targets: seq<Value>, held: seq<MessagePtr>)
      returns (values: seq<Value>, iters: seq<MessageIter>)
    requires |targets| == |ms| == |held| && Sendable(ms)
    requires forall i | 0 <= i < |ms| :: held[i].buffer.bytes == Encoding(ms[i].schema, ms[i].value)
    ensures |values| == |iters| == |ms|
    ensures forall i | 0 <= i < |ms| :: values[i] == Merge(ms[i].schema, targets[i], ms[i].value)
    ensures forall i | 0 <= i < |ms| :: ReadUp(iters[i], held[i])
  {
    hide Merge, HasType, Sized, Encoding, ReadUp;
    values, iters := [], [];
    for i := 0 to |ms|
      invariant |values| == |iters| == i
      invariant forall k | 0 <= k < i :: values[k] == Merge(ms[k].schema, targets[k], ms[k].value)
      invariant forall k | 0 <= k < i :: ReadUp(iters[k], held[k])
    {
      assert ms[i] in ms;
      var v, iter := ReadMessage(ms[i], targets[i], held[i]);
      values, iters := values + [v], iters + [iter];
    }
  }

  lemma {:induction false} KeepsAll(app: Application, log: seq<Payload>)
    requires forall out :: app.react(out).keep
    ensures app.Chosen(log) == log
  {
    if log != [] {
      KeepsAll(app, log[..|log| - 1]);
      Unsnoc(log);
    }
  }

  lemma HoldsAll(app: Application, pool: MsgPool)
    requires app.HoldsChosen(pool) && app.released == 0
    requires forall out :: app.react(out).keep
    ensures Hold(pool, app.held, app.log)
  {
    hide Application.Chosen, Hold;
    KeepsAll(app, app.log);
    assert app.log[0..] == app.log;
  }

  /** What an application that keeps everything and releases nothing holds. */
  lemma HoldsReceived(con: NetCon, ps: seq<Payload>)
    requires con.Valid() && con.State() == HavingReceived(ps) && con.app.released == 0
    requires forall out :: con.app.react(out).keep
    ensures Hold(con.pool, con.app.held, ps)
  {
    hide MsgPool.Valid, Application.HoldsChosen, Hold;
    HoldsAll(con.app, con.pool);
  }

  /** A connection on which `ps` have arrived and nothing else has happened. */
  function HavingReceived(ps: seq<Payload>): Conn.Connection {
    Conn.Connection(Decoder(ps, [], false), true, 0)
  }

  lemma FramesReceived(closes: Conn.Closes, ps: seq<Payload>)
    requires forall out :: !closes(out)
    ensures Conn.ReceiveAll(closes, Conn.OPENED, Frames(ps)) == HavingReceived(ps)
  {
    hide Frames, Conn.ReceiveAll, FeedAll;
    Conn.NeverClosed(closes, Frames(ps));
    FeedFrames(FRESH, ps);
    assert FRESH.delivered + ps == ps;
  }

  /** A fresh connection whose application keeps every message and closes nothing. */
  method Deliver(wire: seq<byte>, size: nat -> nat, ghost ps: seq<Payload>) returns (con: NetCon)
    requires forall i :: 0 < size(i) <= BUFFER_SIZE
    requires wire == Frames(ps)
    ensures con.Valid() && con.Idle() && con.State() == HavingReceived(ps)
    ensures Hold(con.pool, con.app.held, ps)
  {
    hide Frames, Conn.ReceiveAll, Pool.Inv, NetCon.Valid, HavingReceived, Hold;
    var pool := new MsgPool();
    var app := new Application(_ => Reaction(true, false));
    con := new NetCon(pool, app);
    ReceiveAll(con, wire, size);
    FramesReceived(con.Closes(), ps);
    HoldsReceived(con, ps);
  }

  /** End to end over the objects: messages written on a host of either byte order, sent,
      received in reads of any sizes, kept while later ones arrive, and read back. One buffer
      is held per message, the connection is left open and idle, and every iterator ends at
      the end of its buffer. */
  method Exchange(host: Host, ms: seq<Typed>, targets: seq<Value>, size: nat -> nat)
      returns (con: NetCon, values: seq<Value>, iters: seq<MessageIter>)
    requires Sendable(ms) && |targets| == |ms|
    requires forall i :: 0 < size(i) <= BUFFER_SIZE
    ensures con.Valid() && con.Idle() && con.State() == HavingReceived(Payloads(ms))
    ensures Hold(con.pool, con.app.held, Payloads(ms))
    ensures |values| == |iters| == |ms|
    ensures forall i | 0 <= i < |ms| :: values[i] == Merge(ms[i].schema, targets[i], ms[i].value)
    ensures forall i | 0 <= i < |ms| :: ReadUp(iters[i], con.app.held[i])
  {
    hide Frames, Merge, HasType, Encoding, Pool.Inv, Application.HoldsChosen, HavingReceived, ReadUp;
    var wire := SendAll(host, ms);
    con := Deliver(wire, size, Payloads(ms));
    values, iters := ReadHeld(ms, targets, con.app.held);
  }
}

/** The life of one connection as its owner sees it: reads that may be cut short because a
    message callback closed the connection, read errors, and explicit closes. */
module Connection {
  import opened Wire
  import opened Sequences
  import opened Framing

  /** Whether the message callback closes the connection, given every message it has been
      handed so far, the latest last. */
  type Closes = seq<Payload> -> bool

  datatype Connection = Connection(decoder: Decoder, open: bool, closedCalls: nat)

  const OPENED: Connection := Connection(FRESH, true, 0)

  function Close(c: Connection): Connection {
    if !c.open then c else c.(open := false, closedCalls := c.closedCalls + 1)
  }

  /** One iteration of the read handler's loop. */
  function Receive(closes: Closes, c: Connection, b: byte): Connection {
    if !c.open then c
    else
      var d := Feed(c.decoder, b);
      var fed := c.(decoder := d);
      if |d.delivered| > |c.decoder.delivered| && closes(d.delivered) then Close(fed) else fed
  }

  function ReceiveAll(closes: Closes, c: Connection, bs: seq<byte>): Connection {
    if bs == [] then c else Receive(closes, ReceiveAll(closes, c, bs[..|bs| - 1]), bs[|bs| - 1])
  }

  datatype Event =
    | Read(chunk: seq<byte>)
    | ReadError
    | CloseRequested

  function Handle(closes: Closes, c: Connection, e: Event): Connection {
    match e
    case Read(chunk) => ReceiveAll(closes, c, chunk)
    case ReadError => Close(c)
    case CloseRequested => Close(c)
  }

  function HandleAll(closes: Closes, c: Connection, es: seq<Event>): Connection {
    if es == [] then c else Handle(closes, HandleAll(closes, c, es[..|es| - 1]), es[|es| - 1])
  }

  /** Everything the socket delivered, read errors and closes left out. */
  function Stream(es: seq<Event>): seq<byte> {
    if es == [] then []
    else Stream(es[..|es| - 1]) + Bytes(es[|es| - 1])
  }

  lemma ReceiveAllSnoc(closes: Closes, c: Connection, bs: seq<byte>, b: byte)
    ensures ReceiveAll(closes, c, bs + [b]) == Receive(closes, ReceiveAll(closes, c, bs), b)
  {
    TakeSnoc(bs, b);
  }

  lemma HandleAllSnoc(closes: Closes, c: Connection, es: seq<Event>, e: Event)
    ensures HandleAll(closes, c, es + [e]) == Handle(closes, HandleAll(closes, c, es), e)
  {
    TakeSnoc(es, e);
  }

  function Bytes(e: Event): seq<byte> {
    match e
    case Read(chunk) => chunk
    case _ => []
  }

  lemma StreamSnoc(es: seq<Event>, e: Event)
    ensures Stream(es + [e]) == Stream(es) + Bytes(e)
  {
    TakeSnoc(es, e);
  }

  // ----- Closing is final -----

  lemma {:induction false} ClosedIgnoresBytes(closes: Closes, c: Connection, bs: seq<byte>)
    requires !c.open
    ensures ReceiveAll(closes, c, bs) == c
  {
    if bs != [] {
      ClosedIgnoresBytes(closes, c, bs[..|bs| - 1]);
    }
  }

  /** Once closed, no later event reopens the connection, delivers a message or calls the
      closed callback again. */
  lemma {:induction false} ClosedIsFinal(closes: Closes, c: Connection, es: seq<Event>)
    requires !c.open
    ensures HandleAll(closes, c, es) == c
  {
    if es != [] {
      ClosedIsFinal(closes, c, es[..|es| - 1]);
      if es[|es| - 1].Read? {
        ClosedIgnoresBytes(closes, c, es[|es| - 1].chunk);
      }
    }
  }

  lemma {:induction false} ReceiveAllAppend(closes: Closes, c: Connection, a: seq<byte>, b: seq<byte>)
    ensures ReceiveAll(closes, c, a + b) == ReceiveAll(closes, ReceiveAll(closes, c, a), b)
  {
    if b == [] {
      assert a + b == a;
    } else {
      hide ReceiveAll, Receive;
      var init, last := b[..|b| - 1], b[|b| - 1];
      Unsnoc(b);
      ReceiveAllAppend(closes, c, a, init);
      Assoc(a, init, [last]);
      ReceiveAllSnoc(closes, c, a + init, last);
      ReceiveAllSnoc(closes, ReceiveAll(closes, c, a), init, last);
    }
  }

  /** A loop that stops early because the connection closed has done all there is to do. */
  lemma StoppedEarly(closes: Closes, c: Connection, chunk: seq<byte>, n: nat)
    requires n <= |chunk| && (ReceiveAll(closes, c, chunk[..n]).open ==> n == |chunk|)
    ensures ReceiveAll(closes, c, chunk) == ReceiveAll(closes, c, chunk[..n])
  {
    hide ReceiveAll;
    assert chunk == chunk[..n] + chunk[n..];
    if n == |chunk| {
      assert chunk[..n] == chunk;
    } else {
      ReceiveAllAppend(closes, c, chunk[..n], chunk[n..]);
      ClosedIgnoresBytes(closes, ReceiveAll(closes, c, chunk[..n]), chunk[n..]);
    }
  }

  lemma {:induction false} HandleAllAppend(closes: Closes, c: Connection, a: seq<Event>, b: seq<Event>)
    ensures HandleAll(closes, c, a + b) == HandleAll(closes, HandleAll(closes, c, a), b)
  {
    if b == [] {
      assert a + b == a;
    } else {
      hide HandleAll, Handle;
      var init, last := b[..|b| - 1], b[|b| - 1];
      Unsnoc(b);
      HandleAllAppend(closes, c, a, init);
      Assoc(a, init, [last]);
      HandleAllSnoc(closes, c, a + init, last);
      HandleAllSnoc(closes, HandleAll(closes, c, a), init, last);
    }
  }

  // ----- An early close only cuts the stream short -----

  /** No callback before the last one asked for the close. */
  ghost predicate NotClosedBefore(closes: Closes, delivered: seq<Payload>) {
    forall k | 0 < k < |delivered| :: !closes(delivered[..k])
  }

  /** `c` is what the undisturbed decoder makes of `bytes`, no earlier delivery asked for the
      close, and the closed callback ran once if the connection is closed and never before. */
  ghost predicate CutAt(closes: Closes, c: Connection, bytes: seq<byte>) {
    && c.decoder == FeedAll(FRESH, bytes)
    && c.closedCalls == (if c.open then 0 else 1)
    && NotClosedBefore(closes, c.decoder.delivered)
    && (c.open && c.decoder.delivered != [] ==> !closes(c.decoder.delivered))
  }

  lemma ReceiveCut(closes: Closes, c: Connection, bytes: seq<byte>, b: byte)
    requires c.open && CutAt(closes, c, bytes)
    ensures CutAt(closes, Receive(closes, c, b), bytes + [b])
  {
    hide FeedAll;
    FeedAllSnoc(FRESH, bytes, b);
    var before, after := c.decoder.delivered, Receive(closes, c, b).decoder.delivered;
    forall k | 0 < k < |after|
      ensures !closes(after[..k])
    {
      assert after[..k] == before[..k];
      assert before[..|before|] == before;
    }
  }

  lemma TakeMore(s: seq<byte>, n: nat)
    requires n < |s|
    ensures s[..n + 1] == s[..n] + [s[n]]
  {
  }

  lemma {:induction false} ReceiveAllCut(closes: Closes, c: Connection, bytes: seq<byte>, bs: seq<byte>)
      returns (n: nat)
    requires c.open && CutAt(closes, c, bytes)
    ensures n <= |bs|
    ensures CutAt(closes, ReceiveAll(closes, c, bs), bytes + bs[..n])
    ensures ReceiveAll(closes, c, bs).open ==> n == |bs|
  {
    if bs == [] {
      n := 0;
      assert bytes + bs[..n] == bytes;
    } else {
      hide CutAt, ReceiveAll, Receive;
      var init, last := bs[..|bs| - 1], bs[|bs| - 1];
      Unsnoc(bs);
      n := ReceiveAllCut(closes, c, bytes, init);
      assert init[..n] == bs[..n];
      ReceiveAllSnoc(closes, c, init, last);
      var mid := ReceiveAll(closes, c, init);
      if mid.open {
        ReceiveCut(closes, mid, bytes + init[..n], last);
        TakeMore(bs, n);
        Assoc(bytes, bs[..n], [last]);
        n := n + 1;
      } else {
        ReceiveClosed(closes, mid, last);
      }
    }
  }

  lemma ReceiveClosed(closes: Closes, c: Connection, b: byte)
    requires !c.open
    ensures Receive(closes, c, b) == c
  {
  }

  /** One event after a cut stream. */
  lemma HandleCut(closes: Closes, c: Connection, whole: seq<byte>, n: nat, e: Event) returns (m: nat)
    requires n <= |whole| && (c.open ==> n == |whole|) && CutAt(closes, c, whole[..n])
    ensures m <= |whole + Bytes(e)|
    ensures CutAt(closes, Handle(closes, c, e), (whole + Bytes(e))[..m])
    ensures Handle(closes, c, e).open ==> m == |whole + Bytes(e)|
  {
    hide ReceiveAll, FeedAll;
    m := n;
    assert (whole + Bytes(e))[..n] == whole[..n];
    if !c.open {
      if e.Read? { ClosedIgnoresBytes(closes, c, e.chunk); }
    } else if e.Read? {
      var k := ReceiveAllCut(closes, c, whole[..n], e.chunk);
      m := n + k;
      assert (whole + e.chunk)[..m] == whole[..n] + e.chunk[..k];
    }
  }

  /** In every sequential run the connection is a run of the undisturbed decoder over a
      prefix of the stream, and over all of it while the connection is open. */
  lemma {:induction false} ClosingCutsTheStream(closes: Closes, es: seq<Event>) returns (n: nat)
    ensures n <= |Stream(es)|
    ensures CutAt(closes, HandleAll(closes, OPENED, es), Stream(es)[..n])
    ensures HandleAll(closes, OPENED, es).open ==> n == |Stream(es)|
  {
    if es == [] {
      n := 0;
    } else {
      hide CutAt, HandleAll, Handle, Stream;
      var init, last := es[..|es| - 1], es[|es| - 1];
      Unsnoc(es);
      n := ClosingCutsTheStream(closes, init);
      HandleAllSnoc(closes, OPENED, init, last);
      StreamSnoc(init, last);
      n := HandleCut(closes, HandleAll(closes, OPENED, init), Stream(init), n, last);
    }
  }

  /** The delivered messages are a prefix of what the same stream delivers to a connection
      nobody closes, and the closed callback runs at most once. */
  lemma DeliveredIsPrefix(closes: Closes, es: seq<Event>)
    ensures HandleAll(closes, OPENED, es).decoder.delivered
         <= FeedAll(FRESH, Stream(es)).delivered
    ensures HandleAll(closes, OPENED, es).closedCalls <= 1
  {
    var n := ClosingCutsTheStream(closes, es);
    var whole := Stream(es);
    assert whole == whole[..n] + whole[n..];
    FeedAllAppend(FRESH, whole[..n], whole[n..]);
    DeliveredGrows(FeedAll(FRESH, whole[..n]), whole[n..]);
  }

  lemma {:induction false} ReceiveAllClosedByCallback(closes: Closes, c: Connection, bs: seq<byte>)
    requires !c.open ==> c.decoder.delivered != [] && closes(c.decoder.delivered)
    ensures var e := ReceiveAll(closes, c, bs);
            !e.open ==> e.decoder.delivered != [] && closes(e.decoder.delivered)
  {
    if bs != [] {
      ReceiveAllClosedByCallback(closes, c, bs[..|bs| - 1]);
    }
  }

  /** With neither errors nor explicit closes, only a callback that asks for it closes the
      connection, and the message it was handed is the last one delivered. */
  lemma {:induction false} ClosedByCallback(closes: Closes, es: seq<Event>)
    requires forall i | 0 <= i < |es| :: es[i].Read?
    ensures var c := HandleAll(closes, OPENED, es);
            !c.open ==> c.decoder.delivered != [] && closes(c.decoder.delivered)
  {
    if es != [] {
      ClosedByCallback(closes, es[..|es| - 1]);
      ReceiveAllClosedByCallback(closes, HandleAll(closes, OPENED, es[..|es| - 1]),
                                 es[|es| - 1].chunk);
    }
  }

  /** A read error or an explicit close ends everything there and then: the connection is
      closed, its closed callback has run exactly once, and its decoder stays as it was,
      whatever came before and whatever is still to come. */
  lemma {:induction false} ErrorsClose(closes: Closes, before: seq<Event>, e: Event, after: seq<Event>)
    requires !e.Read?
    ensures HandleAll(closes, OPENED, before + [e] + after)
         == Connection(HandleAll(closes, OPENED, before).decoder, false, 1)
  {
    var n := ClosingCutsTheStream(closes, before);
    HandleAllSnoc(closes, OPENED, before, e);
    HandleAllAppend(closes, OPENED, before + [e], after);
    hide HandleAll;
    ClosedIsFinal(closes, HandleAll(closes, OPENED, before + [e]), after);
  }

  /** When a connection is open: exactly if there has been no read error, no explicit close,
      and no callback that asked for the close among all those the stream calls for. */
  lemma {:induction false} OpenExactly(closes: Closes, es: seq<Event>)
    ensures
      var out := FeedAll(FRESH, Stream(es)).delivered;
      HandleAll(closes, OPENED, es).open <==>
      (forall e | e in es :: e.Read?) && forall k | 0 < k <= |out| :: !closes(out[..k])
  {
    hide HandleAll, FeedAll, Stream;
    var c, out := HandleAll(closes, OPENED, es), FeedAll(FRESH, Stream(es)).delivered;
    if i :| 0 <= i < |es| && !es[i].Read? {
      ErrorsClose(closes, es[..i], es[i], es[i + 1..]);
      assert es[..i] + [es[i]] + es[i + 1..] == es;
    } else if c.open {
      var n := ClosingCutsTheStream(closes, es);
      assert Stream(es)[..|Stream(es)|] == Stream(es);
      assert out[..|out|] == out;
    } else {
      ClosedByCallback(closes, es);
      DeliveredIsPrefix(closes, es);
      assert c.decoder.delivered == out[..|c.decoder.delivered|];
    }
  }

  /** Whole frames and no error: the messages delivered are the sent ones up to and including
      the first whose callback closes the connection, all of them if none does. */
  lemma {:induction false} FramesUntilClosed(closes: Closes, es: seq<Event>, ps: seq<Payload>)
    requires forall i | 0 <= i < |es| :: es[i].Read?
    requires Stream(es) == Frames(ps)
    ensures
      var c := HandleAll(closes, OPENED, es);
      var out := c.decoder.delivered;
      && out <= ps && NotClosedBefore(closes, out)
      && (c.open ==> c.decoder == Decoder(ps, [], false) && (ps != [] ==> !closes(ps)))
      && (!c.open ==> out != [] && closes(out))
  {
    DeliveredIsPrefix(closes, es);
    var n := ClosingCutsTheStream(closes, es);
    ClosedByCallback(closes, es);
    hide HandleAll, FeedAll, Frames, Stream, NotClosedBefore;
    FeedFrames(FRESH, ps);
    assert FRESH.delivered + ps == ps;
    assert Stream(es)[..|Stream(es)|] == Stream(es);
  }

  /** A callback that never closes leaves the plain decoder. */
  lemma {:induction false} NeverClosed(closes: Closes, bs: seq<byte>)
    requires forall out :: !closes(out)
    ensures ReceiveAll(closes, OPENED, bs) == Connection(FeedAll(FRESH, bs), true, 0)
  {
    if bs != [] {
      NeverClosed(closes, bs[..|bs| - 1]);
    }
  }
}

/** The byte alphabet of the wire and its three reserved values. */
module Wire {
  type byte = x: int | 0 <= x < 256

  const ESCAPE_VAL: byte := 255
  const MSG_END_ESCAPED: byte := 0
  const MSG_ORIGI_CHAR: byte := 255
}

/** Facts about concatenation that proofs cite by name. */
module Sequences {
  lemma Assoc<T>(a: seq<T>, b: seq<T>, c: seq<T>)
    ensures a + b + c == a + (b + c)
  {
  }

  lemma Unsnoc<T>(s: seq<T>)
    requires s != []
    ensures s == s[..|s| - 1] + [s[|s| - 1]]
  {
  }

  lemma TakeSnoc<T>(s: seq<T>, x: T)
    ensures (s + [x])[..|s + [x]| - 1] == s && (s + [x])[|s + [x]| - 1] == x
  {
  }
}

/** Byte-stuffed framing: what the sender writes, what the receiver's state machine makes
    of an arbitrary byte stream, and how the two relate. */
module Framing {
  import opened Wire
  import opened Sequences

  type Payload = seq<byte>

  // ----- The sender -----

  function EscapeByte(b: byte): seq<byte> {
    if b == ESCAPE_VAL then [b, MSG_ORIGI_CHAR] else [b]
  }

  function Escape(p: Payload): seq<byte> {
    if p == [] then [] else Escape(p[..|p| - 1]) + EscapeByte(p[|p| - 1])
  }

  /** One message on the wire: the escaped payload and the end marker. */
  function Frame(p: Payload): seq<byte> {
    Escape(p) + [ESCAPE_VAL, MSG_END_ESCAPED]
  }

  function Frames(ps: seq<Payload>): seq<byte> {
    if ps == [] then [] else Frames(ps[..|ps| - 1]) + Frame(ps[|ps| - 1])
  }

  // ----- The receiver -----

  /** What one connection has delivered, the message it is assembling, and whether the last
      byte it saw opened an escape pair. */
  datatype Decoder = Decoder(delivered: seq<Payload>, partial: Payload, escaped: bool)

  const FRESH: Decoder := Decoder([], [], false)

  function Feed(d: Decoder, b: byte): Decoder {
    if b != ESCAPE_VAL && !d.escaped then
      d.(partial := d.partial + [b])
    else if !d.escaped then
      d.(escaped := true)
    else if b == MSG_ORIGI_CHAR then
      d.(partial := d.partial + [ESCAPE_VAL], escaped := false)
    else if b == MSG_END_ESCAPED then
      Decoder(d.delivered + [d.partial], [], false)
    else
      d.(escaped := false)
  }

  function FeedAll(d: Decoder, bs: seq<byte>): Decoder {
    if bs == [] then d else Feed(FeedAll(d, bs[..|bs| - 1]), bs[|bs| - 1])
  }

  /** The stream a correct sender would have produced to put a decoder in state `d`. */
  function Encode(d: Decoder): seq<byte> {
    Sent(d) + Pending(d.escaped)
  }

  function Sent(d: Decoder): seq<byte> {
    Frames(d.delivered) + Escape(d.partial)
  }

  function Pending(escaped: bool): seq<byte> {
    if escaped then [ESCAPE_VAL] else []
  }

  // ----- The wire format in numbers -----

  /** What a sender puts on the wire. */
  lemma FrameInBytes(p: Payload, b: byte)
    ensures Frame([]) == [255, 0]
    ensures Frame(p) == Escape(p) + [255, 0]
    ensures Escape(p + [b]) == Escape(p) + if b == 255 then [255, 255] else [b]
  {
    TakeSnoc(p, b);
    assert Escape([]) + [255, 0] == [255, 0];
  }

  /** What a receiver that is not within an escape pair makes of a byte and of a pair. */
  lemma {:induction false} PairsInBytes(d: Decoder, x: byte)
    requires !d.escaped
    ensures x != 255 ==> FeedAll(d, [x]) == d.(partial := d.partial + [x])
    ensures FeedAll(d, [255, 0]) == Decoder(d.delivered + [d.partial], [], false)
    ensures FeedAll(d, [255, 255]) == d.(partial := d.partial + [255])
    ensures 0 < x < 255 ==> FeedAll(d, [255, x]) == d
  {
    FeedAllOne(d, x);
    FeedAllTwo(d, 255, 0);
    FeedAllTwo(d, 255, 255);
    FeedAllTwo(d, 255, x);
  }

  // ----- One element at a time -----

  lemma FeedAllSnoc(d: Decoder, bs: seq<byte>, b: byte)
    ensures FeedAll(d, bs + [b]) == Feed(FeedAll(d, bs), b)
  {
    TakeSnoc(bs, b);
  }

  lemma FeedAllOne(d: Decoder, b: byte)
    ensures FeedAll(d, [b]) == Feed(d, b)
  {
    assert [b] == [] + [b];
    FeedAllSnoc(d, [], b);
  }

  lemma FeedAllTwo(d: Decoder, x: byte, y: byte)
    ensures FeedAll(d, [x, y]) == Feed(Feed(d, x), y)
  {
    assert [x, y] == [x] + [y];
    FeedAllSnoc(d, [x], y);
    FeedAllOne(d, x);
  }

  lemma EscapeSnoc(p: Payload, b: byte)
    ensures Escape(p + [b]) == Escape(p) + EscapeByte(b)
  {
    TakeSnoc(p, b);
  }

  lemma FramesSnoc(ps: seq<Payload>, p: Payload)
    ensures Frames(ps + [p]) == Frames(ps) + Frame(p)
  {
    TakeSnoc(ps, p);
  }

  lemma EscapeOne(b: byte)
    ensures Escape([b]) == EscapeByte(b)
  {
    assert [b] == [] + [b];
    EscapeSnoc([], b);
  }

  lemma FramesOne(p: Payload)
    ensures Frames([p]) == Frame(p)
  {
    assert [p] == [] + [p];
    FramesSnoc([], p);
  }

  // ----- Cutting the stream anywhere -----

  /** Chunking independence: a stream may be cut at any byte, even inside an escape pair. */
  lemma {:induction false} FeedAllAppend(d: Decoder, a: seq<byte>, b: seq<byte>)
    ensures FeedAll(d, a + b) == FeedAll(FeedAll(d, a), b)
  {
    if b == [] {
      assert a + b == a;
    } else {
      hide FeedAll, Feed;
      var init, last := b[..|b| - 1], b[|b| - 1];
      Unsnoc(b);
      FeedAllAppend(d, a, init);
      Assoc(a, init, [last]);
      FeedAllSnoc(d, a + init, last);
      FeedAllSnoc(FeedAll(d, a), init, last);
    }
  }

  lemma {:induction false} EscapeAppend(p: Payload, q: Payload)
    ensures Escape(p + q) == Escape(p) + Escape(q)
  {
    if q == [] {
      assert p + q == p;
    } else {
      hide Escape, EscapeByte;
      var init, last := q[..|q| - 1], q[|q| - 1];
      Unsnoc(q);
      EscapeAppend(p, init);
      Assoc(p, init, [last]);
      EscapeSnoc(p + init, last);
      EscapeSnoc(init, last);
      Assoc(Escape(p), Escape(init), EscapeByte(last));
    }
  }

  lemma {:induction false} FramesAppend(ps: seq<Payload>, qs: seq<Payload>)
    ensures Frames(ps + qs) == Frames(ps) + Frames(qs)
  {
    if qs == [] {
      assert ps + qs == ps;
    } else {
      hide Frames, Frame;
      var init, last := qs[..|qs| - 1], qs[|qs| - 1];
      Unsnoc(qs);
      FramesAppend(ps, init);
      Assoc(ps, init, [last]);
      FramesSnoc(ps + init, last);
      FramesSnoc(init, last);
      Assoc(Frames(ps), Frames(init), Frame(last));
    }
  }

  // ----- Decoding is a left inverse of encoding, from every state -----

  lemma FeedEscapeByte(d: Decoder, b: byte)
    requires !d.escaped
    ensures FeedAll(d, EscapeByte(b)) == d.(partial := d.partial + [b])
  {
    if b == ESCAPE_VAL {
      FeedAllTwo(d, b, MSG_ORIGI_CHAR);
    } else {
      FeedAllOne(d, b);
    }
  }

  lemma {:induction false} FeedEscape(d: Decoder, p: Payload)
    requires !d.escaped
    ensures FeedAll(d, Escape(p)) == d.(partial := d.partial + p)
  {
    if p == [] {
      assert d.partial + p == d.partial;
    } else {
      hide *;
      var init, last := p[..|p| - 1], p[|p| - 1];
      Unsnoc(p);
      FeedEscape(d, init);
      EscapeSnoc(init, last);
      FeedAllAppend(d, Escape(init), EscapeByte(last));
      FeedEscapeByte(d.(partial := d.partial + init), last);
      Assoc(d.partial, init, [last]);
    }
  }

  lemma FeedFrame(d: Decoder, p: Payload)
    requires !d.escaped
    ensures FeedAll(d, Frame(p)) == Decoder(d.delivered + [d.partial + p], [], false)
  {
    FeedEscape(d, p);
    FeedAllAppend(d, Escape(p), [ESCAPE_VAL, MSG_END_ESCAPED]);
    FeedAllTwo(FeedAll(d, Escape(p)), ESCAPE_VAL, MSG_END_ESCAPED);
  }

  lemma {:induction false} FeedFrames(d: Decoder, ps: seq<Payload>)
    requires !d.escaped && d.partial == []
    ensures FeedAll(d, Frames(ps)) == d.(delivered := d.delivered + ps)
  {
    if ps == [] {
      assert d.delivered + ps == d.delivered;
    } else {
      hide *;
      var init, last := ps[..|ps| - 1], ps[|ps| - 1];
      Unsnoc(ps);
      FeedFrames(d, init);
      FramesSnoc(init, last);
      FeedAllAppend(d, Frames(init), Frame(last));
      FeedFrame(d.(delivered := d.delivered + init), last);
      assert [] + last == last;
      Assoc(d.delivered, init, [last]);
    }
  }

  /** Every decoder state is the result of decoding its own encoding. */
  lemma DecodeEncode(d: Decoder)
    ensures FeedAll(FRESH, Encode(d)) == d
  {
    var sent := Decoder(d.delivered, [], false);
    FeedFrames(FRESH, d.delivered);
    assert FRESH.delivered + d.delivered == d.delivered;
    FeedAllAppend(FRESH, Frames(d.delivered), Escape(d.partial));
    FeedEscape(sent, d.partial);
    assert sent.partial + d.partial == d.partial;
    FeedAllAppend(FRESH, Sent(d), Pending(d.escaped));
    FeedAllOne(d.(escaped := false), ESCAPE_VAL);
  }

  /** A stream of whole frames delivers exactly its payloads and leaves the decoder idle,
      however the stream is cut. */
  lemma FramesRoundTrip(ps: seq<Payload>, chunks: seq<seq<byte>>)
    requires Concat(chunks) == Frames(ps)
    ensures FeedChunks(FRESH, chunks) == Decoder(ps, [], false)
  {
    FeedChunksIsFeedAll(FRESH, chunks);
    FeedFrames(FRESH, ps);
    assert FRESH.delivered + ps == ps;
  }

  function Concat(chunks: seq<seq<byte>>): seq<byte> {
    if chunks == [] then [] else Concat(chunks[..|chunks| - 1]) + chunks[|chunks| - 1]
  }

  /** One call of the read handler per chunk. */
  function FeedChunks(d: Decoder, chunks: seq<seq<byte>>): Decoder {
    if chunks == [] then d
    else FeedAll(FeedChunks(d, chunks[..|chunks| - 1]), chunks[|chunks| - 1])
  }

  lemma {:induction false} FeedChunksIsFeedAll(d: Decoder, chunks: seq<seq<byte>>)
    ensures FeedChunks(d, chunks) == FeedAll(d, Concat(chunks))
  {
    if chunks != [] {
      hide FeedAll;
      var init := chunks[..|chunks| - 1];
      FeedChunksIsFeedAll(d, init);
      FeedAllAppend(d, Concat(init), chunks[|chunks| - 1]);
    }
  }

  /** What has been delivered is never taken back, and the messages already delivered do not
      influence what follows. */
  lemma {:induction false} DeliveredGrows(d: Decoder, bs: seq<byte>)
    ensures d.delivered <= FeedAll(d, bs).delivered
    ensures FeedAll(d, bs) ==
            var e := FeedAll(d.(delivered := []), bs);
            e.(delivered := d.delivered + e.delivered)
  {
    if bs == [] {
      assert d.delivered + [] == d.delivered;
    } else {
      DeliveredGrows(d, bs[..|bs| - 1]);
    }
  }

  /** A stream cut off anywhere has delivered a prefix of the sent messages. */
  lemma PrefixDeliversPrefix(input: seq<byte>, ps: seq<Payload>)
    requires input <= Frames(ps)
    ensures FeedAll(FRESH, input).delivered <= ps
  {
    var rest := Frames(ps)[|input|..];
    FeedFrames(FRESH, ps);
    assert FRESH.delivered + ps == ps;
    assert Frames(ps) == input + rest;
    FeedAllAppend(FRESH, input, rest);
    DeliveredGrows(FeedAll(FRESH, input), rest);
  }

  // ----- The frames form a uniquely decodable, prefix-free code -----

  lemma UniquelyDecodable(ps: seq<Payload>, qs: seq<Payload>)
    requires Frames(ps) == Frames(qs)
    ensures ps == qs
  {
    FeedFrames(FRESH, ps);
    FeedFrames(FRESH, qs);
    assert FRESH.delivered + ps == ps && FRESH.delivered + qs == qs;
  }

  lemma PrefixFree(p: Payload, q: Payload, x: seq<byte>, y: seq<byte>)
    requires Frame(p) + x == Frame(q) + y
    ensures p == q && x == y
  {
    FirstFrame(p, x);
    FirstFrame(q, y);
    assert x == (Frame(p) + x)[|Frame(p)|..];
    assert y == (Frame(q) + y)[|Frame(q)|..];
  }

  lemma FirstFrame(p: Payload, x: seq<byte>)
    ensures var d := FeedAll(FRESH, Frame(p) + x); d.delivered != [] && d.delivered[0] == p
  {
    FeedFrame(FRESH, p);
    assert [] + p == p;
    FeedAllAppend(FRESH, Frame(p), x);
    DeliveredGrows(FeedAll(FRESH, Frame(p)), x);
    assert FeedAll(FRESH, Frame(p)).delivered[0] == p;
  }

  function CountEscapes(p: Payload): nat {
    if p == [] then 0
    else CountEscapes(p[..|p| - 1]) + if p[|p| - 1] == ESCAPE_VAL then 1 else 0
  }

  /** The exact cost of framing, and the doubling it can never exceed. */
  lemma {:induction false} FrameLength(p: Payload)
    ensures |Frame(p)| == |p| + CountEscapes(p) + 2 <= 2 * |p| + 2
  {
    if p != [] {
      FrameLength(p[..|p| - 1]);
    }
  }
}

/** What the receiver makes of bytes no correct sender would produce, and of correct bytes
    that reach it in a state left over from something else. */
module ArbitraryStreams {
  import opened Wire
  import opened Sequences
  import opened Framing

  // ----- A grammar of the wire that does not mention the decoder -----

  datatype Token =
    | Plain(b: byte)
    | Literal
    | End
    | Unknown(b: byte)
  {
    predicate WellFormed() {
      match this
      case Plain(b) => b != ESCAPE_VAL
      case Literal => true
      case End => true
      case Unknown(b) => b != MSG_ORIGI_CHAR && b != MSG_END_ESCAPED
    }

    function Bytes(): seq<byte> {
      match this
      case Plain(b) => [b]
      case Literal => [ESCAPE_VAL, MSG_ORIGI_CHAR]
      case End => [ESCAPE_VAL, MSG_END_ESCAPED]
      case Unknown(b) => [ESCAPE_VAL, b]
    }
  }

  ghost predicate AllWellFormed(ts: seq<Token>) {
    forall t | t in ts :: t.WellFormed()
  }

  function Flatten(ts: seq<Token>): seq<byte> {
    if ts == [] then [] else Flatten(ts[..|ts| - 1]) + ts[|ts| - 1].Bytes()
  }

  datatype Lexed = Lexed(tokens: seq<Token>, pending: bool)

  function Spell(l: Lexed): seq<byte> {
    Flatten(l.tokens) + Pending(l.pending)
  }

  function EscapeToken(b: byte): (t: Token)
    ensures t.WellFormed() && t.Bytes() == [ESCAPE_VAL, b]
  {
    if b == MSG_ORIGI_CHAR then Literal
    else if b == MSG_END_ESCAPED then End
    else Unknown(b)
  }

  function Lex(bs: seq<byte>): Lexed {
    if bs == [] then Lexed([], false) else LexStep(Lex(bs[..|bs| - 1]), bs[|bs| - 1])
  }

  function LexStep(l: Lexed, b: byte): Lexed {
    if l.pending then Lexed(l.tokens + [EscapeToken(b)], false)
    else if b == ESCAPE_VAL then l.(pending := true)
    else l.(tokens := l.tokens + [Plain(b)])
  }

  lemma FlattenSnoc(ts: seq<Token>, t: Token)
    ensures Flatten(ts + [t]) == Flatten(ts) + t.Bytes()
  {
    TakeSnoc(ts, t);
  }

  lemma LexSnoc(bs: seq<byte>, b: byte)
    ensures Lex(bs + [b]) == LexStep(Lex(bs), b)
  {
    TakeSnoc(bs, b);
  }

  lemma SpellClosed(l: Lexed)
    requires !l.pending
    ensures Spell(l) == Flatten(l.tokens)
  {
  }

  /** A byte appended to the spelling is a step of the lexer. */
  lemma SpellStep(l: Lexed, b: byte)
    ensures Spell(LexStep(l, b)) == Spell(l) + [b]
  {
    hide Flatten;
    var f := Flatten(l.tokens);
    if l.pending {
      FlattenSnoc(l.tokens, EscapeToken(b));
      SpellClosed(LexStep(l, b));
      Assoc(f, [ESCAPE_VAL], [b]);
      assert [ESCAPE_VAL] + [b] == [ESCAPE_VAL, b];
    } else {
      SpellClosed(l);
      if b != ESCAPE_VAL {
        FlattenSnoc(l.tokens, Plain(b));
        SpellClosed(LexStep(l, b));
      }
    }
  }

  /** Every byte stream is spelled by well-formed tokens and at most one open escape... */
  lemma {:induction false} LexSpells(bs: seq<byte>)
    ensures AllWellFormed(Lex(bs).tokens) && Spell(Lex(bs)) == bs
  {
    if bs != [] {
      hide Spell, Lex;
      var init, last := bs[..|bs| - 1], bs[|bs| - 1];
      LexSpells(init);
      Unsnoc(bs);
      LexSnoc(init, last);
      SpellStep(Lex(init), last);
    }
  }

  lemma LexToken(ts: seq<Token>, t: Token)
    requires Lex(Flatten(ts)) == Lexed(ts, false) && t.WellFormed()
    ensures Lex(Flatten(ts + [t])) == Lexed(ts + [t], false)
  {
    hide Lex, Flatten;
    var f := Flatten(ts);
    FlattenSnoc(ts, t);
    if t.Plain? {
      LexSnoc(f, t.b);
    } else {
      var second := t.Bytes()[1];
      LexSnoc(f, ESCAPE_VAL);
      LexSnoc(f + [ESCAPE_VAL], second);
      Assoc(f, [ESCAPE_VAL], [second]);
      assert t.Bytes() == [ESCAPE_VAL] + [second];
    }
  }

  lemma {:induction false} LexFlatten(ts: seq<Token>)
    requires AllWellFormed(ts)
    ensures Lex(Flatten(ts)) == Lexed(ts, false)
  {
    if ts != [] {
      hide Lex, Flatten;
      var init, last := ts[..|ts| - 1], ts[|ts| - 1];
      Unsnoc(ts);
      LexFlatten(init);
      LexToken(init, last);
    }
  }

  /** ... in exactly one way. */
  lemma LexUnique(l: Lexed)
    requires AllWellFormed(l.tokens)
    ensures Lex(Spell(l)) == l
  {
    hide Lex, Flatten;
    LexFlatten(l.tokens);
    if l.pending {
      LexSnoc(Flatten(l.tokens), ESCAPE_VAL);
    } else {
      SpellClosed(l);
    }
  }

  // ----- The decoder inverts the encoder up to unrecognised escapes -----

  function Known(ts: seq<Token>): seq<Token> {
    if ts == [] then []
    else if ts[|ts| - 1].Unknown? then Known(ts[..|ts| - 1])
    else Known(ts[..|ts| - 1]) + [ts[|ts| - 1]]
  }

  lemma KnownSnoc(ts: seq<Token>, t: Token)
    ensures Known(ts + [t]) == if t.Unknown? then Known(ts) else Known(ts) + [t]
  {
    TakeSnoc(ts, t);
  }

  /** The stream with its unrecognised escape pairs deleted. */
  function Cleaned(bs: seq<byte>): seq<byte> {
    SpellKnown(Lex(bs))
  }

  function SpellKnown(l: Lexed): seq<byte> {
    Spell(KnownOnly(l))
  }

  function KnownOnly(l: Lexed): Lexed {
    Lexed(Known(l.tokens), l.pending)
  }

  /** What one more byte does to an encoding, whichever way the encoding is described: it
      is appended, or with the open escape before it turns out to mean nothing. */
  ghost predicate Extends(before: seq<byte>, escaped: bool, b: byte, after: seq<byte>) {
    if escaped && b != MSG_ORIGI_CHAR && b != MSG_END_ESCAPED
    then before == after + [ESCAPE_VAL]
    else after == before + [b]
  }

  lemma ExtendsUnique(before: seq<byte>, escaped: bool, b: byte, x: seq<byte>, y: seq<byte>)
    requires Extends(before, escaped, b, x) && Extends(before, escaped, b, y)
    ensures x == y
  {
    assert x == (x + [ESCAPE_VAL])[..|x|] && y == (y + [ESCAPE_VAL])[..|y|];
  }

  lemma SentByte(d: Decoder, b: byte)
    ensures Sent(d.(partial := d.partial + [b], escaped := false)) == Sent(d) + EscapeByte(b)
  {
    hide Frames, Escape, EscapeByte;
    EscapeSnoc(d.partial, b);
    Assoc(Frames(d.delivered), Escape(d.partial), EscapeByte(b));
  }

  lemma SentFrame(d: Decoder)
    ensures Sent(Decoder(d.delivered + [d.partial], [], false))
         == Sent(d) + [ESCAPE_VAL, MSG_END_ESCAPED]
  {
    FramesSnoc(d.delivered, d.partial);
    hide Frames;
    Assoc(Frames(d.delivered), Escape(d.partial), [ESCAPE_VAL, MSG_END_ESCAPED]);
    var all := Frames(d.delivered + [d.partial]);
    assert Escape([]) == [];
    assert all + [] == all;
  }

  lemma EncodeClosed(d: Decoder)
    requires !d.escaped
    ensures Encode(d) == Sent(d)
  {
  }

  lemma {:induction false} EncodeFeed(d: Decoder, b: byte)
    ensures Extends(Encode(d), d.escaped, b, Encode(Feed(d, b)))
  {
    hide Sent;
    if !d.escaped {
      EncodeClosed(d);
      if b != ESCAPE_VAL {
        SentByte(d, b);
        EncodeClosed(Feed(d, b));
      } else {
        SentSame(d, Feed(d, b));
      }
    } else {
      EncodeClosed(Feed(d, b));
      Assoc(Sent(d), [ESCAPE_VAL], [b]);
      assert [ESCAPE_VAL] + [b] == [ESCAPE_VAL, b];
      if b == MSG_ORIGI_CHAR {
        SentByte(d, b);
      } else if b == MSG_END_ESCAPED {
        SentFrame(d);
      } else {
        SentSame(d, Feed(d, b));
      }
    }
  }

  lemma SentSame(d: Decoder, e: Decoder)
    requires d.delivered == e.delivered && d.partial == e.partial
    ensures Sent(d) == Sent(e)
  {
  }

  lemma SpellKnownStep(l: Lexed, b: byte)
    ensures Extends(SpellKnown(l), l.pending, b, SpellKnown(LexStep(l, b)))
  {
    hide Spell, Known;
    var k := KnownOnly(l);
    if l.pending && b != MSG_ORIGI_CHAR && b != MSG_END_ESCAPED {
      KnownSnoc(l.tokens, Unknown(b));
      SpellClosed(KnownOnly(LexStep(l, b)));
      SpellOpen(k);
    } else {
      if l.pending {
        KnownSnoc(l.tokens, EscapeToken(b));
      } else if b != ESCAPE_VAL {
        KnownSnoc(l.tokens, Plain(b));
      }
      assert KnownOnly(LexStep(l, b)) == LexStep(k, b);
      SpellStep(k, b);
    }
  }

  lemma SpellOpen(l: Lexed)
    requires l.pending
    ensures Spell(l) == Flatten(l.tokens) + [ESCAPE_VAL]
  {
  }

  /** Arbitrary input, after every single byte: the decoder's state encodes to exactly the
      bytes consumed so far, less the unrecognised pairs. */
  lemma {:induction false} EncodeDecode(bs: seq<byte>)
    ensures Encode(FeedAll(FRESH, bs)) == Cleaned(bs)
    ensures FeedAll(FRESH, bs).escaped == Lex(bs).pending
  {
    if bs != [] {
      hide Encode, SpellKnown;
      var init, b := bs[..|bs| - 1], bs[|bs| - 1];
      EncodeDecode(init);
      var d, l := FeedAll(FRESH, init), Lex(init);
      EncodeFeed(d, b);
      SpellKnownStep(l, b);
      ExtendsUnique(Cleaned(init), l.pending, b, Encode(Feed(d, b)), SpellKnown(LexStep(l, b)));
    }
  }

  ghost predicate NoUnknown(ts: seq<Token>) {
    forall t | t in ts :: !t.Unknown?
  }

  lemma {:induction false} KnownLength(ts: seq<Token>)
    ensures |Flatten(Known(ts))| <= |Flatten(ts)|
    ensures NoUnknown(ts) ==> Known(ts) == ts
    ensures !NoUnknown(ts) ==> |Flatten(Known(ts))| < |Flatten(ts)|
  {
    if ts != [] {
      hide Flatten, Known;
      var init, last := ts[..|ts| - 1], ts[|ts| - 1];
      Unsnoc(ts);
      KnownLength(init);
      KnownSnoc(init, last);
      FlattenSnoc(init, last);
      FlattenSnoc(Known(init), last);
    }
  }

  /** Re-encoding reproduces the stream byte for byte exactly when it has no unrecognised
      escape. */
  lemma ReencodesExactly(bs: seq<byte>)
    ensures Encode(FeedAll(FRESH, bs)) == bs <==> NoUnknown(Lex(bs).tokens)
  {
    EncodeDecode(bs);
    LexSpells(bs);
    KnownLength(Lex(bs).tokens);
  }

  // ----- Byte accounting -----

  datatype Tally = Tally(plain: nat, literal: nat, ends: nat, unknown: nat) {
    function Plus(t: Token): Tally {
      match t
      case Plain(_) => this.(plain := plain + 1)
      case Literal => this.(literal := literal + 1)
      case End => this.(ends := ends + 1)
      case Unknown(_) => this.(unknown := unknown + 1)
    }
  }

  function Count(ts: seq<Token>): Tally {
    if ts == [] then Tally(0, 0, 0, 0) else Count(ts[..|ts| - 1]).Plus(ts[|ts| - 1])
  }

  lemma CountSnoc(ts: seq<Token>, t: Token)
    ensures Count(ts + [t]) == Count(ts).Plus(t)
  {
    TakeSnoc(ts, t);
  }

  function TotalLength(ps: seq<Payload>): nat {
    if ps == [] then 0 else TotalLength(ps[..|ps| - 1]) + |ps[|ps| - 1]|
  }

  lemma TotalLengthSnoc(ps: seq<Payload>, p: Payload)
    ensures TotalLength(ps + [p]) == TotalLength(ps) + |p|
  {
    TakeSnoc(ps, p);
  }

  /** The tokens a decoder sees: an escape already open belongs to the first of them. */
  function Seen(d: Decoder, bs: seq<byte>): Lexed {
    Lex(Pending(d.escaped) + bs)
  }

  /** The books balance between a start state, the number of bytes consumed since, the
      tokens seen and the state reached. */
  ghost predicate Balanced(d: Decoder, consumed: nat, l: Lexed, e: Decoder) {
    var c := Count(l.tokens);
    && consumed + |Pending(d.escaped)|
       == c.plain + 2 * c.literal + 2 * c.ends + 2 * c.unknown + |Pending(e.escaped)|
    && |e.delivered| == |d.delivered| + c.ends
    && TotalLength(e.delivered) + |e.partial|
       == TotalLength(d.delivered) + |d.partial| + c.plain + c.literal
    && e.escaped == l.pending
  }

  lemma BalancedStep(d: Decoder, n: nat, l: Lexed, e: Decoder, b: byte)
    requires Balanced(d, n, l, e)
    ensures Balanced(d, n + 1, LexStep(l, b), Feed(e, b))
  {
    hide Count, TotalLength;
    CountSnoc(l.tokens, if l.pending then EscapeToken(b) else Plain(b));
    TotalLengthSnoc(e.delivered, e.partial);
  }

  /** From any state, on any input: every byte consumed is accounted for, one message is
      delivered per end marker, and payload bytes come only from plain bytes and literals. */
  lemma {:induction false} ByteAccounting(d: Decoder, bs: seq<byte>)
    ensures Balanced(d, |bs|, Seen(d, bs), FeedAll(d, bs))
  {
    if bs == [] {
      assert Pending(d.escaped) + bs == Pending(d.escaped);
      LexPending(d.escaped);
    } else {
      hide Balanced, Lex, LexStep, Feed;
      var init, last := bs[..|bs| - 1], bs[|bs| - 1];
      Unsnoc(bs);
      ByteAccounting(d, init);
      Assoc(Pending(d.escaped), init, [last]);
      LexSnoc(Pending(d.escaped) + init, last);
      BalancedStep(d, |init|, Seen(d, init), FeedAll(d, init), last);
    }
  }

  lemma LexPending(escaped: bool)
    ensures Lex(Pending(escaped)) == Lexed([], escaped)
  {
    if escaped {
      assert [ESCAPE_VAL] == [] + [ESCAPE_VAL];
      LexSnoc([], ESCAPE_VAL);
    }
  }

  // ----- Self-synchronisation -----

  /** How many 255s the payload starts with. */
  function LeadingEscapes(p: Payload): (n: nat)
    ensures n <= |p|
    ensures forall i | 0 <= i < n :: p[i] == ESCAPE_VAL
    ensures n < |p| ==> p[n] != ESCAPE_VAL
  {
    if p == [] || p[0] != ESCAPE_VAL then 0 else 1 + LeadingEscapes(p[1..])
  }

  /** The state after the whole frame of `p`, whatever the state before it. An open escape
      shifts the pairing of the payload's leading 255s by one byte: the first byte after them
      is taken for the second half of an escape pair. */
  function AfterFrame(d: Decoder, p: Payload): Decoder {
    var k := LeadingEscapes(p);
    if !d.escaped then
      Decoder(d.delivered + [d.partial + p], [], false)
    else if k == |p| then
      Decoder(d.delivered, d.partial + p + [ESCAPE_VAL, MSG_END_ESCAPED], false)
    else if p[k] == MSG_END_ESCAPED then
      Decoder(d.delivered + [d.partial + p[..k], p[k + 1..]], [], false)
    else
      Decoder(d.delivered + [d.partial + p[..k] + p[k + 1..]], [], false)
  }

  lemma {:induction false} FeedEscapedRun(d: Decoder, p: Payload)
    requires d.escaped
    requires forall i | 0 <= i < |p| :: p[i] == ESCAPE_VAL
    ensures FeedAll(d, Escape(p)) == d.(partial := d.partial + p)
  {
    if p == [] {
      assert d.partial + p == d.partial;
    } else {
      hide FeedAll, Escape;
      var init := p[..|p| - 1];
      Unsnoc(p);
      FeedEscapedRun(d, init);
      EscapeSnoc(init, ESCAPE_VAL);
      FeedAllAppend(d, Escape(init), [ESCAPE_VAL, MSG_ORIGI_CHAR]);
      FeedAllTwo(d.(partial := d.partial + init), ESCAPE_VAL, MSG_ORIGI_CHAR);
      Assoc(d.partial, init, [ESCAPE_VAL]);
    }
  }

  lemma SplitFrame(p: Payload, k: nat)
    requires k < |p| && p[k] != ESCAPE_VAL
    ensures Frame(p) == Escape(p[..k]) + ([p[k]] + Frame(p[k + 1..]))
  {
    hide Escape;
    var run, b, tail := p[..k], [p[k]], p[k + 1..];
    assert p == run + (b + tail);
    EscapeAppend(run, b + tail);
    EscapeAppend(b, tail);
    EscapeOne(p[k]);
    var marker := [ESCAPE_VAL, MSG_END_ESCAPED];
    Assoc(Escape(run), b + Escape(tail), marker);
    Assoc(b, Escape(tail), marker);
  }

  lemma FrameFromAnyState(d: Decoder, p: Payload)
    ensures FeedAll(d, Frame(p)) == AfterFrame(d, p)
  {
    hide FeedAll, Escape;
    var k := LeadingEscapes(p);
    if !d.escaped {
      FeedFrame(d, p);
    } else if k == |p| {
      FeedEscapedRun(d, p);
      FeedAllAppend(d, Escape(p), [ESCAPE_VAL, MSG_END_ESCAPED]);
      FeedAllTwo(d.(partial := d.partial + p), ESCAPE_VAL, MSG_END_ESCAPED);
      Assoc(d.partial + p, [ESCAPE_VAL], [MSG_END_ESCAPED]);
      assert [ESCAPE_VAL] + [MSG_END_ESCAPED] == [ESCAPE_VAL, MSG_END_ESCAPED];
    } else {
      SplitFrame(p, k);
      var run, rest := d.(partial := d.partial + p[..k]), p[k + 1..];
      FeedEscapedRun(d, p[..k]);
      FeedAllAppend(d, Escape(p[..k]), [p[k]] + Frame(rest));
      FeedAllAppend(run, [p[k]], Frame(rest));
      FeedAllOne(run, p[k]);
      FeedFrame(Feed(run, p[k]), rest);
      if p[k] == MSG_END_ESCAPED {
        assert [] + rest == rest;
        assert d.delivered + [run.partial] + [rest] == d.delivered + [run.partial, rest];
      }
    }
  }

  /** The only first frame that swallows the one after it. */
  ghost predicate Swallows(d: Decoder, p: Payload) {
    d.escaped && LeadingEscapes(p) == |p|
  }

  /** The only first frame that is delivered in two pieces. */
  ghost predicate Splits(d: Decoder, p: Payload) {
    d.escaped && LeadingEscapes(p) < |p| && p[LeadingEscapes(p)] == MSG_END_ESCAPED
  }

  /** Two frames bring the decoder back in step from any state. */
  lemma FramesFromAnyState(d: Decoder, p: Payload, q: Payload, rest: seq<Payload>)
    ensures FeedAll(d, Frames([p] + ([q] + rest)))
         == var d1 := AfterFrame(d, p);
            Decoder(d1.delivered + [d1.partial + q] + rest, [], false)
  {
    hide FeedAll, Frames, Frame;
    FramesAppend([p], [q] + rest);
    FramesAppend([q], rest);
    FramesOne(p);
    FramesOne(q);
    var d1 := AfterFrame(d, p);
    FrameFromAnyState(d, p);
    FeedFrame(d1, q);
    FeedFrames(Decoder(d1.delivered + [d1.partial + q], [], false), rest);
    FeedAllAppend(d, Frame(p), Frame(q) + Frames(rest));
    FeedAllAppend(d1, Frame(q), Frames(rest));
  }

  /** What `ps` makes a decoder in state `d` deliver, as new messages. */
  function Output(d: Decoder, ps: seq<Payload>): seq<Payload> {
    DeliveredGrows(d, Frames(ps));
    FeedAll(d, Frames(ps)).delivered[|d.delivered|..]
  }

  /** What a first frame alone adds to the delivered messages. */
  function Head(d: Decoder, p: Payload): (head: seq<Payload>)
    ensures AfterFrame(d, p).delivered == d.delivered + head
    ensures |head| == if Splits(d, p) then 2 else if Swallows(d, p) then 0 else 1
  {
    AfterFrame(d, p).delivered[|d.delivered|..]
  }

  lemma {:induction false} OutputIs(d: Decoder, ps: seq<Payload>)
    requires |ps| >= 2
    ensures FeedAll(d, Frames(ps)) == Decoder(d.delivered + Output(d, ps), [], false)
    ensures Output(d, ps) == Head(d, ps[0]) + ([AfterFrame(d, ps[0]).partial + ps[1]] + ps[2..])
  {
    var p, q, rest := ps[0], ps[1], ps[2..];
    var head, second := Head(d, p), [AfterFrame(d, p).partial + q];
    assert ps == [p] + ([q] + rest);
    FramesFromAnyState(d, p, q, rest);
    hide FeedAll, Frames, AfterFrame;
    DeliveredGrows(d, Frames(ps));
    Assoc(d.delivered + head, second, rest);
    Assoc(d.delivered, head, second + rest);
    assert (d.delivered + (head + (second + rest)))[|d.delivered|..] == head + (second + rest);
  }

  lemma Suffixes<T>(head: seq<T>, x: T, rest: seq<T>)
    ensures (head + ([x] + rest))[|head|..] == [x] + rest
    ensures (head + ([x] + rest))[|head| + 1..] == rest
  {
  }

  lemma FirstDiffers<T>(x: T, y: T, rest: seq<T>)
    ensures [x] + rest == [y] + rest <==> x == y
  {
    assert ([x] + rest)[0] == x && ([y] + rest)[0] == y;
  }

  /** Whatever state the decoder is in, after two frames it is in step: idle, and everything
      from the third message on is delivered exactly. The second message survives exactly
      when the first frame is not swallowed, and the number of messages delivered is off by
      at most one, in one way each for the two bad first frames. */
  lemma {:induction false} SelfSynchronisation(d: Decoder, ps: seq<Payload>)
    requires |ps| >= 2
    ensures FeedAll(d, Frames(ps)) == Decoder(d.delivered + Output(d, ps), [], false)
    ensures |Output(d, ps)|
         == |ps| + (if Splits(d, ps[0]) then 1 else if Swallows(d, ps[0]) then -1 else 0)
    ensures ps[2..] == Output(d, ps)[|Output(d, ps)| - |ps| + 2..]
    ensures ps[1..] == Output(d, ps)[|Output(d, ps)| - |ps| + 1..] <==> !Swallows(d, ps[0])
  {
    hide FeedAll, Frames, Output, Head, Splits;
    OutputIs(d, ps);
    var p, q, rest := ps[0], ps[1], ps[2..];
    var merged := AfterFrame(d, p).partial + q;
    Suffixes(Head(d, p), merged, rest);
    assert ps[1..] == [q] + rest;
    if Swallows(d, p) {
      assert |merged| > |q|;
    } else {
      assert [] + q == q;
    }
    FirstDiffers(merged, q, rest);
  }

  /** A first frame whose payload has a 0 after its leading 255s is delivered as two
      messages: an open escape and the payload [0] are enough. */
  lemma OneFrameCanDeliverTwo(d: Decoder, q: Payload)
    requires d.escaped
    ensures FeedAll(d, Frames([[MSG_END_ESCAPED], q])).delivered
         == d.delivered + [d.partial, [], q]
  {
    var zero: Payload := [MSG_END_ESCAPED];
    assert [zero, q] == [zero] + ([q] + []);
    FramesFromAnyState(d, zero, q, []);
    hide FeedAll, Frames;
    assert d.partial + zero[..0] == d.partial && zero[1..] == [] && [] + q == q;
    assert d.delivered + [d.partial, []] + [q] + [] == d.delivered + [d.partial, [], q];
  }
}

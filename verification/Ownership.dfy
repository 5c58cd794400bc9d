/** Every holder of a message buffer in one process: connections assembling messages,
    consumers keeping delivered ones, writers and sends in flight, all drawing on one pool,
    with their steps interleaved in any order. A step is what the code does under one lock or
    on a buffer only it references; a message callback is the span between the step that
    delivers and the step that resumes, and anything may happen within it. */
module Ownership {
  import opened Wire
  import opened Sequences
  import opened Framing
  import Pool

  type Id = nat

  /** The shared pointers: copies of one pointer differ in `copy`. */
  datatype Handle =
    | Receiving(con: nat)
    | Delivered(con: nat, index: nat, copy: nat)
    | Writing(w: nat)
    | InFlight(w: nat, copy: nat)
  {
    function Role(): Role {
      match this
      case Receiving(c) => Assembly(c)
      case Delivered(c, i, _) => Message(c, i)
      case Writing(w) => Outgoing(w)
      case InFlight(w, _) => Outgoing(w)
    }
  }

  datatype Role = Assembly(con: nat) | Message(con: nat, index: nat) | Outgoing(w: nat)

  datatype Phase = Reading | InCallback | Destroyed

  /** A connection's decoder fields, and as history the bytes it has consumed and the number
      of messages it has handed out. */
  datatype Con = Con(nextIsEscape: bool, phase: Phase, input: seq<byte>, handedOut: nat)

  /** `written` is the history of what each writer has pushed. */
  datatype State = State(
    pool: Pool.PoolState<Id>,
    refs: map<Handle, Id>,
    cons: map<nat, Con>,
    written: map<nat, seq<byte>>)

  const INITIAL: State := State(Pool.Empty(), map[], map[], map[])

  datatype Action =
    | Connect(c: nat, id: Id)
    | Byte(c: nat, b: byte)
    | Resume(c: nat, id: Id)
    | Destroy(c: nat)
    | Copy(from: Handle, to: Handle)
    | Drop(h: Handle)
    | OpenWriter(w: nat, id: Id)
    | Push(w: nat, b: byte)

  function Content(s: State, id: Id): seq<byte> {
    if id in s.pool.bytes then s.pool.bytes[id] else []
  }

  /** `h` goes away; the deleter runs if it was the last reference. */
  function Unref(s: State, h: Handle): State
    requires h in s.refs
  {
    var id, refs := s.refs[h], s.refs - {h};
    if id in refs.Values || id !in s.pool.live then s.(refs := refs)
    else s.(refs := refs, pool := Pool.RunDeleter(s.pool, id))
  }

  /** A new reference `h` to the buffer `id` the pool offers. */
  function Acquire(s: State, h: Handle, id: Id): State {
    s.(pool := Pool.GetMessage(s.pool, id), refs := s.refs[h := id])
  }

  /** The same, with the buffer resized to nothing afterwards. */
  function AcquireEmptied(s: State, h: Handle, id: Id): State {
    var t := Acquire(s, h, id);
    t.(pool := t.pool.Write(id, []))
  }

  function Append(s: State, id: Id, b: byte): State {
    s.(pool := s.pool.Write(id, Content(s, id) + [b]))
  }

  function SetCon(s: State, c: nat, con: Con): State {
    s.(cons := s.cons[c := con])
  }

  function ConsumeByte(s: State, c: nat, b: byte): State
    requires c in s.cons && Receiving(c) in s.refs
  {
    var id := s.refs[Receiving(c)];
    var con := s.cons[c].(input := s.cons[c].input + [b]);
    if b != ESCAPE_VAL && !con.nextIsEscape then
      SetCon(Append(s, id, b), c, con)
    else if !con.nextIsEscape then
      SetCon(s, c, con.(nextIsEscape := true))
    else if b == MSG_ORIGI_CHAR then
      SetCon(Append(s, id, ESCAPE_VAL), c, con.(nextIsEscape := false))
    else if b == MSG_END_ESCAPED then
      var moved := (s.refs - {Receiving(c)})[Delivered(c, con.handedOut, 0) := id];
      SetCon(s.(refs := moved), c, con.(phase := InCallback, handedOut := con.handedOut + 1))
    else
      SetCon(s, c, con.(nextIsEscape := false))
  }

  ghost predicate Next(s: State, a: Action, t: State) {
    match a
    case Connect(c, id) =>
      && c !in s.cons && Pool.Offers(s.pool, id)
      && t == SetCon(AcquireEmptied(s, Receiving(c), id), c, Con(false, Reading, [], 0))
    case Byte(c, b) =>
      && c in s.cons && s.cons[c].phase.Reading? && Receiving(c) in s.refs
      && t == ConsumeByte(s, c, b)
    case Resume(c, id) =>
      && c in s.cons && s.cons[c].phase.InCallback? && Pool.Offers(s.pool, id)
      && t == SetCon(AcquireEmptied(s, Receiving(c), id), c,
                     s.cons[c].(nextIsEscape := false, phase := Reading))
    case Destroy(c) =>
      && c in s.cons && s.cons[c].phase.Reading? && Receiving(c) in s.refs
      && t == SetCon(Unref(s, Receiving(c)), c, s.cons[c].(phase := Destroyed))
    case Copy(from, to) =>
      && from in s.refs && to !in s.refs
      && (to.Delivered? || to.InFlight?) && to.Role() == from.Role()
      && t == s.(refs := s.refs[to := s.refs[from]])
    case Drop(h) =>
      && h in s.refs && !h.Receiving?
      && t == Unref(s, h)
    case OpenWriter(w, id) =>
      && w !in s.written && Pool.Offers(s.pool, id)
      && t == Acquire(s, Writing(w), id).(written := s.written[w := []])
    case Push(w, b) =>
      && w in s.written && Writing(w) in s.refs
      && t == Append(s, s.refs[Writing(w)], b).(written := s.written[w := s.written[w] + [b]])
  }

  // ----- The invariant -----

  function Decoded(con: Con): Decoder {
    FeedAll(FRESH, con.input)
  }

  /** The role exists, so `Meaning` is defined. */
  ghost predicate Exists(s: State, r: Role) {
    match r
    case Assembly(c) => c in s.cons && s.cons[c].phase.Reading?
    case Message(c, i) => c in s.cons && i < |Decoded(s.cons[c]).delivered|
    case Outgoing(w) => w in s.written
  }

  /** What a buffer in this role must hold, said without reference to any buffer. */
  ghost function Meaning(s: State, r: Role): seq<byte>
    requires Exists(s, r)
  {
    match r
    case Assembly(c) => Decoded(s.cons[c]).partial
    case Message(c, i) => Decoded(s.cons[c]).delivered[i]
    case Outgoing(w) => s.written[w]
  }

  ghost predicate HandleOk(s: State, h: Handle)
    requires h in s.refs
  {
    Exists(s, h.Role()) && Content(s, s.refs[h]) == Meaning(s, h.Role())
  }

  ghost predicate ConOk(s: State, c: nat)
    requires c in s.cons
  {
    var con, d := s.cons[c], Decoded(s.cons[c]);
    && con.handedOut == |d.delivered|
    && (con.phase.Reading? ==> Receiving(c) in s.refs && con.nextIsEscape == d.escaped)
    && (con.phase.InCallback? ==> d.partial == [] && !d.escaped)
  }

  /** Two pointers share a buffer exactly when they are pointers to the same message. */
  ghost predicate Unshared(s: State) {
    forall h, k | h in s.refs && k in s.refs :: s.refs[h] == s.refs[k] <==> h.Role() == k.Role()
  }

  /** No dangling and no leaked buffer: those in use are exactly those referenced. */
  ghost predicate PoolOk(s: State) {
    Pool.Inv(s.pool) && s.refs.Values == s.pool.live.Keys
  }

  ghost predicate HandlesOk(s: State) {
    forall h | h in s.refs :: HandleOk(s, h)
  }

  ghost predicate ConsOk(s: State) {
    forall c | c in s.cons :: ConOk(s, c)
  }

  ghost predicate Inv(s: State) {
    PoolOk(s) && Unshared(s) && HandlesOk(s) && ConsOk(s)
  }

  // ----- References and buffers under each operation -----

  lemma ValuesAdd(refs: map<Handle, Id>, h: Handle, id: Id)
    requires h !in refs
    ensures refs[h := id].Values == refs.Values + {id}
  {
    var more := refs[h := id];
    assert more[h] == id;
    forall x | x in refs.Values ensures x in more.Values {
      var k :| k in refs && refs[k] == x;
      assert more[k] == x;
    }
  }

  lemma ValuesRemove(refs: map<Handle, Id>, h: Handle)
    requires h in refs
    ensures (refs - {h}).Values + {refs[h]} == refs.Values
  {
    var less := refs - {h};
    forall x | x in refs.Values ensures x in less.Values + {refs[h]} {
      var k :| k in refs && refs[k] == x;
      assert k == h || less[k] == x;
    }
  }

  lemma AcquirePoolOk(s: State, h: Handle, id: Id)
    requires PoolOk(s) && h !in s.refs && Pool.Offers(s.pool, id)
    ensures PoolOk(Acquire(s, h, id)) && id !in s.refs.Values
    ensures Content(Acquire(s, h, id), id) == []
  {
    Pool.GetKeepsInv(s.pool, id, Pool.GetMessage(s.pool, id));
    Pool.GetFrame(s.pool, id, Pool.GetMessage(s.pool, id));
    ValuesAdd(s.refs, h, id);
  }

  lemma AcquireContent(s: State, h: Handle, id: Id)
    requires PoolOk(s) && Pool.Offers(s.pool, id)
    ensures forall k | k in s.refs :: Content(Acquire(s, h, id), s.refs[k]) == Content(s, s.refs[k])
  {
    Pool.GetFrame(s.pool, id, Pool.GetMessage(s.pool, id));
    forall k | k in s.refs ensures s.refs[k] in s.pool.live {
      assert s.refs[k] in s.refs.Values;
    }
  }

  lemma WritePoolOk(s: State, t: State, h: Handle, content: seq<byte>)
    requires PoolOk(s) && h in s.refs
    requires t.refs == s.refs && t.pool == s.pool.Write(s.refs[h], content)
    ensures PoolOk(t)
  {
    hide Pool.Inv;
    assert s.refs[h] in s.refs.Values;
    Pool.WriteKeepsInv(s.pool, s.refs[h], content);
  }

  lemma UnrefPoolOk(s: State, h: Handle)
    requires PoolOk(s) && h in s.refs
    ensures PoolOk(Unref(s, h))
  {
    hide Pool.Inv;
    ValuesRemove(s.refs, h);
    assert s.refs[h] in s.refs.Values;
    Pool.RunDeleterKeepsInv(s.pool, s.refs[h]);
  }

  lemma UnrefContent(s: State, h: Handle)
    requires PoolOk(s) && h in s.refs
    ensures var t := Unref(s, h);
            forall k | k in t.refs :: Content(t, t.refs[k]) == Content(s, s.refs[k])
  {
    var id, t := s.refs[h], Unref(s, h);
    assert id in s.refs.Values;
    Pool.RunDeleterKeepsInv(s.pool, id);
    if t.pool != s.pool {
      forall k | k in t.refs
        ensures t.refs[k] in s.pool.live && t.refs[k] in t.pool.live && t.refs[k] != id
      {
        assert t.refs[k] in (s.refs - {h}).Values;
        assert s.refs[k] in s.refs.Values;
      }
      assert Pool.Placed(s.pool) && Pool.Placed(t.pool);
    }
  }

  lemma UnrefUnshared(s: State, h: Handle)
    requires Unshared(s) && h in s.refs
    ensures Unshared(Unref(s, h)) && Unref(s, h).refs == s.refs - {h}
  {
  }

  lemma UnshareOne(s: State, t: State, h: Handle, id: Id)
    requires Unshared(s) && id !in s.refs.Values && t.refs == s.refs[h := id]
    requires forall k | k in s.refs :: k.Role() != h.Role()
    ensures Unshared(t)
  {
    forall k | k in s.refs ensures s.refs[k] != id {
      assert s.refs[k] in s.refs.Values;
    }
  }

  // ----- Meanings -----

  lemma DecodedSnoc(con: Con, b: byte)
    ensures FeedAll(FRESH, con.input + [b]) == Feed(Decoded(con), b)
  {
    assert (con.input + [b])[..|con.input|] == con.input;
  }

  /** Handles exist only for roles that do. */
  lemma NoHandle(s: State, r: Role)
    requires HandlesOk(s) && !Exists(s, r)
    ensures forall k | k in s.refs :: k.Role() != r
  {
    forall k | k in s.refs ensures k.Role() != r {
      assert HandleOk(s, k);
    }
  }

  ghost predicate RoleKept(s: State, t: State, r: Role) {
    Exists(s, r) ==> Exists(t, r) && Meaning(t, r) == Meaning(s, r)
  }

  /** Only connection `c` moved, and `delivered` only grew. */
  ghost predicate OnlyCon(s: State, t: State, c: nat) {
    && c in s.cons && c in t.cons && t.cons == s.cons[c := t.cons[c]]
    && t.written == s.written
    && Decoded(s.cons[c]).delivered <= Decoded(t.cons[c]).delivered
  }

  lemma OtherRolesKept(s: State, t: State, c: nat, r: Role)
    requires OnlyCon(s, t, c) && r != Assembly(c)
    ensures RoleKept(s, t, r)
  {
  }

  lemma FeedDelivered(d: Decoder, b: byte)
    ensures d.delivered <= Feed(d, b).delivered
  {
  }

  lemma ConsKept(s: State, t: State, c: nat)
    requires ConsOk(s) && c in t.cons && t.cons == s.cons[c := t.cons[c]] && ConOk(t, c)
    requires forall x | x in s.cons && x != c && Receiving(x) in s.refs :: Receiving(x) in t.refs
    ensures ConsOk(t)
  {
    forall x | x in t.cons ensures ConOk(t, x) {
      if x != c { assert ConOk(s, x); }
    }
  }

  lemma ConsUnmoved(s: State, t: State)
    requires ConsOk(s) && t.cons == s.cons
    requires forall x | x in s.cons && Receiving(x) in s.refs :: Receiving(x) in t.refs
    ensures ConsOk(t)
  {
    forall x | x in t.cons ensures ConOk(t, x) {
      assert ConOk(s, x);
    }
  }

  /** Handles other than those of `c`'s assembly and `extra` need only keep their contents. */
  lemma HandlesFollow(s: State, t: State, c: nat, extra: Handle)
    requires HandlesOk(s) && OnlyCon(s, t, c)
    requires forall k | k in t.refs && k != Receiving(c) && k != extra ::
               k in s.refs && Content(t, t.refs[k]) == Content(s, s.refs[k])
    requires forall k | k in t.refs && (k == Receiving(c) || k == extra) :: HandleOk(t, k)
    ensures HandlesOk(t)
  {
    forall k | k in t.refs ensures HandleOk(t, k) {
      if k != Receiving(c) && k != extra {
        assert HandleOk(s, k);
        OtherRolesKept(s, t, c, k.Role());
      }
    }
  }

  // ----- Every step keeps the invariant -----

  /** What an acquisition keeps, before the step records anything else. */
  lemma AcquireKeeps(s: State, h: Handle, id: Id)
    requires PoolOk(s) && Unshared(s) && HandlesOk(s) && Pool.Offers(s.pool, id)
    requires !Exists(s, h.Role())
    ensures var t := Acquire(s, h, id);
            && PoolOk(t) && Unshared(t) && Content(t, id) == [] && h !in s.refs
            && id !in s.refs.Values
            && HandlesCarried(s, t)
  {
    hide PoolOk, HandlesOk, Exists, Content, Pool.GetMessage;
    NoHandle(s, h.Role());
    AcquirePoolOk(s, h, id);
    UnshareOne(s, Acquire(s, h, id), h, id);
    AcquireContent(s, h, id);
  }

  lemma AcquireEmptiedKeeps(s: State, h: Handle, id: Id)
    requires PoolOk(s) && Unshared(s) && HandlesOk(s) && Pool.Offers(s.pool, id)
    requires !Exists(s, h.Role())
    ensures var t := AcquireEmptied(s, h, id);
            && PoolOk(t) && Unshared(t) && Content(t, id) == [] && h !in s.refs
            && HandlesCarried(s, t)
  {
    hide Pool.Inv;
    AcquireKeeps(s, h, id);
    WritePoolOk(Acquire(s, h, id), AcquireEmptied(s, h, id), h, []);
    forall k | k in s.refs ensures s.refs[k] != id {
      assert s.refs[k] in s.refs.Values;
    }
  }

  lemma PoolUnmoved(s: State, t: State)
    requires t.pool == s.pool && t.refs == s.refs
    ensures PoolOk(s) ==> PoolOk(t)
    ensures Unshared(s) ==> Unshared(t)
  {
  }

  /** Every handle of `s` is one of `t`, to a buffer that holds what it held. */
  ghost predicate HandlesCarried(s: State, t: State) {
    forall k | k in s.refs ::
      k in t.refs && t.refs[k] == s.refs[k] && Content(t, t.refs[k]) == Content(s, s.refs[k])
  }

  lemma ConnectFollows(s: State, c: nat, id: Id, t: State)
    requires HandlesOk(s) && ConsOk(s) && HandlesCarried(s, t)
    requires c !in s.cons && t.cons == s.cons[c := Con(false, Reading, [], 0)]
    requires t.written == s.written && t.refs == s.refs[Receiving(c) := id] && Content(t, id) == []
    ensures HandlesOk(t) && ConsOk(t)
  {
    ConsKept(s, t, c);
    forall k | k in t.refs ensures HandleOk(t, k) {
      if k != Receiving(c) {
        assert HandleOk(s, k) && RoleKept(s, t, k.Role());
      }
    }
  }

  lemma ConnectKeeps(s: State, c: nat, id: Id, t: State)
    requires Inv(s) && Next(s, Connect(c, id), t)
    ensures Inv(t)
  {
    hide Pool.Inv;
    AcquireEmptiedKeeps(s, Receiving(c), id);
    PoolUnmoved(AcquireEmptied(s, Receiving(c), id), t);
    ConnectFollows(s, c, id, t);
  }

  lemma ResumeFollows(s: State, c: nat, id: Id, t: State)
    requires HandlesOk(s) && ConsOk(s) && HandlesCarried(s, t)
    requires c in s.cons && s.cons[c].phase.InCallback?
    requires t.cons == s.cons[c := s.cons[c].(nextIsEscape := false, phase := Reading)]
    requires t.written == s.written && t.refs == s.refs[Receiving(c) := id] && Content(t, id) == []
    ensures HandlesOk(t) && ConsOk(t)
  {
    assert ConOk(s, c);
    ConsKept(s, t, c);
    assert HandleOk(t, Receiving(c));
    HandlesFollow(s, t, c, Receiving(c));
  }

  lemma ResumeKeeps(s: State, c: nat, id: Id, t: State)
    requires Inv(s) && Next(s, Resume(c, id), t)
    ensures Inv(t)
  {
    hide Pool.Inv;
    AcquireEmptiedKeeps(s, Receiving(c), id);
    PoolUnmoved(AcquireEmptied(s, Receiving(c), id), t);
    ResumeFollows(s, c, id, t);
  }

  lemma OpenWriterFollows(s: State, w: nat, id: Id, t: State)
    requires HandlesOk(s) && ConsOk(s) && HandlesCarried(s, t)
    requires w !in s.written && t.written == s.written[w := []]
    requires t.cons == s.cons && t.refs == s.refs[Writing(w) := id] && Content(t, id) == []
    ensures HandlesOk(t) && ConsOk(t)
  {
    ConsUnmoved(s, t);
    forall k | k in t.refs ensures HandleOk(t, k) {
      if k != Writing(w) {
        assert HandleOk(s, k) && RoleKept(s, t, k.Role());
      }
    }
  }

  lemma OpenWriterKeeps(s: State, w: nat, id: Id, t: State)
    requires Inv(s) && Next(s, OpenWriter(w, id), t)
    ensures Inv(t)
  {
    hide Pool.Inv;
    AcquireKeeps(s, Writing(w), id);
    PoolUnmoved(Acquire(s, Writing(w), id), t);
    OpenWriterFollows(s, w, id, t);
  }

  lemma CopyShares(s: State, from: Handle, to: Handle)
    requires PoolOk(s) && Unshared(s) && from in s.refs && to !in s.refs && to.Role() == from.Role()
    ensures var t := s.(refs := s.refs[to := s.refs[from]]); PoolOk(t) && Unshared(t)
  {
    hide Pool.Inv;
    ValuesAdd(s.refs, to, s.refs[from]);
    assert s.refs[from] in s.refs.Values;
    assert s.refs.Values + {s.refs[from]} == s.refs.Values;
  }

  lemma CopyKeeps(s: State, from: Handle, to: Handle, t: State)
    requires Inv(s) && Next(s, Copy(from, to), t)
    ensures Inv(t)
  {
    hide PoolOk, Unshared, FeedAll, Unref, Acquire, AcquireEmptied;
    CopyShares(s, from, to);
    assert HandleOk(s, from);
    forall k | k in t.refs ensures HandleOk(t, k) {
      if k != to { assert HandleOk(s, k) && RoleKept(s, t, k.Role()); }
    }
    ConsUnmoved(s, t);
  }

  lemma DropFollows(s: State, t: State, h: Handle)
    requires HandlesOk(s) && ConsOk(s) && t.cons == s.cons && t.written == s.written
    requires h in s.refs && !h.Receiving? && t.refs == s.refs - {h}
    requires forall k | k in t.refs :: Content(t, t.refs[k]) == Content(s, s.refs[k])
    ensures HandlesOk(t) && ConsOk(t)
  {
    forall k | k in t.refs ensures HandleOk(t, k) {
      assert HandleOk(s, k) && RoleKept(s, t, k.Role());
    }
    ConsUnmoved(s, t);
  }

  lemma DropKeeps(s: State, h: Handle, t: State)
    requires Inv(s) && Next(s, Drop(h), t)
    ensures Inv(t)
  {
    hide PoolOk, Unshared, HandlesOk, ConsOk, Unref;
    UnrefKeeps(s, h);
    DropFollows(s, t, h);
  }

  lemma DestroyFollows(s: State, c: nat, t: State)
    requires HandlesOk(s) && ConsOk(s) && c in s.cons
    requires t.cons == s.cons[c := s.cons[c].(phase := Destroyed)] && t.written == s.written
    requires t.refs == s.refs - {Receiving(c)}
    requires forall k | k in t.refs :: Content(t, t.refs[k]) == Content(s, s.refs[k])
    ensures HandlesOk(t) && ConsOk(t)
  {
    assert ConOk(s, c);
    ConsKept(s, t, c);
    HandlesFollow(s, t, c, Receiving(c));
  }

  lemma UnrefKeeps(s: State, h: Handle)
    requires PoolOk(s) && Unshared(s) && h in s.refs
    ensures var t := Unref(s, h);
            && PoolOk(t) && Unshared(t)
            && t.refs == s.refs - {h} && t.cons == s.cons && t.written == s.written
            && forall k | k in t.refs :: Content(t, t.refs[k]) == Content(s, s.refs[k])
  {
    hide Pool.Inv;
    UnrefPoolOk(s, h);
    UnrefContent(s, h);
    UnrefUnshared(s, h);
  }

  lemma DestroyKeeps(s: State, c: nat, t: State)
    requires Inv(s) && Next(s, Destroy(c), t)
    ensures Inv(t)
  {
    hide Pool.Inv, Unref, HandlesOk, ConsOk;
    var u := Unref(s, Receiving(c));
    UnrefKeeps(s, Receiving(c));
    PoolUnmoved(u, t);
    assert forall k | k in t.refs :: Content(t, t.refs[k]) == Content(u, u.refs[k]);
    DestroyFollows(s, c, t);
  }

  lemma PushKeeps(s: State, w: nat, b: byte, t: State)
    requires Inv(s) && Next(s, Push(w, b), t)
    ensures Inv(t)
  {
    hide PoolOk, FeedAll, Unref, Acquire, AcquireEmptied;
    var h := Writing(w);
    WritePoolOk(s, t, h, Content(s, s.refs[h]) + [b]);
    UnsharedUnmoved(s, t);
    assert HandleOk(s, h);
    forall k | k in t.refs ensures HandleOk(t, k) {
      assert HandleOk(s, k);
      if k.Role() != h.Role() {
        assert s.refs[k] != s.refs[h];
        assert RoleKept(s, t, k.Role());
      }
    }
    ConsUnmoved(s, t);
  }

  /** A byte that only changes the escape flag. */
  lemma FlagKeeps(s: State, c: nat, b: byte, t: State)
    requires HandlesOk(s) && ConsOk(s) && c in s.cons && s.cons[c].phase.Reading?
    requires (b == ESCAPE_VAL) != s.cons[c].nextIsEscape && !(s.cons[c].nextIsEscape && b == MSG_END_ESCAPED)
    requires t == SetCon(s, c, s.cons[c].(input := s.cons[c].input + [b],
                                          nextIsEscape := !s.cons[c].nextIsEscape))
    ensures HandlesOk(t) && ConsOk(t)
  {
    hide FeedAll;
    assert ConOk(s, c) && HandleOk(s, Receiving(c));
    DecodedSnoc(s.cons[c], b);
    FeedDelivered(Decoded(s.cons[c]), b);
    ConsKept(s, t, c);
    HandlesFollow(s, t, c, Receiving(c));
  }

  /** A byte appended to the message being assembled, in a buffer nobody else references. */
  lemma AppendKeeps(s: State, c: nat, b: byte, t: State)
    requires HandlesOk(s) && ConsOk(s) && Unshared(s)
    requires c in s.cons && s.cons[c].phase.Reading? && Receiving(c) in s.refs
    requires (b == ESCAPE_VAL) == s.cons[c].nextIsEscape
    requires t == SetCon(Append(s, s.refs[Receiving(c)], b), c,
                         s.cons[c].(input := s.cons[c].input + [b], nextIsEscape := false))
    ensures HandlesOk(t) && ConsOk(t)
  {
    hide FeedAll;
    var h := Receiving(c);
    assert ConOk(s, c) && HandleOk(s, h);
    DecodedSnoc(s.cons[c], b);
    FeedDelivered(Decoded(s.cons[c]), b);
    ConsKept(s, t, c);
    assert HandleOk(t, h);
    forall k | k in t.refs && k != h
      ensures Content(t, t.refs[k]) == Content(s, s.refs[k])
    {
      assert k.Role() != h.Role();
    }
    HandlesFollow(s, t, c, h);
  }

  /** The connection's only reference becomes the consumer's first. */
  lemma MoveKeeps(s: State, from: Handle, to: Handle, refs: map<Handle, Id>)
    requires Unshared(s) && from in s.refs && from.Receiving?
    requires forall k | k in s.refs :: k.Role() != to.Role()
    requires refs == (s.refs - {from})[to := s.refs[from]]
    ensures refs.Values == s.refs.Values
    ensures Unshared(s.(refs := refs))
  {
    ValuesRemove(s.refs, from);
    ValuesAdd(s.refs - {from}, to, s.refs[from]);
  }

  lemma DeliverFollows(s: State, c: nat, to: Handle, t: State)
    requires HandlesOk(s) && ConsOk(s)
    requires c in s.cons && s.cons[c].phase.Reading? && s.cons[c].nextIsEscape && Receiving(c) in s.refs
    requires to == Delivered(c, s.cons[c].handedOut, 0) && to !in s.refs && t.pool == s.pool
    requires t.refs == (s.refs - {Receiving(c)})[to := s.refs[Receiving(c)]] && t.written == s.written
    requires t.cons == s.cons[c := Con(true, InCallback, s.cons[c].input + [MSG_END_ESCAPED], to.index + 1)]
    ensures HandlesOk(t) && ConsOk(t)
  {
    hide FeedAll;
    assert ConOk(s, c) && HandleOk(s, Receiving(c));
    DecodedSnoc(s.cons[c], MSG_END_ESCAPED);
    ConsKept(s, t, c);
    assert HandleOk(t, to);
    HandlesFollow(s, t, c, to);
  }

  lemma DeliverKeeps(s: State, c: nat, b: byte, t: State)
    requires Unshared(s) && HandlesOk(s) && ConsOk(s)
    requires c in s.cons && s.cons[c].phase.Reading? && Receiving(c) in s.refs
    requires s.cons[c].nextIsEscape && b == MSG_END_ESCAPED && t == ConsumeByte(s, c, b)
    ensures t.pool == s.pool && t.refs.Values == s.refs.Values
    ensures Unshared(t) && HandlesOk(t) && ConsOk(t)
  {
    hide HandlesOk, FeedAll;
    var to := Delivered(c, s.cons[c].handedOut, 0);
    assert ConOk(s, c);
    NoHandle(s, to.Role());
    MoveKeeps(s, Receiving(c), to, t.refs);
    UnsharedUnmoved(s.(refs := t.refs), t);
    DeliverFollows(s, c, to, t);
  }

  lemma UnsharedUnmoved(s: State, t: State)
    requires Unshared(s) && t.refs == s.refs
    ensures Unshared(t)
  {
  }

  lemma ByteKeeps(s: State, c: nat, b: byte, t: State)
    requires Inv(s) && Next(s, Byte(c, b), t)
    ensures Inv(t)
  {
    hide Pool.Inv, Unshared, HandlesOk, ConsOk;
    var h := Receiving(c);
    if s.cons[c].nextIsEscape && b == MSG_END_ESCAPED {
      DeliverKeeps(s, c, b, t);
    } else if (b == ESCAPE_VAL) != s.cons[c].nextIsEscape {
      FlagKeeps(s, c, b, t);
      UnsharedUnmoved(s, t);
    } else {
      hide PoolOk;
      WritePoolOk(s, t, h, Content(s, s.refs[h]) + [b]);
      AppendKeeps(s, c, b, t);
      UnsharedUnmoved(s, t);
    }
  }

  lemma {:induction false} NextKeepsInv(s: State, a: Action, t: State)
    requires Inv(s) && Next(s, a, t)
    ensures Inv(t)
  {
    hide *;
    match a
    case Connect(c, id) => ConnectKeeps(s, c, id, t);
    case Byte(c, b) => ByteKeeps(s, c, b, t);
    case Resume(c, id) => ResumeKeeps(s, c, id, t);
    case Destroy(c) => DestroyKeeps(s, c, t);
    case Copy(from, to) => CopyKeeps(s, from, to, t);
    case Drop(h) => DropKeeps(s, h, t);
    case OpenWriter(w, id) => OpenWriterKeeps(s, w, id, t);
    case Push(w, b) => PushKeeps(s, w, b, t);
  }

  // ----- Over whole runs -----

  ghost predicate Run(states: seq<State>, actions: seq<Action>) {
    && |states| == |actions| + 1
    && states[0] == INITIAL
    && forall i | 0 <= i < |actions| :: Next(states[i], actions[i], states[i + 1])
  }

  lemma {:induction false} RunKeepsInv(states: seq<State>, actions: seq<Action>, i: nat)
    requires Run(states, actions) && i < |states|
    ensures Inv(states[i])
  {
    if i == 0 {
      Pool.EmptyInv<Id>();
    } else {
      RunKeepsInv(states, actions, i - 1);
      NextKeepsInv(states[i - 1], actions[i - 1], states[i]);
    }
  }

  // ----- What a run amounts to, told from its actions alone -----

  /** The bytes that have reached connection `c`. */
  function BytesOf(c: nat, actions: seq<Action>): seq<byte> {
    if actions == [] then []
    else
      var earlier := BytesOf(c, actions[..|actions| - 1]);
      match actions[|actions| - 1]
      case Byte(d, b) => if d == c then earlier + [b] else earlier
      case _ => earlier
  }

  /** The bytes that writer `w` has pushed. */
  function Pushed(w: nat, actions: seq<Action>): seq<byte> {
    if actions == [] then []
    else
      var earlier := Pushed(w, actions[..|actions| - 1]);
      match actions[|actions| - 1]
      case Push(x, b) => if x == w then earlier + [b] else earlier
      case _ => earlier
  }

  /** What connection `c`'s decoder would have made of its bytes by itself. */
  function Decodes(c: nat, actions: seq<Action>): Decoder {
    FeedAll(FRESH, BytesOf(c, actions))
  }

  /** The references there are: a connection gives up its own for the consumer's first at the
      byte that completes a message, and everything else is said by the action itself. */
  function Holders(actions: seq<Action>): set<Handle> {
    if actions == [] then {}
    else
      var before := actions[..|actions| - 1];
      var earlier := Holders(before);
      match actions[|actions| - 1]
      case Connect(c, _) => earlier + {Receiving(c)}
      case Byte(c, _) =>
        var n := |Decodes(c, before).delivered|;
        if |Decodes(c, actions).delivered| > n then earlier - {Receiving(c)} + {Delivered(c, n, 0)}
        else earlier
      case Resume(c, _) => earlier + {Receiving(c)}
      case Destroy(c) => earlier - {Receiving(c)}
      case Copy(_, to) => earlier + {to}
      case Drop(h) => earlier - {h}
      case OpenWriter(w, _) => earlier + {Writing(w)}
      case Push(_, _) => earlier
  }

  /** What a reference of this role reads as, no buffer and no other connection involved. */
  function Reads(r: Role, actions: seq<Action>): seq<byte> {
    match r
    case Assembly(c) => Decodes(c, actions).partial
    case Message(c, n) =>
      if n < |Decodes(c, actions).delivered| then Decodes(c, actions).delivered[n] else []
    case Outgoing(w) => Pushed(w, actions)
  }

  /** The histories kept in `s` are those of the actions, and the references are those the
      actions leave. */
  ghost predicate Follows(s: State, actions: seq<Action>) {
    && (forall c | c in s.cons :: s.cons[c].input == BytesOf(c, actions))
    && (forall c | c !in s.cons :: BytesOf(c, actions) == [])
    && (forall w | w in s.written :: s.written[w] == Pushed(w, actions))
    && (forall w | w !in s.written :: Pushed(w, actions) == [])
    && s.refs.Keys == Holders(actions)
  }
  lemma ActionsSnoc(actions: seq<Action>, a: Action)
    ensures (actions + [a])[..|actions + [a]| - 1] == actions && (actions + [a])[|actions|] == a
  {
    TakeSnoc(actions, a);
  }

  lemma BytesOfSnoc(c: nat, actions: seq<Action>, a: Action)
    ensures BytesOf(c, actions + [a])
         == BytesOf(c, actions) + if a.Byte? && a.c == c then [a.b] else []
  {
    ActionsSnoc(actions, a);
  }

  lemma PushedSnoc(w: nat, actions: seq<Action>, a: Action)
    ensures Pushed(w, actions + [a])
         == Pushed(w, actions) + if a.Push? && a.w == w then [a.b] else []
  {
    ActionsSnoc(actions, a);
  }

  lemma NextInput(s: State, a: Action, t: State, c: nat)
    requires Next(s, a, t)
    ensures c in s.cons ==>
              c in t.cons && t.cons[c].input == s.cons[c].input + if a.Byte? && a.c == c then [a.b] else []
    ensures c !in s.cons ==> !(a.Byte? && a.c == c) && (c in t.cons ==> t.cons[c].input == [])
  {
  }

  lemma NextWritten(s: State, a: Action, t: State, w: nat)
    requires Next(s, a, t)
    ensures w in s.written ==>
              w in t.written && t.written[w] == s.written[w] + if a.Push? && a.w == w then [a.b] else []
    ensures w !in s.written ==> !(a.Push? && a.w == w) && (w in t.written ==> t.written[w] == [])
  {
  }

  lemma NextKeepsInputs(s: State, a: Action, t: State, actions: seq<Action>)
    requires Follows(s, actions) && Next(s, a, t)
    ensures forall c | c in t.cons :: t.cons[c].input == BytesOf(c, actions + [a])
    ensures forall c | c !in t.cons :: BytesOf(c, actions + [a]) == []
  {
    hide Next, BytesOf, Pushed, Holders;
    forall c: nat
      ensures if c in t.cons then t.cons[c].input == BytesOf(c, actions + [a]) else BytesOf(c, actions + [a]) == []
    {
      NextInput(s, a, t, c);
      BytesOfSnoc(c, actions, a);
    }
  }

  lemma NextKeepsWritten(s: State, a: Action, t: State, actions: seq<Action>)
    requires Follows(s, actions) && Next(s, a, t)
    ensures forall w | w in t.written :: t.written[w] == Pushed(w, actions + [a])
    ensures forall w | w !in t.written :: Pushed(w, actions + [a]) == []
  {
    hide Next, BytesOf, Pushed, Holders;
    forall w: nat
      ensures if w in t.written then t.written[w] == Pushed(w, actions + [a]) else Pushed(w, actions + [a]) == []
    {
      NextWritten(s, a, t, w);
      PushedSnoc(w, actions, a);
    }
  }

  lemma NextKeepsHolders(s: State, a: Action, t: State, actions: seq<Action>)
    requires ConsOk(s) && Follows(s, actions) && Next(s, a, t)
    ensures t.refs.Keys == Holders(actions + [a])
  {
    hide FeedAll, Pushed, Content;
    ActionsSnoc(actions, a);
    if a.Byte? {
      assert ConOk(s, a.c);
      DecodedSnoc(s.cons[a.c], a.b);
    }
  }

  lemma {:induction false} RunFollows(states: seq<State>, actions: seq<Action>, i: nat)
    requires Run(states, actions) && i < |states|
    ensures Inv(states[i]) && Follows(states[i], actions[..i])
  {
    hide Next, PoolOk, Unshared, HandlesOk, ConsOk;
    RunKeepsInv(states, actions, i);
    if i > 0 {
      RunFollows(states, actions, i - 1);
      var s, a, t := states[i - 1], actions[i - 1], states[i];
      NextKeepsInputs(s, a, t, actions[..i - 1]);
      NextKeepsWritten(s, a, t, actions[..i - 1]);
      NextKeepsHolders(s, a, t, actions[..i - 1]);
      assert actions[..i] == actions[..i - 1] + [a];
    }
  }

  /** Sharing, recycling and interleaving are invisible: at every moment of every run the
      references are those the actions leave, and each reads as if its connection decoded, or
      its writer wrote, all alone in memory of its own. */
  lemma {:induction false} PoolIsInvisible(states: seq<State>, actions: seq<Action>, i: nat)
    requires Run(states, actions) && i < |states|
    ensures
      var s := states[i];
      && s.refs.Keys == Holders(actions[..i])
      && forall h | h in s.refs :: Content(s, s.refs[h]) == Reads(h.Role(), actions[..i])
  {
    hide PoolOk, FeedAll, BytesOf, Pushed, Holders;
    RunFollows(states, actions, i);
    var s := states[i];
    forall h | h in s.refs ensures Content(s, s.refs[h]) == Reads(h.Role(), actions[..i]) {
      assert HandleOk(s, h);
    }
  }

  /** However long a consumer keeps a delivered message, and whatever is decoded, delivered,
      released and recycled meanwhile, it reads the payload its connection's bytes carry. */
  lemma HeldMessageReadsBack(states: seq<State>, actions: seq<Action>, i: nat, c: nat, n: nat, copy: nat)
    requires Run(states, actions) && i < |states|
    requires Delivered(c, n, copy) in states[i].refs
    ensures
      var s, out := states[i], FeedAll(FRESH, BytesOf(c, actions[..i])).delivered;
      n < |out| && Content(s, s.refs[Delivered(c, n, copy)]) == out[n]
  {
    hide PoolOk, FeedAll, BytesOf, Pushed, Holders;
    RunFollows(states, actions, i);
    assert HandleOk(states[i], Delivered(c, n, copy));
  }

  /** ... which is the payload that was sent, if the bytes are those of whole frames. */
  lemma {:induction false} HeldMessageIsSentMessage(states: seq<State>, actions: seq<Action>, i: nat,
                                 c: nat, n: nat, copy: nat, ps: seq<Payload>)
    requires Run(states, actions) && i < |states|
    requires Delivered(c, n, copy) in states[i].refs
    requires BytesOf(c, actions[..i]) <= Frames(ps)
    ensures n < |ps|
    ensures Content(states[i], states[i].refs[Delivered(c, n, copy)]) == ps[n]
  {
    hide Next, FeedAll, Frames, BytesOf;
    HeldMessageReadsBack(states, actions, i, c, n, copy);
    PrefixDeliversPrefix(BytesOf(c, actions[..i]), ps);
  }

  lemma {:induction false} BytesGrow(c: nat, actions: seq<Action>, i: nat, j: nat)
    requires i <= j <= |actions|
    ensures BytesOf(c, actions[..i]) <= BytesOf(c, actions[..j])
    decreases j
  {
    if i < j {
      BytesGrow(c, actions, i, j - 1);
      assert actions[..j][..j - 1] == actions[..j - 1];
    }
  }

  /** Delivered messages stay frozen: at any two moments at which a message is held, it has
      the same contents. */
  lemma DeliveredStaysFrozen(states: seq<State>, actions: seq<Action>, i: nat, j: nat,
                             c: nat, n: nat, k: nat, l: nat)
    requires Run(states, actions) && i <= j < |states|
    requires Delivered(c, n, k) in states[i].refs && Delivered(c, n, l) in states[j].refs
    ensures Content(states[i], states[i].refs[Delivered(c, n, k)])
         == Content(states[j], states[j].refs[Delivered(c, n, l)])
  {
    hide Next, FeedAll, BytesOf;
    HeldMessageReadsBack(states, actions, i, c, n, k);
    HeldMessageReadsBack(states, actions, j, c, n, l);
    BytesGrow(c, actions, i, j);
    var x, y := BytesOf(c, actions[..i]), BytesOf(c, actions[..j]);
    assert y == x + y[|x|..];
    FeedAllAppend(FRESH, x, y[|x|..]);
    DeliveredGrows(FeedAll(FRESH, x), y[|x|..]);
  }

  /** The buffer a connection is filling is referenced by nobody else, and distinct messages
      never share a buffer while both are referenced. */
  lemma NoAliasing(states: seq<State>, actions: seq<Action>, i: nat, h: Handle, k: Handle)
    requires Run(states, actions) && i < |states|
    requires h in states[i].refs && k in states[i].refs && h != k
    requires h.Receiving? || k.Receiving? || h.Role() != k.Role()
    ensures states[i].refs[h] != states[i].refs[k]
  {
    hide Pool.Inv;
    RunKeepsInv(states, actions, i);
  }

  /** A writer's buffer, and every copy being sent, holds exactly what that writer pushed,
      although writers never empty the buffer they are given. */
  lemma WriterStartsEmpty(states: seq<State>, actions: seq<Action>, i: nat, h: Handle)
    requires Run(states, actions) && i < |states|
    requires h in states[i].refs && (h.Writing? || h.InFlight?)
    ensures Content(states[i], states[i].refs[h]) == Pushed(h.w, actions[..i])
  {
    hide Next, Holders, Pushed;
    PoolIsInvisible(states, actions, i);
  }

  /** The life of every buffer, over all runs: it is in use exactly while referenced; in use,
      pooled or freed, one at a time; pooled ones are distinct and empty and at most 51; no
      buffer enters the pool twice, is freed twice, or is allocated twice. */
  lemma PoolLifecycle(states: seq<State>, actions: seq<Action>, i: nat)
    requires Run(states, actions) && i < |states|
    ensures
      var p := states[i].pool;
      && p.live.Keys == states[i].refs.Values
      && p.live.Keys !! p.InPool() !! p.freed
      && (forall e | e in p.log :: e.id in p.live.Keys + p.InPool() + p.freed)
      && (forall x, y | 0 <= x < y < |p.pooled| :: p.pooled[x] != p.pooled[y])
      && (forall x | 0 <= x < |p.pooled| :: Content(states[i], p.pooled[x]) == [])
      && |p.pooled| <= Pool.MAX_MESSAGES + 1
      && (forall e | e in p.log :: p.Times(e) == 1)
  {
    RunKeepsInv(states, actions, i);
    var p := states[i].pool;
    forall e | e in p.log
      ensures e.id in p.Known() && p.Times(e) == 1
    {
      assert e.id in p.Known();
      assert Pool.Lifecycle(p, e.id);
    }
    assert forall x | 0 <= x < |p.pooled| :: p.pooled[x] in p.InPool();
  }

  // ----- No connection gets stuck -----

  lemma {:induction false} FreshId(used: set<Id>) returns (id: Id)
    ensures forall x | x in used :: x < id
  {
    if used == {} {
      id := 0;
    } else {
      var x :| x in used;
      var y := FreshId(used - {x});
      id := if x < y then y else x + 1;
      forall z | z in used ensures z < id {
        assert z == x || z in used - {x};
      }
    }
  }

  lemma Offered(pool: Pool.PoolState<Id>) returns (id: Id)
    ensures Pool.Offers(pool, id)
  {
    if |pool.pooled| > 0 {
      id := pool.pooled[|pool.pooled| - 1];
    } else {
      id := FreshId(pool.Known());
    }
  }

  /** An action that does not wait for a message or a callback, and that makes sense. */
  ghost predicate Sensible(s: State, a: Action) {
    match a
    case Connect(c, _) => c !in s.cons
    case OpenWriter(w, _) => w !in s.written
    case Destroy(c) => Receiving(c) in s.refs
    case Push(w, _) => Writing(w) in s.refs
    case Drop(h) => h in s.refs && !h.Receiving?
    case Copy(from, to) =>
      && from in s.refs && to !in s.refs && to.Role() == from.Role()
      && (to.Delivered? || to.InFlight?)
    case _ => false
  }

  /** The action, with the buffer it is given if it needs one. */
  function Given(a: Action, id: Id): Action {
    match a
    case Connect(c, _) => Connect(c, id)
    case OpenWriter(w, _) => OpenWriter(w, id)
    case _ => a
  }

  lemma SensibleHappens(s: State, a: Action, id: Id) returns (t: State)
    requires HandlesOk(s) && Sensible(s, a) && Pool.Offers(s.pool, id)
    ensures Next(s, Given(a, id), t)
  {
    hide Acquire, AcquireEmptied, Unref, Append, Content, FeedAll, Pool.Offers;
    match a
    case Connect(c, _) =>
      t := SetCon(AcquireEmptied(s, Receiving(c), id), c, Con(false, Reading, [], 0));
    case OpenWriter(w, _) =>
      t := Acquire(s, Writing(w), id).(written := s.written[w := []]);
    case Destroy(c) =>
      assert HandleOk(s, Receiving(c));
      t := SetCon(Unref(s, Receiving(c)), c, s.cons[c].(phase := Destroyed));
    case Push(w, b) =>
      assert HandleOk(s, Writing(w));
      t := Append(s, s.refs[Writing(w)], b).(written := s.written[w := s.written[w] + [b]]);
    case Drop(h) => t := Unref(s, h);
    case Copy(from, to) => t := s.(refs := s.refs[to := s.refs[from]]);
  }

  /** Nobody has to wait: at any moment of any run connections and writers can be opened,
      connections destroyed, bytes pushed, and references copied and dropped. */
  lemma {:induction false} NobodyWaits(states: seq<State>, actions: seq<Action>, i: nat, a: Action)
      returns (id: Id, t: State)
    requires Run(states, actions) && i < |states| && Sensible(states[i], a)
    ensures Next(states[i], Given(a, id), t)
  {
    hide Next, Sensible, PoolOk, HandlesOk, Unshared, ConsOk, Pool.Offers;
    RunKeepsInv(states, actions, i);
    id := Offered(states[i].pool);
    t := SensibleHappens(states[i], a, id);
  }

  /** In every reachable state a reading connection can consume any byte, and a connection
      whose callback has returned finds a buffer to go on with. */
  lemma NeverStuck(states: seq<State>, actions: seq<Action>, i: nat, c: nat, b: byte)
      returns (a: Action, t: State)
    requires Run(states, actions) && i < |states| && c in states[i].cons
    requires !states[i].cons[c].phase.Destroyed?
    ensures Next(states[i], a, t)
    ensures states[i].cons[c].phase.Reading? ==> a == Byte(c, b)
    ensures states[i].cons[c].phase.InCallback? ==> a.Resume? && a.c == c
  {
    hide Pool.Inv, FeedAll, Feed;
    var s := states[i];
    RunKeepsInv(states, actions, i);
    assert ConOk(s, c);
    if s.cons[c].phase.Reading? {
      a, t := Byte(c, b), ConsumeByte(s, c, b);
    } else {
      var id := Offered(s.pool);
      a := Resume(c, id);
      t := SetCon(AcquireEmptied(s, Receiving(c), id), c,
                  s.cons[c].(nextIsEscape := false, phase := Reading));
    }
  }

  // ----- The bound of 51 is attained -----

  lemma ExtendRun(states: seq<State>, actions: seq<Action>, a: Action, t: State)
    requires Run(states, actions) && Next(states[|actions|], a, t)
    ensures Run(states + [t], actions + [a])
  {
    hide Pool.Inv;
    var longer, more := states + [t], actions + [a];
    forall i | 0 <= i < |more| ensures Next(longer[i], more[i], longer[i + 1]) {
      if i < |actions| {
        assert longer[i] == states[i] && longer[i + 1] == states[i + 1];
      }
    }
  }

  /** Writers `from` to `to` each hold the buffer of the same number, all of them due to
      return to the pool. */
  ghost predicate WritersOpen(s: State, from: nat, to: nat) {
    && (forall h | h in s.refs :: h.Writing? && from <= h.w < to && s.refs[h] == h.w)
    && (forall w: nat | from <= w < to :: Writing(w) in s.refs
         && w in s.pool.live && s.pool.live[w].ReturnToPool?)
  }

  /** Nothing but the writers below `n` has happened, and the pool has never been returned to. */
  ghost predicate OnlyWritersOpen(s: State, n: nat) {
    && WritersOpen(s, 0, n) && s.pool.pooled == []
    && (forall id | id in s.pool.Known() :: id < n)
    && (forall w | w in s.written :: w < n)
  }

  lemma WritersOpenAdd(s: State, n: nat, t: State)
    requires WritersOpen(s, 0, n) && t.refs == s.refs[Writing(n) := n]
    requires t.pool.live == s.pool.live[n := Pool.ReturnToPool]
    ensures WritersOpen(t, 0, n + 1)
  {
    forall w: nat | w <= n
      ensures Writing(w) in t.refs && w in t.pool.live && t.pool.live[w].ReturnToPool?
    {
      assert w < n ==> Writing(w) in s.refs;
    }
  }

  lemma OneMoreOpen(s: State, n: nat, t: State)
    requires OnlyWritersOpen(s, n)
    requires t == Acquire(s, Writing(n), n).(written := s.written[n := []])
    ensures OnlyWritersOpen(t, n + 1)
  {
    hide WritersOpen;
    assert t.pool.Known() == s.pool.Known() + {n};
    WritersOpenAdd(s, n, t);
  }

  lemma OpenOne(s: State, n: nat) returns (t: State)
    requires OnlyWritersOpen(s, n)
    ensures Next(s, OpenWriter(n, n), t) && OnlyWritersOpen(t, n + 1)
  {
    hide WritersOpen, Acquire;
    t := Acquire(s, Writing(n), n).(written := s.written[n := []]);
    OneMoreOpen(s, n, t);
  }

  lemma {:induction false} OpenMany(n: nat) returns (states: seq<State>, actions: seq<Action>)
    ensures Run(states, actions) && OnlyWritersOpen(states[|actions|], n)
  {
    hide Next;
    if n == 0 {
      states, actions := [INITIAL], [];
    } else {
      states, actions := OpenMany(n - 1);
      var t := OpenOne(states[|actions|], n - 1);
      ExtendRun(states, actions, OpenWriter(n - 1, n - 1), t);
      states, actions := states + [t], actions + [OpenWriter(n - 1, n - 1)];
    }
  }

  lemma DropOne(s: State, m: nat, n: nat) returns (t: State)
    requires m < n <= Pool.MAX_MESSAGES + 1 && WritersOpen(s, m, n) && |s.pool.pooled| == m
    ensures Next(s, Drop(Writing(m)), t) && WritersOpen(t, m + 1, n) && |t.pool.pooled| == m + 1
  {
    var h := Writing(m);
    assert m !in (s.refs - {h}).Values by {
      assert forall k | k in s.refs - {h} :: s.refs[k] != m;
    }
    t := Unref(s, h);
  }

  lemma {:induction false} DropMany(n: nat, m: nat) returns (states: seq<State>, actions: seq<Action>)
    requires m <= n <= Pool.MAX_MESSAGES + 1
    ensures Run(states, actions)
    ensures var s := states[|actions|]; WritersOpen(s, m, n) && |s.pool.pooled| == m
  {
    hide Next;
    if m == 0 {
      states, actions := OpenMany(n);
    } else {
      states, actions := DropMany(n, m - 1);
      var t := DropOne(states[|actions|], m - 1, n);
      ExtendRun(states, actions, Drop(Writing(m - 1)), t);
      states, actions := states + [t], actions + [Drop(Writing(m - 1))];
    }
  }

  /** The size test lets one more in than `max_messages` says: some run fills the pool with
      51 buffers. */
  lemma PoolCanHoldOneMore() returns (states: seq<State>, actions: seq<Action>)
    ensures Run(states, actions)
    ensures |states[|actions|].pool.pooled| == Pool.MAX_MESSAGES + 1 == 51
  {
    hide Pool.Inv;
    states, actions := DropMany(51, 51);
  }
}

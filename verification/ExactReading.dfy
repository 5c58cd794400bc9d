/** When reading gives back exactly what was written, and what becomes of the rest. */
module ExactReading {
  import opened Wire
  import opened Sequences
  import opened Integers
  import opened Schema

  /** No string or vector that reading would append to has anything in it: neither in the
      target nor in the instances a vector read value-initialises. */
  ghost predicate Blank(s: Schema, target: Value)
    decreases s
  {
    match s
    case Str => Chars(target) == []
    case Vec(e) => Elems(target) == [] && Blank(e, Default(e))
    case Arr(e, len) => forall k: nat | k < len :: Blank(e, Target(s, Elems(target), k))
    case Struct(fields, _) =>
      forall k | 0 <= k < |fields| :: Blank(fields[k], Target(s, Elems(target), k))
    case _ => true
  }

  lemma {:induction false} BlankPartsMerge(s: Schema, ts: seq<Value>, vs: seq<Value>)
    requires PartsTyped(s, vs)
    requires forall k | 0 <= k < |vs| :: Blank(Part(s, k), Target(s, ts, k))
    ensures Merges(s, ts, vs) == vs
    decreases vs, 0
  {
    if vs != [] {
      var init, k := vs[..|vs| - 1], |vs| - 1;
      PartsInit(s, vs);
      Unsnoc(vs);
      BlankPartsMerge(s, ts, init);
      BlankMerge(Part(s, k), Target(s, ts, k), vs[k]);
    }
  }

  lemma {:induction false} BlankMerge(s: Schema, target: Value, v: Value)
    requires HasType(v, s) && Blank(s, target)
    ensures Merge(s, target, v) == v
    decreases v, 1
  {
    match s
    case Str => assert [] + v.chars == v.chars;
    case Vec(_) =>
      BlankPartsMerge(s, [], v.elems);
      assert [] + v.elems == v.elems;
    case Arr(_, _) => BlankPartsMerge(s, Elems(target), v.elems);
    case Struct(_, _) => BlankPartsMerge(s, Elems(target), v.elems);
    case _ =>
  }

  lemma {:induction false} MergesAt(s: Schema, ts: seq<Value>, vs: seq<Value>, k: nat)
    requires Composite(s) && (s.Struct? ==> |vs| <= |s.fields|) && k < |vs|
    ensures Merges(s, ts, vs)[k] == Merge(Part(s, k), Target(s, ts, k), vs[k])
    decreases vs
  {
    if k < |vs| - 1 {
      MergesAt(s, ts, vs[..|vs| - 1], k);
    }
  }

  // ----- A value that a target which is not blank spoils -----

  /** The smallest value of a type. */
  function Least(s: Schema): Value {
    match s
    case Bool => Flag(false)
    case Str => Text([])
    case Vec(_) => List([])
    case Arr(e, len) => List(seq(len, _ => Least(e)))
    case Struct(fields, _) => List(seq(|fields|, k requires 0 <= k < |fields| => Least(fields[k])))
    case _ => Number(0)
  }

  lemma {:induction false} LeastIsSized(s: Schema)
    ensures HasType(Least(s), s) && Sized(s, Least(s))
  {
    match s
    case Arr(e, _) => LeastIsSized(e);
    case Struct(fields, _) =>
      forall k | 0 <= k < |fields|
        ensures HasType(Least(fields[k]), fields[k]) && Sized(fields[k], Least(fields[k]))
      {
        LeastIsSized(fields[k]);
      }
    case _ =>
  }

  /** The smallest array or struct but for its part `k`. */
  lemma WithPart(s: Schema, k: nat, x: Value) returns (v: Value)
    requires (s.Arr? || s.Struct?) && k < (if s.Arr? then s.len else |s.fields|)
    requires HasType(x, Part(s, k)) && Sized(Part(s, k), x)
    ensures HasType(v, s) && Sized(s, v) && v.List? && Arity(s, |v.elems|) && v.elems[k] == x
  {
    LeastIsSized(s);
    v := List(Least(s).elems[k := x]);
  }

  lemma SpoiledVector(s: Schema, target: Value, x: Value)
    requires s.Vec? && Elems(target) == []
    requires HasType(x, s.elem) && Sized(s.elem, x) && Merge(s.elem, Default(s.elem), x) != x
    ensures HasType(List([x]), s) && Sized(s, List([x])) && Merge(s, target, List([x])) != List([x])
  {
    hide Merges;
    MergesAt(s, [], [x], 0);
    assert [] + Merges(s, [], [x]) == Merges(s, [], [x]);
  }

  /** A value of an array or struct type whose part `k` is spoiled. */
  lemma SpoiledPart(s: Schema, target: Value, k: nat, x: Value) returns (v: Value)
    requires (s.Arr? || s.Struct?) && k < (if s.Arr? then s.len else |s.fields|)
    requires HasType(x, Part(s, k)) && Sized(Part(s, k), x)
    requires Merge(Part(s, k), Target(s, Elems(target), k), x) != x
    ensures HasType(v, s) && Sized(s, v) && Merge(s, target, v) != v
  {
    hide Merges, HasType, Sized, Default;
    v := WithPart(s, k, x);
    MergesAt(s, Elems(target), v.elems, k);
  }

  lemma {:induction false} SpoiledValue(s: Schema, target: Value) returns (v: Value)
    requires !Blank(s, target)
    ensures HasType(v, s) && Sized(s, v) && Merge(s, target, v) != v
    decreases s
  {
    match s
    case Str => v := Text([]);
    case Vec(e) =>
      if Elems(target) != [] {
        v := List([]);
      } else {
        var x := SpoiledValue(e, Default(e));
        v := List([x]);
        SpoiledVector(s, target, x);
      }
    case Arr(e, len) =>
      var k: nat :| k < len && !Blank(e, Target(s, Elems(target), k));
      var x := SpoiledValue(e, Target(s, Elems(target), k));
      v := SpoiledPart(s, target, k, x);
    case Struct(fields, _) =>
      var k :| 0 <= k < |fields| && !Blank(fields[k], Target(s, Elems(target), k));
      var x := SpoiledValue(fields[k], Target(s, Elems(target), k));
      v := SpoiledPart(s, target, k, x);
  }

  /** Every value that can be written comes back as it was. */
  ghost predicate ReadsExactly(s: Schema, target: Value) {
    forall v, rest | HasType(v, s) && Sized(s, v) ::
      Read(s, target, Encoding(s, v) + rest) == Some(v, rest)
  }

  /** Which targets give back every value exactly as it was written: the blank ones. */
  lemma ReadsEveryValueExactly(s: Schema, target: Value)
    ensures ReadsExactly(s, target) <==> Blank(s, target)
  {
    hide Read, Encoding, HasType, Sized, Blank, Merge;
    if Blank(s, target) {
      forall v, rest | HasType(v, s) && Sized(s, v)
        ensures Read(s, target, Encoding(s, v) + rest) == Some(v, rest)
      {
        RoundTrip(s, target, v, rest);
        BlankMerge(s, target, v);
      }
    } else {
      var v := SpoiledValue(s, target);
      RoundTrip(s, target, v, []);
    }
  }

  // ----- The same in terms of what types and instances look like -----

  /** An instance all of whose strings and vectors are empty, and any whose vectors have
      elements that start out so. */
  ghost predicate Bare(s: Schema, v: Value)
    decreases s
  {
    match s
    case Str => v == Text([])
    case Vec(e) => v == List([]) && StartsBare(e)
    case Arr(e, _) => v.List? && forall k | 0 <= k < |v.elems| :: Bare(e, v.elems[k])
    case Struct(fields, _) =>
      v.List? && |v.elems| == |fields| && forall k | 0 <= k < |fields| :: Bare(fields[k], v.elems[k])
    case _ => true
  }

  /** A type whose instances start out bare: whatever structs it holds have member initialisers
      with nothing but empty strings and vectors in them. */
  ghost predicate StartsBare(s: Schema)
    decreases s
  {
    match s
    case Vec(e) => StartsBare(e)
    case Arr(e, len) => len == 0 || StartsBare(e)
    case Struct(fields, init) =>
      |init| == |fields| && forall k | 0 <= k < |fields| :: Bare(fields[k], init[k])
    case _ => true
  }

  lemma {:induction false} BareIsBlank(s: Schema, v: Value)
    requires WellFormed(s) && HasType(v, s)
    ensures Bare(s, v) <==> Blank(s, v)
    decreases s
  {
    match s
    case Vec(e) => StartsBlank(e);
    case Arr(e, len) =>
      forall k: nat | k < len ensures Bare(e, v.elems[k]) <==> Blank(e, Target(s, Elems(v), k)) {
        BareIsBlank(e, v.elems[k]);
      }
      assert Blank(s, v) ==> forall k: nat | k < len :: Blank(e, Target(s, Elems(v), k)) && Bare(e, v.elems[k]);
    case Struct(fields, _) =>
      forall k | 0 <= k < |fields|
        ensures Bare(fields[k], v.elems[k]) <==> Blank(fields[k], Target(s, v.elems, k))
      {
        BareIsBlank(fields[k], v.elems[k]);
      }
    case _ =>
  }

  lemma {:induction false} StartsBlank(s: Schema)
    requires WellFormed(s)
    ensures StartsBare(s) <==> Blank(s, Default(s))
    decreases s
  {
    match s
    case Vec(e) => StartsBlank(e);
    case Arr(e, len) =>
      StartsBlank(e);
      var ds := Elems(Default(s));
      assert forall k: nat | k < len :: Target(s, ds, k) == ds[k] == Default(e);
      if len > 0 { assert Blank(s, Default(s)) ==> Blank(e, Target(s, ds, 0)); }
    case Struct(fields, init) =>
      forall k | 0 <= k < |fields|
        ensures Bare(fields[k], init[k]) <==> Blank(fields[k], Target(s, init, k))
      {
        BareIsBlank(fields[k], init[k]);
      }
    case _ =>
  }

  /** An instance gives every value back exactly if and only if it is bare. */
  lemma BareReadsExactly(s: Schema, target: Value)
    requires WellFormed(s) && HasType(target, s)
    ensures ReadsExactly(s, target) <==> Bare(s, target)
  {
    hide ReadsExactly, Bare, Blank, HasType;
    BareIsBlank(s, target);
    ReadsEveryValueExactly(s, target);
  }

  /** Into an empty vector all vectors of a type come back exactly if and only if instances
      of the type start out bare: vectors of numbers, strings and vectors of them always, and
      vectors of structs whose members are initialised to nothing but empty ones. */
  lemma EmptyVectorReadsExactly(e: Schema)
    requires WellFormed(e)
    ensures ReadsExactly(Vec(e), List([])) <==> StartsBare(e)
  {
    hide ReadsExactly;
    BareReadsExactly(Vec(e), List([]));
  }

  ghost predicate Structless(s: Schema) {
    match s
    case Vec(e) => Structless(e)
    case Arr(e, _) => Structless(e)
    case Struct(_, _) => false
    case _ => true
  }

  lemma {:induction false} StructlessStartsBare(s: Schema)
    requires Structless(s)
    ensures WellFormed(s) && StartsBare(s)
  {
    match s
    case Vec(e) => StructlessStartsBare(e);
    case Arr(e, _) => StructlessStartsBare(e);
    case _ =>
  }

  /** A vector of anything built without structs comes back exactly into an empty one. */
  lemma StructlessVectorReadsExactly(e: Schema, v: Value, rest: seq<byte>)
    requires Structless(e) && HasType(v, Vec(e)) && Sized(Vec(e), v)
    ensures Read(Vec(e), List([]), Encoding(Vec(e), v) + rest) == Some(v, rest)
  {
    hide HasType, Sized, Encoding, Read;
    StructlessStartsBare(e);
    EmptyVectorReadsExactly(e);
  }

  // ----- What becomes of the instances read into -----

  /** Fixed arrays and structs are read in place: each part into the part that was there. */
  lemma PartsReadInPlace(s: Schema, target: Value, v: Value, rest: seq<byte>, k: nat)
    requires (s.Arr? || s.Struct?) && HasType(target, s) && HasType(v, s) && Sized(s, v)
    requires k < |v.elems|
    ensures
      var r := Read(s, target, Encoding(s, v) + rest);
      && r.Some? && r.rest == rest && r.value.List? && |r.value.elems| == |v.elems| == |target.elems|
      && Read(Part(s, k), target.elems[k], Encoding(Part(s, k), v.elems[k])) == Some(r.value.elems[k], [])
  {
    hide Read, Encoding, Merges;
    RoundTrip(s, target, v, rest);
    MergesAt(s, target.elems, v.elems, k);
    RoundTrip(Part(s, k), target.elems[k], v.elems[k], []);
    assert Encoding(Part(s, k), v.elems[k]) + [] == Encoding(Part(s, k), v.elems[k]);
  }

  /** A vector is appended to: what it held stays, and what follows is what an empty one would
      have received. */
  lemma VectorsAppend(e: Schema, target: Value, v: Value, rest: seq<byte>)
    requires HasType(v, Vec(e)) && Sized(Vec(e), v)
    ensures
      var bs := Encoding(Vec(e), v) + rest;
      var r, added := Read(Vec(e), target, bs), Read(Vec(e), List([]), bs);
      && r.Some? && added.Some? && r.value.List? && added.value.List? && r.rest == added.rest == rest
      && |added.value.elems| == |v.elems| && r.value.elems == Elems(target) + added.value.elems
  {
    hide Read, Encoding, Merges;
    RoundTrip(Vec(e), target, v, rest);
    RoundTrip(Vec(e), List([]), v, rest);
    VectorMerged(e, v.elems);
  }

  /** A fixed array of strings: each string received follows the one that was there. */
  lemma StringsAppendInPlace(len: nat, target: Value, v: Value, rest: seq<byte>)
    requires HasType(target, Arr(Str, len)) && HasType(v, Arr(Str, len)) && Sized(Arr(Str, len), v)
    ensures
      var r := Read(Arr(Str, len), target, Encoding(Arr(Str, len), v) + rest);
      && r.Some? && r.rest == rest && r.value.List? && |r.value.elems| == len
      && forall k | 0 <= k < len ::
           r.value.elems[k] == Text(Chars(target.elems[k]) + Chars(v.elems[k]))
  {
    var s, ts, vs := Arr(Str, len), target.elems, v.elems;
    hide Read, Encoding, Merges;
    RoundTrip(s, target, v, rest);
    forall k | 0 <= k < len ensures Merges(s, ts, vs)[k] == Text(Chars(ts[k]) + Chars(vs[k])) {
      MergesAt(s, ts, vs, k);
    }
  }

  /** The struct of the client/server program: its string member starts out non-empty. */
  function ClientStruct(start: seq<byte>): Schema {
    Struct([SInt(4), Char, Str], [Number(1), Number(99), Text(start)])
  }

  lemma ClientStructMerged(start: seq<byte>, target: Value, v: Value)
    requires HasType(target, ClientStruct(start)) && HasType(v, ClientStruct(start))
    ensures |Elems(target)| == |Elems(v)| == 3
    ensures Merge(ClientStruct(start), target, v)
         == List([v.elems[0], v.elems[1], Text(Chars(target.elems[2]) + Chars(v.elems[2]))])
  {
    var s := ClientStruct(start);
    MergesAt(s, target.elems, v.elems, 0);
    MergesAt(s, target.elems, v.elems, 1);
    MergesAt(s, target.elems, v.elems, 2);
    hide Merges;
  }

  /** A client struct once received into a new instance: its numbers are those sent, and its
      text follows what the member was initialised to. */
  function AfterStart(start: seq<byte>, v: Value): Value {
    if |Elems(v)| == 3 then List([v.elems[0], v.elems[1], Text(start + Chars(v.elems[2]))]) else v
  }

  lemma NewClientStruct(start: seq<byte>)
    ensures var d := Default(ClientStruct(start));
            HasType(d, ClientStruct(start)) && |Elems(d)| == 3 && d.elems[2] == Text(start)
  {
    var s := ClientStruct(start);
    forall k: nat | k < 3 ensures HasType(s.init[k], s.fields[k]) {
      assert Pow256(4) >= 256 && Pow256(4) == 256 * Pow256(3);
    }
  }

  lemma ClientStructsMerged(start: seq<byte>, v: Value)
    requires HasType(v, Vec(ClientStruct(start)))
    ensures var e := ClientStruct(start);
            v.List? && forall k | 0 <= k < |v.elems| ::
              Merge(e, Target(Vec(e), [], k), v.elems[k]) == AfterStart(start, v.elems[k])
  {
    hide Merge, HasType, Sized;
    var e := ClientStruct(start);
    WholeAndParts(Vec(e), v);
    NewClientStruct(start);
    hide ClientStruct, Default;
    forall k | 0 <= k < |v.elems|
      ensures Merge(e, Target(Vec(e), [], k), v.elems[k]) == AfterStart(start, v.elems[k])
    {
      ClientStructMerged(start, Default(e), v.elems[k]);
    }
  }

  /** Each element of a vector starts out as a new instance, so all the texts follow what the
      member is initialised to. */
  lemma ClientStructsKeepTheirDefault(start: seq<byte>, v: Value, rest: seq<byte>)
    requires HasType(v, Vec(ClientStruct(start))) && Sized(Vec(ClientStruct(start)), v)
    ensures
      var s := Vec(ClientStruct(start));
      var r := Read(s, List([]), Encoding(s, v) + rest);
      && r.Some? && r.rest == rest && r.value.List? && |r.value.elems| == |v.elems|
      && forall k | 0 <= k < |v.elems| :: r.value.elems[k] == AfterStart(start, v.elems[k])
  {
    hide Read, Encoding, Merges, Merge, Sized, AfterStart, HasType, ClientStruct, Target;
    var s := Vec(ClientStruct(start));
    RoundTrip(s, List([]), v, rest);
    ClientStructsMerged(start, v);
    VectorMerged(s.elem, v.elems);
    forall k | 0 <= k < |v.elems|
      ensures Merges(s, [], v.elems)[k] == AfterStart(start, v.elems[k])
    {
      MergesAt(s, [], v.elems, k);
    }
  }

  lemma VectorMerged(e: Schema, vs: seq<Value>)
    ensures Merge(Vec(e), List([]), List(vs)) == List(Merges(Vec(e), [], vs))
  {
    hide Merges;
    assert [] + Merges(Vec(e), [], vs) == Merges(Vec(e), [], vs);
  }
}

/** The types a message can carry, the bytes they become inside a message (before escaping),
    and what reading those bytes into an existing target yields. */
module Schema {
  import opened Wire
  import opened Sequences
  import opened Integers

  /** A number as its 8-byte pattern stands for a double; a struct lists its fields in the
      order its own write and read functions visit them, with its member initialisers. */
  datatype Schema =
    | UInt(width: nat)
    | SInt(width: nat)
    | Char
    | Bool
    | Double
    | Str
    | Vec(elem: Schema)
    | Arr(elem: Schema, len: nat)
    | Struct(fields: seq<Schema>, init: seq<Value>)

  datatype Value =
    | Number(i: int)
    | Flag(b: bool)
    | Text(chars: seq<byte>)
    | List(elems: seq<Value>)

  /** Lengths travel as 32-bit unsigned integers. */
  const SIZE_WIDTH: nat := 4
  const SIZE_LIMIT: nat := 0x1_0000_0000

  lemma SizeLimit()
    ensures Pow256(SIZE_WIDTH) == SIZE_LIMIT
  {
    assert Pow256(2) == 256 * 256 * Pow256(0);
    assert Pow256(4) == 256 * 256 * Pow256(2);
  }

  predicate Composite(s: Schema) {
    s.Vec? || s.Arr? || s.Struct?
  }

  /** How many parts a value of a composite type has. */
  predicate Arity(s: Schema, n: nat)
    requires Composite(s)
  {
    match s
    case Vec(_) => true
    case Arr(_, len) => n == len
    case Struct(fields, _) => n == |fields|
  }

  /** The type of part `k`. */
  function Part(s: Schema, k: nat): Schema
    requires Composite(s) && (s.Struct? ==> k < |s.fields|)
  {
    match s
    case Vec(e) => e
    case Arr(e, _) => e
    case Struct(fields, _) => fields[k]
  }

  ghost predicate HasType(v: Value, s: Schema)
    decreases v
  {
    match s
    case UInt(w) => v.Number? && 0 <= v.i < Pow256(w)
    case SInt(w) => v.Number? && Fits(v.i, w)
    case Char => v.Number? && 0 <= v.i < 256
    case Bool => v.Flag?
    case Double => v.Number? && 0 <= v.i < Pow256(8)
    case Str => v.Text?
    case _ =>
      && v.List? && Arity(s, |v.elems|)
      && forall k | 0 <= k < |v.elems| :: HasType(v.elems[k], Part(s, k))
  }

  /** Member initialisers have the types of their fields. */
  ghost predicate WellFormed(s: Schema) {
    match s
    case Vec(e) => WellFormed(e)
    case Arr(e, _) => WellFormed(e)
    case Struct(fields, init) =>
      && |init| == |fields|
      && forall k | 0 <= k < |fields| :: WellFormed(fields[k]) && HasType(init[k], fields[k])
    case _ => true
  }

  /** A value-initialised instance. */
  function Default(s: Schema): Value {
    match s
    case Bool => Flag(false)
    case Str => Text([])
    case Vec(_) => List([])
    case Arr(e, len) => List(seq(len, _ => Default(e)))
    case Struct(_, init) => List(init)
    case _ => Number(0)
  }

  lemma {:induction false} DefaultHasType(s: Schema)
    requires WellFormed(s)
    ensures HasType(Default(s), s)
  {
    if s.Arr? {
      DefaultHasType(s.elem);
    }
  }

  // ----- Writing -----

  function SizePrefix(n: nat): seq<byte> {
    Digits(n % SIZE_LIMIT, SIZE_WIDTH)
  }

  /** The bytes of a value of type `s`; a value of another type has none. */
  function Encoding(s: Schema, v: Value): seq<byte>
    decreases v, 1
  {
    match (s, v)
    case (UInt(w), Number(i)) => Digits(Unsigned(i, w), w)
    case (SInt(w), Number(i)) => Digits(Unsigned(i, w), w)
    case (Char, Number(i)) => Digits(Unsigned(i, 1), 1)
    case (Double, Number(i)) => Digits(Unsigned(i, 8), 8)
    case (Bool, Flag(b)) => [if b then 1 else 0]
    case (Str, Text(chars)) => SizePrefix(|chars|) + chars
    case (Vec(_), List(elems)) => SizePrefix(|elems|) + Encodings(s, elems)
    case (Arr(_, len), List(elems)) => if |elems| == len then Encodings(s, elems) else []
    case (Struct(fields, _), List(elems)) =>
      if |elems| == |fields| then Encodings(s, elems) else []
    case _ => []
  }

  /** The parts of a composite value one after the other. */
  function Encodings(s: Schema, vs: seq<Value>): seq<byte>
    requires Composite(s) && (s.Struct? ==> |vs| <= |s.fields|)
    decreases vs, 0
  {
    if vs == [] then []
    else Encodings(s, vs[..|vs| - 1]) + Encoding(Part(s, |vs| - 1), vs[|vs| - 1])
  }

  lemma EncodingsSnoc(s: Schema, vs: seq<Value>, v: Value)
    requires Composite(s) && (s.Struct? ==> |vs| < |s.fields|)
    ensures Encodings(s, vs + [v]) == Encodings(s, vs) + Encoding(Part(s, |vs|), v)
  {
    TakeSnoc(vs, v);
  }

  // ----- Reading -----

  /** Some value and the bytes after it; None means that the reader would run off the end of
      the message, which the code does not check. */
  datatype Reading<T> = Some(value: T, rest: seq<byte>) | None

  function ReadNumber(w: nat, bs: seq<byte>): Reading<nat> {
    if |bs| < w then None else Some(FromDigits(bs[..w]), bs[w..])
  }

  lemma OneByte(bs: seq<byte>)
    requires bs != []
    ensures ReadNumber(1, bs) == Some(bs[0] as nat, bs[1..])
  {
    assert bs[..1] == [] + [bs[0]];
    FromDigitsSnoc([], bs[0]);
  }

  function Chars(v: Value): seq<byte> {
    if v.Text? then v.chars else []
  }

  function Elems(v: Value): seq<Value> {
    if v.List? then v.elems else []
  }

  /** What reading a value of type `s` into `target` leaves there. */
  function Read(s: Schema, target: Value, bs: seq<byte>): Reading<Value>
    decreases s, 1, 0
  {
    match s
    case UInt(w) => AsNumber(ReadNumber(w, bs))
    case SInt(w) => AsSigned(ReadNumber(w, bs), w)
    case Char => AsNumber(ReadNumber(1, bs))
    case Double => AsNumber(ReadNumber(8, bs))
    case Bool => AsFlag(ReadNumber(1, bs))
    case Str =>
      (match ReadNumber(SIZE_WIDTH, bs)
       case None => None
       case Some(n, rest) =>
         if |rest| < n then None else Some(Text(Chars(target) + rest[..n]), rest[n..]))
    case Vec(_) =>
      (match ReadNumber(SIZE_WIDTH, bs)
       case None => None
       case Some(n, rest) => AsList(Elems(target), ReadParts(s, [], n, rest)))
    case Arr(_, len) => AsList([], ReadParts(s, Elems(target), len, bs))
    case Struct(fields, _) => AsList([], ReadParts(s, Elems(target), |fields|, bs))
  }

  function AsNumber(r: Reading<nat>): Reading<Value> {
    match r case None => None case Some(n, rest) => Some(Number(n), rest)
  }

  function AsSigned(r: Reading<nat>, w: nat): Reading<Value> {
    match r case None => None case Some(n, rest) => Some(Number(Signed(n, w)), rest)
  }

  function AsFlag(r: Reading<nat>): Reading<Value> {
    match r case None => None case Some(n, rest) => Some(Flag(n != 0), rest)
  }

  function AsList(front: seq<Value>, r: Reading<seq<Value>>): Reading<Value> {
    match r case None => None case Some(vs, rest) => Some(List(front + vs), rest)
  }

  /** The instance part `k` is read into: an existing one, or a value-initialised one. */
  function Target(s: Schema, ts: seq<Value>, k: nat): Value
    requires Composite(s) && (s.Struct? ==> k < |s.fields|)
  {
    if k < |ts| then ts[k] else Default(Part(s, k))
  }

  function ReadParts(s: Schema, ts: seq<Value>, n: nat, bs: seq<byte>): (r: Reading<seq<Value>>)
    requires Composite(s) && (s.Struct? ==> n <= |s.fields|)
    ensures r.Some? ==> |r.value| == n
    decreases s, 0, n
  {
    if n == 0 then Some([], bs)
    else
      match ReadParts(s, ts, n - 1, bs)
      case None => None
      case Some(vs, rest) =>
        match Read(Part(s, n - 1), Target(s, ts, n - 1), rest)
        case None => None
        case Some(v, rest') => Some(vs + [v], rest')
  }

  // ----- What a target holds afterwards -----

  /** Strings and vectors are appended to, everything else is replaced. */
  function Merge(s: Schema, target: Value, v: Value): Value
    decreases v, 1
  {
    match (s, v)
    case (Str, Text(chars)) => Text(Chars(target) + chars)
    case (Vec(_), List(elems)) => List(Elems(target) + Merges(s, [], elems))
    case (Arr(_, len), List(elems)) =>
      if |elems| == len then List(Merges(s, Elems(target), elems)) else v
    case (Struct(fields, _), List(elems)) =>
      if |elems| == |fields| then List(Merges(s, Elems(target), elems)) else v
    case _ => v
  }

  function Merges(s: Schema, ts: seq<Value>, vs: seq<Value>): (r: seq<Value>)
    requires Composite(s) && (s.Struct? ==> |vs| <= |s.fields|)
    ensures |r| == |vs|
    decreases vs, 0
  {
    if vs == [] then []
    else
      var n := |vs| - 1;
      Merges(s, ts, vs[..n]) + [Merge(Part(s, n), Target(s, ts, n), vs[n])]
  }

  /** Every string and vector in `v` has a length that its 32-bit prefix can hold. */
  ghost predicate Sized(s: Schema, v: Value)
    requires HasType(v, s)
    decreases v, 1
  {
    match s
    case Str => |v.chars| < SIZE_LIMIT
    case Vec(_) => |v.elems| < SIZE_LIMIT && PartsSized(s, v.elems)
    case Arr(_, _) => PartsSized(s, v.elems)
    case Struct(_, _) => PartsSized(s, v.elems)
    case _ => true
  }

  /** `vs` are the first parts of a value of composite type `s`. */
  ghost predicate PartsTyped(s: Schema, vs: seq<Value>) {
    && Composite(s) && (s.Struct? ==> |vs| <= |s.fields|)
    && forall k | 0 <= k < |vs| :: HasType(vs[k], Part(s, k))
  }

  ghost predicate PartsSized(s: Schema, vs: seq<Value>)
    requires PartsTyped(s, vs)
    decreases vs, 0
  {
    forall k | 0 <= k < |vs| :: Sized(Part(s, k), vs[k])
  }

  // ----- The round trip -----

  lemma ReadDigits(n: nat, w: nat, rest: seq<byte>)
    requires n < Pow256(w)
    ensures ReadNumber(w, Digits(n, w) + rest) == Some(n, rest)
  {
    var bs := Digits(n, w) + rest;
    assert bs[..w] == Digits(n, w) && bs[w..] == rest;
    DigitsReadBack(n, w);
  }

  lemma ReadScalar(s: Schema, target: Value, v: Value, rest: seq<byte>)
    requires !Composite(s) && !s.Str? && HasType(v, s)
    ensures Read(s, target, Encoding(s, v) + rest) == Some(v, rest)
  {
    match s
    case UInt(w) => ReadDigits(v.i, w, rest);
    case SInt(w) =>
      ReadDigits(Unsigned(v.i, w), w, rest);
      SignedReadsBack(v.i, w);
      DigitsReadBack(Unsigned(v.i, w), w);
    case Char => ReadDigits(v.i, 1, rest);
    case Double => ReadDigits(v.i, 8, rest);
    case Bool =>
      var n: byte := if v.b then 1 else 0;
      assert Digits(n, 1) == [n];
      ReadDigits(n, 1, rest);
  }

  /** A size travels as four bytes that denote it modulo 2^32. */
  lemma SizeInBytes(n: nat)
    ensures |SizePrefix(n)| == 4 && FromDigits(SizePrefix(n)) == n % 0x1_0000_0000
  {
    SizeLimit();
    DigitsReadBack(n % SIZE_LIMIT, SIZE_WIDTH);
  }

  /** What each type sends, and in which order. */
  lemma TypesInBytes(s: Schema, v: Value)
    requires HasType(v, s)
    ensures s.UInt? ==> |Encoding(s, v)| == s.width && FromDigits(Encoding(s, v)) == v.i
    ensures s.SInt? ==>
              && |Encoding(s, v)| == s.width
              && FromDigits(Encoding(s, v)) == if v.i < 0 then v.i + Pow256(s.width) else v.i
    ensures s.Char? ==> Encoding(s, v) == [v.i]
    ensures s.Bool? ==> Encoding(s, v) == [if v.b then 1 else 0]
    ensures s.Double? ==> |Encoding(s, v)| == 8 && FromDigits(Encoding(s, v)) == v.i
    ensures s.Str? ==> Encoding(s, v) == SizePrefix(|v.chars|) + v.chars
    ensures s.Vec? ==> Encoding(s, v) == SizePrefix(|v.elems|) + Encodings(s, v.elems)
    ensures s.Arr? || s.Struct? ==> Encoding(s, v) == Encodings(s, v.elems)
  {
    match s
    case UInt(w) => DigitsReadBack(v.i, w);
    case SInt(w) => TwosComplement(v.i, w);
    case Char => assert Digits(v.i, 1) == Digits(v.i / 256, 0) + [v.i % 256];
    case Double => DigitsReadBack(v.i, 8);
    case _ =>
  }

  /** A 32-bit size prefix reads back as the size, truncated. */
  lemma ReadSize(n: nat, rest: seq<byte>)
    ensures ReadNumber(SIZE_WIDTH, SizePrefix(n) + rest) == Some(n % SIZE_LIMIT, rest)
  {
    SizeLimit();
    ReadDigits(n % SIZE_LIMIT, SIZE_WIDTH, rest);
  }

  lemma ReadSizeThen(n: nat, body: seq<byte>, rest: seq<byte>)
    ensures ReadNumber(SIZE_WIDTH, SizePrefix(n) + body + rest)
         == Some(n % SIZE_LIMIT, body + rest)
  {
    Assoc(SizePrefix(n), body, rest);
    ReadSize(n, body + rest);
  }

  /** Reading the bytes of `v` merges `v` into the target and stops exactly after them if
      every length in `v` fits its prefix, and otherwise goes wrong. */
  ghost predicate ReadsBack(s: Schema, target: Value, v: Value, rest: seq<byte>)
    requires HasType(v, s)
  {
    var r := Read(s, target, Encoding(s, v) + rest);
    if Sized(s, v) then r == Some(Merge(s, target, v), rest)
    else r.None? || r.value != Merge(s, target, v)
  }

  lemma ReadText(target: Value, chars: seq<byte>, rest: seq<byte>)
    ensures ReadsBack(Str, target, Text(chars), rest)
  {
    var n, all := |chars| % SIZE_LIMIT, chars + rest;
    ReadSizeThen(|chars|, chars, rest);
    TakeText(Chars(target), chars, rest, n);
    hide ReadNumber, SizePrefix;
    assert Read(Str, target, Encoding(Str, Text(chars)) + rest)
        == Some(Text(Chars(target) + all[..n]), all[n..]);
  }

  lemma TakeText(front: seq<byte>, chars: seq<byte>, rest: seq<byte>, n: nat)
    requires n <= |chars|
    ensures var all := chars + rest;
            if n == |chars| then all[..n] == chars && all[n..] == rest
            else front + all[..n] != front + chars
  {
    if n < |chars| {
      assert |front + (chars + rest)[..n]| < |front + chars|;
    }
  }

  lemma PartsInit(s: Schema, vs: seq<Value>)
    requires PartsTyped(s, vs) && vs != []
    ensures
      var init, last, k := vs[..|vs| - 1], vs[|vs| - 1], |vs| - 1;
      && PartsTyped(s, init) && HasType(last, Part(s, k))
      && (PartsSized(s, vs) <==> PartsSized(s, init) && Sized(Part(s, k), last))
  {
    Unsnoc(vs);
  }

  lemma LastDiffers<T>(x: seq<T>, a: T, y: seq<T>, b: T)
    requires x != y || a != b
    ensures x + [a] != y + [b]
  {
    if x + [a] == y + [b] {
      TakeSnoc(x, a);
      TakeSnoc(y, b);
    }
  }

  /** Parts read back one after the other. */
  lemma {:induction false} ReadBackParts(s: Schema, ts: seq<Value>, vs: seq<Value>, rest: seq<byte>)
    requires PartsTyped(s, vs)
    ensures
      var r := ReadParts(s, ts, |vs|, Encodings(s, vs) + rest);
      if PartsSized(s, vs) then r == Some(Merges(s, ts, vs), rest)
      else r.None? || r.value != Merges(s, ts, vs)
    decreases vs, 0
  {
    hide Encoding, Read, Merge, HasType, Sized;
    if vs == [] {
      assert Encodings(s, vs) + rest == rest;
    } else {
      var init, last, k := vs[..|vs| - 1], vs[|vs| - 1], |vs| - 1;
      PartsInit(s, vs);
      var front, back := Encodings(s, init), Encoding(Part(s, k), last);
      Assoc(front, back, rest);
      ReadBackParts(s, ts, init, back + rest);
      ReadBack(Part(s, k), Target(s, ts, k), last, rest);
      var r := ReadParts(s, ts, k, front + (back + rest));
      if r.Some? {
        var q := Read(Part(s, k), Target(s, ts, k), r.rest);
        if q.Some? && !PartsSized(s, vs) {
          LastDiffers(r.value, q.value, Merges(s, ts, init), Merge(Part(s, k), Target(s, ts, k), last));
        }
      }
    }
  }

  /** How a composite value is read: in which target its parts land, how many are read, and
      what stays in front of them. */
  lemma ReadFixed(s: Schema, target: Value, vs: seq<Value>, rest: seq<byte>)
    requires (s.Arr? || s.Struct?) && Arity(s, |vs|)
    ensures Read(s, target, Encoding(s, List(vs)) + rest)
         == AsList([], ReadParts(s, Elems(target), |vs|, Encodings(s, vs) + rest))
    ensures Merge(s, target, List(vs)) == List([] + Merges(s, Elems(target), vs))
  {
    hide ReadParts, Encodings;
    assert [] + Merges(s, Elems(target), vs) == Merges(s, Elems(target), vs);
  }

  lemma ReadVector(s: Schema, target: Value, vs: seq<Value>, rest: seq<byte>)
    requires s.Vec?
    ensures Read(s, target, Encoding(s, List(vs)) + rest)
         == AsList(Elems(target), ReadParts(s, [], |vs| % SIZE_LIMIT, Encodings(s, vs) + rest))
    ensures Merge(s, target, List(vs)) == List(Elems(target) + Merges(s, [], vs))
  {
    hide ReadParts, Encodings, ReadNumber, SizePrefix;
    ReadSizeThen(|vs|, Encodings(s, vs), rest);
  }

  /** Parts that read back make a whole that reads back, and the other way round. */
  lemma WholeFromParts(s: Schema, target: Value, v: Value, rest: seq<byte>,
                       front: seq<Value>, parts: Reading<seq<Value>>, merged: seq<Value>)
    requires HasType(v, s)
    requires Read(s, target, Encoding(s, v) + rest) == AsList(front, parts)
    requires Merge(s, target, v) == List(front + merged)
    requires if Sized(s, v) then parts == Some(merged, rest) else parts.None? || parts.value != merged
    ensures ReadsBack(s, target, v, rest)
  {
    hide Read, Encoding, Merge, Sized, HasType;
    if parts.Some? && parts.value != merged {
      FrontKept(front, parts.value, merged);
    }
  }

  lemma WholeAndParts(s: Schema, v: Value)
    requires Composite(s) && HasType(v, s)
    ensures v.List? && Arity(s, |v.elems|) && PartsTyped(s, v.elems)
    ensures Sized(s, v) <==> (s.Vec? ==> |v.elems| < SIZE_LIMIT) && PartsSized(s, v.elems)
  {
  }

  lemma {:induction false} ReadBackFixed(s: Schema, target: Value, v: Value, rest: seq<byte>)
    requires (s.Arr? || s.Struct?) && HasType(v, s)
    ensures ReadsBack(s, target, v, rest)
    decreases v, 0
  {
    hide Read, Encoding, Merge, Sized, Encodings, ReadParts, Merges, PartsSized, HasType, ReadsBack;
    WholeAndParts(s, v);
    var vs := v.elems;
    ReadFixed(s, target, vs, rest);
    ReadBackParts(s, Elems(target), vs, rest);
    WholeFromParts(s, target, v, rest, [], ReadParts(s, Elems(target), |vs|, Encodings(s, vs) + rest),
                   Merges(s, Elems(target), vs));
  }

  lemma {:induction false} ReadBackVector(s: Schema, target: Value, v: Value, rest: seq<byte>)
    requires s.Vec? && HasType(v, s)
    ensures ReadsBack(s, target, v, rest)
    decreases v, 0
  {
    hide Read, Encoding, Merge, Sized, Encodings, ReadParts, Merges, PartsSized, HasType, ReadsBack;
    WholeAndParts(s, v);
    var vs := v.elems;
    ReadVector(s, target, vs, rest);
    var parts := ReadParts(s, [], |vs| % SIZE_LIMIT, Encodings(s, vs) + rest);
    if |vs| < SIZE_LIMIT {
      ReadBackParts(s, [], vs, rest);
    } else {
      assert parts.Some? ==> |parts.value| < |Merges(s, [], vs)|;
    }
    WholeFromParts(s, target, v, rest, Elems(target), parts, Merges(s, [], vs));
  }

  lemma FrontKept<T>(front: seq<T>, x: seq<T>, y: seq<T>)
    requires x != y
    ensures front + x != front + y
  {
    assert x == (front + x)[|front|..] && y == (front + y)[|front|..];
  }

  lemma {:induction false} ReadBack(s: Schema, target: Value, v: Value, rest: seq<byte>)
    requires HasType(v, s)
    ensures ReadsBack(s, target, v, rest)
    decreases v, 1
  {
    match s
    case Str => ReadText(target, v.chars, rest);
    case Vec(_) => ReadBackVector(s, target, v, rest);
    case Arr(_, _) => ReadBackFixed(s, target, v, rest);
    case Struct(_, _) => ReadBackFixed(s, target, v, rest);
    case _ => ReadScalar(s, target, v, rest);
  }

  /** The round trip at its full generality: whatever the target held and whatever follows in
      the message, the value is merged into the target and the reader stops exactly after it,
      if and only if every string and vector in the value is shorter than 2^32. */
  lemma RoundTrip(s: Schema, target: Value, v: Value, rest: seq<byte>)
    requires HasType(v, s)
    ensures Read(s, target, Encoding(s, v) + rest) == Some(Merge(s, target, v), rest) <==> Sized(s, v)
  {
    hide Read, Encoding, Merge, Sized, HasType;
    ReadBack(s, target, v, rest);
  }
}

/** Messages whose bytes nobody promised were written as a value of the type they are read as:
    what the bytes say, whichever instance they are read into, and what is lost on the way. */
module ArbitraryPayloads {
  import opened Wire
  import opened Sequences
  import opened Integers
  import opened Schema
  import opened ExactReading

  /** A value, the bytes that stood for its booleans, and the bytes after it. */
  datatype Parsed<T> = Parsed(value: T, flags: seq<byte>, rest: seq<byte>) | TooShort

  /** The value of type `s` that `bs` starts with. No target takes part. */
  function Parse(s: Schema, bs: seq<byte>): Parsed<Value>
    decreases s, 1, 0
  {
    match s
    case Bool => if bs == [] then TooShort else Parsed(Flag(bs[0] != 0), [bs[0]], bs[1..])
    case Str =>
      (match ReadNumber(SIZE_WIDTH, bs)
       case None => TooShort
       case Some(n, rest) =>
         if |rest| < n then TooShort else Parsed(Text(rest[..n]), [], rest[n..]))
    case Vec(_) =>
      (match ReadNumber(SIZE_WIDTH, bs)
       case None => TooShort
       case Some(n, rest) => Whole(ParseParts(s, n, rest)))
    case Arr(_, len) => Whole(ParseParts(s, len, bs))
    case Struct(fields, _) => Whole(ParseParts(s, |fields|, bs))
    case _ => Plain(Read(s, Number(0), bs))
  }

  function Plain(r: Reading<Value>): Parsed<Value> {
    match r case None => TooShort case Some(v, rest) => Parsed(v, [], rest)
  }

  function Whole(p: Parsed<seq<Value>>): Parsed<Value> {
    match p case TooShort => TooShort case Parsed(vs, flags, rest) => Parsed(List(vs), flags, rest)
  }

  function ParseParts(s: Schema, n: nat, bs: seq<byte>): (p: Parsed<seq<Value>>)
    requires Composite(s) && (s.Struct? ==> n <= |s.fields|)
    ensures p.Parsed? ==> |p.value| == n
    decreases s, 0, n
  {
    if n == 0 then Parsed([], [], bs)
    else
      match ParseParts(s, n - 1, bs)
      case TooShort => TooShort
      case Parsed(vs, flags, rest) =>
        match Parse(Part(s, n - 1), rest)
        case TooShort => TooShort
        case Parsed(v, more, rest') => Parsed(vs + [v], flags + more, rest')
  }

  // ----- Reading is parsing, then merging -----

  function Merged(s: Schema, target: Value, p: Parsed<Value>): Reading<Value> {
    match p case TooShort => None case Parsed(v, _, rest) => Some(Merge(s, target, v), rest)
  }

  function MergedParts(s: Schema, ts: seq<Value>, p: Parsed<seq<Value>>): Reading<seq<Value>>
    requires Composite(s) && (s.Struct? && p.Parsed? ==> |p.value| <= |s.fields|)
  {
    match p case TooShort => None case Parsed(vs, _, rest) => Some(Merges(s, ts, vs), rest)
  }

  lemma MergesSnoc(s: Schema, ts: seq<Value>, vs: seq<Value>, v: Value)
    requires Composite(s) && (s.Struct? ==> |vs| < |s.fields|)
    ensures Merges(s, ts, vs + [v])
         == Merges(s, ts, vs) + [Merge(Part(s, |vs|), Target(s, ts, |vs|), v)]
  {
    TakeSnoc(vs, v);
  }

  lemma {:induction false} ReadPartsMergesParsed(s: Schema, ts: seq<Value>, n: nat, bs: seq<byte>)
    requires Composite(s) && (s.Struct? ==> n <= |s.fields|)
    ensures ReadParts(s, ts, n, bs) == MergedParts(s, ts, ParseParts(s, n, bs))
    decreases s, 0, n
  {
    hide Read, Parse, Merge, Merges, Target;
    if n > 0 {
      ReadPartsMergesParsed(s, ts, n - 1, bs);
      var p := ParseParts(s, n - 1, bs);
      if p.Parsed? {
        ReadMergesParsed(Part(s, n - 1), Target(s, ts, n - 1), p.rest);
        var q := Parse(Part(s, n - 1), p.rest);
        if q.Parsed? {
          MergesSnoc(s, ts, p.value, q.value);
        }
      }
    }
  }

  /** Whatever the bytes and whatever the target, reading merges into the target the value
      that the bytes alone determine, stops where they determine, and fails when they do. */
  lemma {:induction false} ReadMergesParsed(s: Schema, target: Value, bs: seq<byte>)
    ensures Read(s, target, bs) == Merged(s, target, Parse(s, bs))
    decreases s, 1, 0
  {
    hide ReadParts, ParseParts, Merges, FromDigits;
    match s
    case Bool =>
      if bs != [] {
        OneByte(bs);
      }
    case Vec(_) =>
      var r := ReadNumber(SIZE_WIDTH, bs);
      if r.Some? { ReadPartsMergesParsed(s, [], r.value, r.rest); }
    case Arr(_, len) =>
      ReadPartsMergesParsed(s, Elems(target), len, bs);
      EmptyFront(ReadParts(s, Elems(target), len, bs));
    case Struct(fields, _) =>
      ReadPartsMergesParsed(s, Elems(target), |fields|, bs);
      EmptyFront(ReadParts(s, Elems(target), |fields|, bs));
    case _ =>
  }

  lemma EmptyFront(r: Reading<seq<Value>>)
    ensures r.Some? ==> AsList([], r) == Some(List(r.value), r.rest)
  {
    assert r.Some? ==> [] + r.value == r.value;
  }

  // ----- What is parsed has the type asked for -----

  lemma NumberBounded(w: nat, bs: seq<byte>)
    requires ReadNumber(w, bs).Some?
    ensures ReadNumber(w, bs).value < Pow256(w)
  {
    FromDigitsBounded(bs[..w]);
  }

  lemma SignedFits(n: nat, w: nat)
    requires n < Pow256(w)
    ensures Fits(Signed(n, w), w)
  {
  }

  lemma {:induction false} ParsePartsTyped(s: Schema, n: nat, bs: seq<byte>)
    requires Composite(s) && (s.Struct? ==> n <= |s.fields|) && ParseParts(s, n, bs).Parsed?
    ensures var vs := ParseParts(s, n, bs).value; PartsTyped(s, vs) && PartsSized(s, vs)
    decreases s, 0, n
  {
    hide Parse, HasType, Sized;
    if n > 0 {
      ParsePartsTyped(s, n - 1, bs);
      ParseTyped(Part(s, n - 1), ParseParts(s, n - 1, bs).rest);
    }
  }

  /** Nothing ill-typed comes out of any bytes, and no length beyond what its prefix can say. */
  lemma {:induction false} ParseTyped(s: Schema, bs: seq<byte>)
    requires Parse(s, bs).Parsed?
    ensures var v := Parse(s, bs).value; HasType(v, s) && Sized(s, v)
    decreases s, 1, 0
  {
    hide ParseParts, Pow256;
    match s
    case UInt(w) => NumberBounded(w, bs);
    case SInt(w) =>
      NumberBounded(w, bs);
      SignedFits(ReadNumber(w, bs).value, w);
    case Char =>
      NumberBounded(1, bs);
      assert Pow256(1) == 256 by { OneBytePower(); }
    case Double => NumberBounded(8, bs);
    case Bool =>
    case Str =>
      SizeLimit();
      NumberBounded(SIZE_WIDTH, bs);
    case Vec(_) =>
      SizeLimit();
      NumberBounded(SIZE_WIDTH, bs);
      var r := ReadNumber(SIZE_WIDTH, bs);
      ParsePartsTyped(s, r.value, r.rest);
    case Arr(_, len) => ParsePartsTyped(s, len, bs);
    case Struct(fields, _) => ParsePartsTyped(s, |fields|, bs);
  }

  lemma OneBytePower()
    ensures Pow256(1) == 256
  {
    assert Pow256(1) == 256 * Pow256(0);
  }

  lemma TargetHasType(s: Schema, ts: seq<Value>, k: nat)
    requires WellFormed(s) && Composite(s) && (s.Struct? ==> k < |s.fields|)
    requires k < |ts| ==> HasType(ts[k], Part(s, k))
    ensures WellFormed(Part(s, k)) && HasType(Target(s, ts, k), Part(s, k))
  {
    DefaultHasType(Part(s, k));
  }

  lemma PartsTypedSnoc(s: Schema, vs: seq<Value>, v: Value)
    requires PartsTyped(s, vs) && (s.Struct? ==> |vs| < |s.fields|) && HasType(v, Part(s, |vs|))
    ensures PartsTyped(s, vs + [v])
  {
    hide HasType;
  }

  lemma {:induction false} MergesHaveType(s: Schema, ts: seq<Value>, vs: seq<Value>)
    requires WellFormed(s) && PartsTyped(s, vs)
    requires forall k | 0 <= k < |ts| && k < |vs| :: HasType(ts[k], Part(s, k))
    ensures PartsTyped(s, Merges(s, ts, vs))
    decreases vs, 0
  {
    hide HasType, Merge, WellFormed, Target;
    if vs != [] {
      var n := |vs| - 1;
      MergesHaveType(s, ts, vs[..n]);
      TargetHasType(s, ts, n);
      MergeHasType(Part(s, n), Target(s, ts, n), vs[n]);
      PartsTypedSnoc(s, Merges(s, ts, vs[..n]), Merge(Part(s, n), Target(s, ts, n), vs[n]));
    }
  }

  lemma {:induction false} MergeHasType(s: Schema, target: Value, v: Value)
    requires WellFormed(s) && HasType(target, s) && HasType(v, s)
    ensures HasType(Merge(s, target, v), s)
    decreases v, 1
  {
    hide Merges;
    match s
    case Vec(_) => MergesHaveType(s, [], v.elems);
    case Arr(_, _) => MergesHaveType(s, target.elems, v.elems);
    case Struct(_, _) => MergesHaveType(s, target.elems, v.elems);
    case _ =>
  }

  /** Reading any bytes into an instance of the type leaves an instance of the type. */
  lemma ReadHasType(s: Schema, target: Value, bs: seq<byte>)
    requires WellFormed(s) && HasType(target, s) && Read(s, target, bs).Some?
    ensures HasType(Read(s, target, bs).value, s)
  {
    hide Read, Parse, Merge, HasType;
    ReadMergesParsed(s, target, bs);
    ParseTyped(s, bs);
    MergeHasType(s, target, Parse(s, bs).value);
  }

  // ----- Writing back what was read -----

  /** Every byte that stood for a boolean is one that writing a boolean produces. */
  ghost predicate Normal(flags: seq<byte>) {
    forall b | b in flags :: b <= 1
  }

  lemma NormalAppend(a: seq<byte>, b: seq<byte>)
    ensures Normal(a + b) <==> Normal(a) && Normal(b)
  {
    assert forall x :: x in a + b <==> x in a || x in b;
  }

  lemma SameHalves<T>(x: seq<T>, y: seq<T>, a: seq<T>, b: seq<T>)
    requires |x| == |a|
    ensures x + y == a + b <==> x == a && y == b
  {
    if x + y == a + b {
      assert x == (x + y)[..|x|] && a == (a + b)[..|a|];
      assert y == (x + y)[|x|..] && b == (a + b)[|a|..];
    }
  }

  /** What was consumed is as long as what would be written, and the same if `flags` allow. */
  ghost predicate Rewrites(encoding: seq<byte>, used: seq<byte>, flags: seq<byte>) {
    |encoding| == |used| && (encoding == used <==> Normal(flags))
  }

  lemma RewritesAppend(e: seq<byte>, u: seq<byte>, f: seq<byte>, e': seq<byte>, u': seq<byte>, f': seq<byte>)
    requires Rewrites(e, u, f) && Rewrites(e', u', f')
    ensures Rewrites(e + e', u + u', f + f')
  {
    hide Normal;
    SameHalves(e, e', u, u');
    NormalAppend(f, f');
  }

  lemma PrefixThen(e: seq<byte>, u: seq<byte>, e': seq<byte>, u': seq<byte>, f: seq<byte>)
    requires Rewrites(e, u, []) && Rewrites(e', u', f)
    ensures Rewrites(e + e', u + u', f)
  {
    hide Rewrites;
    RewritesAppend(e, u, [], e', u', f);
    assert [] + f == f;
  }

  lemma NumberRewrites(s: Schema, bs: seq<byte>) returns (used: seq<byte>)
    requires !Composite(s) && !s.Str? && !s.Bool? && Parse(s, bs).Parsed?
    ensures bs == used + Parse(s, bs).rest && Rewrites(Encoding(s, Parse(s, bs).value), used, [])
  {
    hide Pow256, Digits, FromDigits;
    var w := match s case UInt(w) => w case SInt(w) => w case Char => 1 case Double => 8;
    used := bs[..w];
    DigitsOfFromDigits(used);
    NumberBounded(w, bs);
    UnsignedOfSigned(FromDigits(used), w);
  }

  lemma UnsignedOfSigned(n: nat, w: nat)
    requires n < Pow256(w)
    ensures Unsigned(n, w) == n && Unsigned(Signed(n, w), w) == n
  {
  }

  lemma BoolRewrites(bs: seq<byte>) returns (used: seq<byte>)
    requires bs != []
    ensures var p := Parse(Bool, bs);
            bs == used + p.rest && Rewrites(Encoding(Bool, p.value), used, p.flags)
  {
    used := [bs[0]];
    var e := if bs[0] != 0 then 1 else 0;
    assert [e] == used <==> e == bs[0];
    assert bs[0] in used;
  }

  lemma PrefixRewrites(bs: seq<byte>) returns (size: seq<byte>)
    requires ReadNumber(SIZE_WIDTH, bs).Some?
    ensures var r := ReadNumber(SIZE_WIDTH, bs);
            bs == size + r.rest && Rewrites(SizePrefix(r.value), size, [])
  {
    hide FromDigits, Digits;
    size := bs[..SIZE_WIDTH];
    SizeLimit();
    DigitsOfFromDigits(size);
    FromDigitsBounded(size);
  }

  lemma {:induction false} PartsRewrite(s: Schema, n: nat, bs: seq<byte>) returns (used: seq<byte>)
    requires Composite(s) && (s.Struct? ==> n <= |s.fields|) && ParseParts(s, n, bs).Parsed?
    ensures var p := ParseParts(s, n, bs);
            bs == used + p.rest && Rewrites(Encodings(s, p.value), used, p.flags)
    decreases s, 0, n
  {
    hide Parse, Encoding, Rewrites;
    if n == 0 {
      used := [];
      BytesRewrite([]);
    } else {
      var front := PartsRewrite(s, n - 1, bs);
      var p := ParseParts(s, n - 1, bs);
      var back := ParsedRewrites(Part(s, n - 1), p.rest);
      var q := Parse(Part(s, n - 1), p.rest);
      used := front + back;
      Assoc(front, back, q.rest);
      EncodingsSnoc(s, p.value, q.value);
      RewritesAppend(Encodings(s, p.value), front, p.flags, Encoding(Part(s, n - 1), q.value), back, q.flags);
    }
  }

  lemma BytesRewrite(bs: seq<byte>)
    ensures Rewrites(bs, bs, [])
  {
  }

  lemma {:induction false} ParsedRewrites(s: Schema, bs: seq<byte>) returns (used: seq<byte>)
    requires Parse(s, bs).Parsed?
    ensures var p := Parse(s, bs);
            bs == used + p.rest && Rewrites(Encoding(s, p.value), used, p.flags)
    decreases s, 1, 0
  {
    hide ParseParts, Encodings, ReadNumber, SizePrefix, Rewrites;
    match s
    case Bool => used := BoolRewrites(bs);
    case Str =>
      var size := PrefixRewrites(bs);
      var r := ReadNumber(SIZE_WIDTH, bs);
      var chars := r.rest[..r.value];
      used := size + chars;
      Assoc(size, chars, r.rest[r.value..]);
      BytesRewrite(chars);
      PrefixThen(SizePrefix(r.value), size, chars, chars, []);
    case Vec(_) =>
      var size := PrefixRewrites(bs);
      var r := ReadNumber(SIZE_WIDTH, bs);
      var back := PartsRewrite(s, r.value, r.rest);
      var p := ParseParts(s, r.value, r.rest);
      used := size + back;
      Assoc(size, back, p.rest);
      PrefixThen(SizePrefix(r.value), size, Encodings(s, p.value), back, p.flags);
    case Arr(_, len) => used := PartsRewrite(s, len, bs);
    case Struct(fields, _) => used := PartsRewrite(s, |fields|, bs);
    case _ => used := NumberRewrites(s, bs);
  }

  /** Writing back what was read into a blank target, in front of what was not read, gives the
      message back exactly if no boolean was sent as a byte above 1: the reader takes any
      byte but 0 for true, the writer sends 1. */
  lemma RewritesExactly(s: Schema, target: Value, bs: seq<byte>)
    requires Blank(s, target) && Read(s, target, bs).Some?
    ensures
      var r := Read(s, target, bs);
      && Parse(s, bs).Parsed? && HasType(r.value, s) && Sized(s, r.value)
      && |Encoding(s, r.value) + r.rest| == |bs|
      && (Encoding(s, r.value) + r.rest == bs <==> Normal(Parse(s, bs).flags))
  {
    hide Read, Parse, Blank, Merge, HasType, Sized, Encoding, Normal;
    var r, p := Read(s, target, bs), Parse(s, bs);
    ReadMergesParsed(s, target, bs);
    ParseTyped(s, bs);
    BlankMerge(s, target, p.value);
    var used := ParsedRewrites(s, bs);
    SameHalves(Encoding(s, r.value), r.rest, used, r.rest);
  }

  // ----- Parsing is the inverse of writing -----

  lemma {:induction false} MergesInjective(s: Schema, ts: seq<Value>, vs: seq<Value>, ws: seq<Value>)
    requires PartsTyped(s, vs) && PartsTyped(s, ws) && Merges(s, ts, vs) == Merges(s, ts, ws)
    ensures vs == ws
    decreases vs, 0
  {
    hide HasType, Merge;
    assert |vs| == |Merges(s, ts, vs)| == |ws|;
    if vs != [] {
      var n := |vs| - 1;
      var v, w := Merge(Part(s, n), Target(s, ts, n), vs[n]), Merge(Part(s, n), Target(s, ts, n), ws[n]);
      SameHalves(Merges(s, ts, vs[..n]), [v], Merges(s, ts, ws[..n]), [w]);
      MergesInjective(s, ts, vs[..n], ws[..n]);
      assert [v][0] == [w][0];
      MergeInjective(Part(s, n), Target(s, ts, n), vs[n], ws[n]);
      Unsnoc(vs);
      Unsnoc(ws);
    }
  }

  /** A target that was merged into still tells what was merged. */
  lemma {:induction false} MergeInjective(s: Schema, target: Value, v: Value, w: Value)
    requires HasType(v, s) && HasType(w, s) && Merge(s, target, v) == Merge(s, target, w)
    ensures v == w
    decreases v, 1
  {
    hide Merges;
    match s
    case Str => SameHalves(Chars(target), v.chars, Chars(target), w.chars);
    case Vec(_) =>
      SameHalves(Elems(target), Merges(s, [], v.elems), Elems(target), Merges(s, [], w.elems));
      MergesInjective(s, [], v.elems, w.elems);
    case Arr(_, _) => MergesInjective(s, Elems(target), v.elems, w.elems);
    case Struct(_, _) => MergesInjective(s, Elems(target), v.elems, w.elems);
    case _ =>
  }

  /** A message starts with the bytes of a value that fits its prefixes exactly if parsing
      finds that value there, stops right after it and meets no boolean byte above 1. So the
      bytes of one value of a type never start those of another. */
  lemma ParsesExactlyEncodings(s: Schema, bs: seq<byte>, v: Value, rest: seq<byte>)
    ensures
      (HasType(v, s) && Sized(s, v) && bs == Encoding(s, v) + rest) <==>
      var p := Parse(s, bs);
      p.Parsed? && p.value == v && p.rest == rest && Normal(p.flags)
  {
    hide Read, Parse, Merge, HasType, Sized, Encoding, Normal;
    var p := Parse(s, bs);
    if HasType(v, s) && Sized(s, v) && bs == Encoding(s, v) + rest {
      RoundTrip(s, Number(0), v, rest);
      ReadMergesParsed(s, Number(0), bs);
      ParseTyped(s, bs);
      MergeInjective(s, Number(0), v, p.value);
    }
    if p.Parsed? {
      ParseTyped(s, bs);
      var used := ParsedRewrites(s, bs);
      SameHalves(Encoding(s, p.value), p.rest, used, p.rest);
    }
  }
}

/** Reading typed values back out of a delivered message, on a little-endian host unless a
    method says otherwise. */
module Deserializer {
  import opened Wire
  import opened Integers
  import opened Schema
  import opened MessagePool

  /** An iterator into a message. */
  class MessageIter {
    const message: Buffer
    var pos: nat

    ghost predicate Valid()
      reads this, message
    {
      pos <= |message.bytes|
    }

    /** The bytes it has not passed yet. */
    ghost function Rest(): seq<byte>
      requires Valid()
      reads this, message
    {
      message.bytes[pos..]
    }

    constructor (message: Buffer)
      ensures Valid() && this.message == message && Rest() == message.bytes
    {
      this.message, pos := message, 0;
    }

    method Advance(w: nat)
      requires Valid() && w <= |Rest()|
      modifies this
      ensures Valid() && Rest() == old(Rest())[w..]
    {
      pos := pos + w;
    }
  }

  /** Fills the destination in host order, in place; a big-endian host gets nothing. */
  method NetToHostEndian(host: Host, src: seq<byte>, dest: array<byte>)
    requires |src| == dest.Length
    modifies dest
    ensures dest[..] == HostOrder(host, src, old(dest[..]))
  {
    if host.BigEndian? {
      return;
    }
    var size := dest.Length;
    for i := 0 to size
      invariant forall k | 0 <= k < i :: dest[k] == src[size - 1 - k]
    {
      dest[i] := src[size - 1 - i];
    }
    forall k | 0 <= k < size ensures dest[k] == Reverse(src)[k] {
      ReverseAt(src, k);
    }
    assert dest[..] == Reverse(src);
  }

  /** Reads as many bytes as the instance has, and moves past them on any host. */
  method ReadIntoInt(host: Host, iter: MessageIter, instance: array<byte>)
    requires iter.Valid() && instance.Length <= |iter.Rest()|
    modifies iter, instance
    ensures iter.Valid() && iter.Rest() == old(iter.Rest())[instance.Length..]
    ensures instance[..] == HostOrder(host, old(iter.Rest())[..instance.Length], old(instance[..]))
  {
    var src := iter.message.bytes[iter.pos..iter.pos + instance.Length];
    assert src == iter.Rest()[..instance.Length];
    NetToHostEndian(host, src, instance);
    iter.Advance(instance.Length);
  }

  method ReadInteger(iter: MessageIter, w: nat) returns (n: nat)
    requires iter.Valid() && w <= |iter.Rest()|
    modifies iter
    ensures iter.Valid() && ReadNumber(w, old(iter.Rest())) == Some(n, iter.Rest())
  {
    var instance := new byte[w];
    ghost var wire := iter.Rest()[..w];
    ReadIntoInt(LittleEndian, iter, instance);
    n := FromMemory(LittleEndian, instance[..]);
    ReverseTwice(wire);
  }

  method ReadChars(iter: MessageIter, n: nat) returns (chars: seq<byte>)
    requires iter.Valid() && n <= |iter.Rest()|
    modifies iter
    ensures iter.Valid() && chars == old(iter.Rest())[..n] && iter.Rest() == old(iter.Rest())[n..]
  {
    chars := [];
    ghost var all := iter.Rest();
    for i := 0 to n
      invariant iter.Valid() && iter.Rest() == all[i..] && chars == all[..i]
    {
      var c := ReadInteger(iter, 1);
      OneByte(all[i..]);
      chars := chars + [c];
      assert all[i..][1..] == all[i + 1..];
    }
  }

  /** Reads a value of type `s` into a target, provided the message is long enough: the code
      does not check. Strings and vectors grow, everything else is overwritten. */
  method ReadInto(s: Schema, target: Value, iter: MessageIter) returns (v: Value)
    requires iter.Valid() && Read(s, target, iter.Rest()).Some?
    modifies iter
    ensures iter.Valid() && Read(s, target, old(iter.Rest())) == Some(v, iter.Rest())
    decreases s, 1
  {
    match s {
      case UInt(w) =>
        var n := ReadInteger(iter, w);
        v := Number(n);
      case SInt(w) =>
        var n := ReadInteger(iter, w);
        v := Number(Signed(n, w));
      case Char =>
        var n := ReadInteger(iter, 1);
        v := Number(n);
      case Double =>
        var n := ReadInteger(iter, 8);
        v := Number(n);
      case Bool =>
        var n := ReadInteger(iter, 1);
        v := Flag(n != 0);
      case Str =>
        var n := ReadInteger(iter, SIZE_WIDTH);
        var chars := ReadChars(iter, n);
        v := Text(Chars(target) + chars);
      case Vec(_) =>
        var n := ReadInteger(iter, SIZE_WIDTH);
        var vs := ReadSeveral(s, [], n, iter);
        v := List(Elems(target) + vs);
      case Arr(_, len) =>
        var vs := ReadSeveral(s, Elems(target), len, iter);
        v := List([] + vs);
      case Struct(fields, _) =>
        var vs := ReadSeveral(s, Elems(target), |fields|, iter);
        v := List([] + vs);
    }
  }

  lemma {:induction false} EarlierPartsRead(s: Schema, ts: seq<Value>, i: nat, n: nat, bs: seq<byte>)
    requires Composite(s) && (s.Struct? ==> n <= |s.fields|) && i <= n
    requires ReadParts(s, ts, n, bs).Some?
    ensures ReadParts(s, ts, i, bs).Some?
    decreases n
  {
    if i < n {
      EarlierPartsRead(s, ts, i, n - 1, bs);
    }
  }

  /** Reads `n` parts in order, each into the existing instance if there is one and into a
      value-initialised one otherwise. */
  method ReadSeveral(s: Schema, ts: seq<Value>, n: nat, iter: MessageIter) returns (vs: seq<Value>)
    requires Composite(s) && (s.Struct? ==> n <= |s.fields|)
    requires iter.Valid() && ReadParts(s, ts, n, iter.Rest()).Some?
    modifies iter
    ensures iter.Valid() && ReadParts(s, ts, n, old(iter.Rest())) == Some(vs, iter.Rest())
    decreases s, 0
  {
    hide Read;
    vs := [];
    ghost var all := iter.Rest();
    for i := 0 to n
      invariant iter.Valid() && ReadParts(s, ts, i, all) == Some(vs, iter.Rest())
    {
      EarlierPartsRead(s, ts, i + 1, n, all);
      var v := ReadInto(Part(s, i), Target(s, ts, i), iter);
      vs := vs + [v];
    }
  }
}

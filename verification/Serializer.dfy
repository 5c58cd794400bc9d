/** Writing typed values into a message buffer, escaped byte by byte. */
module Serializer {
  import opened Wire
  import opened Sequences
  import opened Framing
  import opened Integers
  import opened Schema
  import opened MessagePool

  method WriteByte(v: byte, data: Buffer)
    modifies data
    ensures data.bytes == old(data.bytes) + if v == 255 then [255, 255] else [v]
    ensures data.bytes == old(data.bytes) + EscapeByte(v)
  {
    data.PushBack(v);
    if v == ESCAPE_VAL {
      data.PushBack(MSG_ORIGI_CHAR);
    }
  }

  method EndMsg(data: Buffer)
    modifies data
    ensures data.bytes == old(data.bytes) + [255, 0]
  {
    data.PushBack(ESCAPE_VAL);
    data.PushBack(MSG_END_ESCAPED);
  }

  lemma EscapedSnoc(before: seq<byte>, p: Payload, b: byte)
    ensures before + Escape(p) + EscapeByte(b) == before + Escape(p + [b])
  {
    EscapeSnoc(p, b);
    Assoc(before, Escape(p), EscapeByte(b));
  }

  lemma EscapedAppend(before: seq<byte>, p: Payload, q: Payload)
    ensures before + Escape(p) + Escape(q) == before + Escape(p + q)
  {
    EscapeAppend(p, q);
    Assoc(before, Escape(p), Escape(q));
  }

  method WriteForward(memory: seq<byte>, data: Buffer)
    modifies data
    ensures data.bytes == old(data.bytes) + Escape(memory)
  {
    hide Escape, EscapeByte;
    ghost var before := data.bytes;
    EscapeNone();
    for i := 0 to |memory|
      invariant data.bytes == before + Escape(memory[..i])
    {
      WriteByte(memory[i], data);
      EscapedSnoc(before, memory[..i], memory[i]);
      assert memory[..i + 1] == memory[..i] + [memory[i]];
    }
    assert memory[..|memory|] == memory;
  }

  lemma EscapeNone()
    ensures Escape([]) == []
  {
  }

  /** The loop from the last byte of the object down to its first. */
  method WriteBackward(memory: seq<byte>, data: Buffer)
    modifies data
    ensures data.bytes == old(data.bytes) + Escape(Reverse(memory))
  {
    hide Escape, EscapeByte;
    ghost var before := data.bytes;
    EscapeNone();
    var it := |memory| - 1;
    while it >= 0
      invariant -1 <= it < |memory|
      invariant data.bytes == before + Escape(Reverse(memory[it + 1..]))
    {
      WriteByte(memory[it], data);
      EscapedSnoc(before, Reverse(memory[it + 1..]), memory[it]);
      assert memory[it..][1..] == memory[it + 1..];
      it := it - 1;
    }
    assert memory[0..] == memory;
  }

  /** The object bytes, in network order if asked to correct for the host's, after a size
      prefix if asked for one. */
  method WriteIntoByteArray(host: Host, memory: seq<byte>, data: Buffer,
                            correctEndianness: bool, writeSize: bool)
    modifies data
    ensures data.bytes == old(data.bytes)
         + Escape((if writeSize then SizePrefix(|memory|) else [])
                  + (if correctEndianness then NetworkOrder(host, memory) else memory))
    decreases if writeSize then 2 else 0
  {
    ghost var before := data.bytes;
    ghost var prefix := if writeSize then SizePrefix(|memory|) else [];
    if writeSize {
      WriteNumber(host, |memory| % SIZE_LIMIT, SIZE_WIDTH, data);
    }
    assert data.bytes == before + Escape(prefix);
    if host.BigEndian? || !correctEndianness {
      WriteForward(memory, data);
      EscapedAppend(before, prefix, memory);
    } else {
      WriteBackward(memory, data);
      EscapedAppend(before, prefix, Reverse(memory));
    }
  }

  /** An integer of `w` bytes becomes its base-256 digits, whichever host writes it. */
  method WriteNumber(host: Host, n: nat, w: nat, data: Buffer)
    modifies data
    ensures data.bytes == old(data.bytes) + Escape(Digits(n, w))
    decreases 1
  {
    WriteIntoByteArray(host, Memory(host, n, w), data, true, false);
    NetworkOrderIsDigits(host, n, w);
    assert [] + Digits(n, w) == Digits(n, w);
  }

  method WriteChars(host: Host, chars: seq<byte>, data: Buffer)
    modifies data
    ensures data.bytes == old(data.bytes) + Escape(SizePrefix(|chars|) + chars)
  {
    hide Escape, SizePrefix;
    ghost var before, prefix := data.bytes, SizePrefix(|chars|);
    WriteSize(host, |chars|, data);
    assert prefix + chars[..0] == prefix;
    for i := 0 to |chars|
      invariant data.bytes == before + Escape(prefix + chars[..i])
    {
      WriteNumber(host, chars[i], 1, data);
      OneDigit(chars[i]);
      EscapedAppend(before, prefix + chars[..i], [chars[i]]);
      Assoc(prefix, chars[..i], [chars[i]]);
      assert chars[..i + 1] == chars[..i] + [chars[i]];
    }
    assert chars[..|chars|] == chars;
  }

  lemma OneDigit(b: byte)
    ensures Digits(b, 1) == [b]
  {
    assert Digits(b / 256, 0) == [];
  }

  method WriteSize(host: Host, n: nat, data: Buffer)
    modifies data
    ensures data.bytes == old(data.bytes) + Escape(SizePrefix(n))
  {
    WriteNumber(host, n % SIZE_LIMIT, SIZE_WIDTH, data);
  }

  /** Any value of any type: what is appended is its payload, escaped. */
  method WriteInto(host: Host, s: Schema, v: Value, data: Buffer)
    requires HasType(v, s)
    modifies data
    ensures data.bytes == old(data.bytes) + Escape(Encoding(s, v))
    decreases v, 1
  {
    match s {
      case UInt(w) => WriteNumber(host, v.i, w, data);
      case SInt(w) => WriteNumber(host, Unsigned(v.i, w), w, data);
      case Char => WriteNumber(host, v.i, 1, data);
      case Double => WriteNumber(host, v.i, 8, data);
      case Bool =>
        ghost var before := data.bytes;
        WriteByte(if v.b then 1 else 0, data);
        EscapeOne(if v.b then 1 else 0);
      case Str => WriteChars(host, v.chars, data);
      case Vec(_) =>
        ghost var before := data.bytes;
        WriteSize(host, |v.elems|, data);
        WriteParts(host, s, v.elems, data);
        EscapedAppend(before, SizePrefix(|v.elems|), Encodings(s, v.elems));
      case Arr(_, _) => WriteParts(host, s, v.elems, data);
      case Struct(_, _) => WriteParts(host, s, v.elems, data);
    }
  }

  /** The elements of a vector or array, or the fields of a struct, in order. */
  method WriteParts(host: Host, s: Schema, vs: seq<Value>, data: Buffer)
    requires PartsTyped(s, vs)
    modifies data
    ensures data.bytes == old(data.bytes) + Escape(Encodings(s, vs))
    decreases vs, 0
  {
    hide Escape, Encoding;
    ghost var before := data.bytes;
    EscapeNone();
    for i := 0 to |vs|
      invariant data.bytes == before + Escape(Encodings(s, vs[..i]))
    {
      WriteInto(host, Part(s, i), vs[i], data);
      EscapedAppend(before, Encodings(s, vs[..i]), Encoding(Part(s, i), vs[i]));
      EncodingsSnoc(s, vs[..i], vs[i]);
      assert vs[..i + 1] == vs[..i] + [vs[i]];
    }
    assert vs[..|vs|] == vs;
  }
}

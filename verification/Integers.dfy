/** Fixed-width integers: their digits on the wire, and their bytes in the memory of a host of
    either byte order. */
module Integers {
  import opened Wire
  import opened Sequences

  datatype Host = LittleEndian | BigEndian

  function Pow256(w: nat): (p: nat)
    ensures p > 0
  {
    if w == 0 then 1 else 256 * Pow256(w - 1)
  }

  /** The last `w` base-256 digits of `n`, most significant first. */
  function Digits(n: nat, w: nat): (bs: seq<byte>)
    ensures |bs| == w
  {
    if w == 0 then [] else Digits(n / 256, w - 1) + [n % 256]
  }

  function FromDigits(bs: seq<byte>): nat {
    if bs == [] then 0 else 256 * FromDigits(bs[..|bs| - 1]) + bs[|bs| - 1]
  }

  lemma FromDigitsSnoc(bs: seq<byte>, b: byte)
    ensures FromDigits(bs + [b]) == 256 * FromDigits(bs) + b
  {
    TakeSnoc(bs, b);
  }

  lemma {:induction false} DigitsReadBack(n: nat, w: nat)
    requires n < Pow256(w)
    ensures FromDigits(Digits(n, w)) == n
  {
    if w > 0 {
      DigitsReadBack(n / 256, w - 1);
      FromDigitsSnoc(Digits(n / 256, w - 1), n % 256);
    }
  }

  lemma {:induction false} FromDigitsBounded(bs: seq<byte>)
    ensures FromDigits(bs) < Pow256(|bs|)
  {
    if bs != [] {
      FromDigitsBounded(bs[..|bs| - 1]);
    }
  }

  lemma {:induction false} DigitsOfFromDigits(bs: seq<byte>)
    ensures Digits(FromDigits(bs), |bs|) == bs
  {
    if bs != [] {
      DigitsOfFromDigits(bs[..|bs| - 1]);
      Unsnoc(bs);
    }
  }

  // ----- The same in numbers -----

  lemma QuotientIs(n: nat, d: nat, q: nat, r: nat)
    requires n == q * d + r && r < d
    ensures n / d == q
  {
    var p := n / d;
    assert p < q ==> (p + 1) * d <= q * d;
    assert p > q ==> (q + 1) * d <= p * d;
  }

  lemma DivideTwice(n: nat, p: nat)
    requires p > 0
    ensures n / 256 / p == n / (256 * p)
  {
    var q, r := n / 256 / p, 256 * (n / 256 % p) + n % 256;
    assert n / 256 == q * p + n / 256 % p;
    assert n == q * (256 * p) + r;
    QuotientIs(n, 256 * p, q, r);
  }

  /** Most significant first: digit `k` of `w` counts 256 to the power of `w - 1 - k`. */
  lemma {:induction false} DigitAt(n: nat, w: nat, k: nat)
    requires k < w
    ensures Digits(n, w)[k] == n / Pow256(w - 1 - k) % 256
  {
    if k < w - 1 {
      DigitAt(n / 256, w - 1, k);
      DivideTwice(n, Pow256(w - 2 - k));
    }
  }

  // ----- Memory -----

  function Reverse(bs: seq<byte>): (r: seq<byte>)
    ensures |r| == |bs|
  {
    if bs == [] then [] else Reverse(bs[1..]) + [bs[0]]
  }

  lemma {:induction false} ReverseAt(bs: seq<byte>, k: nat)
    requires k < |bs|
    ensures Reverse(bs)[k] == bs[|bs| - 1 - k]
  {
    if k < |bs| - 1 {
      ReverseAt(bs[1..], k);
    }
  }

  lemma ReverseTwice(bs: seq<byte>)
    ensures Reverse(Reverse(bs)) == bs
  {
    forall k | 0 <= k < |bs| ensures Reverse(Reverse(bs))[k] == bs[k] {
      ReverseAt(Reverse(bs), k);
      ReverseAt(bs, |bs| - 1 - k);
    }
  }

  /** The bytes of an integer from its lowest address up. */
  function Memory(host: Host, n: nat, w: nat): (bs: seq<byte>)
    ensures |bs| == w
  {
    match host
    case BigEndian => Digits(n, w)
    case LittleEndian => LowFirst(n, w)
  }

  function LowFirst(n: nat, w: nat): (bs: seq<byte>)
    ensures |bs| == w
  {
    if w == 0 then [] else [n % 256] + LowFirst(n / 256, w - 1)
  }

  function FromMemory(host: Host, bs: seq<byte>): nat {
    match host
    case BigEndian => FromDigits(bs)
    case LittleEndian => FromDigits(Reverse(bs))
  }

  lemma {:induction false} ReverseLowFirst(n: nat, w: nat)
    ensures Reverse(LowFirst(n, w)) == Digits(n, w)
  {
    if w > 0 {
      ReverseLowFirst(n / 256, w - 1);
      assert LowFirst(n, w)[1..] == LowFirst(n / 256, w - 1);
    }
  }

  /** On a little-endian host the byte at offset `k` counts 256 to the power of `k`, on a
      big-endian one it is digit `k`. */
  lemma MemoryAt(host: Host, n: nat, w: nat, k: nat)
    requires k < w
    ensures Memory(host, n, w)[k] == n / Pow256(if host.LittleEndian? then k else w - 1 - k) % 256
  {
    match host
    case BigEndian => DigitAt(n, w, k);
    case LittleEndian =>
      ReverseLowFirst(n, w);
      ReverseAt(LowFirst(n, w), w - 1 - k);
      DigitAt(n, w, w - 1 - k);
  }

  lemma MemoryReadBack(host: Host, n: nat, w: nat)
    requires n < Pow256(w)
    ensures FromMemory(host, Memory(host, n, w)) == n
  {
    DigitsReadBack(n, w);
    ReverseLowFirst(n, w);
  }

  /** What the byte-order-correcting loop sends: the digits, whichever the writer's host. */
  function NetworkOrder(host: Host, memory: seq<byte>): seq<byte> {
    match host
    case BigEndian => memory
    case LittleEndian => Reverse(memory)
  }

  lemma NetworkOrderIsDigits(host: Host, n: nat, w: nat)
    ensures NetworkOrder(host, Memory(host, n, w)) == Digits(n, w)
  {
    ReverseLowFirst(n, w);
  }

  /** What the reader's conversion leaves in the destination: on a big-endian host it returns
      before writing anything. */
  function HostOrder(host: Host, wire: seq<byte>, dest: seq<byte>): seq<byte> {
    match host
    case BigEndian => dest
    case LittleEndian => Reverse(wire)
  }

  /** Reading an integer back recovers it on a little-endian host; on a big-endian host only
      if the destination held it already. */
  lemma IntegerReadsBack(writer: Host, reader: Host, n: nat, before: nat, w: nat)
    requires n < Pow256(w) && before < Pow256(w)
    ensures
      var wire := NetworkOrder(writer, Memory(writer, n, w));
      var read := HostOrder(reader, wire, Memory(reader, before, w));
      FromMemory(reader, read) == n <==> reader.LittleEndian? || before == n
  {
    NetworkOrderIsDigits(writer, n, w);
    ReverseTwice(Digits(n, w));
    DigitsReadBack(n, w);
    MemoryReadBack(reader, before, w);
  }

  // ----- Two's complement -----

  ghost predicate Fits(i: int, w: nat) {
    0 <= 2 * i + Pow256(w) && 2 * i < Pow256(w)
  }

  /** The pattern of a `w`-byte integer as a natural number; 0 for one that is too negative
      to have a pattern. */
  function Unsigned(i: int, w: nat): nat {
    if i >= 0 then i else if i + Pow256(w) >= 0 then i + Pow256(w) else 0
  }

  function Signed(n: nat, w: nat): int {
    if 2 * n < Pow256(w) then n else n - Pow256(w)
  }

  /** The bytes sent for a signed integer: those of the number itself, or, if it is negative,
      of the number plus 256 to the power of the width. */
  lemma TwosComplement(i: int, w: nat)
    requires Fits(i, w)
    ensures FromDigits(Digits(Unsigned(i, w), w)) == if i < 0 then i + Pow256(w) else i
  {
    DigitsReadBack(Unsigned(i, w), w);
  }

  lemma SignedReadsBack(i: int, w: nat)
    requires Fits(i, w)
    ensures Signed(FromDigits(Digits(Unsigned(i, w), w)), w) == i
  {
    DigitsReadBack(Unsigned(i, w), w);
  }
}

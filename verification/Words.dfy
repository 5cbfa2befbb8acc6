/** Bytes, 16- and 32-bit little-endian words in byte sequences, and arithmetic modulo 2^32. */
module Words {

  type Byte = x: int | 0 <= x < 0x100
  type Half = x: int | 0 <= x < 0x1_0000
  type Dword = x: int | 0 <= x < 0x1_0000_0000

  type Bytes = seq<Byte>

  /** Reduction of any integer to the 32-bit word the machine would keep. */
  function Wrap(x: int): Dword {
    x % 0x1_0000_0000
  }

  function Max(a: nat, b: nat): nat {
    if a < b then b else a
  }

  lemma WrapSum(a: int, b: int)
    ensures Wrap(Wrap(a) + Wrap(b)) == Wrap(a + b)
  {
  }

  lemma WrapMultiple(v: int, q: int)
    ensures Wrap(v + 0x1_0000_0000 * q) == Wrap(v)
  {
  }

  function ReadHalf(b: Bytes, at: nat): Half
    requires at + 2 <= |b|
  {
    b[at] as int + b[at + 1] as int * 0x100
  }

  function ReadDword(b: Bytes, at: nat): Dword
    requires at + 4 <= |b|
  {
    b[at] as int + b[at + 1] as int * 0x100 + b[at + 2] as int * 0x1_0000 + b[at + 3] as int * 0x100_0000
  }

  function WriteDword(b: Bytes, at: nat, v: Dword): (r: Bytes)
    requires at + 4 <= |b|
    ensures |r| == |b|
  {
    var v1 := v / 0x100;
    var v2 := v1 / 0x100;
    b[at := v % 0x100][at + 1 := v1 % 0x100][at + 2 := v2 % 0x100][at + 3 := v2 / 0x100]
  }

  /** The addresses `lo <= k < hi`. */
  datatype Span = Span(lo: nat, hi: nat) {
    predicate Apart(other: Span) {
      hi <= other.lo || other.hi <= lo
    }
  }

  /** The four addresses of the dword at `at`. */
  function DwordSpan(at: nat): Span {
    Span(at, at + 4)
  }

  /** `a` and `b` have the same size and the same bytes in `span`. */
  ghost predicate SameIn(a: Bytes, b: Bytes, span: Span) {
    |a| == |b| && forall k :: span.lo <= k < span.hi && k < |a| ==> a[k] == b[k]
  }

  /** `a` and `b` have the same size and the same bytes in each of `spans`. */
  ghost predicate SameOn(a: Bytes, b: Bytes, spans: set<Span>) {
    |a| == |b| && forall s :: s in spans ==> SameIn(a, b, s)
  }

  lemma ReadWritten(b: Bytes, at: nat, v: Dword)
    requires at + 4 <= |b|
    ensures ReadDword(WriteDword(b, at, v), at) == v
  {
  }

  lemma LowByte(low: int, rest: int)
    requires 0 <= low < 0x100
    ensures (low + 0x100 * rest) % 0x100 == low && (low + 0x100 * rest) / 0x100 == rest
  {
  }

  lemma WriteRead(b: Bytes, at: nat)
    requires at + 4 <= |b|
    ensures WriteDword(b, at, ReadDword(b, at)) == b
  {
    var b1: int, b2: int, b3: int := b[at + 1], b[at + 2], b[at + 3];
    LowByte(b[at], b1 + 0x100 * (b2 + 0x100 * b3));
    LowByte(b[at + 1], b2 + 0x100 * b3);
    LowByte(b[at + 2], b3);
  }

  /** A write is determined by the dword it leaves and by the bytes it leaves alone. */
  lemma WriteDetermined(b: Bytes, at: nat, v: Dword, c: Bytes)
    requires |b| == |c| && at + 4 <= |b| && ReadDword(c, at) == v
    requires forall k :: 0 <= k < |b| && (k < at || at + 4 <= k) ==> b[k] == c[k]
    ensures WriteDword(b, at, v) == c
  {
    WriteRead(c, at);
    assert WriteDword(b, at, v) == WriteDword(c, at, v);
  }

  lemma WriteTwice(b: Bytes, at: nat, v: Dword, w: Dword)
    requires at + 4 <= |b|
    ensures WriteDword(WriteDword(b, at, v), at, w) == WriteDword(b, at, w)
  {
  }

  lemma WritesCommute(b: Bytes, s: nat, v: Dword, t: nat, w: Dword)
    requires s + 4 <= |b| && t + 4 <= |b|
    requires s + 4 <= t || t + 4 <= s
    ensures WriteDword(WriteDword(b, s, v), t, w) == WriteDword(WriteDword(b, t, w), s, v)
  {
  }

  /** A dword read depends on its own four bytes only. */
  lemma ReadSame(a: Bytes, b: Bytes, at: nat)
    requires at + 4 <= |a| && SameIn(a, b, DwordSpan(at))
    ensures ReadDword(a, at) == ReadDword(b, at)
  {
  }

  /** A dword write changes nothing in a span it does not touch. */
  lemma WriteApart(b: Bytes, at: nat, v: Dword, span: Span)
    requires at + 4 <= |b| && DwordSpan(at).Apart(span)
    ensures SameIn(WriteDword(b, at, v), b, span)
  {
  }
}

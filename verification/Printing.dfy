/** Words as the bytes that a linker writes, and where a byte sequence holds them. */
module Printing {
  import opened Words

  /** Least significant byte first. */
  function PrintHalf(v: Half): (b: Bytes)
    ensures |b| == 2
  {
    [v % 0x100, v / 0x100]
  }

  function PrintDword(v: Dword): (b: Bytes)
    ensures |b| == 4
  {
    [v % 0x100, v / 0x100 % 0x100, v / 0x100 / 0x100 % 0x100, v / 0x100 / 0x100 / 0x100]
  }

  function PrintDwords(vs: seq<Dword>): (b: Bytes)
    ensures |b| == 4 * |vs|
  {
    if vs == [] then [] else PrintDword(vs[0]) + PrintDwords(vs[1..])
  }

  /** `piece` stands in `b` at `at`. */
  ghost predicate Holds(b: Bytes, at: nat, piece: Bytes) {
    at + |piece| <= |b| && b[at..at + |piece|] == piece
  }

  lemma HoldsParts(b: Bytes, at: nat, first: Bytes, rest: Bytes)
    requires Holds(b, at, first + rest)
    ensures Holds(b, at, first) && Holds(b, at + |first|, rest)
  {
    var piece := b[at..at + |first + rest|];
    assert piece[..|first|] == first && piece[|first|..] == rest;
  }

  lemma HalfRead(b: Bytes, at: nat, v: Half)
    requires Holds(b, at, PrintHalf(v))
    ensures ReadHalf(b, at) == v
  {
    var piece := b[at..at + 2];
    assert b[at] == piece[0] && b[at + 1] == piece[1];
  }

  lemma DwordRead(b: Bytes, at: nat, v: Dword)
    requires Holds(b, at, PrintDword(v))
    ensures ReadDword(b, at) == v
  {
    var piece := b[at..at + 4];
    assert b[at] == piece[0] && b[at + 1] == piece[1] && b[at + 2] == piece[2] && b[at + 3] == piece[3];
  }

  /** A printed word that another follows. */
  lemma NextDword(b: Bytes, at: nat, v: Dword, rest: Bytes)
    requires Holds(b, at, PrintDword(v) + rest)
    ensures at + 4 <= |b| && ReadDword(b, at) == v && Holds(b, at + 4, rest)
  {
    HoldsParts(b, at, PrintDword(v), rest);
    DwordRead(b, at, v);
  }

  lemma NextHalf(b: Bytes, at: nat, v: Half, rest: Bytes)
    requires Holds(b, at, PrintHalf(v) + rest)
    ensures at + 2 <= |b| && ReadHalf(b, at) == v && Holds(b, at + 2, rest)
  {
    HoldsParts(b, at, PrintHalf(v), rest);
    HalfRead(b, at, v);
  }

  // ---------- Printing what was read ----------

  function ReadDwords(b: Bytes, at: nat, n: nat): (vs: seq<Dword>)
    requires at + 4 * n <= |b|
    ensures |vs| == n
    decreases n
  {
    if n == 0 then [] else [ReadDword(b, at)] + ReadDwords(b, at + 4, n - 1)
  }

  lemma HoldsJoined(b: Bytes, at: nat, first: Bytes, rest: Bytes)
    requires Holds(b, at, first) && Holds(b, at + |first|, rest)
    ensures Holds(b, at, first + rest)
  {
    assert b[at..at + |first + rest|] == b[at..at + |first|] + b[at + |first|..at + |first| + |rest|];
  }

  lemma HalfPrinted(b: Bytes, at: nat)
    requires at + 2 <= |b|
    ensures Holds(b, at, PrintHalf(ReadHalf(b, at)))
  {
    LowByte(b[at], b[at + 1]);
    assert b[at..at + 2] == [b[at], b[at + 1]];
  }

  lemma DwordPrinted(b: Bytes, at: nat)
    requires at + 4 <= |b|
    ensures Holds(b, at, PrintDword(ReadDword(b, at)))
  {
    var b1: int, b2: int, b3: int := b[at + 1], b[at + 2], b[at + 3];
    LowByte(b[at], b1 + 0x100 * (b2 + 0x100 * b3));
    LowByte(b[at + 1], b2 + 0x100 * b3);
    LowByte(b[at + 2], b3);
    assert b[at..at + 4] == [b[at], b[at + 1], b[at + 2], b[at + 3]];
  }

  lemma {:induction false} DwordsPrinted(b: Bytes, at: nat, n: nat)
    requires at + 4 * n <= |b|
    ensures Holds(b, at, PrintDwords(ReadDwords(b, at, n)))
    decreases n
  {
    hide ReadDword, PrintDword;
    if n > 0 {
      var vs := ReadDwords(b, at, n);
      DwordPrinted(b, at);
      DwordsPrinted(b, at + 4, n - 1);
      assert vs[1..] == ReadDwords(b, at + 4, n - 1);
      HoldsJoined(b, at, PrintDword(vs[0]), PrintDwords(vs[1..]));
    }
  }
}

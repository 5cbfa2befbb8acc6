/** The hexadecimal printer and parser of the L2 bootstrap. */
module HexText {
  import opened Words
  import opened Wrappers

  const PREFIX: Bytes := [0x30, 0x78]

  /** The `n`-th of the characters `0123456789abcdef`. */
  function HexChar(n: nat): (c: Byte)
    requires n < 16
    ensures DigitValue(c) == Some(n)
  {
    if n < 10 then 0x30 + n else 0x61 + n - 10
  }

  /** What a digit of either case stands for. */
  function DigitValue(c: Byte): (v: Option<nat>)
    ensures v.Some? ==> v.value < 16 && 0x30 <= c <= 0x66
  {
    if 0x30 <= c <= 0x39 then Some(c - 0x30)
    else if 0x41 <= c <= 0x46 then Some(c - 0x41 + 10)
    else if 0x61 <= c <= 0x66 then Some(c - 0x61 + 10)
    else None
  }

  // ---------- Numerals ----------

  /** The digits of a value, least significant first; none for zero. */
  function Digits(value: nat): Bytes {
    if value == 0 then [] else [HexChar(value % 16)] + Digits(value / 16)
  }

  function Reversed(s: Bytes): (r: Bytes)
    ensures |r| == |s| && forall k :: 0 <= k < |s| ==> r[k] == s[|s| - 1 - k]
  {
    if s == [] then [] else Reversed(s[1..]) + [s[0]]
  }

  /** The digits of a value, most significant first. */
  function Numeral(value: nat): Bytes {
    Reversed(Digits(value))
  }

  ghost predicate AllDigits(s: Bytes) {
    forall k :: 0 <= k < |s| ==> DigitValue(s[k]).Some?
  }

  /** What a numeral of any length stands for. */
  function ValueOf(s: Bytes): nat
    requires AllDigits(s)
  {
    if s == [] then 0 else ValueOf(s[..|s| - 1]) * 16 + DigitValue(s[|s| - 1]).value
  }

  lemma {:induction false} NumeralMeans(value: nat)
    ensures AllDigits(Numeral(value)) && ValueOf(Numeral(value)) == value
  {
    if value != 0 {
      NumeralMeans(value / 16);
      var s := Digits(value);
      assert s[1..] == Digits(value / 16);
      assert Numeral(value) == Numeral(value / 16) + [HexChar(value % 16)];
      assert Numeral(value)[..|Numeral(value)| - 1] == Numeral(value / 16);
    }
  }

  lemma {:induction false} NumeralShape(value: nat)
    requires value != 0
    ensures Numeral(value) != [] && Numeral(value)[0] != HexChar(0)
    ensures value < 0x1_0000_0000 ==> |Numeral(value)| <= 8
  {
    DigitsShape(value, 8);
  }

  lemma {:induction false} DigitsShape(value: nat, n: nat)
    requires value != 0
    ensures Digits(value) != [] && Digits(value)[|Digits(value)| - 1] != HexChar(0)
    ensures value < Power16(n) ==> |Digits(value)| <= n
    decreases value
  {
    if value >= 16 {
      DigitsShape(value / 16, if n == 0 then 0 else n - 1);
    }
  }

  function Power16(n: nat): nat {
    if n == 0 then 1 else 16 * Power16(n - 1)
  }

  // ---------- The printer ----------

  /** The bytes that the printer leaves; for zero it writes no digit, and the reversal swaps the prefix with the end. */
  function Printed(value: Dword): Bytes {
    if value == 0 then [PREFIX[0], 0, PREFIX[1]] else PREFIX + Numeral(value) + [0]
  }

  /** `now` is `was` with the bytes from `first` to `last`, or from `last` to `first`, in reverse order. */
  ghost predicate IsReversal(was: Bytes, now: Bytes, first: nat, last: nat) {
    && |now| == |was| && first < |was| && last < |was|
    && forall k :: 0 <= k < |was| ==>
         now[k] == was[if first <= k <= last || last <= k <= first then first + last - k else k]
  }

  /** Reverses the bytes from `first` to `last` by swapping until the two meet; it swaps once in any case. */
  method ReverseBytes(a: array<Byte>, first: nat, last: nat)
    requires last < a.Length && first < a.Length && first <= last + 1
    modifies a
    ensures IsReversal(old(a[..]), a[..], first, last)
  {
    var low, high, again := first, last, true;
    while again
      invariant first <= low && low + high == first + last
      invariant if low == first then again else low <= last + 1 || last < first
      invariant again ==> low <= high || low == first
      invariant !again ==> high <= low
      invariant forall k :: 0 <= k < a.Length ==>
        var swapped := first <= k <= last || last <= k <= first;
        a[k] == if swapped && (k < low || high < k) && low != first then old(a[first + last - k]) else old(a[k])
      decreases last + 1 - low, again
    {
      a[low], a[high] := a[high], a[low];
      low, high := low + 1, high - 1;
      again := low < high;
    }
  }

  /** Its letters are in lower case. */
  lemma {:induction false} NumeralIsLowerCase(value: nat)
    ensures forall k :: 0 <= k < |Numeral(value)| ==>
              0x30 <= Numeral(value)[k] <= 0x39 || 0x61 <= Numeral(value)[k] <= 0x66
  {
    if value != 0 {
      NumeralIsLowerCase(value / 16);
      assert Digits(value)[1..] == Digits(value / 16);
      assert Numeral(value) == Numeral(value / 16) + [HexChar(value % 16)];
    }
  }

  /** The printer writes 0x1F as `0x1f` and a terminator. */
  lemma PrintedExample()
    ensures Printed(0x1F) == [0x30, 0x78, 0x31, 0x66, 0]
  {
    DigitsUnfold(0x1F);
    DigitsUnfold(1);
    assert Digits(0x1F) == [0x66, 0x31];
    assert Reversed([0x66, 0x31]) == [0x31, 0x66];
  }

  lemma DigitsUnfold(value: nat)
    ensures value != 0 ==> Digits(value) == [HexChar(value % 16)] + Digits(value / 16)
    ensures value == 0 ==> Digits(value) == []
  {
  }

  /** Writes the digits of the value, least significant first. */
  method EmitDigits(a: array<Byte>, start: nat, value: Dword) returns (end: nat)
    requires start + |Digits(value)| <= a.Length
    modifies a
    ensures end == start + |Digits(value)| && a[start..end] == Digits(value)
    ensures forall k :: 0 <= k < a.Length && !(start <= k < end) ==> a[k] == old(a[k])
  {
    hide Digits, HexChar;
    ghost var digits := Digits(value);
    var rest := value;
    end := start;
    while rest != 0
      invariant start <= end && end + |Digits(rest)| == start + |digits|
      invariant a[start..end] + Digits(rest) == digits
      invariant forall k :: 0 <= k < a.Length && !(start <= k < end) ==> a[k] == old(a[k])
      decreases rest
    {
      DigitsUnfold(rest);
      ghost var done := a[start..end];
      a[end] := HexChar(rest % 16);
      assert a[start..end + 1] == done + [HexChar(rest % 16)];
      rest := rest / 16;
      end := end + 1;
    }
    DigitsUnfold(0);
  }

  lemma Assemble(s: Bytes, at: nat, n: nat)
    requires at + n + 3 <= |s| && s[at] == PREFIX[0] && s[at + 1] == PREFIX[1] && s[at + 2 + n] == 0
    ensures s[at..at + n + 3] == PREFIX + s[at + 2..at + 2 + n] + [0]
  {
  }

  /** The bytes at `dest` before the digits are reversed. */
  ghost predicate HoldsDigits(b: Bytes, dest: nat, value: Dword) {
    var n := |Digits(value)|;
    && dest + n + 3 <= |b|
    && b[dest] == PREFIX[0] && b[dest + 1] == PREFIX[1] && b[dest + 2 + n] == 0
    && b[dest + 2..dest + 2 + n] == Digits(value)
  }

  lemma ZeroPrints(was: Bytes, now: Bytes, dest: nat)
    requires HoldsDigits(was, dest, 0) && IsReversal(was, now, dest + 2, dest + 1)
    ensures now[dest..dest + 3] == Printed(0)
  {
  }

  lemma ReversalPrints(was: Bytes, now: Bytes, dest: nat, value: Dword)
    requires HoldsDigits(was, dest, value) && IsReversal(was, now, dest + 2, dest + 1 + |Digits(value)|)
    ensures |Printed(value)| == |Digits(value)| + 3
    ensures now[dest..dest + |Printed(value)|] == Printed(value)
  {
    hide Digits;
    DigitsUnfold(value);
    if value == 0 {
      ZeroPrints(was, now, dest);
    } else {
      var digits, n := was[dest + 2..dest + 2 + |Digits(value)|], |Digits(value)|;
      forall k | 0 <= k < n
        ensures now[dest + 2 + k] == Numeral(value)[k]
      {
        assert was[dest + 2 + (n - 1 - k)] == digits[n - 1 - k];
      }
      hide Numeral;
      assert now[dest + 2..dest + 2 + n] == Numeral(value);
      Assemble(now, dest, n);
    }
  }

  lemma ReversalKeeps(was: Bytes, now: Bytes, first: nat, last: nat)
    requires IsReversal(was, now, first, last)
    ensures |now| == |was|
    ensures forall k :: 0 <= k < |was| && !(first <= k <= last) && !(last <= k <= first) ==> now[k] == was[k]
  {
  }

  /** The bytes before the reversal: `written` with the terminator after the digits. */
  lemma DigitsAreHeld(before: Bytes, written: Bytes, was: Bytes, dest: nat, value: Dword)
    requires var n := |Digits(value)|;
             && dest + n + 3 <= |before| == |written|
             && was == written[dest + 2 + n := 0]
             && written[dest] == PREFIX[0] && written[dest + 1] == PREFIX[1]
             && written[dest + 2..dest + 2 + n] == Digits(value)
             && forall k :: 0 <= k < |before| && !(dest <= k < dest + 2 + n) ==> written[k] == before[k]
    ensures HoldsDigits(was, dest, value) && |was| == |before|
    ensures forall k :: 0 <= k < |before| && !(dest <= k < dest + |Digits(value)| + 3) ==> was[k] == before[k]
  {
    hide Digits;
    assert was[dest + 2..dest + 2 + |Digits(value)|] == written[dest + 2..dest + 2 + |Digits(value)|];
  }

  /** And after it. */
  lemma PrintsInPlace(before: Bytes, was: Bytes, now: Bytes, dest: nat, value: Dword)
    requires HoldsDigits(was, dest, value) && |was| == |before|
    requires forall k :: 0 <= k < |before| && !(dest <= k < dest + |Digits(value)| + 3) ==> was[k] == before[k]
    requires IsReversal(was, now, dest + 2, dest + 1 + |Digits(value)|)
    ensures |now| == |before| && |Printed(value)| == |Digits(value)| + 3 && dest + |Printed(value)| <= |now|
    ensures now[dest..dest + |Printed(value)|] == Printed(value)
    ensures forall k :: 0 <= k < |now| && !(dest <= k < dest + |Printed(value)|) ==> now[k] == before[k]
  {
    hide Digits, Printed, IsReversal;
    ReversalPrints(was, now, dest, value);
    ReversalKeeps(was, now, dest + 2, dest + 1 + |Digits(value)|);
  }

  /** Writes the value at `dest` as a terminated numeral, and nothing else. */
  method IntegerToHex(a: array<Byte>, dest: nat, value: Dword)
    requires dest + |Digits(value)| + 3 <= a.Length
    modifies a
    ensures a[dest..dest + |Printed(value)|] == Printed(value)
    ensures forall k :: 0 <= k < a.Length && !(dest <= k < dest + |Printed(value)|) ==> a[k] == old(a[k])
  {
    hide Digits, HexChar, Printed, IsReversal, HoldsDigits;
    ghost var before := a[..];
    a[dest], a[dest + 1] := PREFIX[0], PREFIX[1];
    var start := dest + 2;
    var end := EmitDigits(a, start, value);
    ghost var written := a[..];
    // The terminator comes before the reversal.
    a[end] := 0;
    ghost var was := a[..];
    DigitsAreHeld(before, written, was, dest, value);
    ReverseBytes(a, start, end - 1);
    PrintsInPlace(before, was, a[..], dest, value);
  }

  // ---------- The parser ----------

  /** `Diverges`: a character above `f` keeps the parser comparing it for ever. `Undefined`: no terminator follows. */
  datatype Outcome = NoPrefix | Number(value: Dword, next: nat) | Diverges | Undefined

  /** Accumulates the digits at `p`. */
  function Scan(s: Bytes, p: nat, acc: Dword): Outcome
    decreases |s| - p
  {
    if p >= |s| then Undefined
    else if DigitValue(s[p]).Some? then Scan(s, p + 1, Wrap(acc * 16 + DigitValue(s[p]).value))
    else if s[p] > 0x66 then Diverges
    else Number(acc, p)
  }

  function Parse(s: Bytes, p: nat): Outcome {
    if p + 2 > |s| then Undefined
    else if s[p..p + 2] != PREFIX then NoPrefix
    else Scan(s, p + 2, 0)
  }

  /** Reads a prefixed numeral of either case at `p`, modulo 2^32. */
  method ParseInteger(s: Bytes, p: nat) returns (r: Outcome)
    requires !Parse(s, p).Undefined?
    ensures r == Parse(s, p)
  {
    if s[p] != 0x30 || s[p + 1] != 0x78 {
      return NoPrefix;
    }
    var esi, eax: Dword := p + 2, 0;
    while s[esi] != 0
      invariant esi < |s| && Scan(s, esi, eax) == Parse(s, p)
      decreases |s| - esi
    {
      var ecx: Dword := s[esi];
      if ecx < 0x30 {
        break;
      }
      if ecx <= 0x39 {
        ecx := ecx - 0x30;
      } else {
        if ecx < 0x41 {
          break;
        }
        if ecx <= 0x46 {
          ecx := ecx - (0x41 - 10);
        } else {
          if ecx < 0x61 {
            break;
          }
          if ecx > 0x66 {
            // The source jumps back to this comparison, with the same character.
            return Diverges;
          }
          ecx := ecx - (0x61 - 10);
        }
      }
      eax := Wrap(eax * 16 + ecx);
      esi := esi + 1;
    }
    r := Number(eax, esi);
  }

  // ---------- Round trips ----------

  lemma ScanStep(s: Bytes, p: nat, acc: Dword)
    requires p < |s| && DigitValue(s[p]).Some?
    ensures Scan(s, p, acc) == Scan(s, p + 1, Wrap(acc * 16 + DigitValue(s[p]).value))
  {
  }

  lemma ValueStep(digits: Bytes)
    requires AllDigits(digits) && digits != []
    ensures var n := |digits| - 1;
            AllDigits(digits[..n]) && ValueOf(digits) == ValueOf(digits[..n]) * 16 + DigitValue(digits[n]).value
  {
  }

  /** Any run of digits, of either case and any length, is read to its value modulo 2^32. */
  lemma {:induction false} ScansNumeral(s: Bytes, p: nat, digits: Bytes)
    requires AllDigits(digits) && p + |digits| <= |s|
    requires forall k :: 0 <= k < |digits| ==> s[p + k] == digits[k]
    ensures Scan(s, p, 0) == Scan(s, p + |digits|, Wrap(ValueOf(digits)))
  {
    hide Scan, DigitValue;
    if digits != [] {
      hide ValueOf, Wrap;
      var n := |digits| - 1;
      ValueStep(digits);
      ScansNumeral(s, p, digits[..n]);
      assert s[p + n] == digits[n];
      ScanStep(s, p + n, Wrap(ValueOf(digits[..n])));
      WrapTwice(ValueOf(digits[..n]), DigitValue(digits[n]).value);
    }
  }

  lemma WrapTwice(v: nat, d: nat)
    ensures Wrap(Wrap(v) * 16 + d) == Wrap(v * 16 + d)
  {
    var q := v / 0x1_0000_0000;
    assert v * 16 + d == (Wrap(v) * 16 + d) + 0x1_0000_0000 * (q * 16);
    WrapMultiple(Wrap(v) * 16 + d, q * 16);
  }

  /** What the parser accepts: prefix, digits, and then a character that is no digit and not above `f`. */
  lemma ParsesNumerals(s: Bytes, p: nat, digits: Bytes)
    requires AllDigits(digits) && p + 2 + |digits| < |s|
    requires s[p..p + 2] == PREFIX && s[p + 2..p + 2 + |digits|] == digits && DigitValue(s[p + 2 + |digits|]).None?
    ensures Parse(s, p) == if s[p + 2 + |digits|] > 0x66 then Diverges
                           else Number(Wrap(ValueOf(digits)), p + 2 + |digits|)
  {
    hide ValueOf;
    var t := s[p + 2..p + 2 + |digits|];
    assert forall k :: 0 <= k < |digits| ==> s[p + 2 + k] == t[k];
    ScansNumeral(s, p + 2, digits);
  }

  /** Printing and then parsing gives the value back, stopping at the terminator, exactly when it is not zero. */
  lemma RoundTrip(value: Dword, before: Bytes, after: Bytes)
    ensures var p, s := |before|, before + Printed(value) + after;
            Parse(s, p) == if value == 0 then NoPrefix else Number(value, p + 2 + |Numeral(value)|)
    ensures value != 0 ==> (before + Printed(value) + after)[|before| + 2 + |Numeral(value)|] == 0
  {
    hide Scan, Numeral;
    var p, s := |before|, before + Printed(value) + after;
    if value == 0 {
      assert s[p..p + 2][1] == s[p + 1] == Printed(0)[1];
    } else {
      var numeral := Numeral(value);
      assert s[p..p + 2] == PREFIX && s[p + 2..p + 2 + |numeral|] == numeral;
      NumeralMeans(value);
      ParsesNumerals(s, p, numeral);
    }
  }

  /** The longest run of digits at `p`. */
  function DigitRun(s: Bytes, p: nat): (n: nat)
    ensures p <= |s| ==> p + n <= |s|
    decreases |s| - p
  {
    if p >= |s| || DigitValue(s[p]).None? then 0 else 1 + DigitRun(s, p + 1)
  }

  /** The parser hangs exactly on a prefixed numeral that is followed by a character above `f`. */
  lemma {:induction false} DivergesExactly(s: Bytes, p: nat, acc: Dword)
    requires p <= |s|
    ensures var q := p + DigitRun(s, p);
            && (Scan(s, p, acc).Diverges? <==> q < |s| && s[q] > 0x66)
            && (Scan(s, p, acc).Undefined? <==> q == |s|)
            && (Scan(s, p, acc).Number? ==> Scan(s, p, acc).next == q)
    decreases |s| - p
  {
    if p < |s| && DigitValue(s[p]).Some? {
      DivergesExactly(s, p + 1, Wrap(acc * 16 + DigitValue(s[p]).value));
    }
  }

  /** On a terminated string with no character above `f` after its prefix the parser always stops. */
  lemma Terminates(s: Bytes, p: nat, end: nat)
    requires p + 2 <= |s| && p <= end < |s| && s[end] == 0
    requires forall k :: p + 2 <= k < end ==> s[k] <= 0x66
    ensures Parse(s, p).NoPrefix? || Parse(s, p).Number?
  {
    if s[p..p + 2] == PREFIX {
      assert s[p] == s[p..p + 2][0] && s[p + 1] == s[p..p + 2][1];
      DivergesExactly(s, p + 2, 0);
      RunStops(s, p + 2, end);
    }
  }

  lemma {:induction false} RunStops(s: Bytes, p: nat, end: nat)
    requires p <= end < |s| && s[end] == 0
    ensures p + DigitRun(s, p) <= end
    decreases end - p
  {
    if p < end && DigitValue(s[p]).Some? {
      RunStops(s, p + 1, end);
    }
  }
}

/** What overlapping relocation sites do: the rebasing law holds exactly for tables without them. */
module Overlaps {
  import opened Words
  import opened Relocation
  import LoadSpec

  // ---------- One addition, byte by byte ----------

  /** The weight of byte `j` of a dword. */
  function Weight(j: nat): nat {
    if j == 0 then 1 else if j == 1 then 0x100 else 0x1_0000
  }

  /** The delta that adds `p` to the top byte of a dword and `q` to byte `j`. */
  function Delta(j: nat, p: nat, q: nat): nat {
    p * 0x100_0000 + q * Weight(j)
  }

  lemma TopByteWraps(low: int, b3: Byte, p: nat)
    requires 0 <= low < 0x100_0000 && p <= 1
    ensures Wrap(low + b3 * 0x100_0000 + p * 0x100_0000) == low + (b3 + p) % 0x100 * 0x100_0000
  {
    assert b3 + p < 0x100 || (b3 + p) % 0x100 == 0;
  }

  /** Where no byte overflows into the next, an addition adds to two bytes, and the top one drops its carry. */
  lemma AddsToBytes(image: Bytes, u: nat, j: nat, p: nat, q: nat)
    requires u + 4 <= |image| && j < 3 && p <= 1 && q <= 1 && image[u + j] + q <= 0xFF
    ensures AddDword(image, u, Delta(j, p, q)) == image[u + j := image[u + j] + q][u + 3 := (image[u + 3] + p) % 0x100]
  {
    hide AddDword, Wrap;
    var raised := image[u + j := image[u + j] + q];
    var top := (image[u + 3] + p) % 0x100;
    var expected := raised[u + 3 := top];
    assert q * Weight(j) == if q == 1 then Weight(j) else 0;
    var low: int := ReadDword(raised, u) as int - image[u + 3] as int * 0x100_0000;
    assert low + image[u + 3] as int * 0x100_0000 == ReadDword(image, u) as int + q * Weight(j);
    assert ReadDword(expected, u) == low + top * 0x100_0000;
    TopByteWraps(low, image[u + 3], p);
    Added(image, u, Delta(j, p, q), expected);
  }

  /** A carry out of byte `j` goes to the next byte. */
  lemma CarriesOver(image: Bytes, u: nat, j: nat, p: nat)
    requires u + 4 <= |image| && j < 3 && p <= 1 && image[u + j] == 0xFF && image[u + j + 1] <= 0xFD
    ensures var r := AddDword(image, u, Delta(j, p, 1));
            && |r| == |image|
            && r[u + j] == 0 && r[u + j + 1] == image[u + j + 1] + 1 + (if j == 2 then p else 0)
            && forall k :: 0 <= k < |image| && !(u + j <= k <= u + 3) ==> r[k] == image[k]
  {
    hide AddDword, Wrap;
    var next := image[u + j := 0][u + j + 1 := image[u + j + 1] + 1];
    var expected := next[u + 3 := (next[u + 3] + p) % 0x100];
    TopByteWraps(ReadDword(next, u) - next[u + 3] * 0x100_0000, next[u + 3], p);
    Added(image, u, Delta(j, p, 1), expected);
  }

  // ---------- One pass over the sites ----------

  function Count(sites: seq<nat>, u: nat): nat {
    if sites == [] then 0 else (if sites[0] == u then 1 else 0) + Count(sites[1..], u)
  }

  /** How often a site may be listed: two passes then leave bytes enough room not to overflow. */
  const MOST := 63

  ghost predicate FewRepeats(sites: seq<nat>) {
    forall u: nat :: Count(sites, u) <= MOST
  }

  lemma {:induction false} CountIsPositive(sites: seq<nat>, u: nat)
    ensures Count(sites, u) > 0 <==> u in sites
  {
    if sites != [] {
      assert sites == [sites[0]] + sites[1..];
      CountIsPositive(sites[1..], u);
    }
  }

  /** Site `t` overlaps the site `s` next below it, and no site above overlaps `t`. */
  ghost predicate Overlap(sites: seq<nat>, s: nat, t: nat) {
    && s in sites && t in sites && s < t <= s + 3
    && forall u :: u in sites ==> u <= s || u == t || u >= t + 4
  }

  /** Which byte of the dword at `t` is the top byte of the one at `s`. */
  function Shared(s: nat, t: nat): nat
    requires s < t <= s + 3
  {
    s + 3 - t
  }

  /** The two bytes from the shared one on. */
  datatype Watched = Watched(shared: int, next: int)

  function Watch(image: Bytes, s: nat): Watched
    requires s + 4 < |image|
  {
    Watched(image[s + 3], image[s + 4])
  }

  /** What adding to the dword at `u` does to the watched bytes: a carry between them passes at `t`, not at `s`. */
  function Step(w: Watched, u: nat, s: nat, t: nat, p: nat, q: nat): Watched
    requires s < t <= s + 3
  {
    if u == s then w.(shared := (w.shared + p) % 0x100)
    else if u == t then
      var next := w.next + if Shared(s, t) == 2 then p else 0;
      if w.shared + q == 0x100 then Watched(0, next + 1) else Watched(w.shared + q, next)
    else w
  }

  function Steps(w: Watched, rest: seq<nat>, s: nat, t: nat, p: nat, q: nat): Watched
    requires s < t <= s + 3
    decreases |rest|
  {
    if rest == [] then w else Steps(Step(w, rest[0], s, t, p, q), rest[1..], s, t, p, q)
  }

  /** How much the rest of a pass may still add to the byte that the site `u` adds to. */
  function Pending(rest: seq<nat>, u: nat, k: nat): nat {
    Count(rest, u) + if k >= 3 then Count(rest, k - 3) else 0
  }

  /** No site other than `t` carries in the rest of a pass, which leaves the bytes it adds to no larger than `most`. */
  ghost predicate Quiet(image: Bytes, sites: seq<nat>, rest: seq<nat>, s: nat, t: nat, most: nat)
    requires s < t <= s + 3
  {
    forall u :: u in sites && u != t ==>
      var k := u + Shared(s, t);
      k < |image| && image[k] + Pending(rest, u, k) <= most
  }

  /** What one addition leaves: bytes other than the two it adds to, or, at `t`, than those from the shared one on. */
  ghost predicate AddedAt(image: Bytes, r: Bytes, u: nat, s: nat, t: nat)
    requires s < t <= s + 3
  {
    && |r| == |image| && u + 4 <= |image|
    && if u == t then forall k :: 0 <= k < |image| && !(s + 3 <= k <= t + 3) ==> r[k] == image[k]
       else
         && r[u + Shared(s, t)] <= image[u + Shared(s, t)] as int + 1 && r[u + 3] <= image[u + 3] as int + 1
         && forall k :: 0 <= k < |image| && k != u + Shared(s, t) && k != u + 3 ==> r[k] == image[k]
  }

  lemma StaysQuiet(image: Bytes, r: Bytes, sites: seq<nat>, rest: seq<nat>, s: nat, t: nat, most: nat)
    requires Overlap(sites, s, t) && rest != [] && rest[0] in sites
    requires Quiet(image, sites, rest, s, t, most) && AddedAt(image, r, rest[0], s, t)
    ensures Quiet(r, sites, rest[1..], s, t, most)
  {
    var u, later := rest[0], rest[1..];
    assert forall v: nat :: Count(rest, v) == (if u == v then 1 else 0) + Count(later, v);
    hide Count;
    forall v | v in sites && v != t
      ensures var k := v + Shared(s, t); k < |r| && r[k] + Pending(later, v, k) <= most
    {
      var k := v + Shared(s, t);
      assert image[k] + Pending(rest, v, k) <= most;
      if u == t {
        assert !(s + 3 <= k <= t + 3);
      } else {
        assert r[k] <= image[k] as int + (if k == u + Shared(s, t) || k == u + 3 then 1 else 0);
      }
    }
  }

  lemma OneSite(image: Bytes, sites: seq<nat>, rest: seq<nat>, s: nat, t: nat, p: nat, q: nat, most: nat)
    requires Overlap(sites, s, t) && InImage(image, sites) && p <= 1 && q <= 1 && most <= 0xFF
    requires rest != [] && rest[0] in sites && Quiet(image, sites, rest, s, t, most)
    requires s + 4 < |image| && (rest[0] == t ==> image[s + 4] <= 0xFD)
    ensures var r := AddDword(image, rest[0], Delta(Shared(s, t), p, q));
            && AddedAt(image, r, rest[0], s, t)
            && Watch(r, s) == Step(Watch(image, s), rest[0], s, t, p, q)
            && r[s + 4] <= image[s + 4] as int + if rest[0] == t then 2 else 0
  {
    hide AddDword, Delta;
    var u, j := rest[0], Shared(s, t);
    assert u in sites && u + 4 <= |image|;
    assert Count(rest, u) >= 1;
    if u == t && image[t + j] + q == 0x100 {
      CarriesOver(image, t, j, p);
    } else {
      AddsToBytes(image, u, j, p, q);
    }
  }

  lemma {:induction false} OnePass(
      image: Bytes, sites: seq<nat>, rest: seq<nat>, s: nat, t: nat, p: nat, q: nat, most: nat)
    requires Overlap(sites, s, t) && InImage(image, sites) && p <= 1 && q <= 1 && most <= 0xFF
    requires (forall u :: u in rest ==> u in sites) && Quiet(image, sites, rest, s, t, most)
    requires s + 4 < |image| && image[s + 4] as int + 2 * Count(rest, t) <= 0xFF
    ensures InImage(image, rest)
    ensures var r := AddAll(image, rest, Delta(Shared(s, t), p, q));
            && Watch(r, s) == Steps(Watch(image, s), rest, s, t, p, q)
            && Quiet(r, sites, [], s, t, most)
    decreases |rest|
  {
    hide AddDword, Delta, Step, Overlap, Quiet, Watch;
    Between(sites, s, t);
    assert forall i :: 0 <= i < |rest| ==> rest[i] in sites;
    if rest != [] {
      var r := AddDword(image, rest[0], Delta(Shared(s, t), p, q));
      assert Count(rest, t) == (if rest[0] == t then 1 else 0) + Count(rest[1..], t);
      OneSite(image, sites, rest, s, t, p, q, most);
      StaysQuiet(image, r, sites, rest, s, t, most);
      OnePass(r, sites, rest[1..], s, t, p, q, most);
    }
  }

  // ---------- The order of the two sites ----------

  predicate LowerFirst(rest: seq<nat>, s: nat, t: nat)
  {
    rest != [] && (rest[0] == s || (rest[0] != t && LowerFirst(rest[1..], s, t)))
  }

  /** How much a pass adds to the shared byte, and to the top byte of `t` when that is the next one. */
  function ToShared(rest: seq<nat>, s: nat, t: nat, p: nat, q: nat): nat {
    (if p == 1 then Count(rest, s) else 0) + if q == 1 then Count(rest, t) else 0
  }

  function ToNext(rest: seq<nat>, s: nat, t: nat, p: nat): nat
    requires s < t <= s + 3
  {
    if p == 1 && Shared(s, t) == 2 then Count(rest, t) else 0
  }

  /** Nothing carries while there is room in the shared byte. */
  lemma {:induction false} StepsWithRoom(w: Watched, rest: seq<nat>, s: nat, t: nat, p: nat, q: nat)
    requires s < t <= s + 3 && p <= 1 && q <= 1 && 0 <= w.shared && w.shared + ToShared(rest, s, t, p, q) <= 0xFF
    ensures Steps(w, rest, s, t, p, q) == Watched(w.shared + ToShared(rest, s, t, p, q), w.next + ToNext(rest, s, t, p))
    decreases |rest|
  {
    if rest != [] {
      StepsWithRoom(Step(w, rest[0], s, t, p, q), rest[1..], s, t, p, q);
    }
  }

  /** From 0xFF the first addition overflows: it carries if it is one at `t`, and is lost if it is one at `s`. */
  lemma {:induction false} StepsFromFull(w: Watched, rest: seq<nat>, s: nat, t: nat, p: nat, q: nat)
    requires s < t <= s + 3 && p <= 1 && q <= 1 && w.shared == 0xFF && 1 <= ToShared(rest, s, t, p, q) <= 0xFF
    ensures var carry := if q == 1 && (p == 0 || !LowerFirst(rest, s, t)) then 1 else 0;
            Steps(w, rest, s, t, p, q)
            == Watched(ToShared(rest, s, t, p, q) - 1, w.next + ToNext(rest, s, t, p) + carry)
    decreases |rest|
  {
    var u, later := rest[0], rest[1..];
    var after := Step(w, u, s, t, p, q);
    if (u == s && p == 1) || (u == t && q == 1) {
      StepsWithRoom(after, later, s, t, p, q);
    } else {
      StepsFromFull(after, later, s, t, p, q);
    }
  }

  // ---------- An image and two shifts on which the law fails ----------

  ghost predicate Covered(sites: seq<nat>, k: nat) {
    exists u :: u in sites && u <= k < u + 4
  }

  /** Zeros wherever a site lies, but for the top byte of the dword at `s`. */
  ghost function Blank(image: Bytes, sites: seq<nat>, s: nat): (r: Bytes)
    ensures |r| == |image|
    ensures forall k: nat :: k < |r| ==> r[k] == if k == s + 3 then 0xFF else if Covered(sites, k) then 0 else image[k]
  {
    seq(|image|, k requires 0 <= k < |image| => if k == s + 3 then 0xFF else if Covered(sites, k) then 0 else image[k])
  }

  /** The first of the two shifts; the second is the one for the other order. */
  function FirstShift(lowerFirst: bool, j: nat): nat {
    if lowerFirst then Delta(j, 0, 1) else Delta(j, 1, 0)
  }

  lemma BlankIsQuiet(image: Bytes, sites: seq<nat>, s: nat, t: nat)
    requires Overlap(sites, s, t) && FewRepeats(sites) && InImage(image, sites)
    ensures var r := Blank(image, sites, s);
            && InImage(r, sites) && Quiet(r, sites, sites, s, t, 2 * MOST)
            && s + 4 < |r| && r[s + 3] == 0xFF && r[s + 4] == 0
  {
    var r := Blank(image, sites, s);
    assert forall u :: u in sites ==> u + 4 <= |image|;
    assert Covered(sites, s + 4);
    forall u | u in sites && u != t
      ensures var k := u + Shared(s, t); k < |r| && r[k] == 0
    {
      assert Covered(sites, u + Shared(s, t));
    }
  }

  lemma QuietAgain(image: Bytes, sites: seq<nat>, s: nat, t: nat)
    requires s < t <= s + 3 && FewRepeats(sites) && Quiet(image, sites, [], s, t, 2 * MOST)
    ensures Quiet(image, sites, sites, s, t, 4 * MOST)
  {
  }

  /** Two passes from a blank image, with the two shifts one after the other. */
  lemma TwoPasses(image: Bytes, sites: seq<nat>, s: nat, t: nat, p: nat, q: nat)
    requires Overlap(sites, s, t) && FewRepeats(sites) && InImage(image, sites) && p <= 1 && q == 1 - p
    requires Quiet(image, sites, sites, s, t, 2 * MOST) && s + 4 < |image| && image[s + 3] == 0xFF && image[s + 4] == 0
    ensures var j := Shared(s, t);
            AddAll(AddAll(image, sites, Delta(j, p, q)), sites, Delta(j, 1 - p, 1 - q))[s + 4]
            == ToNext(sites, s, t, 1) + q
  {
    hide AddAll, Delta, Quiet, LowerFirst, Overlap, Count, Steps;
    Between(sites, s, t);
    var once := AddAll(image, sites, Delta(Shared(s, t), p, q));
    CountIsPositive(sites, s);
    CountIsPositive(sites, t);
    OnePass(image, sites, sites, s, t, p, q, 2 * MOST);
    StepsFromFull(Watch(image, s), sites, s, t, p, q);
    QuietAgain(once, sites, s, t);
    OnePass(once, sites, sites, s, t, 1 - p, 1 - q, 4 * MOST);
    StepsWithRoom(Watch(once, s), sites, s, t, 1 - p, 1 - q);
  }

  /** One pass with the sum of the shifts. */
  lemma SinglePass(image: Bytes, sites: seq<nat>, s: nat, t: nat)
    requires Overlap(sites, s, t) && FewRepeats(sites) && InImage(image, sites)
    requires Quiet(image, sites, sites, s, t, 2 * MOST) && s + 4 < |image| && image[s + 3] == 0xFF && image[s + 4] == 0
    ensures AddAll(image, sites, Delta(Shared(s, t), 1, 1))[s + 4]
            == ToNext(sites, s, t, 1) + if LowerFirst(sites, s, t) then 0 else 1
  {
    hide AddAll, Delta, Quiet, LowerFirst, Overlap, Count, Steps;
    Between(sites, s, t);
    CountIsPositive(sites, s);
    CountIsPositive(sites, t);
    OnePass(image, sites, sites, s, t, 1, 1, 2 * MOST);
    StepsFromFull(Watch(image, s), sites, s, t, 1, 1);
  }

  /** Two passes with the shifts apart and one with their sum leave different carries next to the shared byte. */
  lemma ShiftsDiffer(image: Bytes, sites: seq<nat>, s: nat, t: nat)
    requires Overlap(sites, s, t) && FewRepeats(sites) && InImage(image, sites)
    ensures var r, j, first := Blank(image, sites, s), Shared(s, t), LowerFirst(sites, s, t);
            var a, b := FirstShift(first, j), FirstShift(!first, j);
            InImage(r, sites) && AddAll(AddAll(r, sites, a), sites, b) != AddAll(r, sites, a + b)
  {
    hide AddAll, Delta, Quiet, LowerFirst, Blank, Overlap, InImage, FewRepeats;
    Between(sites, s, t);
    var r, j, first := Blank(image, sites, s), Shared(s, t), LowerFirst(sites, s, t);
    BlankIsQuiet(image, sites, s, t);
    if first {
      TwoPasses(r, sites, s, t, 0, 1);
      DeltasAdd(j, 0, 1);
    } else {
      TwoPasses(r, sites, s, t, 1, 0);
      DeltasAdd(j, 1, 0);
    }
    SinglePass(r, sites, s, t);
  }

  lemma Between(sites: seq<nat>, s: nat, t: nat)
    requires Overlap(sites, s, t)
    ensures s in sites && t in sites && s < t <= s + 3
  {
  }

  lemma DeltasAdd(j: nat, p: nat, q: nat)
    requires p <= 1 && q <= 1
    ensures Delta(j, p, q) + Delta(j, 1 - p, 1 - q) == Delta(j, 1, 1)
  {
    assert p == 0 || p == 1;
    assert q == 0 || q == 1;
  }

  // ---------- The exact condition ----------

  lemma {:induction false} Largest(s: set<nat>) returns (m: nat)
    requires s != {}
    ensures m in s && forall u :: u in s ==> u <= m
  {
    m :| m in s;
    var rest := s - {m};
    assert forall u :: u in s ==> u == m || u in rest;
    if rest != {} {
      var n := Largest(rest);
      m := if n > m then n else m;
    }
  }

  ghost predicate OverlapsLower(sites: seq<nat>, u: nat) {
    u in sites && exists v :: v in sites && v < u <= v + 3
  }

  lemma FindOverlap(sites: seq<nat>) returns (s: nat, t: nat)
    requires !Separate(sites)
    ensures Overlap(sites, s, t)
  {
    t := LargestOverlapping(sites);
    var v :| v in sites && v < t <= v + 3;
    var lower := set u | u in sites && u < t;
    assert v in lower;
    s := Largest(lower);
    forall u | u in sites
      ensures u <= s || u == t || u >= t + 4
    {
      assert u < t ==> u in lower;
    }
  }

  lemma LargestOverlapping(sites: seq<nat>) returns (t: nat)
    requires !Separate(sites)
    ensures OverlapsLower(sites, t) && forall u :: u in sites && t < u ==> u >= t + 4
  {
    var i, k :| 0 <= i < k < |sites| && sites[i] != sites[k] && !DwordSpan(sites[i]).Apart(DwordSpan(sites[k]));
    var x, y := sites[i], sites[k];
    assert x in sites && y in sites && x != y;
    assert OverlapsLower(sites, if x < y then y else x);
    var overlapping := set u | u in sites && OverlapsLower(sites, u);
    assert (if x < y then y else x) in overlapping;
    t := Largest(overlapping);
    hide Separate;
    forall u | u in sites && t < u
      ensures u >= t + 4
    {
      assert u !in overlapping && !OverlapsLower(sites, u);
    }
  }

  /** Two shifts of the sites are one shift by the sum, whatever the image. */
  ghost predicate ShiftsCompose(sites: seq<nat>) {
    forall image: Bytes, a: int, b: int :: InImage(image, sites) ==>
      AddAll(AddAll(image, sites, a), sites, b) == AddAll(image, sites, a + b)
  }

  /** An overlapping list has an image, differing from a given one in the sites only, and shifts that break the law. */
  lemma OverlapBreaksShifts(image: Bytes, sites: seq<nat>) returns (r: Bytes, a: nat, b: nat)
    requires FewRepeats(sites) && !Separate(sites) && InImage(image, sites)
    ensures InImage(r, sites) && AddAll(AddAll(r, sites, a), sites, b) != AddAll(r, sites, a + b)
    ensures 0 < a && 0 < b && a + b <= 0x101_0000
    ensures forall span: Span :: Clear(image, sites, span) ==> SameIn(r, image, span)
  {
    hide AddAll, LowerFirst, FewRepeats, Separate;
    var s, t := FindOverlap(sites);
    r := Blank(image, sites, s);
    ShiftsDiffer(image, sites, s, t);
    var first, j := LowerFirst(sites, s, t), Shared(s, t);
    a, b := FirstShift(first, j), FirstShift(!first, j);
    forall span: Span | Clear(image, sites, span)
      ensures SameIn(r, image, span)
    {
      BlankKeeps(image, sites, s, span);
    }
  }

  lemma BlankKeeps(image: Bytes, sites: seq<nat>, s: nat, span: Span)
    requires s in sites && Clear(image, sites, span)
    ensures SameIn(Blank(image, sites, s), image, span)
  {
    forall k: nat | span.lo <= k < span.hi && k < |image|
      ensures k != s + 3 && !Covered(sites, k)
    {
      assert forall u :: u in sites ==> DwordSpan(u).Apart(span);
    }
  }

  /** For sites listed at most 63 times, shifting composes on every image if and only if different ones are apart. */
  lemma ShiftsComposeExactly(sites: seq<nat>)
    requires FewRepeats(sites)
    ensures ShiftsCompose(sites) <==> Separate(sites)
  {
    hide AddAll;
    if Separate(sites) {
      forall image: Bytes, a: int, b: int | InImage(image, sites)
        ensures AddAll(AddAll(image, sites, a), sites, b) == AddAll(image, sites, a + b)
      {
        AddAllTwice(image, sites, a, b);
      }
    } else {
      var image := Roomy(sites);
      var r, a, b := OverlapBreaksShifts(image, sites);
    }
  }

  lemma {:induction false} Roomy(sites: seq<nat>) returns (image: Bytes)
    ensures InImage(image, sites)
  {
    image := [];
    if sites != [] {
      var rest := Roomy(sites[1..]);
      image := seq(|rest| + sites[0] + 4, _ => 0);
      assert forall i :: 1 <= i < |sites| ==> sites[i] == sites[1..][i - 1];
    }
  }

  // ---------- A site listed too often ----------

  function Copies(u: nat, n: nat): (r: seq<nat>)
    ensures |r| == n && forall i :: 0 <= i < n ==> r[i] == u
  {
    if n == 0 then [] else [u] + Copies(u, n - 1)
  }

  lemma {:induction false} CopiesAdd(image: Bytes, u: nat, n: nat, a: int)
    requires u + 4 <= |image|
    ensures AddAll(image, Copies(u, n + 1), a) == AddDword(image, u, (n + 1) * a)
    decreases n
  {
    hide AddDword;
    var rest := Copies(u, n);
    assert Copies(u, n + 1) == [u] + rest && ([u] + rest)[1..] == rest;
    FirstSite(image, Copies(u, n + 1), a);
    if n == 0 {
      NoSites(AddDword(image, u, a), a);
    } else {
      CopiesAdd(AddDword(image, u, a), u, n - 1, a);
      AddDwordTwice(image, u, a, n * a);
      assert a + n * a == (n + 1) * a;
    }
  }

  /** The value of the upper three bytes of the dword at 3. */
  function Upper(b: Bytes): int
    requires |b| >= 7
  {
    b[4] as int + b[5] as int * 0x100 + b[6] as int * 0x1_0000
  }

  /** 256 additions at 3 leave its low byte, the top one of the dword at 0. */
  lemma UpperAdds(image: Bytes, a: int)
    requires |image| >= 7
    ensures var r := AddDword(image, 3, 256 * a);
            && Upper(r) == (Upper(image) + a) % 0x100_0000
            && forall k :: 0 <= k < |image| && !(4 <= k < 7) ==> r[k] == image[k]
  {
    hide WriteDword, Wrap;
    var v := ReadDword(image, 3) as int + 256 * a;
    var r := AddDword(image, 3, 256 * a);
    assert v == image[3] as int + 256 * (Upper(image) + a);
    ReadWritten(image, 3, Wrap(v));
    UpperWraps(image[3], Upper(image) + a);
    assert r[3] as int + 256 * Upper(r) == image[3] as int + 256 * ((Upper(image) + a) % 0x100_0000);
    WriteApart(image, 3, Wrap(v), Span(0, 3));
    WriteApart(image, 3, Wrap(v), Span(7, |image|));
  }

  lemma UpperWraps(low: Byte, upper: int)
    ensures Wrap(low + 256 * upper) == low + 256 * (upper % 0x100_0000)
  {
    var q := upper / 0x100_0000;
    assert low + 256 * upper == low + 256 * (upper % 0x100_0000) + 0x1_0000_0000 * q;
    WrapMultiple(low + 256 * (upper % 0x100_0000), q);
  }

  lemma UpperCommutes(image: Bytes, a: int, b: int)
    requires |image| >= 7
    ensures AddDword(AddDword(image, 3, 256 * a), 0, b) == AddDword(AddDword(image, 0, b), 3, 256 * a)
  {
    hide AddDword, Upper;
    var x, y := AddDword(image, 3, 256 * a), AddDword(image, 0, b);
    UpperAdds(image, a);
    UpperAdds(y, a);
    LowDword(image, x, b);
    LowDword(x, x, b);
    var l, r := AddDword(x, 0, b), AddDword(y, 3, 256 * a);
    UpperSame(l, x);
    UpperSame(y, image);
    UpperSame(l, r);
    assert l == r;
  }

  /** The upper bytes and their value determine each other. */
  lemma UpperSame(b: Bytes, c: Bytes)
    requires |b| == |c| >= 7
    ensures (forall k :: 4 <= k < 7 ==> b[k] == c[k]) <==> Upper(b) == Upper(c)
  {
    assert (forall k :: 4 <= k < 7 ==> b[k] == c[k]) <==> b[4] == c[4] && b[5] == c[5] && b[6] == c[6];
  }

  /** An addition at 0 depends on the first four bytes only, and changes no other. */
  lemma LowDword(image: Bytes, other: Bytes, b: int)
    requires |image| == |other| >= 4 && forall k :: 0 <= k < 4 ==> image[k] == other[k]
    ensures var r := AddDword(image, 0, b);
            && (forall k :: 0 <= k < 4 ==> r[k] == AddDword(other, 0, b)[k])
            && forall k :: 4 <= k < |image| ==> r[k] == image[k]
  {
  }

  /** Without a bound on repetitions separation is not necessary: 256 equal additions pass by the byte they share. */
  lemma OftenRepeatedComposes()
    ensures var sites := [0] + Copies(3, 256);
            ShiftsCompose(sites) && !Separate(sites) && !FewRepeats(sites)
  {
    hide AddDword, AddAll;
    var sites := [0] + Copies(3, 256);
    assert sites[0] == 0 && sites[1] == 3;
    assert !Separate(sites);
    forall image: Bytes, a: int, b: int | InImage(image, sites)
      ensures AddAll(AddAll(image, sites, a), sites, b) == AddAll(image, sites, a + b)
    {
      assert sites[1] + 4 <= |image|;
      RepeatedPass(image, a);
      RepeatedPass(AddAll(image, sites, a), b);
      RepeatedPass(image, a + b);
      var once := AddDword(image, 0, a);
      UpperCommutes(once, a, b);
      AddDwordTwice(image, 0, a, b);
      AddDwordTwice(AddDword(once, 0, b), 3, 256 * a, 256 * b);
    }
    if FewRepeats(sites) {
      ShiftsComposeExactly(sites);
    }
  }

  lemma RepeatedPass(image: Bytes, a: int)
    requires |image| >= 7
    ensures var sites := [0] + Copies(3, 256);
            && InImage(image, sites) && |AddAll(image, sites, a)| == |image|
            && AddAll(image, sites, a) == AddDword(AddDword(image, 0, a), 3, 256 * a)
  {
    hide AddDword, AddAll, Copies;
    var sites := [0] + Copies(3, 256);
    assert sites[1..] == Copies(3, 256);
    FirstSite(image, sites, a);
    CopiesAdd(AddDword(image, 0, a), 3, 255, a);
  }

  // ---------- Modules ----------

  /** Rebasing by way of `b1` gives the image that rebasing straight to `b2` gives. */
  ghost predicate SameEitherWay(m: LoadSpec.Module, b1: Dword, b2: Dword) {
    var twice, once := LoadSpec.RebaseAll(m, [b1, b2]), LoadSpec.Rebase(m, b2);
    twice.Rebased? && once.Rebased? && twice.m.image == once.m.image
  }

  /** Any two rebases give the image of one, whatever the module's image holds outside its relocation table. */
  ghost predicate PathIndependent(m: LoadSpec.Module) {
    forall image: Bytes, b1: Dword, b2: Dword ::
      SameIn(image, m.image, LoadSpec.TableSpan(m)) ==> SameEitherWay(m.(image := image), b1, b2)
  }

  /** The same table as another module's, so the same sites. */
  lemma SameTable(m: LoadSpec.Module, image: Bytes)
    requires LoadSpec.Walkable(m) && SameIn(image, m.image, LoadSpec.TableSpan(m))
    ensures var n := m.(image := image);
            LoadSpec.Walkable(n) && LoadSpec.Table(n) == LoadSpec.Table(m)
  {
    hide DecodeTable;
    TableSame(m.image, image, m.nt.relocations.address, CURSOR_START, LoadSpec.TableSpan(m));
  }

  lemma RebaseTwice(m: LoadSpec.Module, b1: Dword, b2: Dword)
    requires LoadSpec.Walkable(m)
    ensures var sites, base := LoadSpec.TableSites(m), m.nt.imageBase;
            && LoadSpec.RebaseAll(m, [b1, b2]).Rebased? && LoadSpec.Rebase(m, b2).Rebased?
            && LoadSpec.RebaseAll(m, [b1, b2]).m.image == AddAll(AddAll(m.image, sites, b1 - base), sites, b2 - b1)
            && LoadSpec.Rebase(m, b2).m.image == AddAll(m.image, sites, b2 - base)
  {
    hide LoadSpec.Rebase, LoadSpec.RebaseAll, LoadSpec.Walkable, LoadSpec.Table, LoadSpec.TableSites, AddAll;
    LoadSpec.RebaseMoves(m, b1);
    LoadSpec.RebaseMoves(m, b2);
    LoadSpec.RebaseKeepsTable(m, b1);
    var next := LoadSpec.Rebase(m, b1).m;
    LoadSpec.RebaseMoves(next, b2);
    LoadSpec.SameSites(m, next);
    RebasePair(m, b1, b2);
  }

  lemma RebasePair(m: LoadSpec.Module, b1: Dword, b2: Dword)
    ensures LoadSpec.Rebase(m, b1).Rebased? ==>
            LoadSpec.RebaseAll(m, [b1, b2]) == LoadSpec.Rebase(LoadSpec.Rebase(m, b1).m, b2)
  {
    hide LoadSpec.Rebase;
    var next := LoadSpec.Rebase(m, b1);
    assert [b1, b2][1..] == [b2] && [b2][1..] == [];
    if next.Rebased? {
      var last := LoadSpec.Rebase(next.m, b2);
      assert last.Rebased? ==> LoadSpec.RebaseAll(last.m, []) == LoadSpec.Rebased(last.m);
      assert LoadSpec.RebaseAll(next.m, [b2]) == last;
    }
  }

  lemma SeparateIsIndependent(m: LoadSpec.Module)
    requires LoadSpec.Walkable(m) && Separate(LoadSpec.TableSites(m))
    ensures PathIndependent(m)
  {
    hide LoadSpec.Rebase, LoadSpec.RebaseAll, LoadSpec.Table, LoadSpec.TableSites, LoadSpec.TableSpan, AddAll;
    var sites, base := LoadSpec.TableSites(m), m.nt.imageBase;
    forall image: Bytes, b1: Dword, b2: Dword | SameIn(image, m.image, LoadSpec.TableSpan(m))
      ensures SameEitherWay(m.(image := image), b1, b2)
    {
      SameTable(m, image);
      LoadSpec.SameSites(m, m.(image := image));
      RebaseTwice(m.(image := image), b1, b2);
      AddAllTwice(image, sites, b1 - base, b2 - b1);
    }
  }

  lemma OverlapBreaksModule(m: LoadSpec.Module)
    requires LoadSpec.Walkable(m) && FewRepeats(LoadSpec.TableSites(m)) && !Separate(LoadSpec.TableSites(m))
    ensures !PathIndependent(m)
  {
    hide LoadSpec.Rebase, LoadSpec.RebaseAll, LoadSpec.Table, LoadSpec.TableSites, LoadSpec.TableSpan, AddAll;
    hide FewRepeats, Separate;
    var sites, base := LoadSpec.TableSites(m), m.nt.imageBase;
    var image, a, b := OverlapBreaksShifts(m.image, sites);
    assert SameIn(image, m.image, LoadSpec.TableSpan(m));
    var n := m.(image := image);
    SameTable(m, image);
    LoadSpec.SameSites(m, n);
    var b1: int, b2: int := Wrap(base + a), Wrap(base + a + b);
    RebaseTwice(n, b1, b2);
    AddAllWraps(image, sites, b1 - base, a);
    AddAllWraps(AddAll(image, sites, a), sites, b2 - b1, b);
    AddAllWraps(image, sites, b2 - base, a + b);
    assert !SameEitherWay(n, b1, b2);
  }

  /**
    A module whose table lists no site more than 63 times can be rebased by any path if and only if different sites
    do not overlap.
  */
  lemma PathIndependentExactly(m: LoadSpec.Module)
    requires LoadSpec.Walkable(m) && FewRepeats(LoadSpec.TableSites(m))
    ensures PathIndependent(m) <==> Separate(LoadSpec.TableSites(m))
  {
    hide PathIndependent, LoadSpec.Walkable, FewRepeats, Separate;
    if Separate(LoadSpec.TableSites(m)) {
      SeparateIsIndependent(m);
    } else {
      OverlapBreaksModule(m);
    }
  }
}

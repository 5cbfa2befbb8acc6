/**
  The base relocation walk of the loader, as a function of the image it patches while it reads the table
  from that same image, and the decoded table it refines.
 */
module Relocation {
  import opened Words

  const ABSOLUTE := 0
  const HIGHLOW := 3

  /** The entry cursor starts `sizeof(pointer)` after the block; this is its value on the 32-bit target. */
  const CURSOR_START := 4

  /** The size of a block header: VirtualAddress and SizeOfBlock. */
  const BLOCK_HEADER := 8

  /** `Undefined`: the walk leaves the image, or a block of size zero makes it run forever. */
  datatype Outcome = Done(image: Bytes) | Unsupported(image: Bytes) | Undefined

  function AddDword(image: Bytes, at: nat, delta: int): (r: Bytes)
    requires at + 4 <= |image|
    ensures |r| == |image|
  {
    WriteDword(image, at, Wrap(ReadDword(image, at) + delta))
  }

  function EntryKind(entry: Half): nat {
    entry / 0x1000
  }

  function EntryOffset(entry: Half): nat {
    entry % 0x1000
  }

  // ---------- The walk over the image being patched ----------

  function WalkEntries(image: Bytes, page: nat, entry: nat, end: nat, delta: int): (r: Outcome)
    ensures !r.Undefined? ==> |r.image| == |image|
    decreases end - entry
  {
    if entry >= end then Done(image)
    else if entry + 2 > |image| then Undefined
    else
      var e := ReadHalf(image, entry);
      if EntryKind(e) == ABSOLUTE then WalkEntries(image, page, entry + 2, end, delta)
      else if EntryKind(e) != HIGHLOW then Unsupported(image)
      else if page + EntryOffset(e) + 4 > |image| then Undefined
      else WalkEntries(AddDword(image, page + EntryOffset(e), delta), page, entry + 2, end, delta)
  }

  function WalkBlocks(image: Bytes, start: nat, cursor: nat, delta: int): (r: Outcome)
    ensures !r.Undefined? ==> |r.image| == |image|
    decreases |image| - start
  {
    if start + 4 > |image| then Undefined
    else if ReadDword(image, start) == 0 then Done(image)
    else if start + 8 > |image| || ReadDword(image, start + 4) == 0 then Undefined
    else
      var end := start + ReadDword(image, start + 4);
      var r := WalkEntries(image, ReadDword(image, start), start + cursor, end, delta);
      if r.Done? then WalkBlocks(r.image, end, cursor, delta) else r
  }

  // ---------- The decoded table ----------

  /** The HIGHLOW sites of a block up to its first unsupported entry, and the number of padding entries. */
  datatype Listing = Listing(sites: seq<nat>, padding: nat, supported: bool) | BadListing

  datatype Block = Block(start: nat, page: Dword, size: Dword, sites: seq<nat>, padding: nat)

  /** The blocks of a table up to its first unsupported entry; the table is read in `start .. limit`. */
  datatype Table = Table(blocks: seq<Block>, limit: nat, supported: bool) | BadTable

  function DecodeEntries(image: Bytes, page: nat, entry: nat, end: nat): Listing
    decreases end - entry
  {
    if entry >= end then Listing([], 0, true)
    else if entry + 2 > |image| then BadListing
    else
      var e := ReadHalf(image, entry);
      if EntryKind(e) != ABSOLUTE && EntryKind(e) != HIGHLOW then Listing([], 0, false)
      else
        match DecodeEntries(image, page, entry + 2, end)
        case BadListing => BadListing
        case Listing(sites, padding, supported) =>
          if EntryKind(e) == ABSOLUTE then Listing(sites, padding + 1, supported)
          else Listing([page + EntryOffset(e)] + sites, padding, supported)
  }

  function DecodeTable(image: Bytes, start: nat, cursor: nat): (t: Table)
    ensures t.Table? ==> t.limit >= start + 1
    decreases |image| - start
  {
    if start + 4 > |image| then BadTable
    else if ReadDword(image, start) == 0 then Table([], start + 4, true)
    else if start + 8 > |image| || ReadDword(image, start + 4) == 0 then BadTable
    else
      var page, size := ReadDword(image, start), ReadDword(image, start + 4);
      match DecodeEntries(image, page, start + cursor, start + size)
      case BadListing => BadTable
      case Listing(sites, padding, supported) =>
        var block := Block(start, page, size, sites, padding);
        if !supported then Table([block], Max(start + size + 1, start + 8), false)
        else
          match DecodeTable(image, start + size, cursor)
          case BadTable => BadTable
          case Table(blocks, limit, all) => Table([block] + blocks, Max(limit, start + 8), all)
  }

  function Sites(blocks: seq<Block>): seq<nat> {
    if blocks == [] then [] else blocks[0].sites + Sites(blocks[1..])
  }

  predicate InImage(image: Bytes, sites: seq<nat>) {
    forall i :: 0 <= i < |sites| ==> sites[i] + 4 <= |image|
  }

  /** The patch that a list of sites stands for. */
  function AddAll(image: Bytes, sites: seq<nat>, delta: int): (r: Bytes)
    requires InImage(image, sites)
    ensures |r| == |image|
    decreases |sites|
  {
    if sites == [] then image else AddAll(AddDword(image, sites[0], delta), sites[1..], delta)
  }

  // ---------- The walk refines the decoded table ----------

  /** Every site is a dword of the image that shares no byte with `span`. */
  ghost predicate Clear(image: Bytes, sites: seq<nat>, span: Span) {
    InImage(image, sites) && forall i :: 0 <= i < |sites| ==> DwordSpan(sites[i]).Apart(span)
  }

  lemma AddAllApart(image: Bytes, sites: seq<nat>, delta: int, span: Span)
    requires Clear(image, sites, span)
    ensures SameIn(AddAll(image, sites, delta), image, span)
    decreases |sites|
  {
    if sites != [] {
      AddAllApart(AddDword(image, sites[0], delta), sites[1..], delta, span);
    }
  }

  lemma AddAllConcat(image: Bytes, s: seq<nat>, t: seq<nat>, delta: int)
    requires InImage(image, s + t)
    ensures InImage(image, s) && InImage(image, t)
    ensures AddAll(image, s + t, delta) == AddAll(AddAll(image, s, delta), t, delta)
    decreases |s|
  {
    assert forall i :: 0 <= i < |s| ==> (s + t)[i] == s[i];
    assert forall i :: 0 <= i < |t| ==> (s + t)[|s| + i] == t[i];
    if s == [] {
      assert s + t == t;
    } else {
      assert (s + t)[1..] == s[1..] + t;
      AddAllConcat(AddDword(image, s[0], delta), s[1..], t, delta);
    }
  }

  lemma FirstSite(image: Bytes, sites: seq<nat>, delta: int)
    requires InImage(image, sites) && sites != []
    ensures AddAll(image, sites, delta) == AddAll(AddDword(image, sites[0], delta), sites[1..], delta)
  {
  }

  lemma NoSites(image: Bytes, delta: int)
    ensures Sites([]) == [] && AddAll(image, [], delta) == image
  {
  }

  /** The inner loop, run on an image patched outside the table, patches exactly the sites of the listing. */
  lemma {:induction false} EntriesRefine(orig: Bytes, image: Bytes, page: nat, entry: nat, end: nat, delta: int,
                                         span: Span)
    requires SameIn(image, orig, span) && span.lo <= entry && end < span.hi
    requires var l := DecodeEntries(orig, page, entry, end); l.Listing? && Clear(orig, l.sites, span)
    ensures var l := DecodeEntries(orig, page, entry, end);
            var patched := AddAll(image, l.sites, delta);
            WalkEntries(image, page, entry, end, delta) == if l.supported then Done(patched) else Unsupported(patched)
    decreases end - entry
  {
    hide ReadDword, WriteDword, AddAll;
    NoSites(image, delta);
    if entry < end {
      var l := DecodeEntries(orig, page, entry, end);
      var e := ReadHalf(orig, entry);
      assert ReadHalf(image, entry) == e;
      if EntryKind(e) == ABSOLUTE {
        EntriesRefine(orig, image, page, entry + 2, end, delta, span);
      } else if EntryKind(e) == HIGHLOW {
        var rest := DecodeEntries(orig, page, entry + 2, end);
        assert l.sites[0] == page + EntryOffset(e) && l.sites[1..] == rest.sites;
        assert Clear(orig, rest.sites, span);
        FirstSite(image, l.sites, delta);
        WriteApart(image, l.sites[0], Wrap(ReadDword(image, l.sites[0]) + delta), span);
        EntriesRefine(orig, AddDword(image, l.sites[0], delta), page, entry + 2, end, delta, span);
      }
    }
  }

  lemma ClearParts(image: Bytes, s: seq<nat>, t: seq<nat>, span: Span)
    requires Clear(image, s + t, span)
    ensures Clear(image, s, span) && Clear(image, t, span)
  {
    assert forall i :: 0 <= i < |s| ==> (s + t)[i] == s[i];
    assert forall i :: 0 <= i < |t| ==> (s + t)[|s| + i] == t[i];
  }

  lemma SitesOfFirst(block: Block, blocks: seq<Block>)
    ensures Sites([block] + blocks) == block.sites + Sites(blocks)
  {
    assert ([block] + blocks)[1..] == blocks;
  }

  /** The whole walk patches exactly the sites of the decoded table, reading the unpatched table throughout. */
  lemma {:induction false} TableRefines(orig: Bytes, image: Bytes, start: nat, cursor: nat, delta: int, span: Span)
    requires SameIn(image, orig, span) && span.lo <= start
    requires var t := DecodeTable(orig, start, cursor);
             t.Table? && t.limit <= span.hi && Clear(orig, Sites(t.blocks), span)
    ensures var t := DecodeTable(orig, start, cursor);
            var patched := AddAll(image, Sites(t.blocks), delta);
            WalkBlocks(image, start, cursor, delta) == if t.supported then Done(patched) else Unsupported(patched)
    decreases |orig| - start
  {
    hide ReadDword, WalkEntries, DecodeEntries, AddAll, Sites;
    NoSites(image, delta);
    ReadSame(image, orig, start);
    if ReadDword(orig, start) != 0 {
      ReadSame(image, orig, start + 4);
      var page, size := ReadDword(orig, start), ReadDword(orig, start + 4);
      var l := DecodeEntries(orig, page, start + cursor, start + size);
      var block := Block(start, page, size, l.sites, l.padding);
      if l.supported {
        var rest := DecodeTable(orig, start + size, cursor);
        SitesOfFirst(block, rest.blocks);
        ClearParts(orig, l.sites, Sites(rest.blocks), span);
        EntriesRefine(orig, image, page, start + cursor, start + size, delta, span);
        AddAllConcat(image, l.sites, Sites(rest.blocks), delta);
        AddAllApart(image, l.sites, delta, span);
        TableRefines(orig, AddAll(image, l.sites, delta), start + size, cursor, delta, span);
      } else {
        SitesOfFirst(block, []);
        assert l.sites + [] == l.sites && [block] + [] == [block];
        EntriesRefine(orig, image, page, start + cursor, start + size, delta, span);
      }
    }
  }

  // ---------- What a patch does to the image ----------

  /** No two dwords of the list overlap, except that a site may be listed more than once. */
  ghost predicate Separate(sites: seq<nat>) {
    forall i, j :: 0 <= i < j < |sites| ==> sites[i] == sites[j] || DwordSpan(sites[i]).Apart(DwordSpan(sites[j]))
  }

  /** No two dwords of the list overlap. */
  ghost predicate Disjoint(sites: seq<nat>) {
    forall i, j :: 0 <= i < j < |sites| ==> DwordSpan(sites[i]).Apart(DwordSpan(sites[j]))
  }

  /** Each disjoint site ends up shifted once; `AddAllApart` says that nothing else changes. */
  lemma {:induction false} AddAllShifts(image: Bytes, sites: seq<nat>, delta: int, i: nat)
    requires InImage(image, sites) && Disjoint(sites) && i < |sites|
    ensures ReadDword(AddAll(image, sites, delta), sites[i]) == Wrap(ReadDword(image, sites[i]) + delta)
    decreases |sites|
  {
    hide ReadDword, WriteDword;
    var first := AddDword(image, sites[0], delta);
    if i == 0 {
      ReadWritten(image, sites[0], Wrap(ReadDword(image, sites[0]) + delta));
      AddAllApart(first, sites[1..], delta, DwordSpan(sites[0]));
      ReadSame(AddAll(image, sites, delta), first, sites[0]);
    } else {
      AddAllShifts(first, sites[1..], delta, i - 1);
      WriteApart(image, sites[0], Wrap(ReadDword(image, sites[0]) + delta), DwordSpan(sites[i]));
      ReadSame(first, image, sites[i]);
    }
  }

  lemma AddDwordTwice(image: Bytes, s: nat, a: int, b: int)
    requires s + 4 <= |image|
    ensures AddDword(AddDword(image, s, a), s, b) == AddDword(image, s, a + b)
  {
    hide ReadDword, WriteDword;
    var v := ReadDword(image, s);
    ReadWritten(image, s, Wrap(v + a));
    WriteTwice(image, s, Wrap(v + a), Wrap(v + a + b));
    assert Wrap(Wrap(v + a) + b) == Wrap(v + a + b);
  }

  lemma AddDwordsCommute(image: Bytes, s: nat, a: int, t: nat, b: int)
    requires s + 4 <= |image| && t + 4 <= |image|
    requires s == t || DwordSpan(s).Apart(DwordSpan(t))
    ensures AddDword(AddDword(image, s, a), t, b) == AddDword(AddDword(image, t, b), s, a)
  {
    hide ReadDword, WriteDword;
    if s == t {
      AddDwordTwice(image, s, a, b);
      AddDwordTwice(image, s, b, a);
    } else {
      var v, w := ReadDword(image, s), ReadDword(image, t);
      WriteApart(image, s, Wrap(v + a), DwordSpan(t));
      ReadSame(AddDword(image, s, a), image, t);
      WriteApart(image, t, Wrap(w + b), DwordSpan(s));
      ReadSame(AddDword(image, t, b), image, s);
      WritesCommute(image, s, Wrap(v + a), t, Wrap(w + b));
    }
  }

  lemma {:induction false} AddDwordCommutesAll(image: Bytes, s: nat, a: int, sites: seq<nat>, b: int)
    requires InImage(image, [s] + sites) && Separate([s] + sites)
    ensures s + 4 <= |image| && InImage(image, sites)
    ensures AddDword(AddAll(image, sites, b), s, a) == AddAll(AddDword(image, s, a), sites, b)
    decreases |sites|
  {
    hide AddDword;
    var all := [s] + sites;
    assert all[0] == s && forall i :: 0 <= i < |sites| ==> all[i + 1] == sites[i];
    if sites != [] {
      var t, rest := sites[0], sites[1..];
      var shorter := [s] + rest;
      assert forall i :: 1 <= i < |shorter| ==> shorter[i] == all[i + 1];
      AddDwordCommutesAll(AddDword(image, t, b), s, a, rest, b);
      AddDwordsCommute(image, s, a, t, b);
    }
  }

  /** Two shifts of the same separate sites are one shift by the sum. */
  lemma {:induction false} AddAllTwice(image: Bytes, sites: seq<nat>, a: int, b: int)
    requires InImage(image, sites) && Separate(sites)
    ensures AddAll(AddAll(image, sites, a), sites, b) == AddAll(image, sites, a + b)
    decreases |sites|
  {
    if sites != [] {
      var s, rest := sites[0], sites[1..];
      assert [s] + rest == sites;
      var first := AddDword(image, s, a);
      AddDwordCommutesAll(first, s, b, rest, a);
      AddDwordTwice(image, s, a, b);
      AddAllTwice(AddDword(image, s, a + b), rest, a, b);
    }
  }

  /** A shift counts modulo 2^32 only. */
  lemma {:induction false} AddAllWraps(image: Bytes, sites: seq<nat>, a: int, b: int)
    requires InImage(image, sites) && Wrap(a) == Wrap(b)
    ensures AddAll(image, sites, a) == AddAll(image, sites, b)
    decreases |sites|
  {
    if sites != [] {
      assert Wrap(ReadDword(image, sites[0]) + a) == Wrap(ReadDword(image, sites[0]) + b);
      AddAllWraps(AddDword(image, sites[0], a), sites[1..], a, b);
    }
  }

  lemma {:induction false} AddAllZero(image: Bytes, sites: seq<nat>)
    requires InImage(image, sites)
    ensures AddAll(image, sites, 0) == image
    decreases |sites|
  {
    hide ReadDword, WriteDword;
    if sites != [] {
      WriteRead(image, sites[0]);
      AddAllZero(image, sites[1..]);
    }
  }

  /** An addition is determined by the dword it leaves and by the bytes it leaves alone. */
  lemma Added(image: Bytes, at: nat, delta: int, expected: Bytes)
    requires at + 4 <= |image| == |expected|
    requires ReadDword(expected, at) == Wrap(ReadDword(image, at) + delta)
    requires forall k :: 0 <= k < |image| && (k < at || at + 4 <= k) ==> image[k] == expected[k]
    ensures AddDword(image, at, delta) == expected
  {
    WriteDetermined(image, at, Wrap(ReadDword(image, at) + delta), expected);
  }

  // ---------- A patch outside the table leaves the table ----------

  lemma {:induction false} EntriesSame(orig: Bytes, image: Bytes, page: nat, entry: nat, end: nat, span: Span)
    requires SameIn(image, orig, span) && span.lo <= entry && end < span.hi
    ensures DecodeEntries(image, page, entry, end) == DecodeEntries(orig, page, entry, end)
    decreases end - entry
  {
    if entry < end && entry + 2 <= |orig| {
      assert ReadHalf(image, entry) == ReadHalf(orig, entry);
      EntriesSame(orig, image, page, entry + 2, end, span);
    }
  }

  lemma {:induction false} TableSame(orig: Bytes, image: Bytes, start: nat, cursor: nat, span: Span)
    requires SameIn(image, orig, span) && span.lo <= start
    requires var t := DecodeTable(orig, start, cursor); t.Table? && t.limit <= span.hi
    ensures DecodeTable(image, start, cursor) == DecodeTable(orig, start, cursor)
    decreases |orig| - start
  {
    hide ReadDword, DecodeEntries;
    ReadSame(image, orig, start);
    if ReadDword(orig, start) != 0 {
      ReadSame(image, orig, start + 4);
      var page, size := ReadDword(orig, start), ReadDword(orig, start + 4);
      EntriesSame(orig, image, page, start + cursor, start + size, span);
      if DecodeEntries(orig, page, start + cursor, start + size).supported {
        TableSame(orig, image, start + size, cursor, span);
      }
    }
  }

  // ---------- Starting the entry cursor at 4 instead of 8 ----------

  /** Both halves of SizeOfBlock, read as entries, are padding. */
  predicate SizeIsPadding(size: Dword) {
    EntryKind(size % 0x1_0000) == ABSOLUTE && EntryKind(size / 0x1_0000) == ABSOLUTE
  }

  /** One step of the decoder. */
  lemma DecodeStep(image: Bytes, page: nat, entry: nat, end: nat)
    requires entry < end && entry + 2 <= |image|
    ensures var here, rest := DecodeEntries(image, page, entry, end), DecodeEntries(image, page, entry + 2, end);
            var kind := EntryKind(ReadHalf(image, entry));
            && (kind == ABSOLUTE ==>
                  if rest.Listing? then here == rest.(padding := rest.padding + 1) else here == rest)
            && (here.Listing? && here.supported ==> rest.Listing? && rest.supported)
            && (here.Listing? && here.supported && kind != ABSOLUTE ==> |here.sites| == |rest.sites| + 1)
  {
  }

  lemma SizeHalves(image: Bytes, start: nat)
    requires start + 8 <= |image|
    ensures var size := ReadDword(image, start + 4);
            ReadHalf(image, start + 4) == size % 0x1_0000 && ReadHalf(image, start + 6) == size / 0x1_0000
  {
  }

  lemma CursorInBlock(image: Bytes, start: nat, page: nat)
    requires start + 8 <= |image|
    ensures var size := ReadDword(image, start + 4);
            var four := DecodeEntries(image, page, start + 4, start + size);
            var eight := DecodeEntries(image, page, start + 8, start + size);
            && (SizeIsPadding(size) ==>
                  if eight.Listing? then four.Listing? && four.sites == eight.sites && four.supported == eight.supported
                  else four.BadListing?)
            && (four.Listing? && four.supported ==>
                  eight.Listing? && eight.supported
                  && |four.sites| >= |eight.sites| + if SizeIsPadding(size) then 0 else 1)
  {
    hide ReadDword, ReadHalf;
    var size := ReadDword(image, start + 4);
    SizeHalves(image, start);
    if size > 4 {
      DecodeStep(image, page, start + 4, start + size);
      if size > 6 {
        DecodeStep(image, page, start + 6, start + size);
      }
    }
  }

  ghost predicate SizesArePadding(blocks: seq<Block>) {
    forall i :: 0 <= i < |blocks| ==> SizeIsPadding(blocks[i].size)
  }

  /**
    On a table that decodes from its 8-byte block headers, starting the cursor at 4 lists the same sites
    exactly when both halves of every SizeOfBlock read as padding.
  */
  lemma {:induction false} CursorListsSame(image: Bytes, start: nat)
    requires var eight := DecodeTable(image, start, BLOCK_HEADER); eight.Table? && eight.supported
    ensures var four, eight := DecodeTable(image, start, CURSOR_START), DecodeTable(image, start, BLOCK_HEADER);
            && (SizesArePadding(eight.blocks) <==>
                  four.Table? && four.supported && Sites(four.blocks) == Sites(eight.blocks))
            && (four.Table? && four.supported ==> |Sites(four.blocks)| >= |Sites(eight.blocks)|)
            && (SizesArePadding(eight.blocks) ==> four.limit == eight.limit)
    decreases |image| - start
  {
    hide ReadDword, DecodeEntries, Sites, SizeIsPadding;
    NoSites([], 0);
    if ReadDword(image, start) != 0 {
      var page, size := ReadDword(image, start), ReadDword(image, start + 4);
      var four := DecodeEntries(image, page, start + CURSOR_START, start + size);
      var eight := DecodeEntries(image, page, start + BLOCK_HEADER, start + size);
      CursorInBlock(image, start, page);
      CursorListsSame(image, start + size);
      var rest8 := DecodeTable(image, start + size, BLOCK_HEADER);
      var block8 := Block(start, page, size, eight.sites, eight.padding);
      SitesOfFirst(block8, rest8.blocks);
      FirstPadding(block8, rest8.blocks);
      var rest4 := DecodeTable(image, start + size, CURSOR_START);
      if four.Listing? && rest4.Table? {
        SitesOfFirst(Block(start, page, size, four.sites, four.padding), rest4.blocks);
        if four.sites + Sites(rest4.blocks) == eight.sites + Sites(rest8.blocks) && four.supported && rest4.supported {
          assert |four.sites| == |eight.sites|;
          assert Sites(rest4.blocks) == (four.sites + Sites(rest4.blocks))[|four.sites|..];
          assert Sites(rest8.blocks) == (eight.sites + Sites(rest8.blocks))[|eight.sites|..];
        }
      }
    }
  }

  lemma FirstPadding(block: Block, blocks: seq<Block>)
    ensures SizesArePadding([block] + blocks) <==> SizeIsPadding(block.size) && SizesArePadding(blocks)
  {
    var all := [block] + blocks;
    assert all[0] == block && forall i :: 0 <= i < |blocks| ==> all[i + 1] == blocks[i];
  }

  /** Every halfword of a supported block is a site of the page or padding. */
  lemma {:induction false} EntriesAreCounted(image: Bytes, page: nat, entry: nat, end: nat)
    requires entry <= end
    requires var l := DecodeEntries(image, page, entry, end); l.Listing? && l.supported
    ensures var l := DecodeEntries(image, page, entry, end);
            end - entry <= 2 * (|l.sites| + l.padding)
            && forall i :: 0 <= i < |l.sites| ==> page <= l.sites[i] < page + 0x1000
    decreases end - entry
  {
    if entry + 2 <= end {
      EntriesAreCounted(image, page, entry + 2, end);
    }
  }

  /** Which of the 1024 aligned dwords of its page a site starts in. */
  function Quarter(page: nat, site: nat): int {
    (site - page) / 4
  }

  lemma QuartersDiffer(page: nat, s: nat, t: nat)
    requires page <= s && page <= t && DwordSpan(s).Apart(DwordSpan(t))
    ensures Quarter(page, s) != Quarter(page, t)
  {
  }

  lemma {:induction false} BoundedCount(s: set<int>, n: nat)
    requires forall q :: q in s ==> 0 <= q < n
    ensures |s| <= n
  {
    if n > 0 {
      BoundedCount(s - {n - 1}, n - 1);
    } else {
      assert forall q :: q !in s;
    }
  }

  lemma {:induction false} QuartersCount(page: nat, sites: seq<nat>) returns (quarters: set<int>)
    requires Disjoint(sites) && forall i :: 0 <= i < |sites| ==> page <= sites[i] < page + 0x1000
    ensures |quarters| == |sites|
    ensures forall q :: q in quarters ==> 0 <= q < 0x400 && exists i :: 0 <= i < |sites| && q == Quarter(page, sites[i])
    decreases |sites|
  {
    quarters := {};
    if sites != [] {
      var n := |sites| - 1;
      var fewer := QuartersCount(page, sites[..n]);
      forall i | 0 <= i < n
        ensures Quarter(page, sites[i]) != Quarter(page, sites[n])
      {
        QuartersDiffer(page, sites[i], sites[n]);
      }
      hide Quarter;
      quarters := fewer + {Quarter(page, sites[n])};
    }
  }

  /** A page holds at most 1024 non-overlapping dwords that start in it. */
  lemma PagePacking(page: nat, sites: seq<nat>)
    requires Disjoint(sites) && forall i :: 0 <= i < |sites| ==> page <= sites[i] < page + 0x1000
    ensures |sites| <= 0x400
  {
    var quarters := QuartersCount(page, sites);
    BoundedCount(quarters, 0x400);
  }

  lemma DisjointParts(s: seq<nat>, t: seq<nat>)
    requires Disjoint(s + t)
    ensures Disjoint(s) && Disjoint(t)
  {
    assert forall i :: 0 <= i < |s| ==> (s + t)[i] == s[i];
    assert forall i :: 0 <= i < |t| ==> (s + t)[|s| + i] == t[i];
  }

  /** The linker pads a block to a multiple of four bytes, with one entry; the argument leaves room for 1019. */
  const MAX_PADDING := 1019

  /** A block of non-overlapping sites is smaller than 0x1000 bytes. */
  lemma BlockPacking(image: Bytes, page: nat, start: nat, size: nat)
    requires var l := DecodeEntries(image, page, start + BLOCK_HEADER, start + size);
             l.Listing? && l.supported && Disjoint(l.sites) && l.padding <= MAX_PADDING
    ensures size < 0x1000
  {
    if size >= BLOCK_HEADER {
      EntriesAreCounted(image, page, start + BLOCK_HEADER, start + size);
      PagePacking(page, DecodeEntries(image, page, start + BLOCK_HEADER, start + size).sites);
    }
  }

  lemma SmallIsPadding(size: Dword)
    requires size < 0x1000
    ensures SizeIsPadding(size)
  {
  }

  lemma FirstBlock(block: Block, blocks: seq<Block>)
    ensures ([block] + blocks)[0] == block && forall i :: 0 <= i < |blocks| ==> ([block] + blocks)[i + 1] == blocks[i]
    ensures forall i :: 1 <= i <= |blocks| ==> ([block] + blocks)[i] == blocks[i - 1]
  {
  }

  /** A table of non-overlapping sites keeps every SizeOfBlock below 0x1000, so both its halves are padding. */
  lemma {:induction false} TablePacking(image: Bytes, start: nat)
    requires var t := DecodeTable(image, start, BLOCK_HEADER);
             t.Table? && t.supported && Disjoint(Sites(t.blocks))
             && forall i :: 0 <= i < |t.blocks| ==> t.blocks[i].padding <= MAX_PADDING
    ensures var t := DecodeTable(image, start, BLOCK_HEADER);
            SizesArePadding(t.blocks) && forall i :: 0 <= i < |t.blocks| ==> t.blocks[i].size < 0x1000
    decreases |image| - start
  {
    hide ReadDword, DecodeEntries, Disjoint, Sites, SizeIsPadding;
    var t := DecodeTable(image, start, BLOCK_HEADER);
    if ReadDword(image, start) != 0 {
      var page, size := ReadDword(image, start), ReadDword(image, start + 4);
      var l := DecodeEntries(image, page, start + BLOCK_HEADER, start + size);
      var rest := DecodeTable(image, start + size, BLOCK_HEADER);
      var block := Block(start, page, size, l.sites, l.padding);
      assert t.blocks == [block] + rest.blocks;
      FirstBlock(block, rest.blocks);
      SitesOfFirst(block, rest.blocks);
      DisjointParts(l.sites, Sites(rest.blocks));
      BlockPacking(image, page, start, size);
      SmallIsPadding(size);
      TablePacking(image, start + size);
      FirstPadding(block, rest.blocks);
    }
  }

  /** On such a table the loader's walk is the walk from the 8-byte block headers that the format describes. */
  lemma CursorIsHarmless(image: Bytes, start: nat, delta: int)
    requires var t := DecodeTable(image, start, BLOCK_HEADER);
             t.Table? && t.supported && Disjoint(Sites(t.blocks))
             && (forall i :: 0 <= i < |t.blocks| ==> t.blocks[i].padding <= MAX_PADDING)
             && Clear(image, Sites(t.blocks), Span(start, t.limit))
    ensures WalkBlocks(image, start, CURSOR_START, delta) == WalkBlocks(image, start, BLOCK_HEADER, delta)
  {
    var t := DecodeTable(image, start, BLOCK_HEADER);
    TablePacking(image, start);
    CursorListsSame(image, start);
    TableRefines(image, image, start, BLOCK_HEADER, delta, Span(start, t.limit));
    TableRefines(image, image, start, CURSOR_START, delta, Span(start, t.limit));
  }

  // ---------- The delta ----------

  /** The int32_t that a C conversion of `x` yields. */
  function ToInt32(x: int): int {
    if Wrap(x) < 0x8000_0000 then Wrap(x) else Wrap(x) - 0x1_0000_0000
  }

  function ImageDelta(newBase: Dword, oldBase: Dword): int {
    if newBase > oldBase then ToInt32(newBase - oldBase) else ToInt32(-ToInt32(oldBase - newBase))
  }

  /** Both branches compute the difference of the bases modulo 2^32. */
  lemma DeltaIsDifference(newBase: Dword, oldBase: Dword)
    ensures Wrap(ImageDelta(newBase, oldBase)) == Wrap(newBase - oldBase)
  {
  }
}

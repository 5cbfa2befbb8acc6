/** A relocation table as a linker writes it, and what the loader makes of it. */
module PrintedRelocations {
  import opened Words
  import opened Printing
  import opened Relocation

  /** An entry of a block: four bits for its kind, twelve for its offset in the page. */
  datatype Fixup = Fixup(kind: nat, offset: nat) {
    predicate Valid() {
      kind < 16 && offset < 0x1000
    }

    function Word(): Half
      requires Valid()
    {
      0x1000 * kind + offset
    }
  }

  datatype Page = Page(address: Dword, fixups: seq<Fixup>) {
    /** Blocks of less than 0x1000 bytes, whose size the loader reads as padding. */
    predicate Valid() {
      address != 0 && |fixups| < 2044 && forall i :: 0 <= i < |fixups| ==> fixups[i].Valid()
    }

    function Size(): nat {
      8 + 2 * |fixups|
    }
  }

  /** The entries of a block stand at `at`. */
  ghost predicate HoldsFixups(image: Bytes, at: nat, fixups: seq<Fixup>) {
    forall i :: 0 <= i < |fixups| ==> fixups[i].Valid() && Holds(image, at + 2 * i, PrintHalf(fixups[i].Word()))
  }

  ghost predicate HoldsPage(image: Bytes, at: nat, p: Page)
    requires p.Valid()
  {
    && Holds(image, at, PrintDword(p.address) + PrintDword(p.Size()))
    && HoldsFixups(image, at + 8, p.fixups)
  }

  /** The blocks stand one after the other from `at` on, before a zero word. */
  ghost predicate HoldsPages(image: Bytes, at: nat, pages: seq<Page>)
    decreases |pages|
  {
    if pages == [] then Holds(image, at, PrintDword(0))
    else pages[0].Valid() && HoldsPage(image, at, pages[0]) && HoldsPages(image, at + pages[0].Size(), pages[1..])
  }

  function PagesSize(pages: seq<Page>): nat {
    if pages == [] then 0 else pages[0].Size() + PagesSize(pages[1..])
  }

  /** Entries of kind 3 are to be patched, those of kind 0 are padding, and no other is supported. */
  predicate Supported(fixups: seq<Fixup>) {
    forall i :: 0 <= i < |fixups| ==> fixups[i].kind == 0 || fixups[i].kind == 3
  }

  predicate AllSupported(pages: seq<Page>) {
    forall i :: 0 <= i < |pages| ==> Supported(pages[i].fixups)
  }

  function SitesOfPage(address: nat, fixups: seq<Fixup>): seq<nat> {
    if fixups == [] then []
    else (if fixups[0].kind == 3 then [address + fixups[0].offset] else []) + SitesOfPage(address, fixups[1..])
  }

  function SitesOf(pages: seq<Page>): seq<nat> {
    if pages == [] then [] else SitesOfPage(pages[0].address, pages[0].fixups) + SitesOf(pages[1..])
  }

  // ---------- Reading what was printed ----------

  lemma FixupRead(image: Bytes, at: nat, f: Fixup)
    requires f.Valid() && Holds(image, at, PrintHalf(f.Word()))
    ensures at + 2 <= |image|
    ensures EntryKind(ReadHalf(image, at)) == f.kind && EntryOffset(ReadHalf(image, at)) == f.offset
  {
    hide ReadHalf, PrintHalf;
    HalfRead(image, at, f.Word());
  }

  lemma RestOfFixups(image: Bytes, at: nat, fixups: seq<Fixup>)
    requires HoldsFixups(image, at, fixups) && fixups != []
    ensures fixups[0].Valid() && Holds(image, at, PrintHalf(fixups[0].Word()))
    ensures HoldsFixups(image, at + 2, fixups[1..])
  {
    assert at + 2 * 0 == at;
    forall i | 0 <= i < |fixups[1..]|
      ensures fixups[1..][i].Valid() && Holds(image, at + 2 + 2 * i, PrintHalf(fixups[1..][i].Word()))
    {
      assert fixups[i + 1].Valid() && Holds(image, at + 2 * (i + 1), PrintHalf(fixups[i + 1].Word()));
      assert at + 2 + 2 * i == at + 2 * (i + 1);
    }
  }

  lemma {:induction false} FixupsRead(image: Bytes, page: nat, at: nat, fixups: seq<Fixup>)
    requires HoldsFixups(image, at, fixups) && Supported(fixups)
    ensures var l := DecodeEntries(image, page, at, at + 2 * |fixups|);
            l.Listing? && l.supported && l.sites == SitesOfPage(page, fixups)
    decreases |fixups|
  {
    hide ReadHalf, EntryKind, EntryOffset, HoldsFixups;
    if fixups != [] {
      RestOfFixups(image, at, fixups);
      FixupRead(image, at, fixups[0]);
      FixupsRead(image, page, at + 2, fixups[1..]);
    }
  }

  /** The two halves of a printed block size are padding to the loader, whose entries start there. */
  lemma SizeIsPadding(image: Bytes, page: nat, at: nat, size: nat, end: nat)
    requires size < 0x1000 && Holds(image, at, PrintDword(size)) && at + 4 <= end
    ensures var l := DecodeEntries(image, page, at + 4, end);
            l.Listing? ==>
              var all := DecodeEntries(image, page, at, end);
              all.Listing? && all.sites == l.sites && all.supported == l.supported
  {
    hide DecodeEntries;
    var piece := image[at..at + 4];
    assert image[at] == piece[0] && image[at + 1] == piece[1] && image[at + 2] == piece[2] && image[at + 3] == piece[3];
    assert EntryKind(ReadHalf(image, at)) == 0 && EntryKind(ReadHalf(image, at + 2)) == 0;
    OnePadding(image, page, at + 2, end);
    OnePadding(image, page, at, end);
  }

  lemma OnePadding(image: Bytes, page: nat, at: nat, end: nat)
    requires at + 2 <= |image| && at < end && EntryKind(ReadHalf(image, at)) == 0
    ensures var l := DecodeEntries(image, page, at + 2, end);
            l.Listing? ==>
              var all := DecodeEntries(image, page, at, end);
              all.Listing? && all.sites == l.sites && all.supported == l.supported
  {
    hide ReadHalf, EntryKind;
  }

  lemma PageRead(image: Bytes, at: nat, p: Page)
    requires p.Valid() && HoldsPage(image, at, p) && Supported(p.fixups)
    ensures at + 8 <= |image| && ReadDword(image, at) == p.address && ReadDword(image, at + 4) == p.Size()
    ensures var l := DecodeEntries(image, p.address, at + CURSOR_START, at + p.Size());
            l.Listing? && l.supported && l.sites == SitesOfPage(p.address, p.fixups)
  {
    hide ReadDword, DecodeEntries, PrintDword, HoldsFixups;
    NextDword(image, at, p.address, PrintDword(p.Size()));
    DwordRead(image, at + 4, p.Size());
    FixupsRead(image, p.address, at + 8, p.fixups);
    SizeIsPadding(image, p.address, at + 4, p.Size(), at + p.Size());
  }

  /** A printed table decodes to the sites that were printed, and ends where it was printed to end. */
  lemma {:induction false} PagesRead(image: Bytes, at: nat, pages: seq<Page>)
    requires HoldsPages(image, at, pages) && AllSupported(pages)
    ensures var t := DecodeTable(image, at, CURSOR_START);
            && t.Table? && t.supported && Sites(t.blocks) == SitesOf(pages)
            && t.limit == at + PagesSize(pages) + 4
    decreases |pages|
  {
    hide ReadDword, DecodeEntries, HoldsPage;
    if pages == [] {
      DwordRead(image, at, 0);
    } else {
      var p := pages[0];
      PageRead(image, at, p);
      PagesRead(image, at + p.Size(), pages[1..]);
      var rest := DecodeTable(image, at + p.Size(), CURSOR_START).blocks;
      var blocks := DecodeTable(image, at, CURSOR_START).blocks;
      assert blocks[1..] == rest;
    }
  }

  // ---------- Single steps of the walk ----------

  /** One printed entry: kind 0 does nothing, kind 3 adds to the dword at its offset in the page, no other is known. */
  lemma SingleFixup(image: Bytes, page: nat, at: nat, f: Fixup, delta: int)
    requires f.Valid() && Holds(image, at, PrintHalf(f.Word()))
    ensures WalkEntries(image, page, at, at + 2, delta)
            == if f.kind == 0 then Done(image)
               else if f.kind != 3 then Unsupported(image)
               else if page + f.offset + 4 > |image| then Undefined
               else Done(AddDword(image, page + f.offset, delta))
  {
    hide ReadHalf, AddDword, EntryKind, EntryOffset;
    FixupRead(image, at, f);
  }
}

/** Concrete inputs on which the conditions of the exact theorems fail. */
module FailingInputs {
  import opened Words
  import opened Wrappers
  import opened SampleFile
  import PeFormat
  import Imports
  import LoadSpec
  import Relocation
  import Overlaps
  import CommandGrammar

  // ---------- Overlapping sites ----------

  lemma OverlapEntries()
    ensures Relocation.DecodeEntries(File(Overlapping), 4, 316, 324) == Relocation.Listing([4, 5], 2, true)
  {
    hide ReadHalf, File;
    var b := File(Overlapping);
    HalfIs(Overlapping, 316);
    HalfIs(Overlapping, 318);
    HalfIs(Overlapping, 320);
    HalfIs(Overlapping, 322);
    assert Relocation.DecodeEntries(b, 4, 324, 324) == Relocation.Listing([], 0, true);
    assert Relocation.DecodeEntries(b, 4, 322, 324) == Relocation.Listing([5], 0, true);
    assert Relocation.DecodeEntries(b, 4, 320, 324) == Relocation.Listing([4, 5], 0, true);
    assert Relocation.DecodeEntries(b, 4, 318, 324) == Relocation.Listing([4, 5], 1, true);
  }

  lemma OverlapDecodes()
    ensures FileTable(Overlapping) == Relocation.Table([Relocation.Block(312, 4, 12, [4, 5], 2)], 328, true)
  {
    hide ReadDword, ReadHalf, File, Relocation.DecodeEntries;
    DwordIs(Overlapping, 312);
    DwordIs(Overlapping, 316);
    DwordIs(Overlapping, 324);
    OverlapEntries();
  }

  /** The parsed file, its one import bound to `address`. */
  function OverlapModule(address: Dword): LoadSpec.Module {
    LoadSpec.Module(FileHeaders(Overlapping), WriteDword(File(Overlapping), 368, address), 0)
  }

  lemma OverlapParses(resolver: Imports.Resolver, g: LoadSpec.Grants)
    requires resolver(SAMPLE_IMPORT.source).Some? && g.table && g.image != 0
    ensures LoadSpec.Parse(File(Overlapping), resolver, g)
            == LoadSpec.Loaded(OverlapModule(resolver(SAMPLE_IMPORT.source).value))
  {
    hide LoadSpec.Parse, LoadSpec.Decodes, LoadSpec.Bindable, File, FileTable, WriteDword;
    var p, address := PlanOf(Overlapping), resolver(SAMPLE_IMPORT.source).value;
    FilesDecode(Overlapping, g.fill);
    LoadSpec.ParseFollowsPlan(File(Overlapping), resolver, g, p);
    Imports.BindNone(WriteDword(p.mapped, 368, address), resolver);
    assert [SAMPLE_IMPORT][1..] == [];
    assert Imports.BindAll(p.mapped, p.imports.imports, resolver) == Imports.Bound(WriteDword(p.mapped, 368, address));
  }

  lemma OverlapTable(address: Dword)
    ensures var m := OverlapModule(address);
            && LoadSpec.Walkable(m) && LoadSpec.TableSites(m) == [4, 5] && |m.image| == SizeOf(Overlapping)
            && forall k :: 0 <= k < 312 ==> m.image[k] == FileByte(Overlapping, k)
  {
    hide File, WriteDword, Relocation.DecodeTable;
    var m := OverlapModule(address);
    OverlapDecodes();
    WriteApart(File(Overlapping), 368, address, Span(0, 328));
    Relocation.TableSame(File(Overlapping), m.image, 312, Relocation.CURSOR_START, Span(312, 328));
    assert [Relocation.Block(312, 4, 12, [4, 5], 2)][1..] == [];
  }

  /** Rebasing what a parse of this file leaves by 0x10000 and then by 0x1000000 is not rebasing it by the sum. */
  lemma OverlapBreaksRebasing(resolver: Imports.Resolver, g: LoadSpec.Grants)
    requires resolver(SAMPLE_IMPORT.source).Some? && g.table && g.image != 0
    ensures LoadSpec.Parse(File(Overlapping), resolver, g).Loaded?
    ensures var m := LoadSpec.Parse(File(Overlapping), resolver, g).m;
            var twice, once := LoadSpec.RebaseAll(m, [0x2_0000, 0x102_0000]), LoadSpec.Rebase(m, 0x102_0000);
            twice.Rebased? && once.Rebased? && twice.m.image != once.m.image
  {
    hide LoadSpec.Parse, LoadSpec.Table, LoadSpec.Rebase, LoadSpec.RebaseAll, Relocation.AddAll, OverlapModule, File;
    var address, sites := resolver(SAMPLE_IMPORT.source).value, [4, 5];
    OverlapParses(resolver, g);
    var m := OverlapModule(address);
    OverlapTable(address);
    assert m.nt.imageBase == 0x1_0000 by { OverlapBase(address); }
    BlankAlready(m.image);
    assert Overlaps.LowerFirst(sites, 4, 5);
    SitesOverlap();
    Overlaps.ShiftsDiffer(m.image, sites, 4, 5);
    Overlaps.RebaseTwice(m, 0x2_0000, 0x102_0000);
  }

  lemma SitesOverlap()
    ensures Overlaps.Overlap([4, 5], 4, 5) && Overlaps.FewRepeats([4, 5])
  {
    assert [4, 5][1..] == [5] && [5][1..] == [];
    forall u: nat
      ensures Overlaps.Count([4, 5], u) <= Overlaps.MOST
    {
      assert Overlaps.Count([5], u) <= 1;
    }
  }

  lemma OverlapBase(address: Dword)
    ensures OverlapModule(address).nt.imageBase == 0x1_0000
  {
  }

  /** The header has zeros at the two sites, and 0xFF at the top byte of the first. */
  lemma BlankAlready(image: Bytes)
    requires |image| >= 312 && forall k :: 0 <= k < 312 ==> image[k] == FileByte(Overlapping, k)
    ensures Overlaps.Blank(image, [4, 5], 4) == image
  {
    forall k: nat | k < |image|
      ensures Overlaps.Blank(image, [4, 5], 4)[k] == image[k]
    {
      assert Overlaps.Covered([4, 5], k) ==> 4 <= k <= 8;
    }
  }

  // ---------- A block too large for the entry cursor ----------

  lemma {:induction false} PaddingIsSkipped(entry: nat, delta: int)
    requires LARGE_TABLE + 8 <= entry <= LARGE_TABLE + 0x1000 && entry % 2 == 0
    ensures Relocation.WalkEntries(File(LargeBlock), 1, entry, LARGE_TABLE + 0x1000, delta)
            == Relocation.Done(File(LargeBlock))
    decreases LARGE_TABLE + 0x1000 - entry
  {
    hide File, ReadHalf;
    if entry < LARGE_TABLE + 0x1000 {
      HalfIs(LargeBlock, entry);
      PaddingIsSkipped(entry + 2, delta);
    }
  }

  /** The walk that the format describes accepts the table; the loader's reads SizeOfBlock as an unsupported entry. */
  lemma LargeBlockWalks(delta: int)
    ensures Relocation.WalkBlocks(File(LargeBlock), LARGE_TABLE, Relocation.BLOCK_HEADER, delta)
            == Relocation.Done(File(LargeBlock))
    ensures Relocation.WalkBlocks(File(LargeBlock), LARGE_TABLE, Relocation.CURSOR_START, delta)
            == Relocation.Unsupported(File(LargeBlock))
  {
    hide File, ReadDword, Relocation.WalkEntries;
    var b, end := File(LargeBlock), LARGE_TABLE + 0x1000;
    DwordIs(LargeBlock, LARGE_TABLE);
    DwordIs(LargeBlock, LARGE_TABLE + 4);
    DwordIs(LargeBlock, end);
    PaddingIsSkipped(LARGE_TABLE + 8, delta);
    LargeBlockEntry(delta);
    assert Relocation.WalkBlocks(b, end, Relocation.BLOCK_HEADER, delta) == Relocation.Done(b);
  }

  lemma LargeBlockEntry(delta: int)
    ensures Relocation.WalkEntries(File(LargeBlock), 1, LARGE_TABLE + 4, LARGE_TABLE + 0x1000, delta)
            == Relocation.Unsupported(File(LargeBlock))
  {
    hide File, ReadHalf;
    HalfIs(LargeBlock, LARGE_TABLE + 4);
  }

  /** A file whose relocation table the format accepts, and that does not load away from its preferred base. */
  lemma LargeBlockIsRejected(resolver: Imports.Resolver, g: LoadSpec.Grants)
    requires g.table && g.image != 0 && g.image != 0x1_0000
    ensures LoadSpec.Load(File(LargeBlock), resolver, g)
            == LoadSpec.Failed(PeFormat.Relocate, PeFormat.UnsupportedRelocationType)
    ensures LoadSpec.Parse(File(LargeBlock), resolver, g).Loaded?
    ensures var m := LoadSpec.Parse(File(LargeBlock), resolver, g).m;
            forall delta: int ::
              Relocation.WalkBlocks(m.image, m.nt.relocations.address, Relocation.BLOCK_HEADER, delta)
              == Relocation.Done(m.image)
  {
    hide LoadSpec.Parse, LoadSpec.Decodes, LoadSpec.Bindable, Relocation.WalkBlocks, File, FileTable;
    FilesDecode(LargeBlock, g.fill);
    LoadSpec.ParseFollowsPlan(File(LargeBlock), resolver, g, PlanOf(LargeBlock));
    Imports.BindNone(File(LargeBlock), resolver);
    LargeBlockWalks(Relocation.ImageDelta(g.image, 0x1_0000));
    forall delta: int
      ensures Relocation.WalkBlocks(File(LargeBlock), LARGE_TABLE, Relocation.BLOCK_HEADER, delta)
              == Relocation.Done(File(LargeBlock))
    {
      LargeBlockWalks(delta);
    }
  }

  // ---------- A file without relocation data ----------

  /** The sample without its relocation directory loads at its preferred base and nowhere else. */
  lemma UnrelocatableStays(resolver: Imports.Resolver, g: LoadSpec.Grants)
    requires resolver(SAMPLE_IMPORT.source).Some? && g.table && g.image != 0
    ensures var r := LoadSpec.Load(File(Unrelocatable), resolver, g);
            if g.image == 0x1_0000 then r.Loaded? && r.m.entrypoint == 0
            else r == LoadSpec.Failed(PeFormat.Relocate, PeFormat.NoRelocationData)
  {
    hide LoadSpec.Parse, LoadSpec.Load, LoadSpec.Decodes, LoadSpec.Bindable, File, FileTable;
    var p := PlanOf(Unrelocatable);
    FilesDecode(Unrelocatable, g.fill);
    LoadSpec.ParseFollowsPlan(File(Unrelocatable), resolver, g, p);
    assert LoadSpec.Resolved(p, resolver);
    LoadSpec.NeedsRelocationData(File(Unrelocatable), resolver, g);
  }

  // ---------- A load at the preferred base ----------

  /** The sample, loaded where it prefers to be, is loaded without an entrypoint. */
  lemma PreferredBaseHasNoEntrypoint(fill: nat -> Byte, resolver: Imports.Resolver)
    requires resolver(SAMPLE_IMPORT.source).Some?
    ensures var r := LoadSpec.Load(File(Plain), resolver, LoadSpec.Grants(true, 0x1_0000, fill));
            r.Loaded? && r.m.entrypoint == 0 && r.m.nt.entryPoint == 0x10
  {
    hide LoadSpec.Load, LoadSpec.Decodes, File, FileTable, LoadSpec.IsLoadedImage;
    SampleIsWellFormed(fill);
    LoadSpec.LoadsExactly(File(Plain), resolver, LoadSpec.Grants(true, 0x1_0000, fill), PlanOf(Plain));
  }

  // ---------- A command that is scanned past its end ----------

  lemma BackslashValue()
    ensures CommandGrammar.ParseValue("=\"\\") == CommandGrammar.ValueOverrun
  {
    var v := "=\"\\";
    assert v[1..] == "\"\\" && v[1..][1..] == "\\";
    assert CommandGrammar.QuotedLength("\\") == None;
  }

  /** The command `a="\` has its terminator skipped as an escaped character. */
  lemma BackslashOverruns()
    ensures CommandGrammar.Parse("a=\"\\") == CommandGrammar.Overrun
  {
    hide CommandGrammar.ParseValue;
    var t := "a=\"\\";
    BackslashValue();
    assert CommandGrammar.SpaceLength(t) == 0 && t[0..] == t;
    assert t[1..] == "=\"\\";
    assert CommandGrammar.KeyLength(t[1..]) == 0;
    assert CommandGrammar.KeyLength(t) == 1;
    assert CommandGrammar.ParseEntry(t) == CommandGrammar.EntryOverrun;
  }
}

/** A smallest file with an import and a relocation: the hypotheses of the whole-load theorem can be met. */
module SampleFile {
  import opened Words
  import opened Wrappers
  import PeFormat
  import ImageMapping
  import Imports
  import LoadSpec
  import Relocation

  /** The sample, and files that differ from it in a few bytes. */
  datatype Variant = Plain | Overlapping | Unrelocatable | LargeBlock

  const RELOCATIONS := 312
  const IMPORTS := 328
  const LARGE_TABLE := 376

  function SizeOf(v: Variant): nat {
    if v.LargeBlock? then LARGE_TABLE + 0x1004 else LARGE_TABLE
  }

  function SampleByte(k: nat): Byte {
    match k
    // DOS header
    case 0 => 0x4D
    case 1 => 0x5A
    case 60 => 64
    // NT headers: signature, machine, size of the optional header, entrypoint, base, sizes, characteristics
    case 64 => 0x50
    case 65 => 0x45
    case 68 => 0x4C
    case 69 => 0x01
    case 84 => 224
    case 104 => 0x10
    case 118 => 0x01
    case 144 => 0x78
    case 145 => 0x01
    case 148 => 0x78
    case 149 => 0x01
    case 158 => 0x40
    // Import and relocation directories
    case 192 => 0x48
    case 193 => 0x01
    case 196 => 40
    case 224 => 0x38
    case 225 => 0x01
    case 228 => 12
    // One relocation block for the page at 4: its first dword, and padding
    case 312 => 4
    case 316 => 12
    case 321 => 0x30
    // One import descriptor: name at 364, slots at 368
    case 340 => 0x6C
    case 341 => 0x01
    case 344 => 0x70
    case 345 => 0x01
    case 364 => 0x41
    // One slot: ordinal 1
    case 368 => 0x01
    case 371 => 0x80
    case _ => 0
  }

  /** Only the relocation table and what speaks of it differ; a large file has no imports. */
  function FileByte(v: Variant, k: nat): Byte {
    match v
    case Plain => SampleByte(k)
    case Overlapping => if k == 7 then 0xFF else if k == 322 then 0x01 else if k == 323 then 0x30 else SampleByte(k)
    case Unrelocatable => if k == 228 then 0 else SampleByte(k)
    case LargeBlock =>
      if k == 144 || k == 148 then 0x7C
      else if k == 145 || k == 149 then 0x11
      else if k == 196 then 0
      else if k == 224 then 0x78
      else if k == LARGE_TABLE then 1
      else if k == LARGE_TABLE + 5 then 0x10
      else SampleByte(k)
  }

  function File(v: Variant): (b: Bytes)
    ensures |b| == SizeOf(v) && forall k :: 0 <= k < |b| ==> b[k] == FileByte(v, k)
  {
    seq(SizeOf(v), k requires 0 <= k => FileByte(v, k))
  }

  function FileHeaders(v: Variant): PeFormat.NtHeaders {
    PeFormat.NtHeaders(
      PeFormat.NT_SIGNATURE, PeFormat.MACHINE_I386, 0, 224, 0x10, 0x1_0000, SizeOf(v), SizeOf(v), PeFormat.DYNAMIC_BASE,
      PeFormat.Directory(IMPORTS, if v.LargeBlock? then 0 else 40),
      PeFormat.Directory(if v.LargeBlock? then LARGE_TABLE else RELOCATIONS, if v.Unrelocatable? then 0 else 12))
  }

  const SAMPLE_IMPORT := Imports.Import(368, Imports.ByOrdinal([0x41], 1))

  function FileImports(v: Variant): Imports.Plan {
    if v.LargeBlock? then Imports.Plan([], {}, false)
    else Imports.Plan([SAMPLE_IMPORT], {Span(328, 348), Span(364, 366), Span(372, 376), Span(360, 364)}, false)
  }

  function FileTable(v: Variant): Relocation.Table {
    Relocation.DecodeTable(File(v), FileHeaders(v).relocations.address, Relocation.CURSOR_START)
  }

  function PlanOf(v: Variant): LoadSpec.FilePlan {
    LoadSpec.FilePlan(FileHeaders(v), [], File(v), FileImports(v), FileTable(v))
  }

  lemma DwordIs(v: Variant, at: nat)
    requires at + 4 <= SizeOf(v)
    ensures ReadDword(File(v), at)
            == FileByte(v, at) + FileByte(v, at + 1) * 0x100
             + FileByte(v, at + 2) * 0x1_0000 + FileByte(v, at + 3) * 0x100_0000
  {
  }

  lemma HalfIs(v: Variant, at: nat)
    requires at + 2 <= SizeOf(v)
    ensures ReadHalf(File(v), at) == FileByte(v, at) + FileByte(v, at + 1) * 0x100
  {
  }

  lemma HeadersAreFound(v: Variant)
    ensures ReadHalf(File(v), 0) == PeFormat.DOS_SIGNATURE && ReadDword(File(v), 60) == 64
            && ReadDword(File(v), 64) == PeFormat.NT_SIGNATURE
    ensures ReadHalf(File(v), 68) == PeFormat.MACHINE_I386 && ReadHalf(File(v), 70) == 0 && ReadHalf(File(v), 84) == 224
    ensures ReadHalf(File(v), 158) == PeFormat.DYNAMIC_BASE
  {
    hide ReadDword, ReadHalf, File;
    HalfIs(v, 0);
    DwordIs(v, 60);
    DwordIs(v, 64);
    HalfIs(v, 68);
    HalfIs(v, 70);
    HalfIs(v, 84);
    HalfIs(v, 158);
  }

  lemma SizesAreRead(v: Variant)
    ensures ReadDword(File(v), 104) == 0x10 && ReadDword(File(v), 116) == 0x1_0000
    ensures ReadDword(File(v), 144) == SizeOf(v) == ReadDword(File(v), 148)
  {
    hide ReadDword, File;
    DwordIs(v, 104);
    DwordIs(v, 116);
    DwordIs(v, 144);
    DwordIs(v, 148);
  }

  lemma DirectoriesAreRead(v: Variant)
    ensures ReadDword(File(v), 192) == IMPORTS && ReadDword(File(v), 196) == FileHeaders(v).imports.size
    ensures ReadDword(File(v), 224) == FileHeaders(v).relocations.address
    ensures ReadDword(File(v), 228) == FileHeaders(v).relocations.size
  {
    hide ReadDword, File;
    DwordIs(v, 192);
    DwordIs(v, 196);
    DwordIs(v, 224);
    DwordIs(v, 228);
  }

  lemma HeadersDecode(v: Variant)
    ensures PeFormat.HeadersAt(File(v), 64, 312) && PeFormat.ReadNtHeaders(File(v), 64) == FileHeaders(v)
  {
    hide ReadDword, ReadHalf, File;
    HeadersAreFound(v);
    SizesAreRead(v);
    DirectoriesAreRead(v);
  }

  lemma ImportsDecode(v: Variant)
    ensures LoadSpec.ImportPlan(FileHeaders(v), File(v)) == FileImports(v)
  {
    hide ReadDword, File, Imports.CString;
    if !v.LargeBlock? {
      hide FileByte;
      ImportTableIs(v);
      NameDecodes(v);
      assert Imports.DecodeThunks(File(v), 364, 372, 372) == Imports.Plan([], {Span(372, 376)}, false);
      assert Imports.DecodeThunks(File(v), 364, 368, 368)
          == Imports.Plan([SAMPLE_IMPORT], {Span(364, 366), Span(372, 376)}, false);
      assert Imports.DecodeDescriptors(File(v), 348) == Imports.Plan([], {Span(360, 364)}, false);
    }
  }

  lemma ImportTableIs(v: Variant)
    requires !v.LargeBlock?
    ensures ReadDword(File(v), 328) == 0 && ReadDword(File(v), 336) == 0 && ReadDword(File(v), 340) == 364
    ensures ReadDword(File(v), 344) == 368 && ReadDword(File(v), 360) == 0
    ensures ReadDword(File(v), 368) == 0x8000_0001 && ReadDword(File(v), 372) == 0
  {
    hide ReadDword, File;
    DwordIs(v, 328);
    DwordIs(v, 336);
    DwordIs(v, 340);
    DwordIs(v, 344);
    DwordIs(v, 360);
    DwordIs(v, 368);
    DwordIs(v, 372);
  }

  lemma NameDecodes(v: Variant)
    requires !v.LargeBlock?
    ensures Imports.CString(File(v), 364) == Some([0x41])
  {
    hide File;
    assert File(v)[364] == FileByte(v, 364) && File(v)[365] == FileByte(v, 365);
    assert Imports.CString(File(v), 365) == Some([]);
    assert [File(v)[364]] + [] == [0x41];
  }

  /** Whatever the block of its image holds at first, each file decodes to its plan, which can be bound. */
  lemma FilesDecode(v: Variant, fill: nat -> Byte)
    ensures LoadSpec.Decodes(File(v), fill, PlanOf(v)) && LoadSpec.Bindable(PlanOf(v))
  {
    hide File, PeFormat.ReadNtHeaders, LoadSpec.ImportPlan, Relocation.DecodeTable, PeFormat.HeadersAt;
    HeadersDecode(v);
    ImportsDecode(v);
    var mapped := ImageMapping.Blit(LoadSpec.FreshImage(SizeOf(v), fill), 0, File(v)[..SizeOf(v)]);
    assert mapped == File(v);
  }

  lemma EntriesDecode()
    ensures Relocation.DecodeEntries(File(Plain), 4, 316, 324) == Relocation.Listing([4], 3, true)
  {
    hide ReadHalf, File;
    HalfIs(Plain, 316);
    HalfIs(Plain, 318);
    HalfIs(Plain, 320);
    HalfIs(Plain, 322);
    assert Relocation.DecodeEntries(File(Plain), 4, 324, 324) == Relocation.Listing([], 0, true);
    assert Relocation.DecodeEntries(File(Plain), 4, 322, 324) == Relocation.Listing([], 1, true);
    assert Relocation.DecodeEntries(File(Plain), 4, 320, 324) == Relocation.Listing([4], 1, true);
    assert Relocation.DecodeEntries(File(Plain), 4, 318, 324) == Relocation.Listing([4], 2, true);
  }

  lemma TableDecodes()
    ensures FileTable(Plain) == Relocation.Table([Relocation.Block(312, 4, 12, [4], 3)], 328, true)
  {
    hide ReadDword, ReadHalf, File, Relocation.DecodeEntries;
    DwordIs(Plain, 312);
    DwordIs(Plain, 316);
    DwordIs(Plain, 324);
    EntriesDecode();
  }

  /** The sample can be bound, and moved to any base. */
  lemma SampleIsWellFormed(fill: nat -> Byte)
    ensures LoadSpec.Decodes(File(Plain), fill, PlanOf(Plain))
    ensures LoadSpec.Bindable(PlanOf(Plain)) && LoadSpec.Movable(PlanOf(Plain))
  {
    hide File, FileByte, LoadSpec.Decodes, LoadSpec.Bindable, Relocation.DecodeTable;
    FilesDecode(Plain, fill);
    TableDecodes();
    var table := Relocation.Table([Relocation.Block(312, 4, 12, [4], 3)], 328, true);
    assert table.blocks[1..] == [] && Relocation.Sites(table.blocks) == [4];
  }
}

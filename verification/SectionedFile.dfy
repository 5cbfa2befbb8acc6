/**
  A file with two sections, an import by name and one by ordinal in a lookup table of its own, and a relocation in the
  upper half of its page, byte by byte; and what a load of it leaves at which address.
 */
module SectionedFile {
  import opened Words
  import opened Wrappers
  import PeFormat
  import ImageMapping
  import Imports
  import Relocation
  import LoadSpec
  import PrintedImports

  const SIZE := 672

  function HeaderByte(k: nat): Byte {
    match k
    // DOS header: MZ, e_lfanew 0x80
    case 0 => 0x4D
    case 1 => 0x5A
    case 60 => 0x80
    // NT headers: PE, i386, two sections, an optional header of 232 bytes
    case 128 => 0x50
    case 129 => 0x45
    case 132 => 0x4C
    case 133 => 0x01
    case 134 => 2
    case 148 => 0xE8
    // AddressOfEntryPoint 0x1804, ImageBase 0x400000, SizeOfImage 0x2100, SizeOfHeaders 0x1D0, dynamic base
    case 168 => 0x04
    case 169 => 0x18
    case 182 => 0x40
    case 209 => 0x21
    case 212 => 0xD0
    case 213 => 0x01
    case 222 => 0x40
    case 223 => 0x01
    // Imports at 0x2000, relocations at 0x2070
    case 257 => 0x20
    case 260 => 40
    case 288 => 0x70
    case 289 => 0x20
    case 292 => 12
    // .text: VirtualSize 0x30, VirtualAddress 0x1800, SizeOfRawData 0x40, PointerToRawData 0x1E0
    case 384 => 0x2E
    case 385 => 0x74
    case 386 => 0x65
    case 387 => 0x78
    case 388 => 0x74
    case 392 => 0x30
    case 397 => 0x18
    case 400 => 0x40
    case 404 => 0xE0
    case 405 => 0x01
    // .data: VirtualSize 0x70, VirtualAddress 0x2000, SizeOfRawData 0x80, PointerToRawData 0x220
    case 424 => 0x2E
    case 425 => 0x64
    case 426 => 0x61
    case 427 => 0x74
    case 428 => 0x61
    case 432 => 0x70
    case 437 => 0x20
    case 440 => 0x80
    case 444 => 0x20
    case 445 => 0x02
    case _ => 0
  }

  function DataByte(k: nat): Byte {
    match k
    // .text: some code, and at 0x18 the address 0x402818
    case 480 => 0x55
    case 481 => 0x8B
    case 482 => 0xEC
    case 504 => 0x18
    case 505 => 0x28
    case 506 => 0x40
    // .data: one descriptor, with its lookup table at 0x2030, its name at 0x2050 and its slots at 0x2040
    case 544 => 0x30
    case 545 => 0x20
    case 556 => 0x50
    case 557 => 0x20
    case 560 => 0x40
    case 561 => 0x20
    // The lookup table: the name at 0x2060, and ordinal 5
    case 592 => 0x60
    case 593 => 0x20
    case 596 => 0x05
    case 599 => 0x80
    // The slots, which hold something else
    case 608 => 0xAA
    case 612 => 0xBB
    // "lib", and "go" after its hint
    case 624 => 0x6C
    case 625 => 0x69
    case 626 => 0x62
    case 640 => 0x07
    case 642 => 0x67
    case 643 => 0x6F
    // One relocation block for page 0x1000: 0x3818, and padding
    case 657 => 0x10
    case 660 => 12
    case 664 => 0x18
    case 665 => 0x38
    case _ => 0
  }

  function FileByte(k: nat): Byte {
    if k < 480 then HeaderByte(k) else DataByte(k)
  }

  function File(): (b: Bytes)
    ensures |b| == SIZE && forall k :: 0 <= k < |b| ==> b[k] == FileByte(k)
  {
    seq(SIZE, k requires 0 <= k => FileByte(k))
  }

  const LIB: Bytes := [0x6C, 0x69, 0x62]
  const GO: Bytes := [0x67, 0x6F]

  // ---------- The headers ----------

  lemma DwordIs(at: nat)
    requires at + 4 <= SIZE
    ensures ReadDword(File(), at)
            == FileByte(at) + FileByte(at + 1) * 0x100 + FileByte(at + 2) * 0x1_0000 + FileByte(at + 3) * 0x100_0000
  {
  }

  lemma HalfIs(at: nat)
    requires at + 2 <= SIZE
    ensures ReadHalf(File(), at) == FileByte(at) + FileByte(at + 1) * 0x100
  {
  }

  function Headers(): PeFormat.NtHeaders {
    PeFormat.NtHeaders(0x4550, 0x14C, 2, 232, 0x1804, 0x40_0000, 0x2100, 0x1D0, 0x140,
                       PeFormat.Directory(0x2000, 40), PeFormat.Directory(0x2070, 12))
  }

  function Sections(): seq<PeFormat.Section> {
    [PeFormat.Section(0x1800, 0x40, 0x1E0), PeFormat.Section(0x2000, 0x80, 0x220)]
  }

  lemma SignaturesAreRead()
    ensures ReadHalf(File(), 0) == 0x5A4D && ReadDword(File(), 60) == 128 && ReadDword(File(), 128) == 0x4550
    ensures ReadHalf(File(), 132) == 0x14C && ReadHalf(File(), 134) == 2 && ReadHalf(File(), 148) == 232
    ensures ReadHalf(File(), 222) == 0x140
  {
    hide ReadDword, ReadHalf, File;
    HalfIs(0);
    DwordIs(60);
    DwordIs(128);
    HalfIs(132);
    HalfIs(134);
    HalfIs(148);
    HalfIs(222);
  }

  lemma FieldsAreRead()
    ensures ReadDword(File(), 168) == 0x1804 && ReadDword(File(), 180) == 0x40_0000
    ensures ReadDword(File(), 208) == 0x2100 && ReadDword(File(), 212) == 0x1D0
    ensures ReadDword(File(), 256) == 0x2000 && ReadDword(File(), 260) == 40
    ensures ReadDword(File(), 288) == 0x2070 && ReadDword(File(), 292) == 12
  {
    hide ReadDword, File;
    DwordIs(168);
    DwordIs(180);
    DwordIs(208);
    DwordIs(212);
    DwordIs(256);
    DwordIs(260);
    DwordIs(288);
    DwordIs(292);
  }

  lemma HeadersDecode()
    ensures PeFormat.HeadersAt(File(), 128, 384) && PeFormat.ReadNtHeaders(File(), 128) == Headers()
  {
    hide ReadDword, ReadHalf, File;
    SignaturesAreRead();
    FieldsAreRead();
  }

  lemma TextSectionDecodes()
    ensures PeFormat.ReadSection(File(), 384) == PeFormat.Section(0x1800, 0x40, 0x1E0)
  {
    hide ReadDword, File;
    DwordIs(396);
    DwordIs(400);
    DwordIs(404);
  }

  lemma DataSectionDecodes()
    ensures PeFormat.ReadSection(File(), 424) == PeFormat.Section(0x2000, 0x80, 0x220)
  {
    hide ReadDword, File;
    DwordIs(436);
    DwordIs(440);
    DwordIs(444);
  }

  lemma SectionsDecode()
    ensures PeFormat.ReadSections(File(), 384, 2) == Sections()
  {
    hide File, PeFormat.ReadSection;
    TextSectionDecodes();
    DataSectionDecodes();
    var sections := PeFormat.ReadSections(File(), 384, 2);
    assert sections[0] == Sections()[0] && sections[1] == Sections()[1];
  }

  // ---------- The mapped image ----------

  function ImageByte(fill: nat -> Byte, k: nat): Byte {
    if 0x1800 <= k < 0x1840 then FileByte(k - 0x1800 + 0x1E0)
    else if 0x2000 <= k < 0x2080 then FileByte(k - 0x2000 + 0x220)
    else if k < 0x1D0 then FileByte(k)
    else fill(k)
  }

  function Image(fill: nat -> Byte): (b: Bytes)
    ensures |b| == 0x2100 && forall k :: 0 <= k < |b| ==> b[k] == ImageByte(fill, k)
  {
    seq(0x2100, k requires 0 <= k => ImageByte(fill, k))
  }

  lemma FileMaps(fill: nat -> Byte)
    ensures LoadSpec.MapFile(File(), Headers(), Sections(), fill) == ImageMapping.Mapped(Image(fill))
  {
    hide File, FileByte, Image;
    var raw := File();
    var b0 := ImageMapping.Blit(LoadSpec.FreshImage(0x2100, fill), 0, raw[..0x1D0]);
    var b1 := ImageMapping.Blit(b0, 0x1800, raw[0x1E0..0x220]);
    var b2 := ImageMapping.Blit(b1, 0x2000, raw[0x220..0x2A0]);
    assert b2 == Image(fill);
    assert Sections()[1..] == [PeFormat.Section(0x2000, 0x80, 0x220)];
    assert Sections()[1..][1..] == [];
    assert ImageMapping.MapSections(raw, [], b2) == ImageMapping.Mapped(b2);
    assert ImageMapping.MapSections(raw, Sections()[1..], b1) == ImageMapping.Mapped(b2);
    assert ImageMapping.MapSections(raw, Sections(), b0) == ImageMapping.Mapped(b2);
  }

  lemma DataDwordIs(fill: nat -> Byte, at: nat)
    requires 0x2000 <= at <= 0x207C
    ensures var k := at - 0x2000 + 0x220;
            ReadDword(Image(fill), at)
            == FileByte(k) + FileByte(k + 1) * 0x100 + FileByte(k + 2) * 0x1_0000 + FileByte(k + 3) * 0x100_0000
  {
    hide FileByte;
  }

  lemma DataHalfIs(fill: nat -> Byte, at: nat)
    requires 0x2000 <= at <= 0x207E
    ensures ReadHalf(Image(fill), at) == FileByte(at - 0x2000 + 0x220) + FileByte(at - 0x2000 + 0x221) * 0x100
  {
    hide FileByte;
  }

  // ---------- The import tables ----------

  const GO_IMPORT := Imports.Import(0x2040, Imports.ByName(LIB, GO))
  const FIFTH_IMPORT := Imports.Import(0x2044, Imports.ByOrdinal(LIB, 5))

  lemma DescriptorIsRead(fill: nat -> Byte)
    ensures ReadDword(Image(fill), 0x2000) == 0x2030 && ReadDword(Image(fill), 0x2008) == 0
    ensures ReadDword(Image(fill), 0x200C) == 0x2050 && ReadDword(Image(fill), 0x2010) == 0x2040
    ensures ReadDword(Image(fill), 0x2020) == 0
  {
    hide ReadDword, Image;
    DataDwordIs(fill, 0x2000);
    DataDwordIs(fill, 0x2008);
    DataDwordIs(fill, 0x200C);
    DataDwordIs(fill, 0x2010);
    DataDwordIs(fill, 0x2020);
  }

  lemma LookupTableIsRead(fill: nat -> Byte)
    ensures ReadDword(Image(fill), 0x2030) == 0x2060 && ReadDword(Image(fill), 0x2034) == 0x8000_0005
    ensures ReadDword(Image(fill), 0x2038) == 0
  {
    hide ReadDword, Image;
    DataDwordIs(fill, 0x2030);
    DataDwordIs(fill, 0x2034);
    DataDwordIs(fill, 0x2038);
  }

  lemma TextsAreRead(fill: nat -> Byte)
    ensures Imports.CString(Image(fill), 0x2050) == Some(LIB) && Imports.CString(Image(fill), 0x2062) == Some(GO)
  {
    hide Image, FileByte, Imports.CString;
    var b := Image(fill);
    TextBytes(fill);
    assert b[0x2050..0x2054] == LIB + [0];
    assert b[0x2062..0x2065] == GO + [0];
    PrintedImports.TextRead(b, 0x2050, LIB);
    PrintedImports.TextRead(b, 0x2062, GO);
  }

  lemma TextBytes(fill: nat -> Byte)
    ensures var b := Image(fill);
            && b[0x2050] == 0x6C && b[0x2051] == 0x69 && b[0x2052] == 0x62 && b[0x2053] == 0
            && b[0x2062] == 0x67 && b[0x2063] == 0x6F && b[0x2064] == 0
  {
    hide Image;
  }

  lemma ThunksDecode(fill: nat -> Byte)
    ensures var spans := {DwordSpan(0x2030), DwordSpan(0x2034), DwordSpan(0x2038), Span(0x2050, 0x2054),
                          Span(0x2062, 0x2065)};
            Imports.DecodeThunks(Image(fill), 0x2050, 0x2030, 0x2040)
            == Imports.Plan([GO_IMPORT, FIFTH_IMPORT], spans, false)
  {
    hide ReadDword, Image, Imports.CString;
    var b := Image(fill);
    LookupTableIsRead(fill);
    TextsAreRead(fill);
    assert Imports.DecodeThunks(b, 0x2050, 0x2038, 0x2048) == Imports.Plan([], {DwordSpan(0x2038)}, false);
    assert Imports.DecodeThunks(b, 0x2050, 0x2034, 0x2044)
        == Imports.Plan([FIFTH_IMPORT], {DwordSpan(0x2034), Span(0x2050, 0x2054), DwordSpan(0x2038)}, false);
  }

  function ImportPlan(): Imports.Plan {
    var spans := {DwordSpan(0x2030), DwordSpan(0x2034), DwordSpan(0x2038), Span(0x2050, 0x2054), Span(0x2062, 0x2065)};
    Imports.Plan([GO_IMPORT, FIFTH_IMPORT], {Span(0x2000, 0x2014)} + spans + {DwordSpan(0x2020)}, false)
  }

  lemma ImportsDecode(fill: nat -> Byte)
    ensures Imports.DecodeDescriptors(Image(fill), 0x2000) == ImportPlan()
  {
    hide ReadDword, Image, Imports.DecodeThunks;
    DescriptorIsRead(fill);
    ThunksDecode(fill);
    assert Imports.DecodeDescriptors(Image(fill), 0x2014) == Imports.Plan([], {DwordSpan(0x2020)}, false);
    assert [GO_IMPORT, FIFTH_IMPORT] + [] == [GO_IMPORT, FIFTH_IMPORT];
  }

  // ---------- The relocation table ----------

  lemma EntriesDecode(fill: nat -> Byte)
    ensures Relocation.DecodeEntries(Image(fill), 0x1000, 0x2074, 0x207C) == Relocation.Listing([0x1818], 3, true)
  {
    hide ReadHalf, Image;
    var b := Image(fill);
    DataHalfIs(fill, 0x2074);
    DataHalfIs(fill, 0x2076);
    DataHalfIs(fill, 0x2078);
    DataHalfIs(fill, 0x207A);
    assert Relocation.DecodeEntries(b, 0x1000, 0x207C, 0x207C) == Relocation.Listing([], 0, true);
    assert Relocation.DecodeEntries(b, 0x1000, 0x207A, 0x207C) == Relocation.Listing([], 1, true);
    assert Relocation.DecodeEntries(b, 0x1000, 0x2078, 0x207C) == Relocation.Listing([0x1818], 1, true);
    assert Relocation.DecodeEntries(b, 0x1000, 0x2076, 0x207C) == Relocation.Listing([0x1818], 2, true);
  }

  const TABLE := Relocation.Table([Relocation.Block(0x2070, 0x1000, 12, [0x1818], 3)], 0x2080, true)

  lemma TableDecodes(fill: nat -> Byte)
    ensures Relocation.DecodeTable(Image(fill), 0x2070, Relocation.CURSOR_START) == TABLE
  {
    hide ReadDword, Image, Relocation.DecodeEntries;
    DataDwordIs(fill, 0x2070);
    DataDwordIs(fill, 0x2074);
    DataDwordIs(fill, 0x207C);
    EntriesDecode(fill);
  }

  // ---------- The load ----------

  function PlanOf(fill: nat -> Byte): LoadSpec.FilePlan {
    LoadSpec.FilePlan(Headers(), Sections(), Image(fill), ImportPlan(), TABLE)
  }

  lemma IsDecoded(fill: nat -> Byte)
    ensures LoadSpec.Decodes(File(), fill, PlanOf(fill))
  {
    hide File, Image, PeFormat.ReadNtHeaders, PeFormat.HeadersAt, PeFormat.ReadSections, LoadSpec.MapFile;
    hide Relocation.DecodeTable, Imports.DecodeDescriptors;
    HeadersDecode();
    SectionsDecode();
    FileMaps(fill);
    ImportsDecode(fill);
    TableDecodes(fill);
  }

  lemma IsWellFormed(fill: nat -> Byte)
    ensures LoadSpec.Bindable(PlanOf(fill)) && LoadSpec.Movable(PlanOf(fill))
  {
    hide Image;
    assert TABLE.blocks[1..] == [] && Relocation.Sites(TABLE.blocks) == [0x1818];
  }

  lemma SiteIs(fill: nat -> Byte)
    ensures ReadDword(Image(fill), 0x1818) == 0x40_2818
  {
    hide Image;
  }

  /**
    Loaded away from its preferred base, the file has its sections where their headers put them, its lookup table as
    it was, the two answers in its slots, the site of its page moved, and its headers and nothing else below.
  */
  lemma LoadsByteByByte(resolver: Imports.Resolver, g: LoadSpec.Grants, k: nat)
    requires g.table && g.image != 0 && g.image != 0x40_0000
    ensures var r, go, fifth := LoadSpec.Load(File(), resolver, g),
                                resolver(Imports.ByName(LIB, GO)), resolver(Imports.ByOrdinal(LIB, 5));
            if go.Some? && fifth.Some? then
              && r.Loaded? && |r.m.image| == 0x2100 && r.m.entrypoint == Wrap(g.image + 0x1804)
              && ReadDword(r.m.image, 0x2040) == go.value && ReadDword(r.m.image, 0x2044) == fifth.value
              && ReadDword(r.m.image, 0x1818) == Wrap(g.image + 0x2818)
              && (k < 0x1D0 ==> r.m.image[k] == File()[k])
              && (k < 0x40 && !(0x18 <= k < 0x1C) ==> r.m.image[0x1800 + k] == File()[0x1E0 + k])
              && (k < 0x80 && !(0x40 <= k < 0x48) ==> r.m.image[0x2000 + k] == File()[0x220 + k])
              && (0x1D0 <= k < 0x1800 || 0x1840 <= k < 0x2000 || 0x2080 <= k < 0x2100 ==> r.m.image[k] == g.fill(k))
            else r == LoadSpec.Failed(PeFormat.ResolveImports, PeFormat.UnresolvedImport)
  {
    hide File, Image, ReadDword, LoadSpec.Load, LoadSpec.Decodes, LoadSpec.Movable, LoadSpec.IsLoadedImage;
    var p := PlanOf(g.fill);
    IsDecoded(g.fill);
    IsWellFormed(g.fill);
    LoadSpec.LoadsExactly(File(), resolver, g, p);
    var imports := p.imports.imports;
    assert imports[0] == GO_IMPORT && imports[1] == FIFTH_IMPORT;
    if LoadSpec.Resolved(p, resolver) {
      var image := LoadSpec.Load(File(), resolver, g).m.image;
      WordsAreLoaded(image, resolver, g);
      ByteIsLoaded(image, resolver, g, k);
      ByteIsLoaded(image, resolver, g, 0x1800 + k);
      ByteIsLoaded(image, resolver, g, 0x2000 + k);
    }
  }

  lemma WordsAreLoaded(image: Bytes, resolver: Imports.Resolver, g: LoadSpec.Grants)
    requires LoadSpec.WellFormedAt(PlanOf(g.fill), g.image) && LoadSpec.Resolved(PlanOf(g.fill), resolver)
    requires g.image != 0x40_0000
    requires LoadSpec.IsLoadedImage(image, File(), g.fill, PlanOf(g.fill), resolver, g.image)
    ensures |image| == 0x2100
    ensures resolver(Imports.ByName(LIB, GO)) == Some(ReadDword(image, 0x2040))
    ensures resolver(Imports.ByOrdinal(LIB, 5)) == Some(ReadDword(image, 0x2044))
    ensures ReadDword(image, 0x1818) == Wrap(g.image + 0x2818)
  {
    hide File, Image, ReadDword, LoadSpec.Movable, LoadSpec.IsFileByte, Imports.SlotsAreFree;
    var p := PlanOf(g.fill);
    assert p.imports.imports[0] == GO_IMPORT && p.imports.imports[1] == FIFTH_IMPORT;
    assert TABLE.blocks[1..] == [] && Relocation.Sites(TABLE.blocks) == [0x1818];
    assert LoadSpec.MovedSites(p, g.image)[0] == 0x1818;
    SiteIs(g.fill);
  }

  lemma ByteIsLoaded(image: Bytes, resolver: Imports.Resolver, g: LoadSpec.Grants, k: nat)
    requires LoadSpec.WellFormedAt(PlanOf(g.fill), g.image) && LoadSpec.Resolved(PlanOf(g.fill), resolver)
    requires LoadSpec.IsLoadedImage(image, File(), g.fill, PlanOf(g.fill), resolver, g.image)
    requires g.image != 0x40_0000 && |image| == 0x2100
    ensures k < 0x2100 && !(0x1818 <= k < 0x181C) && !(0x2040 <= k < 0x2048) ==> image[k] == ImageByte(g.fill, k)
  {
    hide File, FileByte, Image, ReadDword, LoadSpec.Movable, Imports.SlotsAreFree;
    var p := PlanOf(g.fill);
    assert TABLE.blocks[1..] == [] && Relocation.Sites(TABLE.blocks) == [0x1818];
    if k < 0x2100 && !(0x1818 <= k < 0x181C) && !(0x2040 <= k < 0x2048) {
      assert LoadSpec.InNoSlot(p.imports.imports, k) && LoadSpec.InNoSite(LoadSpec.MovedSites(p, g.image), k);
      assert LoadSpec.IsFileByte(File(), g.fill, p, k, image[k]);
      assert ImageMapping.Covers(p.sections[0], k) <==> 0x1800 <= k < 0x1840;
      assert ImageMapping.Covers(p.sections[1], k) <==> 0x2000 <= k < 0x2080;
    }
  }
}

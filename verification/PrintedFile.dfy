/**
  Loading a file that is described by what a linker wrote: its header fields, its sections, the imports of its
  libraries and the entries of its relocation pages.
 */
module PrintedFile {
  import opened Words
  import opened Printing
  import PeFormat
  import ImageMapping
  import Imports
  import Relocation
  import LoadSpec
  import opened PrintedHeaders
  import opened PrintedImports
  import opened PrintedRelocations

  datatype FileImage = FileImage(
    dos: DosImage, nt: NtImage, sections: seq<SectionImage>, libraries: seq<Library>, pages: seq<Page>)

  /** The section's raw data go to address `k`. */
  predicate Covers(s: SectionImage, k: nat) {
    s.address <= k < s.address + s.rawSize
  }

  /** Sections with raw data lie in the file and in the image, and do not overlap there. */
  ghost predicate SectionsArePlaced(raw: Bytes, nt: NtImage, sections: seq<SectionImage>) {
    && (forall i :: 0 <= i < |sections| && sections[i].rawSize != 0 ==>
          && sections[i].rawStart + sections[i].rawSize <= |raw|
          && sections[i].address + sections[i].rawSize <= nt.sizeOfImage)
    && forall i, j :: 0 <= i < j < |sections| && sections[i].rawSize != 0 && sections[j].rawSize != 0 ==>
         sections[i].address + sections[i].rawSize <= sections[j].address
         || sections[j].address + sections[j].rawSize <= sections[i].address
  }

  /** The file starts with headers that the checks accept, and with the section table that they announce. */
  ghost predicate HasAcceptedHeaders(raw: Bytes, f: FileImage) {
    && HoldsHeaders(raw, f.dos, f.nt)
    && f.dos.magic == 0x5A4D && f.nt.signature == 0x4550 && f.nt.machine == 0x14C
    && f.nt.dllCharacteristics / 0x40 % 2 == 1
    && f.nt.sectionCount == |f.sections| && HoldsSections(raw, TableAt(f.dos, f.nt), f.sections)
  }

  /** The file has such headers and the sections that its table lists. */
  ghost predicate IsPrinted(raw: Bytes, f: FileImage) {
    && HasAcceptedHeaders(raw, f)
    && f.nt.sizeOfHeaders <= f.nt.sizeOfImage && f.nt.sizeOfHeaders <= |raw|
    && SectionsArePlaced(raw, f.nt, f.sections)
  }

  /** What belongs at address `k`: a section's byte, else a header's, else what the block held at first. */
  ghost predicate Belongs(raw: Bytes, fill: nat -> Byte, f: FileImage, k: nat, b: Byte) {
    && (forall i :: 0 <= i < |f.sections| && Covers(f.sections[i], k) ==>
          var from := f.sections[i].rawStart + (k - f.sections[i].address);
          from < |raw| && b == raw[from])
    && ((forall i :: 0 <= i < |f.sections| ==> !Covers(f.sections[i], k)) ==>
          b == if k < f.nt.sizeOfHeaders && k < |raw| then raw[k] else fill(k))
  }

  ghost predicate IsMapped(image: Bytes, raw: Bytes, fill: nat -> Byte, f: FileImage) {
    |image| == f.nt.sizeOfImage && forall k :: 0 <= k < |image| ==> Belongs(raw, fill, f, k, image[k])
  }

  /** The plan of the file, its tables as printed. */
  function PlanOf(f: FileImage, mapped: Bytes): LoadSpec.FilePlan {
    LoadSpec.FilePlan(
      f.nt.Fields(), AllFields(f.sections), mapped,
      if f.nt.imports.size == 0 then Imports.Plan([], {}, false)
      else Imports.Plan(AllImports(f.libraries), AllSpans(f.nt.imports.address, f.libraries), false),
      Relocation.DecodeTable(mapped, f.nt.relocations.address, Relocation.CURSOR_START))
  }

  lemma SectionsAreWellPlaced(raw: Bytes, f: FileImage)
    requires IsPrinted(raw, f)
    ensures ImageMapping.SectionsFit(raw, AllFields(f.sections), f.nt.sizeOfImage)
    ensures ImageMapping.SectionsDisjoint(AllFields(f.sections))
  {
    hide HoldsHeaders, HoldsSections;
    var fields := AllFields(f.sections);
    forall i, j | 0 <= i < j < |fields| && fields[i].rawSize != 0 && fields[j].rawSize != 0
      ensures ImageMapping.SectionSpan(fields[i]).Apart(ImageMapping.SectionSpan(fields[j]))
    {
      assert f.sections[i].rawSize != 0 && f.sections[j].rawSize != 0;
    }
    forall i | 0 <= i < |fields| && fields[i].rawSize != 0
      ensures fields[i].rawStart + fields[i].rawSize <= |raw|
      ensures fields[i].address + fields[i].rawSize <= f.nt.sizeOfImage
    {
      assert f.sections[i].rawSize != 0;
    }
  }

  /** Mapping a printed file puts the bytes where they belong. */
  lemma Maps(raw: Bytes, fill: nat -> Byte, f: FileImage) returns (mapped: Bytes)
    requires IsPrinted(raw, f)
    ensures LoadSpec.MapFile(raw, f.nt.Fields(), AllFields(f.sections), fill) == ImageMapping.Mapped(mapped)
    ensures IsMapped(mapped, raw, fill, f)
  {
    hide ImageMapping.MapSections, HoldsHeaders, HoldsSections, SectionsArePlaced;
    SectionsAreWellPlaced(raw, f);
    var nt, fields := f.nt.Fields(), AllFields(f.sections);
    var image := ImageMapping.Blit(LoadSpec.FreshImage(nt.sizeOfImage, fill), 0, raw[..nt.sizeOfHeaders]);
    ImageMapping.MapsWhatFits(raw, fields, image);
    mapped := ImageMapping.MapSections(raw, fields, image).image;
    forall k: nat | k < |mapped|
      ensures Belongs(raw, fill, f, k, mapped[k])
    {
      forall i | 0 <= i < |f.sections| && Covers(f.sections[i], k)
        ensures var from := f.sections[i].rawStart + (k - f.sections[i].address);
                from < |raw| && mapped[k] == raw[from]
      {
        assert ImageMapping.Covers(fields[i], k);
        ImageMapping.CoveredByte(raw, fields, image, i, k);
      }
      if forall i :: 0 <= i < |f.sections| ==> !Covers(f.sections[i], k) {
        forall i | 0 <= i < |fields|
          ensures !ImageMapping.Covers(fields[i], k)
        {
          assert !Covers(f.sections[i], k);
        }
        ImageMapping.UncoveredByte(raw, fields, image, k);
      }
    }
  }

  /** No two images are mapped from one file. */
  lemma MappedIsUnique(a: Bytes, b: Bytes, raw: Bytes, fill: nat -> Byte, f: FileImage)
    requires IsMapped(a, raw, fill, f) && IsMapped(b, raw, fill, f)
    ensures a == b
  {
    forall k: nat | k < |a|
      ensures a[k] == b[k]
    {
      assert Belongs(raw, fill, f, k, a[k]) && Belongs(raw, fill, f, k, b[k]);
      if i :| 0 <= i < |f.sections| && Covers(f.sections[i], k) {
      }
    }
  }

  // ---------- The tables in the mapped image ----------

  /** The slots overlap neither each other nor what is read of the import tables. */
  ghost predicate HoldsImports(mapped: Bytes, f: FileImage) {
    if f.nt.imports.size == 0 then f.libraries == []
    else
      && HoldsLibraries(mapped, f.nt.imports.address, f.libraries)
      && Imports.SlotsAreFree(mapped, AllImports(f.libraries), AllSpans(f.nt.imports.address, f.libraries))
  }

  function TableSpan(f: FileImage): Span {
    var at := f.nt.relocations.address;
    Span(at, at + PagesSize(f.pages) + 4)
  }

  /** The sites overlap neither each other nor the table, and no slot overlaps either. */
  ghost predicate HoldsRelocations(mapped: Bytes, f: FileImage) {
    && f.nt.relocations.size != 0
    && HoldsPages(mapped, f.nt.relocations.address, f.pages) && AllSupported(f.pages)
    && var sites, imports := SitesOf(f.pages), AllImports(f.libraries);
       && Relocation.Clear(mapped, sites, TableSpan(f)) && Relocation.Disjoint(sites)
       && forall i :: 0 <= i < |imports| ==>
            DwordSpan(imports[i].slot).Apart(TableSpan(f))
            && forall j :: 0 <= j < |sites| ==> DwordSpan(imports[i].slot).Apart(DwordSpan(sites[j]))
  }

  lemma ImportsAreRead(mapped: Bytes, f: FileImage)
    requires HoldsImports(mapped, f)
    ensures PlanOf(f, mapped).imports == Imports.Plan(AllImports(f.libraries), PlanOf(f, mapped).imports.tables, false)
    ensures LoadSpec.ImportPlan(f.nt.Fields(), mapped) == PlanOf(f, mapped).imports
    ensures Imports.SlotsAreFree(mapped, AllImports(f.libraries), PlanOf(f, mapped).imports.tables)
  {
    hide AllSpans, Imports.DecodeDescriptors, HoldsLibraries, Relocation.DecodeTable;
    if f.nt.imports.size != 0 {
      LibrariesRead(mapped, f.nt.imports.address, f.libraries);
    }
  }

  lemma PlanIsDecoded(raw: Bytes, mapped: Bytes, fill: nat -> Byte, f: FileImage)
    requires IsPrinted(raw, f) && IsMapped(mapped, raw, fill, f) && HoldsImports(mapped, f)
    ensures LoadSpec.Decodes(raw, fill, PlanOf(f, mapped)) && LoadSpec.Bindable(PlanOf(f, mapped))
  {
    hide HoldsHeaders, HoldsSections, SectionsArePlaced, HoldsImports, Belongs, IsMapped, LoadSpec.ImportPlan;
    hide LoadSpec.MapFile, PeFormat.ReadNtHeaders, PeFormat.ReadSections, Relocation.DecodeTable;
    hide ImageMapping.SectionsFit, ImageMapping.SectionsDisjoint, Imports.SlotsAreFree;
    var p := PlanOf(f, mapped);
    var image := Maps(raw, fill, f);
    MappedIsUnique(image, mapped, raw, fill, f);
    SectionsAreWellPlaced(raw, f);
    ImportsAreRead(mapped, f);
    var ntAt := HeadersAreFound(raw, f);
    SectionsRead(raw, TableAt(f.dos, f.nt), f.sections);
  }

  lemma HeadersAreFound(raw: Bytes, f: FileImage) returns (ntAt: nat)
    requires IsPrinted(raw, f)
    ensures PeFormat.HeadersAt(raw, ntAt, TableAt(f.dos, f.nt)) && PeFormat.ReadNtHeaders(raw, ntAt) == f.nt.Fields()
    ensures TableAt(f.dos, f.nt) + PeFormat.SECTION_HEADER_SIZE * f.nt.sectionCount <= |raw|
  {
    hide ReadDword, ReadHalf, SectionsArePlaced;
    ntAt := Max(64, f.dos.ntAt);
    DosRead(raw, f.dos);
    NtRead(raw, ntAt, f.nt);
  }

  lemma TableIsRead(mapped: Bytes, f: FileImage)
    requires HoldsRelocations(mapped, f)
    ensures var t := PlanOf(f, mapped).table;
            && t.Table? && t.supported && Relocation.Sites(t.blocks) == SitesOf(f.pages)
            && Span(f.nt.relocations.address, t.limit) == TableSpan(f)
  {
    hide Relocation.DecodeTable, Relocation.Sites, SitesOf, HoldsPages, AllImports, AllSpans, AllFields;
    hide Relocation.Clear, Relocation.Disjoint;
    PagesRead(mapped, f.nt.relocations.address, f.pages);
  }

  lemma PlanIsMovable(mapped: Bytes, f: FileImage)
    requires HoldsImports(mapped, f) && HoldsRelocations(mapped, f)
    ensures LoadSpec.Movable(PlanOf(f, mapped))
    ensures Relocation.Sites(PlanOf(f, mapped).table.blocks) == SitesOf(f.pages)
  {
    hide AllImports, AllSpans, Relocation.DecodeTable, Relocation.Sites, SitesOf, HoldsPages, TableSpan, AllFields;
    hide Relocation.Clear, Relocation.Disjoint, HoldsImports, AllSupported, Imports.SlotsAreFree;
    ImportsAreRead(mapped, f);
    TableIsRead(mapped, f);
  }

  // ---------- The whole load ----------

  ghost predicate AllKnown(imports: seq<Imports.Import>, resolver: Imports.Resolver) {
    forall i :: 0 <= i < |imports| ==> resolver(imports[i].source).Some?
  }

  /** The image at `base`: slots bound, sites moved, and everything else where it belongs. */
  ghost predicate IsLoaded(image: Bytes, mapped: Bytes, raw: Bytes, fill: nat -> Byte, f: FileImage,
                           resolver: Imports.Resolver, base: Dword)
    requires AllKnown(AllImports(f.libraries), resolver)
  {
    var imports := AllImports(f.libraries);
    var sites := if base == f.nt.imageBase then [] else SitesOf(f.pages);
    && |image| == |mapped| == f.nt.sizeOfImage
    && (forall i :: 0 <= i < |imports| ==>
          imports[i].slot + 4 <= |image| && ReadDword(image, imports[i].slot) == resolver(imports[i].source).value)
    && (forall i :: 0 <= i < |sites| ==>
          && sites[i] + 4 <= |image|
          && ReadDword(image, sites[i]) == Wrap(ReadDword(mapped, sites[i]) + base - f.nt.imageBase))
    && forall k: nat :: k < |image| && LoadSpec.InNoSlot(imports, k) && LoadSpec.InNoSite(sites, k) ==>
         Belongs(raw, fill, f, k, image[k])
  }

  /**
    A printed file loads exactly when its imports, as they were printed, are all known; every byte of the image, the
    headers and the entrypoint are then determined by what was printed.
  */
  lemma LoadsAsPrinted(raw: Bytes, mapped: Bytes, f: FileImage, resolver: Imports.Resolver, g: LoadSpec.Grants)
    requires IsPrinted(raw, f) && IsMapped(mapped, raw, g.fill, f) && HoldsImports(mapped, f)
    requires g.image == f.nt.imageBase || HoldsRelocations(mapped, f)
    requires g.table && g.image != 0
    ensures var r := LoadSpec.Load(raw, resolver, g);
            if AllKnown(AllImports(f.libraries), resolver) then
              && r.Loaded?
              && r.m.nt == f.nt.Fields().(imageBase := g.image)
              && r.m.entrypoint == (if g.image == f.nt.imageBase then 0 else Wrap(g.image + f.nt.entryPoint))
              && IsLoaded(r.m.image, mapped, raw, g.fill, f, resolver, g.image)
            else r == LoadSpec.Failed(PeFormat.ResolveImports, PeFormat.UnresolvedImport)
  {
    hide LoadSpec.Load, LoadSpec.Decodes, LoadSpec.Movable, HoldsImports, HoldsRelocations, IsPrinted, IsMapped;
    hide LoadSpec.IsLoadedImage, IsLoaded, AllImports, AllSpans, Relocation.DecodeTable;
    var p := PlanOf(f, mapped);
    PlanIsDecoded(raw, mapped, g.fill, f);
    ImportsAreRead(mapped, f);
    if g.image != f.nt.imageBase {
      PlanIsMovable(mapped, f);
    }
    LoadSpec.LoadsExactly(raw, resolver, g, p);
    if AllKnown(AllImports(f.libraries), resolver) {
      assert LoadSpec.Resolved(p, resolver);
      LoadedAsPrinted(LoadSpec.Load(raw, resolver, g).m.image, mapped, raw, g.fill, f, resolver, g.image);
    }
  }

  lemma LoadedAsPrinted(image: Bytes, mapped: Bytes, raw: Bytes, fill: nat -> Byte, f: FileImage,
                        resolver: Imports.Resolver, base: Dword)
    requires HoldsImports(mapped, f) && LoadSpec.Bindable(PlanOf(f, mapped))
    requires base == f.nt.imageBase || HoldsRelocations(mapped, f)
    requires AllKnown(AllImports(f.libraries), resolver)
    requires LoadSpec.WellFormedAt(PlanOf(f, mapped), base) && LoadSpec.Resolved(PlanOf(f, mapped), resolver)
    requires LoadSpec.IsLoadedImage(image, raw, fill, PlanOf(f, mapped), resolver, base)
    ensures IsLoaded(image, mapped, raw, fill, f, resolver, base)
  {
    hide ReadDword, AllImports, AllSpans, SitesOf, LoadSpec.Movable, Relocation.DecodeTable, Relocation.Sites;
    hide HoldsImports, HoldsRelocations, Belongs, LoadSpec.IsFileByte, AllFields, Imports.SlotsAreFree;
    var p := PlanOf(f, mapped);
    ImportsAreRead(mapped, f);
    if base != f.nt.imageBase {
      PlanIsMovable(mapped, f);
    }
    forall k: nat | k < |image| && LoadSpec.IsFileByte(raw, fill, p, k, image[k])
      ensures Belongs(raw, fill, f, k, image[k])
    {
      SameByte(raw, mapped, fill, f, k, image[k]);
    }
  }

  lemma SameByte(raw: Bytes, mapped: Bytes, fill: nat -> Byte, f: FileImage, k: nat, b: Byte)
    requires LoadSpec.IsFileByte(raw, fill, PlanOf(f, mapped), k, b)
    ensures Belongs(raw, fill, f, k, b)
  {
    hide AllImports, AllSpans, Relocation.DecodeTable;
    var fields := AllFields(f.sections);
    forall i | 0 <= i < |f.sections| && Covers(f.sections[i], k)
      ensures var from := f.sections[i].rawStart + (k - f.sections[i].address);
              from < |raw| && b == raw[from]
    {
      assert ImageMapping.Covers(fields[i], k);
    }
    if forall i :: 0 <= i < |f.sections| ==> !Covers(f.sections[i], k) {
      forall i | 0 <= i < |fields|
        ensures !ImageMapping.Covers(fields[i], k)
      {
        assert !Covers(f.sections[i], k);
      }
    }
  }

  // ---------- Files that do not load ----------

  lemma ParsesPrintedHeaders(raw: Bytes, f: FileImage, resolver: Imports.Resolver, g: LoadSpec.Grants)
    requires HasAcceptedHeaders(raw, f) && g.table
    ensures LoadSpec.Parse(raw, resolver, g)
            == LoadSpec.MapAndBind(raw, f.nt.Fields(), AllFields(f.sections), resolver, g)
  {
    hide LoadSpec.MapAndBind, PeFormat.ParseHeader, PeFormat.ReadSections, HoldsHeaders;
    HeadersOutcome(raw, true, f.dos, f.nt);
    SectionsRead(raw, TableAt(f.dos, f.nt), f.sections);
  }

  /** Accepted headers fail for want of a block for the image, or because they would not fit into it. */
  lemma ImageIsRefused(raw: Bytes, f: FileImage, resolver: Imports.Resolver, g: LoadSpec.Grants)
    requires HasAcceptedHeaders(raw, f) && g.table
    ensures g.image == 0 ==>
              LoadSpec.Load(raw, resolver, g) == LoadSpec.Failed(PeFormat.LoadImage, PeFormat.OutOfMemory)
    ensures g.image != 0 && f.nt.sizeOfHeaders > f.nt.sizeOfImage ==>
              LoadSpec.Load(raw, resolver, g) == LoadSpec.Failed(PeFormat.LoadImage, PeFormat.Error)
  {
    hide HasAcceptedHeaders;
    ParsesPrintedHeaders(raw, f, resolver, g);
  }

  /** The data of section `i` are not all in the file, and those of the sections before it are placed. */
  ghost predicate IsTruncatedAt(raw: Bytes, f: FileImage, i: nat)
    requires i < |f.sections|
  {
    && f.sections[i].rawSize != 0 && f.sections[i].rawStart + f.sections[i].rawSize > |raw|
    && forall j :: 0 <= j < i && f.sections[j].rawSize != 0 ==>
         && f.sections[j].rawStart + f.sections[j].rawSize <= |raw|
         && f.sections[j].address + f.sections[j].rawSize <= f.nt.sizeOfImage
  }

  lemma {:induction false} MapStops(raw: Bytes, sections: seq<PeFormat.Section>, image: Bytes, i: nat)
    requires i < |sections| && sections[i].rawSize != 0 && sections[i].rawStart + sections[i].rawSize > |raw|
    requires ImageMapping.SectionsFit(raw, sections[..i], |image|)
    ensures ImageMapping.MapSections(raw, sections, image) == ImageMapping.Truncated
    decreases i
  {
    if i > 0 {
      var s := sections[0];
      assert sections[..i][0] == s && sections[1..][..i - 1] == sections[..i][1..];
      if s.rawSize == 0 {
        MapStops(raw, sections[1..], image, i - 1);
      } else {
        var next := ImageMapping.Blit(image, s.address, raw[s.rawStart..s.rawStart + s.rawSize]);
        MapStops(raw, sections[1..], next, i - 1);
      }
    }
  }

  /** A file that ends inside the data of a section is too small. */
  lemma SectionIsTruncated(raw: Bytes, f: FileImage, resolver: Imports.Resolver, g: LoadSpec.Grants, i: nat)
    requires HasAcceptedHeaders(raw, f) && g.table && g.image != 0
    requires f.nt.sizeOfHeaders <= f.nt.sizeOfImage && f.nt.sizeOfHeaders <= |raw|
    requires i < |f.sections| && IsTruncatedAt(raw, f, i)
    ensures LoadSpec.Load(raw, resolver, g) == LoadSpec.Failed(PeFormat.LoadSection, PeFormat.FileTooSmall)
  {
    hide HasAcceptedHeaders, ImageMapping.MapSections, ImageMapping.Blit;
    ParsesPrintedHeaders(raw, f, resolver, g);
    var nt, fields := f.nt.Fields(), AllFields(f.sections);
    var image := ImageMapping.Blit(LoadSpec.FreshImage(nt.sizeOfImage, g.fill), 0, raw[..nt.sizeOfHeaders]);
    forall j | 0 <= j < i && fields[j].rawSize != 0
      ensures fields[j].rawStart + fields[j].rawSize <= |raw|
      ensures fields[j].address + fields[j].rawSize <= nt.sizeOfImage
    {
      assert f.sections[j].rawSize != 0;
    }
    MapStops(raw, fields, image, i);
  }

  /** A file whose first library has a forwarder chain is refused. */
  lemma ForwarderFails(raw: Bytes, mapped: Bytes, f: FileImage, resolver: Imports.Resolver, g: LoadSpec.Grants,
                       l: Library)
    requires IsPrinted(raw, f) && IsMapped(mapped, raw, g.fill, f) && g.table && g.image != 0
    requires f.nt.imports.size != 0 && Holds(mapped, f.nt.imports.address, l.Print()) && l.nameAt != 0 && l.chain != 0
    ensures LoadSpec.Load(raw, resolver, g)
            == LoadSpec.Failed(PeFormat.ResolveImports, PeFormat.ForwardingNotSupported)
  {
    hide HoldsHeaders, HoldsSections, SectionsArePlaced, IsMapped, LoadSpec.MapFile, Imports.WalkDescriptors, Holds;
    ParsesPrintedHeaders(raw, f, resolver, g);
    var image := Maps(raw, g.fill, f);
    MappedIsUnique(image, mapped, raw, g.fill, f);
    ForwarderIsRefused(mapped, f.nt.imports.address, l, resolver);
  }
}

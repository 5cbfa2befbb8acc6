/**
  Loading as a function of the file, the resolver and the allocator's answers, and what a load of a
  well-formed file leaves in memory.
 */
module LoadSpec {
  import opened Words
  import opened PeFormat
  import ImageMapping
  import opened Imports
  import Relocation

  /** A loaded module: its headers, its image and its entrypoint. */
  datatype Module = Module(nt: NtHeaders, image: Bytes, entrypoint: Dword)

  /** The allocator's answers to the loader: section table, image (its address, 0 for NULL) and its first contents. */
  datatype Grants = Grants(table: bool, image: Dword, fill: nat -> Byte)

  function FreshImage(size: nat, fill: nat -> Byte): (b: Bytes)
    ensures |b| == size && forall k :: 0 <= k < size ==> b[k] == fill(k)
  {
    seq(size, k requires 0 <= k => fill(k))
  }

  // ---------- The stages ----------

  function MapFile(raw: Bytes, nt: NtHeaders, sections: seq<Section>, fill: nat -> Byte): (r: ImageMapping.MapOutcome)
    requires nt.sizeOfHeaders <= nt.sizeOfImage && nt.sizeOfHeaders <= |raw|
    ensures r.Mapped? ==> |r.image| == nt.sizeOfImage
  {
    ImageMapping.MapSections(raw, sections,
      ImageMapping.Blit(FreshImage(nt.sizeOfImage, fill), 0, raw[..nt.sizeOfHeaders]))
  }

  function BindImports(nt: NtHeaders, image: Bytes, resolver: Resolver): (r: BindOutcome)
    ensures !r.Undefined? ==> |r.image| == |image|
  {
    if nt.imports.size == 0 then Bound(image) else WalkDescriptors(image, nt.imports.address, resolver)
  }

  datatype RebaseOutcome = Rebased(m: Module) | Unrebased(status: Status, m: Module) | RebaseUndefined

  function Rebase(m: Module, base: Dword): (r: RebaseOutcome)
    ensures !r.RebaseUndefined? ==> |r.m.image| == |m.image|
  {
    if base == m.nt.imageBase then Rebased(m)
    else if m.nt.relocations.size == 0 then Unrebased(NoRelocationData, m)
    else
      var delta := Relocation.ImageDelta(base, m.nt.imageBase);
      match Relocation.WalkBlocks(m.image, m.nt.relocations.address, Relocation.CURSOR_START, delta)
      case Undefined => RebaseUndefined
      case Unsupported(image) => Unrebased(UnsupportedRelocationType, m.(image := image))
      case Done(image) => Rebased(Module(m.nt.(imageBase := base), image, Wrap(base + m.nt.entryPoint)))
  }

  datatype LoadOutcome = Loaded(m: Module) | Failed(stage: Stage, status: Status) | LoadUndefined

  /** The stages after the headers have been read. */
  function MapAndBind(raw: Bytes, nt: NtHeaders, sections: seq<Section>, resolver: Resolver,
                      g: Grants): (r: LoadOutcome)
    ensures r.Loaded? ==> g.image != 0 && |r.m.image| == r.m.nt.sizeOfImage && r.m.entrypoint == 0
  {
    if g.image == 0 then Failed(LoadImage, OutOfMemory)
    else if nt.sizeOfHeaders > nt.sizeOfImage then Failed(LoadImage, Error)
    else if nt.sizeOfHeaders > |raw| then LoadUndefined
    else
      match MapFile(raw, nt, sections, g.fill)
      case Undefined => LoadUndefined
      case Truncated => Failed(LoadSection, FileTooSmall)
      case Mapped(image) =>
        match BindImports(nt, image, resolver)
        case Undefined => LoadUndefined
        case Forwarded(_) => Failed(ResolveImports, ForwardingNotSupported)
        case Unresolved(_) => Failed(ResolveImports, UnresolvedImport)
        case Bound(bound) => Loaded(Module(nt, bound, 0))
  }

  /** DLLParse: map the file and bind its imports, without relocating. */
  function Parse(raw: Bytes, resolver: Resolver, g: Grants): (r: LoadOutcome)
    ensures r.Loaded? ==> g.image != 0 && |r.m.image| == r.m.nt.sizeOfImage && r.m.entrypoint == 0
  {
    match ParseHeader(raw, g.table)
    case Rejected(stage, status) => Failed(stage, status)
    case Parsed(nt, tableAt) => MapAndBind(raw, nt, ReadSections(raw, tableAt, nt.sectionCount), resolver, g)
  }

  /** DLLLoad: parse, then rebase to where the image was allocated. */
  function Load(raw: Bytes, resolver: Resolver, g: Grants): LoadOutcome {
    var r := Parse(raw, resolver, g);
    if !r.Loaded? then r
    else
      match Rebase(r.m, g.image)
      case RebaseUndefined => LoadUndefined
      case Unrebased(status, _) => Failed(Relocate, status)
      case Rebased(m) => Loaded(m)
  }

  // ---------- Rebasing ----------

  function Table(m: Module): Relocation.Table {
    Relocation.DecodeTable(m.image, m.nt.relocations.address, Relocation.CURSOR_START)
  }

  function TableSites(m: Module): seq<nat> {
    if Table(m).Table? then Relocation.Sites(Table(m).blocks) else []
  }

  function TableSpan(m: Module): Span {
    var at := m.nt.relocations.address;
    if Table(m).Table? then Span(at, Table(m).limit) else Span(at, at)
  }

  /** A supported relocation table whose sites stay in the image and off the table. */
  ghost predicate Walkable(m: Module) {
    && m.nt.relocations.size != 0
    && Table(m).Table? && Table(m).supported
    && Relocation.Clear(m.image, TableSites(m), TableSpan(m))
  }

  /** Such a table whose sites also stay off each other. */
  ghost predicate Relocatable(m: Module) {
    Walkable(m) && Relocation.Separate(TableSites(m))
  }

  /** `m` moved to `base`: every site shifted by the distance, and nothing else of the image changed. */
  ghost function Moved(m: Module, base: Dword): Bytes
    requires Walkable(m)
  {
    Relocation.AddAll(m.image, TableSites(m), base - m.nt.imageBase)
  }

  lemma RebaseMoves(m: Module, base: Dword)
    requires Walkable(m)
    ensures Rebase(m, base) == Rebased(Module(
              m.nt.(imageBase := base),
              Moved(m, base),
              if base == m.nt.imageBase then m.entrypoint else Wrap(base + m.nt.entryPoint)))
  {
    hide Relocation.WalkBlocks, Relocation.DecodeTable, Relocation.AddAll, Relocation.ImageDelta;
    if base == m.nt.imageBase {
      Relocation.AddAllZero(m.image, TableSites(m));
    } else {
      var delta := Relocation.ImageDelta(base, m.nt.imageBase);
      Relocation.TableRefines(m.image, m.image, m.nt.relocations.address, Relocation.CURSOR_START, delta, TableSpan(m));
      Relocation.DeltaIsDifference(base, m.nt.imageBase);
      Relocation.AddAllWraps(m.image, TableSites(m), delta, base - m.nt.imageBase);
    }
  }

  /** A rebased module has the same table, and so can be rebased again. */
  lemma RebaseKeepsTable(m: Module, base: Dword)
    requires Walkable(m)
    ensures Rebase(m, base).Rebased? && Walkable(Rebase(m, base).m) && Table(Rebase(m, base).m) == Table(m)
    ensures Relocatable(m) ==> Relocatable(Rebase(m, base).m)
  {
    hide Relocation.WalkBlocks, Relocation.DecodeTable, Relocation.AddAll, Rebase;
    RebaseMoves(m, base);
    Relocation.AddAllApart(m.image, TableSites(m), base - m.nt.imageBase, TableSpan(m));
    Relocation.TableSame(m.image, Moved(m, base), m.nt.relocations.address, Relocation.CURSOR_START, TableSpan(m));
  }

  /** A sequence of rebases that stops at the first failure. */
  function RebaseAll(m: Module, bases: seq<Dword>): RebaseOutcome
    decreases |bases|
  {
    if bases == [] then Rebased(m)
    else
      var r := Rebase(m, bases[0]);
      if r.Rebased? then RebaseAll(r.m, bases[1..]) else r
  }

  /**
    Any sequence of rebases leaves the image and the base of one rebase to its last address, and an entrypoint
    in that image unless no call changed the base.
  */
  lemma {:induction false} RebasingIsPathIndependent(m: Module, bases: seq<Dword>)
    requires Relocatable(m) && bases != []
    ensures var last := bases[|bases| - 1];
            RebaseAll(m, bases) == Rebased(Module(
              m.nt.(imageBase := last),
              Moved(m, last),
              if forall i :: 0 <= i < |bases| ==> bases[i] == m.nt.imageBase then m.entrypoint
              else Wrap(last + m.nt.entryPoint)))
    decreases |bases|
  {
    hide Rebase, Relocation.AddAll, Table, TableSites, TableSpan;
    RebaseMoves(m, bases[0]);
    RebaseKeepsTable(m, bases[0]);
    var next := Rebase(m, bases[0]).m;
    if |bases| > 1 {
      var rest, last := bases[1..], bases[|bases| - 1];
      RebasingIsPathIndependent(next, rest);
      SameSites(m, next);
      Relocation.AddAllTwice(m.image, TableSites(m), bases[0] - m.nt.imageBase, last - bases[0]);
      assert (bases[0] - m.nt.imageBase) + (last - bases[0]) == last - m.nt.imageBase;
      assert forall i :: 1 <= i < |bases| ==> bases[i] == rest[i - 1];
      assert bases[0] == m.nt.imageBase && (forall i :: 0 <= i < |rest| ==> rest[i] == bases[0])
        ==> forall i :: 0 <= i < |bases| ==> bases[i] == m.nt.imageBase;
    }
  }

  lemma SameSites(m: Module, n: Module)
    requires Table(m) == Table(n)
    ensures TableSites(m) == TableSites(n)
  {
  }

  /** Rebasing back to the original base, by any route, restores the image bit for bit. */
  lemma RebasingBackRestores(m: Module, bases: seq<Dword>)
    requires Relocatable(m) && bases != [] && bases[|bases| - 1] == m.nt.imageBase
    ensures RebaseAll(m, bases).Rebased?
    ensures RebaseAll(m, bases).m.image == m.image && RebaseAll(m, bases).m.nt == m.nt
  {
    RebasingIsPathIndependent(m, bases);
    Relocation.AddAllZero(m.image, TableSites(m));
  }

  // ---------- What a load leaves in memory ----------

  /** A file and its first contents, decoded: what the whole-load theorem speaks about. */
  datatype FilePlan = FilePlan(
    nt: NtHeaders, sections: seq<Section>, mapped: Bytes, imports: Imports.Plan, table: Relocation.Table)

  function ImportPlan(nt: NtHeaders, image: Bytes): Imports.Plan {
    if nt.imports.size == 0 then Imports.Plan([], {}, false) else DecodeDescriptors(image, nt.imports.address)
  }

  /** `p` is what the file decodes to when it is mapped over a block that first holds `fill`. */
  ghost predicate Decodes(raw: Bytes, fill: nat -> Byte, p: FilePlan) {
    && (exists ntAt, tableAt ::
          && HeadersAt(raw, ntAt, tableAt)
          && p.nt == ReadNtHeaders(raw, ntAt)
          && p.sections == ReadSections(raw, tableAt, p.nt.sectionCount))
    && p.nt.sizeOfHeaders <= p.nt.sizeOfImage && p.nt.sizeOfHeaders <= |raw|
    && ImageMapping.SectionsFit(raw, p.sections, p.nt.sizeOfImage)
    && MapFile(raw, p.nt, p.sections, fill) == ImageMapping.Mapped(p.mapped)
    && p.imports == ImportPlan(p.nt, p.mapped)
    && p.table == Relocation.DecodeTable(p.mapped, p.nt.relocations.address, Relocation.CURSOR_START)
  }

  /** Sections do not overlap, and the import slots neither overlap nor touch the tables that describe them. */
  ghost predicate Bindable(p: FilePlan) {
    && ImageMapping.SectionsDisjoint(p.sections)
    && p.imports.Plan? && !p.imports.forwarded
    && SlotsAreFree(p.mapped, p.imports.imports, p.imports.tables)
  }

  /** A supported relocation table whose sites overlap neither each other nor the table, and no slot either of them. */
  ghost predicate Movable(p: FilePlan) {
    && p.nt.relocations.size != 0 && p.table.Table? && p.table.supported
    && p.imports.Plan?
    && var sites := Relocation.Sites(p.table.blocks);
       var span := Span(p.nt.relocations.address, p.table.limit);
       && Relocation.Clear(p.mapped, sites, span)
       && Relocation.Disjoint(sites)
       && forall i :: 0 <= i < |p.imports.imports| ==>
            DwordSpan(p.imports.imports[i].slot).Apart(span)
            && forall j :: 0 <= j < |sites| ==> DwordSpan(p.imports.imports[i].slot).Apart(DwordSpan(sites[j]))
  }

  /** What a load at `base` needs of a file: a relocation table only when that is not the preferred base. */
  ghost predicate WellFormedAt(p: FilePlan, base: Dword) {
    Bindable(p) && (base == p.nt.imageBase || Movable(p))
  }

  /** The sites that a load at `base` shifts. */
  ghost function MovedSites(p: FilePlan, base: Dword): seq<nat>
    requires WellFormedAt(p, base)
  {
    if base == p.nt.imageBase then [] else Relocation.Sites(p.table.blocks)
  }

  ghost predicate Resolved(p: FilePlan, resolver: Resolver)
    requires p.imports.Plan?
  {
    forall i :: 0 <= i < |p.imports.imports| ==> resolver(p.imports.imports[i].source).Some?
  }

  /** A byte of the image before binding and relocation: section data, else header data, else untouched. */
  ghost predicate IsFileByte(raw: Bytes, fill: nat -> Byte, p: FilePlan, k: nat, b: Byte) {
    && (forall i :: 0 <= i < |p.sections| && ImageMapping.Covers(p.sections[i], k) ==>
          var source := p.sections[i].rawStart + k - p.sections[i].address;
          source < |raw| && b == raw[source])
    && ((forall i :: 0 <= i < |p.sections| ==> !ImageMapping.Covers(p.sections[i], k)) ==>
          b == if k < p.nt.sizeOfHeaders && k < |raw| then raw[k] else fill(k))
  }

  lemma MappedBytes(raw: Bytes, fill: nat -> Byte, p: FilePlan, k: nat)
    requires Decodes(raw, fill, p) && ImageMapping.SectionsDisjoint(p.sections) && k < |p.mapped|
    ensures IsFileByte(raw, fill, p, k, p.mapped[k])
  {
    hide ImageMapping.MapSections, HeadersAt, ReadNtHeaders, ReadSections, ImportPlan, Relocation.DecodeTable;
    var image := ImageMapping.Blit(FreshImage(p.nt.sizeOfImage, fill), 0, raw[..p.nt.sizeOfHeaders]);
    forall i | 0 <= i < |p.sections| && ImageMapping.Covers(p.sections[i], k)
      ensures p.mapped[k] == raw[p.sections[i].rawStart + k - p.sections[i].address]
    {
      ImageMapping.CoveredByte(raw, p.sections, image, i, k);
    }
    if forall i :: 0 <= i < |p.sections| ==> !ImageMapping.Covers(p.sections[i], k) {
      ImageMapping.UncoveredByte(raw, p.sections, image, k);
    }
  }

  /** The import stage binds the plan read off the mapped image, and succeeds exactly when all imports resolve. */
  lemma BindingFollowsPlan(p: FilePlan, resolver: Resolver)
    requires Bindable(p) && p.imports == ImportPlan(p.nt, p.mapped)
    ensures BindImports(p.nt, p.mapped, resolver) == BindAll(p.mapped, p.imports.imports, resolver)
    ensures BindImports(p.nt, p.mapped, resolver).Bound? <==> Resolved(p, resolver)
  {
    hide DecodeDescriptors, WalkDescriptors, BindAll;
    BindNone(p.mapped, resolver);
    BindsIffResolved(p.mapped, p.imports.imports, resolver);
    if p.nt.imports.size != 0 {
      DescriptorsRefine(p.mapped, p.mapped, p.nt.imports.address, resolver, p.imports.tables);
    }
  }

  /** Binding leaves the relocation table, so the bound module relocates by the table of the mapped image. */
  lemma BoundIsRelocatable(p: FilePlan, resolver: Resolver, base: Dword)
    requires Bindable(p) && Movable(p)
    requires p.table == Relocation.DecodeTable(p.mapped, p.nt.relocations.address, Relocation.CURSOR_START)
    ensures var m := Module(p.nt, BindAll(p.mapped, p.imports.imports, resolver).image, 0);
            Relocatable(m)
            && Moved(m, base) == Relocation.AddAll(m.image, Relocation.Sites(p.table.blocks), base - p.nt.imageBase)
  {
    hide Relocation.Sites, DecodeDescriptors, BindAll, Relocation.DecodeTable;
    var span := Span(p.nt.relocations.address, p.table.limit);
    BindApart(p.mapped, p.imports.imports, resolver, span);
    var image := BindAll(p.mapped, p.imports.imports, resolver).image;
    Relocation.TableSame(p.mapped, image, p.nt.relocations.address, Relocation.CURSOR_START, span);
  }

  lemma PlanHeaders(raw: Bytes, fill: nat -> Byte, p: FilePlan) returns (tableAt: nat)
    requires Decodes(raw, fill, p)
    ensures ParseHeader(raw, true) == Parsed(p.nt, tableAt)
    ensures tableAt + p.nt.sectionCount * SECTION_HEADER_SIZE <= |raw|
    ensures p.sections == ReadSections(raw, tableAt, p.nt.sectionCount)
  {
    hide ReadDword, ReadHalf, ParseHeader, MapFile, IsDynamicBase;
    var ntAt, at :| HeadersAt(raw, ntAt, at) && p.nt == ReadNtHeaders(raw, ntAt)
      && p.sections == ReadSections(raw, at, p.nt.sectionCount);
    AcceptsExactlyHeaders(raw, p.nt, at);
    tableAt := at;
  }

  lemma ParseFollowsPlan(raw: Bytes, resolver: Resolver, g: Grants, p: FilePlan)
    requires Decodes(raw, g.fill, p) && Bindable(p) && g.table && g.image != 0
    ensures var bound := BindAll(p.mapped, p.imports.imports, resolver);
            Parse(raw, resolver, g) == if Resolved(p, resolver) then Loaded(Module(p.nt, bound.image, 0))
                                       else Failed(ResolveImports, UnresolvedImport)
  {
    hide BindAll, BindImports, MapFile, ParseHeader, ReadSections, HeadersAt, ReadNtHeaders, ImportPlan;
    hide Relocation.DecodeTable, ImageMapping.SectionsFit;
    BindingFollowsPlan(p, resolver);
    var tableAt := PlanHeaders(raw, g.fill, p);
  }

  /** Which bytes an image holds after a load of `p` at `base`. */
  ghost predicate IsLoadedImage(image: Bytes, raw: Bytes, fill: nat -> Byte, p: FilePlan, resolver: Resolver,
                                base: Dword)
    requires WellFormedAt(p, base) && Resolved(p, resolver)
  {
    var imports, sites := p.imports.imports, MovedSites(p, base);
    && |image| == |p.mapped| == p.nt.sizeOfImage
    && SlotsInImage(image, imports) && Relocation.InImage(image, sites)
    && (forall i :: 0 <= i < |imports| ==> ReadDword(image, imports[i].slot) == resolver(imports[i].source).value)
    && (forall i :: 0 <= i < |sites| ==>
          ReadDword(image, sites[i]) == Wrap(ReadDword(p.mapped, sites[i]) + base - p.nt.imageBase))
    && (forall k: nat :: k < |image| && InNoSlot(imports, k) && InNoSite(sites, k) ==>
          IsFileByte(raw, fill, p, k, image[k]))
  }

  ghost predicate InNoSlot(imports: seq<Import>, k: nat) {
    forall i :: 0 <= i < |imports| ==> DwordSpan(imports[i].slot).Apart(Span(k, k + 1))
  }

  ghost predicate InNoSite(sites: seq<nat>, k: nat) {
    forall i :: 0 <= i < |sites| ==> DwordSpan(sites[i]).Apart(Span(k, k + 1))
  }

  /** The sites to be shifted lie in the mapped image and overlap neither each other nor a slot. */
  lemma MovedSitesAreFree(p: FilePlan, base: Dword)
    requires WellFormedAt(p, base)
    ensures var sites := MovedSites(p, base);
            && Relocation.InImage(p.mapped, sites) && Relocation.Disjoint(sites)
            && forall i, j :: 0 <= i < |p.imports.imports| && 0 <= j < |sites| ==>
                 DwordSpan(p.imports.imports[i].slot).Apart(DwordSpan(sites[j]))
  {
  }

  /** Binding and then moving the mapped image gives the image that `IsLoadedImage` describes. */
  lemma BoundAndMoved(raw: Bytes, fill: nat -> Byte, p: FilePlan, resolver: Resolver, base: Dword)
    requires Decodes(raw, fill, p) && WellFormedAt(p, base) && Resolved(p, resolver)
    ensures var bound := BindAll(p.mapped, p.imports.imports, resolver).image;
            Relocation.InImage(bound, MovedSites(p, base))
            && var image := Relocation.AddAll(bound, MovedSites(p, base), base - p.nt.imageBase);
               IsLoadedImage(image, raw, fill, p, resolver, base)
  {
    hide BindAll, Relocation.AddAll, Relocation.Sites, ReadDword, IsFileByte, Decodes, Movable, MovedSites;
    var imports, sites := p.imports.imports, MovedSites(p, base);
    MovedSitesAreFree(p, base);
    var delta := base - p.nt.imageBase;
    var bound := BindAll(p.mapped, imports, resolver).image;
    var image := Relocation.AddAll(bound, sites, delta);
    BindsIffResolved(p.mapped, imports, resolver);
    forall i | 0 <= i < |imports|
      ensures ReadDword(image, imports[i].slot) == resolver(imports[i].source).value
    {
      BindsEverySlot(p.mapped, imports, resolver, i);
      Relocation.AddAllApart(bound, sites, delta, DwordSpan(imports[i].slot));
      ReadSame(image, bound, imports[i].slot);
    }
    forall i | 0 <= i < |sites|
      ensures ReadDword(image, sites[i]) == Wrap(ReadDword(p.mapped, sites[i]) + delta)
    {
      BindApart(p.mapped, imports, resolver, DwordSpan(sites[i]));
      ReadSame(bound, p.mapped, sites[i]);
      Relocation.AddAllShifts(bound, sites, delta, i);
    }
    forall k: nat | k < |image| && InNoSlot(imports, k) && InNoSite(sites, k)
      ensures IsFileByte(raw, fill, p, k, image[k])
    {
      BindApart(p.mapped, imports, resolver, Span(k, k + 1));
      Relocation.AddAllApart(bound, sites, delta, Span(k, k + 1));
      MappedBytes(raw, fill, p, k);
    }
    assert |p.mapped| == p.nt.sizeOfImage by { MappedSize(raw, fill, p); }
  }

  lemma MappedSize(raw: Bytes, fill: nat -> Byte, p: FilePlan)
    requires Decodes(raw, fill, p)
    ensures |p.mapped| == p.nt.sizeOfImage
  {
  }

  /** Rebasing the bound image shifts exactly those sites. */
  lemma BoundIsMoved(p: FilePlan, resolver: Resolver, base: Dword)
    requires WellFormedAt(p, base)
    requires p.table == Relocation.DecodeTable(p.mapped, p.nt.relocations.address, Relocation.CURSOR_START)
    ensures var bound, sites := BindAll(p.mapped, p.imports.imports, resolver).image, MovedSites(p, base);
            && Relocation.InImage(bound, sites)
            && Rebase(Module(p.nt, bound, 0), base) == Rebased(Module(
                 p.nt.(imageBase := base),
                 Relocation.AddAll(bound, sites, base - p.nt.imageBase),
                 if base == p.nt.imageBase then 0 else Wrap(base + p.nt.entryPoint)))
  {
    hide BindAll, Relocation.DecodeTable, Relocation.Sites, Movable;
    if base != p.nt.imageBase {
      hide Rebase, Relocatable, Walkable, Moved;
      BoundIsRelocatable(p, resolver, base);
      RebaseMoves(Module(p.nt, BindAll(p.mapped, p.imports.imports, resolver).image, 0), base);
    }
    MovedSitesAreFree(p, base);
  }

  /**
    A file that is well-formed for the base it is given loads exactly when all its imports resolve; the image is then
    the file's own bytes with the slots bound and, at another than its preferred base, the sites shifted, and the
    entrypoint is set exactly when the base changed.
  */
  lemma LoadsExactly(raw: Bytes, resolver: Resolver, g: Grants, p: FilePlan)
    requires Decodes(raw, g.fill, p) && WellFormedAt(p, g.image) && g.table && g.image != 0
    ensures var r := Load(raw, resolver, g);
            if Resolved(p, resolver) then
              && r.Loaded?
              && r.m.nt == p.nt.(imageBase := g.image)
              && r.m.entrypoint == (if g.image == p.nt.imageBase then 0 else Wrap(g.image + p.nt.entryPoint))
              && IsLoadedImage(r.m.image, raw, g.fill, p, resolver, g.image)
            else r == Failed(ResolveImports, UnresolvedImport)
  {
    hide Parse, BindAll, Rebase, Decodes, IsLoadedImage, Movable, Relocation.AddAll;
    ParseFollowsPlan(raw, resolver, g, p);
    if Resolved(p, resolver) {
      DecodedTable(raw, g.fill, p);
      BoundIsMoved(p, resolver, g.image);
      BoundAndMoved(raw, g.fill, p, resolver, g.image);
    }
  }

  lemma DecodedTable(raw: Bytes, fill: nat -> Byte, p: FilePlan)
    requires Decodes(raw, fill, p)
    ensures p.table == Relocation.DecodeTable(p.mapped, p.nt.relocations.address, Relocation.CURSOR_START)
  {
  }

  /**
    The entrypoint of any successful load, well-formed or not, is the rebased one exactly when the image was not
    allocated at its preferred base: there the rebase returns early and leaves it zero.
  */
  lemma EntrypointNeedsRebase(raw: Bytes, resolver: Resolver, g: Grants)
    requires Load(raw, resolver, g).Loaded?
    ensures var m, parsed := Load(raw, resolver, g).m, Parse(raw, resolver, g).m;
            var rebased := Wrap(g.image + parsed.nt.entryPoint);
            (m.entrypoint == rebased <==> g.image != parsed.nt.imageBase || rebased == 0)
            && (g.image == parsed.nt.imageBase ==> m.entrypoint == 0)
            && m.nt.imageBase == g.image
  {
    hide Parse, Relocation.WalkBlocks, Relocation.ImageDelta;
  }

  /** Without relocation data a file that parses, well-formed or not, loads exactly at its preferred base. */
  lemma NeedsRelocationData(raw: Bytes, resolver: Resolver, g: Grants)
    requires Parse(raw, resolver, g).Loaded? && Parse(raw, resolver, g).m.nt.relocations.size == 0
    ensures var m := Parse(raw, resolver, g).m;
            Load(raw, resolver, g)
            == if g.image == m.nt.imageBase then Loaded(m) else Failed(Relocate, NoRelocationData)
  {
    hide Parse;
  }

  /** The outcome depends on the image's address and contents only. */
  lemma SameGrants(raw: Bytes, nt: NtHeaders, sections: seq<Section>, resolver: Resolver, g: Grants, h: Grants)
    requires g.image == h.image && forall k: nat :: g.fill(k) == h.fill(k)
    ensures MapAndBind(raw, nt, sections, resolver, g) == MapAndBind(raw, nt, sections, resolver, h)
  {
    hide ImageMapping.MapSections, BindImports;
    assert FreshImage(nt.sizeOfImage, g.fill) == FreshImage(nt.sizeOfImage, h.fill);
  }
}

/** Linking, receiving and loading together: what a received module finds in its import slots. */
module Pipeline {
  import opened Words
  import opened Wrappers
  import Imports
  import LoadSpec
  import opened RegistryModel
  import ExportLinker
  import LinkedImports
  import ImageReceive
  import Pools
  import PrintedImports
  import PrintedFile

  /** The registry after `RegisterModuleExports` of a module whose exports lie in `exporter`, at `base`. */
  function Linked(c: Contents, name: Bytes, exporter: Bytes, base: Dword): Contents
    requires ExportLinker.HasDirectory(exporter)
  {
    PutAll(c, ExportLinker.Registrations(name, exporter, base, ExportLinker.ReadExportDirectory(exporter).count))
  }

  /** Which entry of the address table an ordinal selects. */
  function EntryOf(exporter: Bytes, ordinal: Dword): Dword
    requires ExportLinker.HasDirectory(exporter)
  {
    Wrap(ordinal - ExportLinker.ReadExportDirectory(exporter).ordinalBase)
  }

  /** An import by ordinal from the linked module resolves to base plus entry, or as before if there is no entry. */
  lemma LinkedResolves(c: Contents, name: Bytes, exporter: Bytes, base: Dword, ordinal: Half)
    requires ExportLinker.HasDirectory(exporter)
    ensures var d, i := ExportLinker.ReadExportDirectory(exporter), EntryOf(exporter, ordinal);
            LinkedImports.RegistryResolver(Linked(c, name, exporter, base))(Imports.ByOrdinal(name, ordinal))
            == if i < d.count then Some(Wrap(ReadDword(exporter, d.functionsAt + 4 * i) + base))
               else LinkedImports.RegistryResolver(c)(Imports.ByOrdinal(name, ordinal))
    ensures !HasModule(c, name) ==> LinkedImports.RegistryResolver(c)(Imports.ByOrdinal(name, ordinal)) == None
  {
    hide ExportLinker.ReadExportDirectory, PutAll, ExportLinker.Registrations, FindModule, FindOrdinal, ReadDword;
    var d, i := ExportLinker.ReadExportDirectory(exporter), EntryOf(exporter, ordinal);
    EntryRoundTrip(ordinal, d.ordinalBase);
    ExportLinker.RegisteredOrdinals(c, name, exporter, base, d.count, i);
    if !HasModule(c, name) {
      FindNoModule(c, name);
      FindOrdinalAt([], 0, ordinal);
    }
  }

  lemma EntryRoundTrip(ordinal: Dword, ordinalBase: Dword)
    ensures Wrap(Wrap(ordinal - ordinalBase) + ordinalBase) == ordinal
  {
    WrapSum(ordinal - ordinalBase, ordinalBase);
  }

  predicate FromModule(import_: Imports.Import, name: Bytes) {
    import_.source.ByOrdinal? && import_.source.dll == name
  }

  predicate InTable(import_: Imports.Import, exporter: Bytes)
    requires ExportLinker.HasDirectory(exporter) && import_.source.ByOrdinal?
  {
    EntryOf(exporter, import_.source.ordinal) < ExportLinker.ReadExportDirectory(exporter).count
  }

  /** The slot of the import holds the base of the linked module plus the entry of its table. */
  predicate HoldsExport(image: Bytes, import_: Imports.Import, exporter: Bytes, base: Dword)
    requires ExportLinker.HasDirectory(exporter) && import_.source.ByOrdinal? && InTable(import_, exporter)
  {
    var entryAt := ExportLinker.ReadExportDirectory(exporter).functionsAt
      + 4 * EntryOf(exporter, import_.source.ordinal);
    import_.slot + 4 <= |image| && ReadDword(image, import_.slot) == Wrap(ReadDword(exporter, entryAt) + base)
  }

  /** The same, of a load. */
  lemma LoadedSlots(c: Contents, name: Bytes, exporter: Bytes, base: Dword, raw: Bytes, g: LoadSpec.Grants,
                    p: LoadSpec.FilePlan)
    requires ExportLinker.HasDirectory(exporter)
    requires LoadSpec.Decodes(raw, g.fill, p) && LoadSpec.WellFormedAt(p, g.image) && g.table && g.image != 0
    ensures var r := LoadSpec.Load(raw, LinkedImports.RegistryResolver(Linked(c, name, exporter, base)), g);
            var imports := p.imports.imports;
            && !r.LoadUndefined?
            && (r.Loaded? ==> forall i :: 0 <= i < |imports| && FromModule(imports[i], name) ==>
                  if InTable(imports[i], exporter) then HoldsExport(r.m.image, imports[i], exporter, base)
                  else HasModule(c, name))
            && (!HasModule(c, name) && (forall i :: 0 <= i < |imports| ==> FromModule(imports[i], name)) ==>
                  (r.Loaded? <==> forall i :: 0 <= i < |imports| ==> InTable(imports[i], exporter)))
  {
    hide LoadSpec.Load, LoadSpec.Decodes, Imports.SlotsAreFree, LoadSpec.Movable, LinkedImports.RegistryResolver;
    hide Linked, ReadDword, EntryOf, ExportLinker.ReadExportDirectory;
    var resolver := LinkedImports.RegistryResolver(Linked(c, name, exporter, base));
    LoadSpec.LoadsExactly(raw, resolver, g, p);
    var imports := p.imports.imports;
    forall i | 0 <= i < |imports| && FromModule(imports[i], name)
      ensures InTable(imports[i], exporter) || !HasModule(c, name) ==>
                (resolver(imports[i].source).Some? <==> InTable(imports[i], exporter))
      ensures InTable(imports[i], exporter) ==>
                var d, k := ExportLinker.ReadExportDirectory(exporter), EntryOf(exporter, imports[i].source.ordinal);
                resolver(imports[i].source) == Some(Wrap(ReadDword(exporter, d.functionsAt + 4 * k) + base))
    {
      LinkedResolves(c, name, exporter, base, imports[i].source.ordinal);
    }
  }

  /**
    However a well-formed file has been cut into chunks, when its transfer has ended with the outcome that `ReceiveAll`
    gives it, a loaded image holds in each slot for an ordinal of the linked module the module's base plus the entry,
    modulo 2^32; an ordinal without an entry is found only if the name had exports before. If it had none, a file with
    imports from it only is loaded exactly if all their entries are in the table.
  */
  lemma ReceivedSlots(c: Contents, name: Bytes, exporter: Bytes, base: Dword, chunks: seq<Bytes>, g: LoadSpec.Grants,
                      p: LoadSpec.FilePlan, reply: ImageReceive.Reply, entered: Option<Dword>,
                      image: array?<Byte>, pool: Pools.Pool, others: set<object>)
    requires ExportLinker.HasDirectory(exporter)
    requires LoadSpec.Decodes(ImageReceive.Concat(chunks), g.fill, p) && LoadSpec.WellFormedAt(p, g.image)
    requires g.table && g.image != 0
    requires var r := LoadSpec.Load(ImageReceive.Concat(chunks),
                                    LinkedImports.RegistryResolver(Linked(c, name, exporter, base)), g);
             ImageReceive.HasOutcome(r, reply, entered, image, pool, others)
    ensures var imports := p.imports.imports;
            && (reply == ImageReceive.Ok ==>
                  image != null && forall i :: 0 <= i < |imports| && FromModule(imports[i], name) ==>
                    if InTable(imports[i], exporter) then HoldsExport(image[..], imports[i], exporter, base)
                    else HasModule(c, name))
            && (!HasModule(c, name) && (forall i :: 0 <= i < |imports| ==> FromModule(imports[i], name)) ==>
                  (reply == ImageReceive.Ok <==> forall i :: 0 <= i < |imports| ==> InTable(imports[i], exporter)))
  {
    hide LoadSpec.Load, LoadSpec.Decodes, Imports.SlotsAreFree, LoadSpec.Movable, LinkedImports.RegistryResolver;
    hide Linked, HoldsExport, InTable, FromModule;
    LoadedSlots(c, name, exporter, base, ImageReceive.Concat(chunks), g, p);
  }

  /**
    After any run of registrations, a file described by what a linker wrote loads exactly when each of its imports, by
    ordinal or by name, has been registered, and then has the registered address in the slot of the same index.
  */
  lemma PrintedFileBinds(regs: seq<Registration>, raw: Bytes, mapped: Bytes, f: PrintedFile.FileImage,
                         g: LoadSpec.Grants)
    requires PrintedFile.IsPrinted(raw, f) && PrintedFile.IsMapped(mapped, raw, g.fill, f)
    requires PrintedFile.HoldsImports(mapped, f)
    requires g.image == f.nt.imageBase || PrintedFile.HoldsRelocations(mapped, f)
    requires g.table && g.image != 0
    ensures var r := LoadSpec.Load(raw, LinkedImports.RegistryResolver(PutAll([], regs)), g);
            var imports := PrintedImports.AllImports(f.libraries);
            && (r.Loaded? <==> forall i :: 0 <= i < |imports| ==> LinkedImports.IsRegistered(regs, imports[i].source))
            && (r.Loaded? ==> forall i :: 0 <= i < |imports| ==>
                  && imports[i].slot + 4 <= |r.m.image|
                  && LinkedImports.RegisteredAddress(regs, imports[i].source)
                     == Some(ReadDword(r.m.image, imports[i].slot)))
  {
    hide LoadSpec.Load, PrintedFile.IsPrinted, PrintedFile.IsMapped, PrintedFile.HoldsImports;
    hide PrintedFile.HoldsRelocations, PrintedFile.Belongs, LinkedImports.RegistryResolver;
    hide LinkedImports.RegisteredAddress, LinkedImports.IsRegistered, PutAll, ReadDword, PrintedImports.AllImports;
    var resolver := LinkedImports.RegistryResolver(PutAll([], regs));
    var imports := PrintedImports.AllImports(f.libraries);
    PrintedFile.LoadsAsPrinted(raw, mapped, f, resolver, g);
    forall i | 0 <= i < |imports|
      ensures resolver(imports[i].source) == LinkedImports.RegisteredAddress(regs, imports[i].source)
      ensures resolver(imports[i].source).Some? <==> LinkedImports.IsRegistered(regs, imports[i].source)
    {
      LinkedImports.ResolverAfterRun(regs, imports[i].source);
      LinkedImports.AddressIsRegistered(regs, imports[i].source);
    }
  }
}

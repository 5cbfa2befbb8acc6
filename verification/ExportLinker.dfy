/** The export directory of a loaded module: its registration, and the bootstrap's own look at it. */
module ExportLinker {
  import opened Words
  import opened Wrappers
  import opened Pools
  import opened RegistryModel
  import opened ModuleRegistry
  import PeFormat
  import Relocation

  // ---------- The export directory ----------

  /** The ordinal of the first export, the number of exports, and where their addresses are listed. */
  datatype ExportDirectory = ExportDirectory(ordinalBase: Dword, count: Dword, functionsAt: Dword)

  /** The NT headers are at the offset held at 0x3C; the export directory's address is 0x78 into them. */
  const NT_OFFSET_AT := 0x3C
  const EXPORT_ENTRY := 0x78

  predicate HasHeaders(image: Bytes) {
    NT_OFFSET_AT + 4 <= |image| && ReadDword(image, NT_OFFSET_AT) + EXPORT_ENTRY + 8 <= |image|
  }

  function DirectoryAt(image: Bytes): Dword
    requires HasHeaders(image)
  {
    ReadDword(image, ReadDword(image, NT_OFFSET_AT) + EXPORT_ENTRY)
  }

  /** The directory and its address table lie in the image. */
  predicate HasDirectory(image: Bytes) {
    && HasHeaders(image) && DirectoryAt(image) + 0x20 <= |image|
    && var d := ReadExportDirectory(image);
       d.count == 0 || d.functionsAt + 4 * d.count <= |image|
  }

  function ReadExportDirectory(image: Bytes): ExportDirectory
    requires HasHeaders(image) && DirectoryAt(image) + 0x20 <= |image|
  {
    var at := DirectoryAt(image);
    ExportDirectory(ReadDword(image, at + 0x10), ReadDword(image, at + 0x14), ReadDword(image, at + 0x1C))
  }

  /** The `i`-th export, as it is registered. */
  function ExportAt(image: Bytes, moduleBase: Dword, i: nat): (e: Export)
    requires HasDirectory(image) && i < ReadExportDirectory(image).count
  {
    var d := ReadExportDirectory(image);
    Export(Wrap(i + d.ordinalBase), None, None, Wrap(ReadDword(image, d.functionsAt + 4 * i) + moduleBase))
  }

  /** The first `n` exports as registrations, in order. */
  function Registrations(name: Bytes, image: Bytes, moduleBase: Dword, n: nat): seq<Registration>
    requires HasDirectory(image) && n <= ReadExportDirectory(image).count
  {
    if n == 0 then []
    else Registrations(name, image, moduleBase, n - 1) + [Registration(name, ExportAt(image, moduleBase, n - 1))]
  }

  // ---------- Registration ----------

  /** `Undefined`: a header or the address table lies outside the image. */
  datatype Survey = BadImage | NoExports | HasExports | Undefined

  /** What the registration finds at the base of a module. */
  function SurveyImage(image: Bytes): (r: Survey)
    ensures r.HasExports? ==> HasDirectory(image)
  {
    if |image| < 2 then Undefined
    else if ReadHalf(image, 0) != PeFormat.DOS_SIGNATURE then BadImage
    else if |image| < NT_OFFSET_AT + 4 then Undefined
    else
      var nt := ReadDword(image, NT_OFFSET_AT);
      if nt + 4 > |image| then Undefined
      else if ReadDword(image, nt) != PeFormat.NT_SIGNATURE then BadImage
      else if nt + EXPORT_ENTRY + 8 > |image| then Undefined
      else if ReadDword(image, nt + EXPORT_ENTRY + 4) == 0 then NoExports
      else if HasDirectory(image) then HasExports
      else Undefined
  }

  datatype Result = Ok | TypeInvalid | Fail

  /** The requests for a new table and its name, from the `n`-th, are granted. */
  ghost predicate TableIsGranted(pool: Pool, n: nat) {
    pool.address(n) != 0 && pool.address(n + 1) != 0
  }

  /** The requests for `n` export nodes, which the registry does not check, are granted, if they come to be made. */
  ghost predicate NodesAreGranted(pool: Pool, isNew: bool, n: nat)
    reads pool`requests
  {
    var first := pool.requests + if isNew then 2 else 0;
    (isNew ==> TableIsGranted(pool, pool.requests)) ==> forall k: nat :: first <= k < first + n ==> pool.address(k) != 0
  }

  lemma NewModuleAsks(c: Contents, name: Bytes, ordinal: Dword)
    ensures !HasModule(c, name) ==> NewNodes(FindModule(c, name), ordinal) == 1
  {
    if !HasModule(c, name) {
      FindNoModule(c, name);
      FirstNodeIsNew(ordinal);
    }
  }

  /** How many nodes the exports from the `i`-th on ask for, those of the ordinals that the module does not have yet. */
  ghost function NodesLeft(c: Contents, name: Bytes, image: Bytes, moduleBase: Dword, i: nat): nat
    requires HasDirectory(image) && i <= ReadExportDirectory(image).count
    decreases ReadExportDirectory(image).count - i
  {
    if i == ReadExportDirectory(image).count then 0
    else
      var soFar := PutAll(c, Registrations(name, image, moduleBase, i));
      NewNodes(FindModule(soFar, name), ExportAt(image, moduleBase, i).ordinal)
        + NodesLeft(c, name, image, moduleBase, i + 1)
  }

  /** That is how many exports the registration adds to the registry. */
  lemma {:induction false} NodesLeftAreAdded(c: Contents, name: Bytes, image: Bytes, moduleBase: Dword, i: nat)
    requires HasDirectory(image) && i <= ReadExportDirectory(image).count
    ensures |Flatten(PutAll(c, Registrations(name, image, moduleBase, ReadExportDirectory(image).count)))|
            == |Flatten(PutAll(c, Registrations(name, image, moduleBase, i)))|
               + NodesLeft(c, name, image, moduleBase, i)
    decreases ReadExportDirectory(image).count - i
  {
    hide ReadExportDirectory, ReadDword, ExportAt, Registrations, PutAll, Put, Flatten, FindOrdinal, FindModule;
    if i < ReadExportDirectory(image).count {
      NextRegistration(c, name, image, moduleBase, i);
      CountAfterPut(PutAll(c, Registrations(name, image, moduleBase, i)), name, ExportAt(image, moduleBase, i));
      NodesLeftAreAdded(c, name, image, moduleBase, i + 1);
    }
  }

  /** Reads one export of a module that is loaded at `moduleBase`; it has no names. */
  method ReadExport(image: Bytes, moduleBase: Dword, i: nat) returns (e: ModuleExport)
    requires HasDirectory(image) && i < ReadExportDirectory(image).count
    ensures ExportOf(e) == ExportAt(image, moduleBase, i) && e.ordinal == ExportAt(image, moduleBase, i).ordinal
    ensures EntryBlocks(e) == multiset{}
  {
    hide ReadDword;
    var d := ReadExportDirectory(image);
    var ordinal := Wrap(i + d.ordinalBase);
    assert Wrap(ordinal - d.ordinalBase) == i;
    var address := Wrap(ReadDword(image, d.functionsAt + 4 * Wrap(ordinal - d.ordinalBase)) + moduleBase);
    e := ModuleExport(ordinal, null, null, address);
  }

  /** Registers one export of a module that is loaded at `moduleBase`, without its name. */
  method RegisterExport(registry: Registry, pool: Pool, name: Bytes, image: Bytes, moduleBase: Dword, i: nat,
                        ghost left: nat, ghost others: multiset<object>) returns (ok: bool)
    requires HasDirectory(image) && i < ReadExportDirectory(image).count
    requires registry.Valid() && multiset(pool.live) == others + registry.Blocks()
    requires left >= NewNodes(FindModule(registry.Value(), name), ExportAt(image, moduleBase, i).ordinal)
    requires NodesAreGranted(pool, !HasModule(registry.Value(), name), left)
    modifies registry.Footprint(), pool`requests, pool`live
    ensures registry.Valid() && multiset(pool.live) == others + registry.Blocks()
    ensures fresh(registry.Footprint() - old(registry.Footprint()))
    ensures ok == (old(HasModule(registry.Value(), name)) || TableIsGranted(pool, old(pool.requests)))
    ensures ok ==>
              && HasModule(registry.Value(), name)
              && NodesAreGranted(
                   pool, false,
                   left - NewNodes(FindModule(old(registry.Value()), name), ExportAt(image, moduleBase, i).ordinal))
    ensures registry.Value()
            == if ok then Put(old(registry.Value()), name, ExportAt(image, moduleBase, i)) else old(registry.Value())
  {
    hide ReadDword, Put, HasModule, FindModule, Registry.Value, Registry.Blocks, Registry.Valid, AllNodes;
    hide ReadExportDirectory, ExportAt, ExportOf, EntryBlocks;
    PutAddsModule(registry.Value(), name, ExportAt(image, moduleBase, i));
    NewModuleAsks(registry.Value(), name, ExportAt(image, moduleBase, i).ordinal);
    var e := ReadExport(image, moduleBase, i);
    assert others + registry.Blocks() + EntryBlocks(e) == others + registry.Blocks();
    assert registry.Footprint() == old(registry.Footprint());
    ok := registry.MRRegisterMethod(pool, name, e, others);
    assert others + registry.Blocks() + EntryBlocks(e) == others + registry.Blocks();
  }

  /** Registers every export of a loaded module. */
  method RegisterModuleExports(registry: Registry, pool: Pool, name: Bytes, image: Bytes, moduleBase: Dword,
                               ghost others: multiset<object>) returns (result: Result)
    requires !SurveyImage(image).Undefined?
    requires registry.Valid() && multiset(pool.live) == others + registry.Blocks()
    requires SurveyImage(image).HasExports? ==>
               var c := registry.Value();
               NodesAreGranted(pool, !HasModule(c, name), NodesLeft(c, name, image, moduleBase, 0))
    modifies registry.Footprint(), pool`requests, pool`live
    ensures registry.Valid() && multiset(pool.live) == others + registry.Blocks()
    ensures var c, n := old(registry.Value()), old(pool.requests);
            match SurveyImage(image)
            case BadImage => result == TypeInvalid && registry.Value() == c
            case NoExports => result == Ok && registry.Value() == c
            case HasExports =>
              var count := ReadExportDirectory(image).count;
              if count == 0 || HasModule(c, name) || TableIsGranted(pool, n) then
                result == Ok && registry.Value() == PutAll(c, Registrations(name, image, moduleBase, count))
              else
                result == Fail && registry.Value() == c
  {
    hide ReadDword, Put, HasModule, Registry.Footprint, Registry.Value, Registry.Valid, Registry.Blocks;
    if ReadHalf(image, 0) != PeFormat.DOS_SIGNATURE {
      return TypeInvalid;
    }
    var nt := ReadDword(image, NT_OFFSET_AT);
    if ReadDword(image, nt) != PeFormat.NT_SIGNATURE {
      return TypeInvalid;
    }
    if ReadDword(image, nt + EXPORT_ENTRY + 4) == 0 {
      return Ok;
    }
    result := RegisterDirectory(registry, pool, name, image, moduleBase, others);
  }

  /** Registers the exports of the directory in order, until one fails. */
  method RegisterDirectory(registry: Registry, pool: Pool, name: Bytes, image: Bytes, moduleBase: Dword,
                           ghost others: multiset<object>) returns (result: Result)
    requires HasDirectory(image)
    requires registry.Valid() && multiset(pool.live) == others + registry.Blocks()
    requires var c := registry.Value();
             NodesAreGranted(pool, !HasModule(c, name), NodesLeft(c, name, image, moduleBase, 0))
    modifies registry.Footprint(), pool`requests, pool`live
    ensures registry.Valid() && multiset(pool.live) == others + registry.Blocks()
    ensures var c, n, count := old(registry.Value()), old(pool.requests), ReadExportDirectory(image).count;
            if count == 0 || HasModule(c, name) || TableIsGranted(pool, n) then
              result == Ok && registry.Value() == PutAll(c, Registrations(name, image, moduleBase, count))
            else
              result == Fail && registry.Value() == c
  {
    hide ReadExportDirectory, ReadDword, ExportAt, Registrations, PutAll, Put, HasModule, Lookup, FindModule, NewNodes;
    hide NodesAreGranted, TableIsGranted, Registry.Value, Registry.Blocks, Registry.Valid, AllNodes;
    ghost var c := registry.Value();
    ghost var granted := HasModule(c, name) || TableIsGranted(pool, pool.requests);
    NoRegistrations(c, name, image, moduleBase);
    var i := 0;
    while i < ReadExportDirectory(image).count
      invariant i <= ReadExportDirectory(image).count
      invariant registry.Valid() && multiset(pool.live) == others + registry.Blocks()
      invariant fresh(registry.Footprint() - old(registry.Footprint()))
      invariant registry.Value() == PutAll(c, Registrations(name, image, moduleBase, i))
      invariant NodesAreGranted(pool, !HasModule(registry.Value(), name), NodesLeft(c, name, image, moduleBase, i))
      invariant if i == 0 then pool.requests == old(pool.requests) && registry.Value() == c
                else HasModule(registry.Value(), name) && granted
    {
      NextRegistration(c, name, image, moduleBase, i);
      ghost var before := registry.Footprint();
      var ok := RegisterExport(
        registry, pool, name, image, moduleBase, i, NodesLeft(c, name, image, moduleBase, i), others);
      assert fresh(registry.Footprint() - before);
      if !ok {
        return Fail;
      }
      i := i + 1;
    }
    result := Ok;
  }

  lemma NoRegistrations(c: Contents, name: Bytes, image: Bytes, moduleBase: Dword)
    requires HasDirectory(image)
    ensures PutAll(c, Registrations(name, image, moduleBase, 0)) == c
  {
  }

  lemma NextRegistration(c: Contents, name: Bytes, image: Bytes, moduleBase: Dword, i: nat)
    requires HasDirectory(image) && i < ReadExportDirectory(image).count
    ensures PutAll(c, Registrations(name, image, moduleBase, i + 1))
            == Put(PutAll(c, Registrations(name, image, moduleBase, i)), name, ExportAt(image, moduleBase, i))
  {
    hide HasDirectory, ReadExportDirectory, ExportAt, Put, PutAll;
    PutAllLast(c, Registrations(name, image, moduleBase, i), Registration(name, ExportAt(image, moduleBase, i)));
  }

  // ---------- The bootstrap's resolver ----------

  datatype Resolution = Resolved(address: Dword) | NoSuchOrdinal | OutOfImage

  /** The bootstrap's search: a signed comparison of the index, and address arithmetic modulo 2^32. */
  function ResolveExport(image: Bytes, moduleBase: Dword, ordinal: Dword): Resolution {
    if !HasHeaders(image) || DirectoryAt(image) + 0x20 > |image| then OutOfImage
    else
      var d := ReadExportDirectory(image);
      var index := Relocation.ToInt32(ordinal - 1);
      if index >= Relocation.ToInt32(d.count) then NoSuchOrdinal
      else
        var at := Wrap(d.functionsAt + moduleBase + 4 * index) - moduleBase;
        if at < 0 || at + 4 > |image| then OutOfImage
        else Resolved(Wrap(ReadDword(image, at) + moduleBase))
  }

  lemma SignedIndex(ordinal: Dword) returns (q: nat)
    ensures Wrap(ordinal - 1) == Relocation.ToInt32(ordinal - 1) + 0x1_0000_0000 * q
    ensures Relocation.ToInt32(Wrap(ordinal - 1)) == Relocation.ToInt32(ordinal - 1)
  {
    assert Wrap(ordinal - 1) == if ordinal == 0 then 0xFFFF_FFFF else ordinal - 1;
    q := if Wrap(ordinal - 1) < 0x8000_0000 then 0 else 1;
  }

  lemma EntryAddress(functionsAt: Dword, moduleBase: Dword, ordinal: Dword)
    ensures Relocation.ToInt32(Wrap(ordinal - 1)) == Relocation.ToInt32(ordinal - 1)
    ensures Wrap(Wrap(functionsAt + moduleBase) + Wrap(Wrap(ordinal - 1) * 4))
            == Wrap(functionsAt + moduleBase + 4 * Relocation.ToInt32(ordinal - 1))
  {
    hide Wrap, Relocation.ToInt32;
    var q := SignedIndex(ordinal);
    WrapSum(functionsAt + moduleBase, Wrap(ordinal - 1) * 4);
    WrapMultiple(functionsAt + moduleBase + 4 * Relocation.ToInt32(ordinal - 1), 4 * q);
  }

  /** Finds an export by its ordinal: zero, or 1 when there is none, and the address, or 0. */
  method GetExportAddress(image: Bytes, moduleBase: Dword, ordinal: Dword) returns (eax: Dword, address: Dword)
    requires !ResolveExport(image, moduleBase, ordinal).OutOfImage?
    ensures match ResolveExport(image, moduleBase, ordinal)
            case Resolved(a) => eax == 0 && address == a
            case NoSuchOrdinal => eax == 1 && address == 0
  {
    hide ReadDword, Wrap, Relocation.ToInt32;
    EntryAddress(ReadExportDirectory(image).functionsAt, moduleBase, ordinal);
    var ecx: int := ReadDword(image, NT_OFFSET_AT) + EXPORT_ENTRY;
    var edi: int := ReadDword(image, ecx);
    var esi: Dword := ReadDword(image, edi + 0x14);
    eax := Wrap(ordinal - 1);
    if Relocation.ToInt32(eax) >= Relocation.ToInt32(esi) {
      return 1, 0;
    }
    esi := Wrap(ReadDword(image, edi + 0x1C) + moduleBase);
    eax := Wrap(eax * 4);
    esi := Wrap(esi + eax);
    address := Wrap(ReadDword(image, esi - moduleBase) + moduleBase);
    eax := 0;
  }

  /** In an image that fits the address space, the bootstrap finds the export of that index, if there is one. */
  lemma ResolvesByIndex(image: Bytes, moduleBase: Dword, ordinal: Dword)
    requires HasDirectory(image) && moduleBase + |image| <= 0x1_0000_0000 && 1 <= ordinal <= 0x8000_0000
    ensures ResolveExport(image, moduleBase, ordinal)
            == if ordinal <= ReadExportDirectory(image).count
               then Resolved(ExportAt(image, moduleBase, ordinal - 1).address)
               else NoSuchOrdinal
  {
    hide ReadDword, ReadExportDirectory;
    var d, index := ReadExportDirectory(image), ordinal - 1;
    assert Relocation.ToInt32(index) == index && Relocation.ToInt32(d.count) == d.count;
    if index < d.count {
      var at := d.functionsAt + moduleBase + 4 * index;
      assert Wrap(at) == at && at - moduleBase + 4 <= |image|;
    }
  }

  /** Ordinal zero, which the bootstrap assumes away, yields the word before the address table. */
  lemma OrdinalZeroReadsBefore(image: Bytes, moduleBase: Dword)
    requires HasDirectory(image) && moduleBase + |image| <= 0x1_0000_0000
    requires 4 <= ReadExportDirectory(image).functionsAt <= |image|
    ensures ResolveExport(image, moduleBase, 0)
            == Resolved(Wrap(ReadDword(image, ReadExportDirectory(image).functionsAt - 4) + moduleBase))
  {
    hide ReadDword;
  }

  // ---------- The two resolvers ----------

  /** After the registration of the first `n` exports, the `i`-th ordinal is theirs or is what it was. */
  lemma {:induction false} RegisteredOrdinals(c: Contents, name: Bytes, image: Bytes, moduleBase: Dword, n: nat, i: nat)
    requires HasDirectory(image) && n <= ReadExportDirectory(image).count && i < 0x1_0000_0000
    ensures var ordinal := Wrap(i + ReadExportDirectory(image).ordinalBase);
            Lookup(PutAll(c, Registrations(name, image, moduleBase, n)), name, ordinal)
            == if i < n then Some(ExportAt(image, moduleBase, i)) else Lookup(c, name, ordinal)
  {
    hide ReadExportDirectory, Put, PutAll, Lookup, Registrations, ReadDword;
    if n == 0 {
      NoRegistrations(c, name, image, moduleBase);
    } else {
      RegisteredOrdinals(c, name, image, moduleBase, n - 1, i);
      NextRegistration(c, name, image, moduleBase, n - 1);
      var before := PutAll(c, Registrations(name, image, moduleBase, n - 1));
      var other := Wrap(i + ReadExportDirectory(image).ordinalBase);
      LookupAfterPut(before, name, ExportAt(image, moduleBase, n - 1), name, other);
    }
  }

  /** The bootstrap's answer for an ordinal is the address of the export found in the registry, or both find none. */
  ghost predicate Agree(answer: Resolution, registered: Option<Export>) {
    match registered
    case None => answer == NoSuchOrdinal
    case Some(e) => answer == Resolved(e.address)
  }

  /** What the registry holds, after the registration of a whole module, under the ordinal counted from 1. */
  function RegisteredExport(c: Contents, name: Bytes, image: Bytes, moduleBase: Dword, ordinal: Dword): Option<Export>
    requires HasDirectory(image)
  {
    var d := ReadExportDirectory(image);
    Lookup(PutAll(c, Registrations(name, image, moduleBase, d.count)), name, Wrap(ordinal - 1 + d.ordinalBase))
  }

  /** The registry finds the exports of the directory, and nothing under any other ordinal. */
  lemma RegisteredByIndex(c: Contents, name: Bytes, image: Bytes, moduleBase: Dword, ordinal: Dword)
    requires HasDirectory(image) && !HasModule(c, name)
    ensures RegisteredExport(c, name, image, moduleBase, ordinal)
            == if 1 <= ordinal <= ReadExportDirectory(image).count
               then Some(ExportAt(image, moduleBase, ordinal - 1)) else None
  {
    hide ReadExportDirectory, ExportAt, PutAll, Registrations, FindModule, ReadDword;
    var d := ReadExportDirectory(image);
    var index := Wrap(ordinal - 1);
    WrapSum(ordinal - 1, d.ordinalBase);
    assert Wrap(index + d.ordinalBase) == Wrap(ordinal - 1 + d.ordinalBase);
    RegisteredOrdinals(c, name, image, moduleBase, d.count, index);
    FindNoModule(c, name);
  }

  /** An ordinal whose index is negative as a signed number is never reported as unknown. */
  lemma NegativeIndexIsResolved(image: Bytes, moduleBase: Dword, ordinal: Dword)
    requires HasDirectory(image) && moduleBase + |image| <= 0x1_0000_0000 && !(1 <= ordinal <= 0x8000_0000)
    ensures ResolveExport(image, moduleBase, ordinal) != NoSuchOrdinal
  {
    hide ReadDword, ReadExportDirectory;
    var d := ReadExportDirectory(image);
    assert Relocation.ToInt32(ordinal - 1) < 0 && Relocation.ToInt32(d.count) >= 0 by {
      assert d.count < 0x8000_0000;
    }
  }

  /**
    For a freshly registered module, the bootstrap's answer for an ordinal counted from 1 is the registry's answer
    for the same export counted from the directory's base, exactly for the ordinals from 1 to 2^31.
  */
  lemma ResolversAgree(c: Contents, name: Bytes, image: Bytes, moduleBase: Dword, ordinal: Dword)
    requires HasDirectory(image) && moduleBase + |image| <= 0x1_0000_0000 && !HasModule(c, name)
    ensures Agree(ResolveExport(image, moduleBase, ordinal), RegisteredExport(c, name, image, moduleBase, ordinal))
            <==> 1 <= ordinal <= 0x8000_0000
  {
    hide HasDirectory, ReadExportDirectory, ExportAt, RegisteredExport, ResolveExport;
    RegisteredByIndex(c, name, image, moduleBase, ordinal);
    if 1 <= ordinal <= 0x8000_0000 {
      ResolvesByIndex(image, moduleBase, ordinal);
    } else {
      CountIsSmall(image, moduleBase);
      NegativeIndexIsResolved(image, moduleBase, ordinal);
    }
  }

  lemma CountIsSmall(image: Bytes, moduleBase: Dword)
    requires HasDirectory(image) && moduleBase + |image| <= 0x1_0000_0000
    ensures ReadExportDirectory(image).count < 0x8000_0000
  {
  }

  /** When the directory's base is 1, both are asked for the same ordinal. */
  lemma ResolversAgreeFromOne(c: Contents, name: Bytes, image: Bytes, moduleBase: Dword, ordinal: Dword)
    requires HasDirectory(image) && moduleBase + |image| <= 0x1_0000_0000 && !HasModule(c, name)
    requires ReadExportDirectory(image).ordinalBase == 1
    ensures var count := ReadExportDirectory(image).count;
            Agree(ResolveExport(image, moduleBase, ordinal),
                  Lookup(PutAll(c, Registrations(name, image, moduleBase, count)), name, ordinal))
            <==> 1 <= ordinal <= 0x8000_0000
  {
    hide HasDirectory, PutAll, Registrations, ResolveExport, Lookup, ReadDword;
    assert Wrap(ordinal - 1 + 1) == ordinal;
    ResolversAgree(c, name, image, moduleBase, ordinal);
  }

  /** Ordinal 0xC0000001, which is positive as the bootstrap demands, wraps around to the first export. */
  lemma HighOrdinalWrapsAround(image: Bytes, moduleBase: Dword)
    requires HasDirectory(image) && moduleBase + |image| <= 0x1_0000_0000 && ReadExportDirectory(image).count > 0
    ensures ResolveExport(image, moduleBase, 0xC000_0001) == Resolved(ExportAt(image, moduleBase, 0).address)
  {
    hide ReadDword, ReadExportDirectory;
    var at := ReadExportDirectory(image).functionsAt + moduleBase;
    CountIsSmall(image, moduleBase);
    assert Wrap(at - 0x1_0000_0000) == at;
  }
}

/** The module registry as the resolver of the loader's imports. */
module LinkedImports {
  import opened Words
  import opened Wrappers
  import Imports
  import LoadSpec
  import opened RegistryModel
  import ModuleRegistry

  function AddressOf(e: Option<Export>): Option<Dword> {
    if e.Some? then Some(e.value.address) else None
  }

  /** The loader's resolver callbacks, over the contents of the registry. */
  function RegistryResolver(c: Contents): Imports.Resolver {
    (source: Imports.ImportRef) =>
      match source
      case ByOrdinal(dll, ordinal) => AddressOf(Lookup(c, dll, ordinal))
      case ByName(dll, name) => AddressOf(FindName(FindModule(c, dll), name))
  }

  /** What the callbacks answer: MRGetMethodByOrdinal or MRGetMethodByName. */
  method ResolveImport(registry: ModuleRegistry.Registry, source: Imports.ImportRef) returns (address: Option<Dword>)
    requires registry.Valid()
    ensures address == RegistryResolver(registry.Value())(source)
  {
    hide Lookup, FindName, FindModule, ModuleRegistry.Registry.Value;
    var ok, result;
    match source {
      case ByOrdinal(dll, ordinal) =>
        ok, result := registry.MRGetMethodByOrdinal(dll, ordinal);
      case ByName(dll, name) =>
        ok, result := registry.MRGetMethodByName(dll, name);
    }
    address := if ok then Some(result) else None;
  }

  /**
    The address a run of registrations gives an import: by ordinal, that of the ordinal's last registration; by name,
    that of the last registration of the first registered ordinal that has been left with the name.
  */
  function RegisteredAddress(regs: seq<Registration>, source: Imports.ImportRef): Option<Dword> {
    match source
    case ByOrdinal(dll, ordinal) => AddressOf(LastRegistered(regs, dll, ordinal))
    case ByName(dll, name) => AddressOf(FirstNamed(regs, dll, OrdinalsOf(regs, dll), name))
  }

  lemma ResolverAfterRun(regs: seq<Registration>, source: Imports.ImportRef)
    ensures RegistryResolver(PutAll([], regs))(source) == RegisteredAddress(regs, source)
  {
    match source {
      case ByOrdinal(dll, ordinal) =>
        LookupAfterRun(regs, dll, ordinal);
      case ByName(dll, name) =>
        NameAfterRun(regs, dll, name);
    }
  }

  /** The import's ordinal has been registered, or some ordinal of its module has been left with its name. */
  ghost predicate IsRegistered(regs: seq<Registration>, source: Imports.ImportRef) {
    match source
    case ByOrdinal(dll, ordinal) => exists i :: 0 <= i < |regs| && Registers(regs[i], dll, ordinal)
    case ByName(dll, name) => exists ordinal: Dword :: LeftWith(regs, dll, ordinal, name)
  }

  lemma {:induction false} LastIsRegistered(regs: seq<Registration>, name: Bytes, ordinal: Dword)
    ensures LastRegistered(regs, name, ordinal).Some? <==>
            exists i :: 0 <= i < |regs| && Registers(regs[i], name, ordinal)
  {
    if regs != [] {
      var before, last := regs[..|regs| - 1], regs[|regs| - 1];
      LastIsRegistered(before, name, ordinal);
      if Registers(last, name, ordinal) {
        assert Registers(regs[|regs| - 1], name, ordinal);
      } else {
        assert forall i :: 0 <= i < |before| ==> before[i] == regs[i];
      }
    }
  }

  lemma AddressIsRegistered(regs: seq<Registration>, source: Imports.ImportRef)
    ensures RegisteredAddress(regs, source).Some? <==> IsRegistered(regs, source)
  {
    match source {
      case ByOrdinal(dll, ordinal) =>
        LastIsRegistered(regs, dll, ordinal);
      case ByName(dll, name) =>
        NameAfterRun(regs, dll, name);
    }
  }

  /**
    A well-formed file loads, after any run of registrations, exactly when for each of its imports the ordinal has been
    registered, or some ordinal of the module has been left with the name; each slot then holds the address above.
  */
  lemma LoadBindsRegistered(regs: seq<Registration>, raw: Bytes, g: LoadSpec.Grants, p: LoadSpec.FilePlan)
    requires LoadSpec.Decodes(raw, g.fill, p) && LoadSpec.WellFormedAt(p, g.image) && g.table && g.image != 0
    ensures p.imports.Plan?
    ensures var r := LoadSpec.Load(raw, RegistryResolver(PutAll([], regs)), g);
            var imports := p.imports.imports;
            && (r.Loaded? <==> forall i :: 0 <= i < |imports| ==> IsRegistered(regs, imports[i].source))
            && (r.Loaded? ==> forall i :: 0 <= i < |imports| ==>
                  && imports[i].slot + 4 <= |r.m.image|
                  && Some(ReadDword(r.m.image, imports[i].slot)) == RegisteredAddress(regs, imports[i].source))
  {
    hide LoadSpec.Load, LoadSpec.Decodes, RegistryResolver, RegisteredAddress, IsRegistered, ReadDword, PutAll;
    var resolver := RegistryResolver(PutAll([], regs));
    LoadSpec.LoadsExactly(raw, resolver, g, p);
    var imports := p.imports.imports;
    forall i | 0 <= i < |imports|
      ensures resolver(imports[i].source) == RegisteredAddress(regs, imports[i].source)
      ensures resolver(imports[i].source).Some? <==> IsRegistered(regs, imports[i].source)
    {
      ResolverAfterRun(regs, imports[i].source);
      AddressIsRegistered(regs, imports[i].source);
    }
  }
}

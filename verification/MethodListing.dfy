/** The hello command: a multi-line response with one line for every export in the registry. */
module MethodListing {
  import opened Words
  import opened Wrappers
  import RegistryModel
  import opened ModuleRegistry

  /** The fields of a response line; a name that an export does not have is printed as an empty one. */
  datatype Line = Line(moduleName: Bytes, ordinal: Dword, exportName: Bytes, alias: Bytes, address: Dword)

  function NameOrEmpty(name: Option<Bytes>): Bytes {
    if name.Some? then name.value else []
  }

  function LineOf(item: RegistryModel.Item): Line {
    var e := item.export_;
    Line(item.name, e.ordinal, NameOrEmpty(e.name), NameOrEmpty(e.alias), e.address)
  }

  /** The line names the module and gives the ordinal, name, alias and address of the export. */
  predicate Shows(line: Line, moduleName: Bytes, e: RegistryModel.Export) {
    && line.moduleName == moduleName && line.ordinal == e.ordinal && line.address == e.address
    && (if e.name.Some? then e.name == Some(line.exportName) else line.exportName == [])
    && (if e.alias.Some? then e.alias == Some(line.alias) else line.alias == [])
  }

  lemma LineShows(item: RegistryModel.Item)
    ensures Shows(LineOf(item), item.name, item.export_)
  {
  }

  /** The handler of the response: the next line, or the end of the data. */
  method SendMethodAddresses(registry: Registry, cursor: ModuleRegistryCursor, ghost k: nat)
    returns (more: bool, line: Line)
    requires registry.Valid() && registry.AtPosition(cursor, k)
    modifies cursor
    ensures registry.Value() == old(registry.Value())
    ensures var all := RegistryModel.Flatten(registry.Value());
            && k <= |all| && more == (k < |all|)
            && registry.AtPosition(cursor, if more then k + 1 else k)
            && (more ==> line == LineOf(all[k]))
  {
    hide RegistryModel.Flatten, RegistryModel.Offset;
    line := Line([], 0, [], [], 0);
    var moduleName, entry;
    more, moduleName, entry := registry.MREnumerateRegistry(cursor, k);
    if !more {
      return;
    }
    var exportName := if entry.methodName != null then entry.methodName.text else [];
    var alias := if entry.alias != null then entry.alias.text else [];
    line := Line(moduleName.text, entry.ordinal, exportName, alias, entry.address);
  }

  /** The whole response: XBDM asks for lines until the end, and gets every export once, in order. */
  method HandleHello(registry: Registry, cursor: ModuleRegistryCursor) returns (lines: seq<Line>)
    requires registry.Valid() && registry.exportTable != null
    modifies cursor
    ensures var all := RegistryModel.Flatten(registry.Value());
            && |lines| == |all| && (forall i :: 0 <= i < |all| ==> Shows(lines[i], all[i].name, all[i].export_))
            && registry.AtPosition(cursor, |all|)
  {
    hide RegistryModel.Flatten, LineOf, Shows, Registry.AtPosition, Registry.Value;
    hide AllNodes, AllValid, TablesLinked, ListsDisjoint;
    registry.MREnumerateRegistryBegin(cursor);
    lines := [];
    ghost var all := RegistryModel.Flatten(registry.Value());
    var more, line := SendMethodAddresses(registry, cursor, 0);
    while more
      invariant all == RegistryModel.Flatten(registry.Value()) && |lines| <= |all| && more == (|lines| < |all|)
      invariant forall i :: 0 <= i < |lines| ==> Shows(lines[i], all[i].name, all[i].export_)
      invariant more ==> line == LineOf(all[|lines|]) && registry.AtPosition(cursor, |lines| + 1)
      invariant !more ==> registry.AtPosition(cursor, |all|)
      decreases |all| - |lines|
    {
      LineShows(all[|lines|]);
      lines := lines + [line];
      more, line := SendMethodAddresses(registry, cursor, |lines|);
    }
  }
}

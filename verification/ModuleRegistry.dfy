/** The module registry: a linked list of module tables, each with a linked list of exports. */
module ModuleRegistry {
  import opened Words
  import opened Wrappers
  import opened Pools
  import opened RegistryModel

  /** A C string in a block of its own. */
  class PoolString {
    const text: Bytes

    constructor (text: Bytes)
      ensures this.text == text
    {
      this.text := text;
    }
  }

  datatype ModuleExport = ModuleExport(ordinal: Dword, methodName: PoolString?, alias: PoolString?, address: Dword)

  class ExportNode {
    var next: ExportNode?
    var entry: ModuleExport

    constructor (entry: ModuleExport)
      ensures next == null && this.entry == entry
    {
      this.next, this.entry := null, entry;
    }
  }

  /** The nodes of a list, in order. */
  type NodeList = seq<ExportNode>

  // ---------- A list of exports ----------

  ghost function TextOf(s: PoolString?): Option<Bytes> {
    if s == null then None else Some(s.text)
  }

  ghost function ExportOf(e: ModuleExport): Export {
    Export(e.ordinal, TextOf(e.methodName), TextOf(e.alias), e.address)
  }

  ghost function Entries(nodes: NodeList): (r: seq<Export>)
    reads nodes`entry
    ensures |r| == |nodes| && forall i :: 0 <= i < |nodes| ==> r[i] == ExportOf(nodes[i].entry)
  {
    if nodes == [] then [] else [ExportOf(nodes[0].entry)] + Entries(nodes[1..])
  }

  ghost function NodeAt(nodes: NodeList, i: nat): ExportNode? {
    if i < |nodes| then nodes[i] else null
  }

  ghost function LastNode(nodes: NodeList): ExportNode? {
    if nodes == [] then null else nodes[|nodes| - 1]
  }

  /** The nodes are all different and linked in this order from `first` to NULL. */
  ghost predicate NodesLinked(first: ExportNode?, nodes: NodeList)
    reads nodes`next
  {
    && (forall i, j :: 0 <= i < j < |nodes| ==> nodes[i] != nodes[j])
    && first == NodeAt(nodes, 0)
    && forall i :: 0 <= i < |nodes| ==> nodes[i].next == NodeAt(nodes, i + 1)
  }

  lemma OrdinalOf(e: ModuleExport)
    ensures ExportOf(e).ordinal == e.ordinal
  {
  }

  lemma {:induction false} EntriesConcat(nodes: NodeList, n: ExportNode)
    ensures Entries(nodes + [n]) == Entries(nodes) + [ExportOf(n.entry)]
  {
    if nodes == [] {
      assert ([] + [n])[1..] == [];
    } else {
      assert (nodes + [n])[1..] == nodes[1..] + [n];
      EntriesConcat(nodes[1..], n);
    }
  }

  // ---------- The blocks of a list, each as often as it is pointed to ----------

  ghost function StringBlock(s: PoolString?): multiset<object> {
    if s == null then multiset{} else multiset{s}
  }

  ghost function EntryBlocks(e: ModuleExport): multiset<object> {
    StringBlock(e.methodName) + StringBlock(e.alias)
  }

  ghost function NodesBlocks(nodes: NodeList): multiset<object>
    reads nodes`entry
  {
    if nodes == [] then multiset{} else multiset{nodes[0]} + EntryBlocks(nodes[0].entry) + NodesBlocks(nodes[1..])
  }

  lemma {:induction false} NodesBlocksConcat(s: NodeList, t: NodeList)
    ensures NodesBlocks(s + t) == NodesBlocks(s) + NodesBlocks(t)
  {
    hide EntryBlocks;
    if s == [] {
      assert s + t == t;
    } else {
      assert (s + t)[1..] == s[1..] + t;
      NodesBlocksConcat(s[1..], t);
    }
  }

  lemma FirstNodeBlocks(nodes: NodeList)
    requires nodes != []
    ensures NodesBlocks(nodes) == multiset{nodes[0]} + EntryBlocks(nodes[0].entry) + NodesBlocks(nodes[1..])
  {
  }

  lemma NodesBlocksAt(nodes: NodeList, i: nat)
    requires i < |nodes|
    ensures NodesBlocks(nodes)
            == NodesBlocks(nodes[..i]) + NodesBlocks(nodes[i + 1..]) + multiset{nodes[i]} + EntryBlocks(nodes[i].entry)
  {
    hide NodesBlocks, EntryBlocks;
    assert nodes == nodes[..i] + nodes[i..] && nodes[i..][1..] == nodes[i + 1..];
    NodesBlocksConcat(nodes[..i], nodes[i..]);
    FirstNodeBlocks(nodes[i..]);
  }

  lemma NodesBlocksGrow(nodes: NodeList, n: ExportNode)
    ensures NodesBlocks(nodes + [n]) == NodesBlocks(nodes) + multiset{n} + EntryBlocks(n.entry)
  {
    hide NodesBlocks, EntryBlocks;
    assert [n][1..] == [];
    NodesBlocksConcat(nodes, [n]);
    FirstNodeBlocks([n]);
    EmptyList();
  }

  /** How many nodes a registration of the ordinal asks for. */
  ghost function NewNodes(exports: seq<Export>, ordinal: Dword): nat {
    if FindOrdinal(exports, ordinal).None? then 1 else 0
  }

  lemma FirstNodeIsNew(ordinal: Dword)
    ensures NewNodes([], ordinal) == 1
  {
  }

  /** Frees the strings of an entry. */
  method FreeStrings(pool: Pool, e: ModuleExport, ghost others: multiset<object>)
    requires multiset(pool.live) == others + EntryBlocks(e)
    modifies pool`live
    ensures multiset(pool.live) == others
  {
    if e.methodName != null {
      assert e.methodName in multiset(pool.live);
      pool.Free(e.methodName);
    }
    if e.alias != null {
      assert e.alias in multiset(pool.live);
      pool.Free(e.alias);
    }
  }

  class ModuleExportTable {
    var next: ModuleExportTable?
    var moduleName: PoolString?
    var exports: ExportNode?

    constructor ()
      ensures next == null && moduleName == null && exports == null
    {
      next, moduleName, exports := null, null, null;
    }

    /** Replaces the entry of the `i`-th node and frees the strings it had. */
    method ReplaceEntry(pool: Pool, n: ExportNode, e: ModuleExport,
                        ghost nodes: NodeList, ghost i: nat, ghost others: multiset<object>)
      requires NodesLinked(exports, nodes) && i < |nodes| && n == nodes[i]
      requires multiset(pool.live) == others + NodesBlocks(nodes) + EntryBlocks(e)
      modifies n`entry, pool`live
      ensures Entries(nodes) == old(Entries(nodes))[i := ExportOf(e)]
      ensures multiset(pool.live) == others + NodesBlocks(nodes)
    {
      hide ExportOf, NodesBlocks, EntryBlocks, Entries;
      NodesBlocksAt(nodes, i);
      ghost var before, after := NodesBlocks(nodes[..i]), NodesBlocks(nodes[i + 1..]);
      FreeStrings(pool, n.entry, others + before + after + multiset{n} + EntryBlocks(e));
      n.entry := e;
      assert NodesBlocks(nodes[..i]) == before && NodesBlocks(nodes[i + 1..]) == after;
      NodesBlocksAt(nodes, i);
    }

    /** Links `node` after `last`, the last one, or first when there is none. */
    method LinkNode(last: ExportNode?, node: ExportNode, ghost nodes: NodeList)
      requires NodesLinked(exports, nodes) && last == LastNode(nodes) && node !in nodes && node.next == null
      modifies this`exports, nodes`next
      ensures NodesLinked(exports, nodes + [node])
    {
      if last == null {
        exports := node;
      } else {
        last.next := node;
      }
    }

    /** Allocates a node for the entry and links it after `last`. */
    method AppendNode(pool: Pool, last: ExportNode?, e: ModuleExport, ghost nodes: NodeList,
                      ghost others: multiset<object>)
      returns (ghost node: ExportNode)
      requires NodesLinked(exports, nodes) && last == LastNode(nodes)
      requires pool.address(pool.requests) != 0
      requires multiset(pool.live) == others + NodesBlocks(nodes) + EntryBlocks(e)
      modifies this`exports, nodes`next, pool`requests, pool`live
      ensures fresh(node) && NodesLinked(exports, nodes + [node]) && pool.requests == old(pool.requests) + 1
      ensures Entries(nodes + [node]) == old(Entries(nodes)) + [ExportOf(e)]
      ensures multiset(pool.live) == others + NodesBlocks(nodes + [node])
    {
      hide ExportOf, NodesBlocks, EntryBlocks, NodesLinked, Entries;
      var granted := pool.Request();
      var n := new ExportNode(e);
      pool.Adopt(n);
      LinkNode(last, n, nodes);
      NodesBlocksGrow(nodes, n);
      EntriesConcat(nodes, n);
      node := n;
    }

    /** The node with the ordinal, if any, and otherwise the last one. */
    method FindNode(ordinal: Dword, ghost nodes: NodeList) returns (n: ExportNode?, last: ExportNode?, ghost i: nat)
      requires NodesLinked(exports, nodes)
      ensures i <= |nodes| && n == NodeAt(nodes, i)
      ensures forall j :: 0 <= j < i ==> nodes[j].entry.ordinal != ordinal
      ensures n != null ==> n.entry.ordinal == ordinal
      ensures n == null ==> last == LastNode(nodes)
    {
      n, last, i := exports, exports, 0;
      while n != null && n.entry.ordinal != ordinal
        invariant i <= |nodes| && n == NodeAt(nodes, i)
        invariant last == if i == 0 then exports else nodes[i - 1]
        invariant forall j :: 0 <= j < i ==> nodes[j].entry.ordinal != ordinal
        decreases |nodes| - i
      {
        last := n;
        n := n.next;
        i := i + 1;
      }
    }

    /** The address of the first export with the ordinal. */
    method GetByOrdinal(ordinal: Dword, ghost nodes: NodeList) returns (ok: bool, result: Dword)
      requires NodesLinked(exports, nodes)
      ensures var found := FindOrdinal(Entries(nodes), ordinal);
              ok == found.Some? && result == if found.Some? then found.value.address else 0
    {
      hide Entries, FindOrdinal;
      var node, _, k := FindNode(ordinal, nodes);
      FindOrdinalAt(Entries(nodes), k, ordinal);
      if node == null {
        return false, 0;
      }
      ok, result := true, node.entry.address;
    }

    /** The address of the first export with the name or alias. */
    method GetByName(name: Bytes, ghost nodes: NodeList) returns (ok: bool, result: Dword)
      requires NodesLinked(exports, nodes)
      ensures var found := FindName(Entries(nodes), name);
              ok == found.Some? && result == if found.Some? then found.value.address else 0
    {
      hide Entries, FindName;
      ghost var k := 0;
      var node := exports;
      while node != null
        invariant k <= |nodes| && node == NodeAt(nodes, k)
        invariant forall j :: 0 <= j < k ==>
          Entries(nodes)[j].name != Some(name) && Entries(nodes)[j].alias != Some(name)
        decreases |nodes| - k
      {
        if node.entry.methodName != null && node.entry.methodName.text == name {
          break;
        }
        if node.entry.alias != null && node.entry.alias.text == name {
          break;
        }
        node := node.next;
        k := k + 1;
      }
      if node == null {
        FindNameAt(Entries(nodes), |nodes|, name);
        return false, 0;
      }
      FindNameAt(Entries(nodes), k, name);
      ok, result := true, node.entry.address;
    }

    method CountNodes(start: nat, ghost nodes: NodeList) returns (count: nat)
      requires NodesLinked(exports, nodes)
      ensures count == start + |nodes|
    {
      count := start;
      ghost var k := 0;
      var node := exports;
      while node != null
        invariant k <= |nodes| && node == NodeAt(nodes, k) && count == start + k
        decreases |nodes| - k
      {
        count := count + 1;
        node := node.next;
        k := k + 1;
      }
    }

    /** Frees the nodes and their strings. */
    method FreeNodes(pool: Pool, ghost nodes: NodeList, ghost others: multiset<object>)
      requires NodesLinked(exports, nodes)
      requires multiset(pool.live) == others + NodesBlocks(nodes)
      modifies pool`live
      ensures multiset(pool.live) == others
    {
      hide NodesBlocks, EntryBlocks;
      ghost var k := 0;
      var node := exports;
      assert nodes[0..] == nodes;
      while node != null
        invariant k <= |nodes| && node == NodeAt(nodes, k)
        invariant multiset(pool.live) == others + NodesBlocks(nodes[k..])
        decreases |nodes| - k
      {
        FirstNodeBlocks(nodes[k..]);
        assert nodes[k..][1..] == nodes[k + 1..];
        ghost var rest := others + NodesBlocks(nodes[k + 1..]);
        var nodeDelete := node;
        node := node.next;
        FreeStrings(pool, nodeDelete.entry, rest + multiset{nodeDelete});
        assert nodeDelete in multiset(pool.live);
        pool.Free(nodeDelete);
        k := k + 1;
      }
      assert k == |nodes| && nodes[k..] == [];
      EmptyList();
    }

    /** Frees the table with its name, its nodes and their strings. */
    method FreeTable(pool: Pool, ghost nodes: NodeList, ghost others: multiset<object>)
      requires TableIsValid(this, nodes)
      requires multiset(pool.live) == others + TableBlocks(this, nodes)
      modifies pool`live
      ensures multiset(pool.live) == others
    {
      hide NodesBlocks, NodesLinked;
      FreeNodes(pool, nodes, others + multiset{this} + StringBlock(moduleName));
      assert moduleName in multiset(pool.live);
      pool.Free(moduleName);
      assert this in multiset(pool.live);
      pool.Free(this);
    }

    /** Registers the entry in this table: in place of the one with its ordinal, or after all of them. */
    method AppendExport(pool: Pool, e: ModuleExport, ghost nodes: NodeList, ghost others: multiset<object>)
      returns (ok: bool, ghost nodes': NodeList)
      requires NodesLinked(exports, nodes)
      requires multiset(pool.live) == others + NodesBlocks(nodes) + EntryBlocks(e)
      requires FindOrdinal(Entries(nodes), e.ordinal).None? ==> pool.address(pool.requests) != 0
      modifies this`exports, nodes`entry, nodes`next, pool`requests, pool`live
      ensures ok && NodesLinked(exports, nodes') && nodes' != []
      ensures pool.requests == old(pool.requests) + NewNodes(old(Entries(nodes)), e.ordinal)
      ensures Entries(nodes') == PutExport(old(Entries(nodes)), ExportOf(e))
      ensures forall n :: n in nodes' ==> n in nodes || fresh(n)
      ensures multiset(pool.live) == others + NodesBlocks(nodes')
    {
      hide NodesBlocks, EntryBlocks, ExportOf, PutExport, FindOrdinal, Entries;
      ghost var before := Entries(nodes);
      var n, last, i := FindNode(e.ordinal, nodes);
      forall j | 0 <= j < |nodes|
        ensures before[j].ordinal == nodes[j].entry.ordinal
      {
        OrdinalOf(nodes[j].entry);
      }
      OrdinalOf(e);
      if n != null {
        PutExportAt(before, i, ExportOf(e));
        ReplaceEntry(pool, n, e, nodes, i, others);
        nodes' := nodes;
      } else {
        PutExportNew(before, ExportOf(e));
        ghost var node := AppendNode(pool, last, e, nodes, others);
        nodes' := nodes + [node];
      }
      ok := true;
    }
  }

  // ---------- The list of tables ----------

  ghost predicate Within(nodes: NodeList, all: set<ExportNode>) {
    forall n :: n in nodes ==> n in all
  }

  ghost function AllNodes(lists: seq<NodeList>): (r: set<ExportNode>)
    ensures forall i :: 0 <= i < |lists| ==> Within(lists[i], r)
    ensures forall n :: n in r ==> exists i :: 0 <= i < |lists| && n in lists[i]
  {
    if lists == [] then {} else (set n | n in lists[0]) + AllNodes(lists[1..])
  }

  lemma UpdatedNodes(lists: seq<NodeList>, i: nat, nodes: NodeList)
    requires i < |lists|
    ensures AllNodes(lists[i := nodes]) <= AllNodes(lists) + set n | n in nodes
  {
    hide AllNodes;
    var updated := lists[i := nodes];
    forall n | n in AllNodes(updated)
      ensures n in AllNodes(lists) || n in nodes
    {
      var j :| 0 <= j < |updated| && n in updated[j];
      assert j != i ==> Within(lists[j], AllNodes(lists));
    }
  }

  lemma AddedNodes(lists: seq<NodeList>, nodes: NodeList)
    ensures AllNodes(lists + [nodes]) <= AllNodes(lists) + set n | n in nodes
  {
    hide AllNodes;
    var longer := lists + [nodes];
    forall n | n in AllNodes(longer)
      ensures n in AllNodes(lists) || n in nodes
    {
      var j :| 0 <= j < |longer| && n in longer[j];
      assert j < |lists| ==> Within(lists[j], AllNodes(lists));
    }
  }

  /** The two lists share no node. */
  ghost predicate Apart(a: NodeList, b: NodeList) {
    forall n :: n in a ==> n !in b
  }

  /** No two lists share a node. */
  ghost predicate ListsDisjoint(lists: seq<NodeList>) {
    forall i, j :: 0 <= i < j < |lists| ==> Apart(lists[i], lists[j])
  }

  ghost function TableAt(tables: seq<ModuleExportTable>, i: nat): ModuleExportTable? {
    if i < |tables| then tables[i] else null
  }

  /** The tables are all different and linked in this order from `first` to NULL. */
  ghost predicate TablesLinked(first: ModuleExportTable?, tables: seq<ModuleExportTable>)
    reads tables`next
  {
    && (forall i, j :: 0 <= i < j < |tables| ==> tables[i] != tables[j])
    && first == TableAt(tables, 0)
    && forall i :: 0 <= i < |tables| ==> tables[i].next == TableAt(tables, i + 1)
  }

  ghost predicate TableIsValid(t: ModuleExportTable, nodes: NodeList)
    reads t`moduleName, t`exports, nodes`next
  {
    t.moduleName != null && NodesLinked(t.exports, nodes) && nodes != []
  }

  ghost function ContentOf(t: ModuleExportTable, nodes: NodeList): ModuleTable
    reads t`moduleName, nodes`entry
  {
    ModuleTable(if t.moduleName == null then [] else t.moduleName.text, Entries(nodes))
  }

  ghost function TableBlocks(t: ModuleExportTable, nodes: NodeList): multiset<object>
    reads t`moduleName, nodes`entry
  {
    multiset{t} + StringBlock(t.moduleName) + NodesBlocks(nodes)
  }

  /** The registry as a value. */
  ghost function ContentsOf(tables: seq<ModuleExportTable>, lists: seq<NodeList>): (r: Contents)
    requires |tables| == |lists|
    reads tables`moduleName, AllNodes(lists)`entry
    ensures |r| == |tables| && forall i :: 0 <= i < |tables| ==> r[i] == ContentOf(tables[i], lists[i])
  {
    if tables == [] then [] else [ContentOf(tables[0], lists[0])] + ContentsOf(tables[1..], lists[1..])
  }

  /** The blocks that each table points to. */
  ghost function BlockList(tables: seq<ModuleExportTable>, lists: seq<NodeList>): (r: seq<multiset<object>>)
    requires |tables| == |lists|
    reads tables`moduleName, AllNodes(lists)`entry
    ensures |r| == |tables| && forall i :: 0 <= i < |tables| ==> r[i] == TableBlocks(tables[i], lists[i])
  {
    if tables == [] then [] else [TableBlocks(tables[0], lists[0])] + BlockList(tables[1..], lists[1..])
  }

  ghost predicate AllValid(tables: seq<ModuleExportTable>, lists: seq<NodeList>)
    requires |tables| == |lists|
    reads tables`moduleName, tables`exports, AllNodes(lists)`next
    ensures AllValid(tables, lists) <==> forall i :: 0 <= i < |tables| ==> TableIsValid(tables[i], lists[i])
  {
    tables == [] || (TableIsValid(tables[0], lists[0]) && AllValid(tables[1..], lists[1..]))
  }

  /** The total of a list of blocks. */
  ghost function Sum(blocks: seq<multiset<object>>): multiset<object> {
    if blocks == [] then multiset{} else blocks[0] + Sum(blocks[1..])
  }

  lemma {:induction false} SumUpdate(blocks: seq<multiset<object>>, i: nat, b: multiset<object>)
    requires i < |blocks|
    ensures Sum(blocks[i := b]) == Sum(blocks[i := multiset{}]) + b
  {
    if i > 0 {
      assert blocks[i := b][1..] == blocks[1..][i - 1 := b];
      assert blocks[i := multiset{}][1..] == blocks[1..][i - 1 := multiset{}];
      SumUpdate(blocks[1..], i - 1, b);
    } else {
      assert blocks[i := b][1..] == blocks[1..] == blocks[i := multiset{}][1..];
    }
  }

  lemma {:induction false} SumAppend(blocks: seq<multiset<object>>, b: multiset<object>)
    ensures Sum(blocks + [b]) == Sum(blocks) + b
  {
    if blocks == [] {
      assert ([] + [b])[1..] == [];
    } else {
      assert (blocks + [b])[1..] == blocks[1..] + [b];
      SumAppend(blocks[1..], b);
    }
  }

  class Registry {
    var exportTable: ModuleExportTable?
    /** The tables of the list, and the nodes of each, in order. */
    ghost var tables: seq<ModuleExportTable>
    ghost var lists: seq<NodeList>

    constructor ()
      ensures Valid() && tables == []
    {
      exportTable, tables, lists := null, [], [];
    }

    /** Both list levels are acyclic, no two lists share a node, and no table is empty. */
    ghost predicate Valid()
      reads this`exportTable, this`tables, this`lists
      reads tables`next, tables`moduleName, tables`exports, AllNodes(lists)`next
      ensures Valid() ==> |tables| == |lists|
    {
      && |tables| == |lists| && TablesLinked(exportTable, tables) && ListsDisjoint(lists)
      && AllValid(tables, lists)
    }

    /** Every object that a registration may change. */
    ghost function Footprint(): set<object>
      reads this`tables, this`lists
    {
      var ts: set<object> := set t | t in tables;
      var ns: set<object> := AllNodes(lists);
      {this} + ts + ns
    }

    ghost function Value(): (c: Contents)
      requires |tables| == |lists|
      reads this`tables, this`lists, tables`moduleName, AllNodes(lists)`entry
      ensures |c| == |tables|
    {
      ContentsOf(tables, lists)
    }

    /** Every block that the registry points to, as often as it does. */
    ghost function Blocks(): multiset<object>
      requires |tables| == |lists|
      reads this`tables, this`lists, tables`moduleName, AllNodes(lists)`entry
    {
      Sum(BlockList(tables, lists))
    }

    /** The `i`-th table and its nodes belong to no other table. */
    lemma Separation(i: nat)
      requires Valid() && i < |tables|
      ensures forall j :: 0 <= j < |tables| && j != i ==> tables[j] != tables[i] && Apart(lists[j], lists[i])
      ensures forall j :: 0 <= j < |tables| ==> TableIsValid(tables[j], lists[j])
    {
      forall j | 0 <= j < |tables| && j != i
        ensures Apart(lists[j], lists[i])
      {
        assert if j < i then Apart(lists[j], lists[i]) else Apart(lists[i], lists[j]);
      }
    }

    /** Registers an entry in the `i`-th table, which leaves every other table and list as it was. */
    method UpdateTable(pool: Pool, t: ModuleExportTable, e: ModuleExport, ghost i: nat, ghost others: multiset<object>)
      returns (ok: bool, ghost nodes: NodeList)
      requires Valid() && i < |tables| && t == tables[i]
      requires multiset(pool.live) == others + TableBlocks(t, lists[i]) + EntryBlocks(e)
      requires FindOrdinal(Entries(lists[i]), e.ordinal).None? ==> pool.address(pool.requests) != 0
      modifies t`exports, lists[i]`entry, lists[i]`next, pool`requests, pool`live
      ensures pool.requests == old(pool.requests) + NewNodes(old(Entries(lists[i])), e.ordinal)
      ensures ok && TableIsValid(t, nodes) && Entries(nodes) == PutExport(old(Entries(lists[i])), ExportOf(e))
      ensures forall n :: n in nodes ==> n in lists[i] || fresh(n)
      ensures multiset(pool.live) == others + TableBlocks(t, nodes)
      ensures var c, b := old(Value()), old(BlockList(tables, lists));
              forall j :: 0 <= j < |c| && j != i ==>
                && TableIsValid(tables[j], lists[j])
                && ContentOf(tables[j], lists[j]) == c[j] && TableBlocks(tables[j], lists[j]) == b[j]
    {
      hide AllNodes, NodesBlocks, EntryBlocks, StringBlock, PutExport, FindOrdinal, ExportOf, Entries, NodesLinked;
      hide TablesLinked, ListsDisjoint, AllValid, ContentsOf, BlockList;
      ghost var c, b := Value(), BlockList(tables, lists);
      Separation(i);
      ok, nodes := t.AppendExport(pool, e, lists[i], others + multiset{t} + StringBlock(t.moduleName));
      forall j | 0 <= j < |c| && j != i
        ensures TableIsValid(tables[j], lists[j])
        ensures ContentOf(tables[j], lists[j]) == c[j] && TableBlocks(tables[j], lists[j]) == b[j]
      {
        assert tables[j] != t && Apart(lists[j], lists[i]) && old(TableIsValid(tables[j], lists[j]));
        forall k | 0 <= k < |lists[j]|
          ensures lists[j][k].entry == old(lists[j][k].entry) && lists[j][k].next == old(lists[j][k].next)
        {
          assert lists[j][k] in lists[j];
        }
      }
    }

    /** The same, for the registry as a whole: it stays valid, and one table of its value changes. */
    method UpdateLists(pool: Pool, t: ModuleExportTable, e: ModuleExport, ghost i: nat, ghost others: multiset<object>)
      returns (ok: bool, ghost nodes: NodeList)
      requires Valid() && i < |tables| && t == tables[i]
      requires multiset(pool.live) == others + TableBlocks(t, lists[i]) + EntryBlocks(e)
      requires FindOrdinal(Entries(lists[i]), e.ordinal).None? ==> pool.address(pool.requests) != 0
      modifies this`lists, t`exports, lists[i]`entry, lists[i]`next, pool`requests, pool`live
      ensures ok && Valid() && pool.requests == old(pool.requests) + NewNodes(old(Entries(lists[i])), e.ordinal)
      ensures lists == old(lists)[i := nodes] && forall n :: n in nodes ==> n in old(lists[i]) || fresh(n)
      ensures var c := old(Value());
              Value() == c[i := ModuleTable(c[i].name, PutExport(c[i].exports, ExportOf(e)))]
      ensures BlockList(tables, lists) == old(BlockList(tables, lists))[i := TableBlocks(t, lists[i])]
      ensures multiset(pool.live) == others + TableBlocks(t, lists[i])
    {
      hide AllNodes, NodesBlocks, EntryBlocks, StringBlock, PutExport, FindOrdinal, ExportOf, Entries, NodesLinked;
      hide TablesLinked, ListsDisjoint, AllValid, ContentsOf, BlockList, TableIsValid, TableBlocks;
      ghost var was := lists;
      ok, nodes := UpdateTable(pool, t, e, i, others);
      lists := lists[i := nodes];
      StillDisjoint(was, i, nodes);
      assert AllValid(tables, lists);
    }

    /** Registers an entry of the module of the `i`-th table. */
    method RegisterInTable(pool: Pool, t: ModuleExportTable, e: ModuleExport, ghost i: nat,
                           ghost others: multiset<object>)
      returns (ok: bool, ghost nodes: NodeList)
      requires Valid() && i < |tables| && t == tables[i]
      requires multiset(pool.live) == others + Blocks() + EntryBlocks(e)
      requires FindOrdinal(Value()[i].exports, e.ordinal).None? ==> pool.address(pool.requests) != 0
      modifies this`lists, t`exports, lists[i]`entry, lists[i]`next, pool`requests, pool`live
      ensures ok && Valid() && pool.requests == old(pool.requests) + NewNodes(old(Value()[i].exports), e.ordinal)
      ensures lists == old(lists)[i := nodes] && forall n :: n in nodes ==> n in old(lists[i]) || fresh(n)
      ensures var c := old(Value());
              Value() == c[i := ModuleTable(c[i].name, PutExport(c[i].exports, ExportOf(e)))]
      ensures multiset(pool.live) == others + Blocks()
    {
      hide AllNodes, NodesBlocks, EntryBlocks, StringBlock, PutExport, FindOrdinal, ExportOf, Entries, NodesLinked, Sum;
      hide TablesLinked, ListsDisjoint, AllValid, ContentsOf, BlockList, TableIsValid, TableBlocks;
      ghost var b := BlockList(tables, lists);
      SumUpdate(b, i, b[i]);
      assert b[i := b[i]] == b;
      ok, nodes := UpdateLists(pool, t, e, i, others + Sum(b[i := multiset{}]));
      SumUpdate(b, i, TableBlocks(t, lists[i]));
    }

    /** Allocates an empty table and a copy of its name; if the second fails the first is freed. */
    method NewTable(pool: Pool, name: Bytes, ghost others: multiset<object>) returns (t: ModuleExportTable?)
      requires multiset(pool.live) == others
      modifies pool`requests, pool`live
      ensures t != null <==> pool.address(old(pool.requests)) != 0 && pool.address(old(pool.requests) + 1) != 0
      ensures t == null ==> multiset(pool.live) == others
      ensures t != null ==>
        && fresh(t) && pool.requests == old(pool.requests) + 2
        && t.next == null && t.exports == null && t.moduleName != null && t.moduleName.text == name
        && multiset(pool.live) == others + multiset{t} + StringBlock(t.moduleName)
    {
      var granted := pool.Request();
      if !granted {
        return null;
      }
      var table := new ModuleExportTable();
      pool.Adopt(table);
      granted := pool.Request();
      if !granted {
        assert table in multiset(pool.live);
        pool.Free(table);
        return null;
      }
      var copy := new PoolString(name);
      pool.Adopt(copy);
      table.moduleName := copy;
      t := table;
    }

    /** Links a table after the last one, or first when there is none. */
    method LinkTable(last: ModuleExportTable?, t: ModuleExportTable)
      requires TablesLinked(exportTable, tables) && t !in tables && t.next == null
      requires last == TableAt(tables, if tables == [] then 0 else |tables| - 1)
      modifies this`exportTable, tables`next
      ensures TablesLinked(exportTable, tables + [t])
    {
      if last == null {
        exportTable := t;
      } else {
        last.next := t;
      }
    }

    /** The tables so far are valid, with this value and these blocks. */
    ghost predicate Holds(c: Contents, b: seq<multiset<object>>)
      reads this`tables, this`lists, tables`moduleName, tables`exports, AllNodes(lists)`entry, AllNodes(lists)`next
    {
      && |tables| == |lists| == |c| == |b|
      && forall j :: 0 <= j < |c| ==>
           && TableIsValid(tables[j], lists[j])
           && ContentOf(tables[j], lists[j]) == c[j] && TableBlocks(tables[j], lists[j]) == b[j]
    }

    lemma HoldsValue()
      requires Valid()
      ensures Holds(Value(), BlockList(tables, lists))
    {
    }

    /** Gives a new table its first export, leaving every other table and list as it was. */
    method FirstExport(pool: Pool, t: ModuleExportTable, e: ModuleExport,
                       ghost c: Contents, ghost b: seq<multiset<object>>, ghost others: multiset<object>)
      returns (ok: bool, ghost nodes: NodeList)
      requires Holds(c, b) && t !in tables && t.exports == null && t.moduleName != null
      requires multiset(pool.live) == others + multiset{t} + StringBlock(t.moduleName) + EntryBlocks(e)
      requires pool.address(pool.requests) != 0
      modifies t`exports, pool`requests, pool`live
      ensures ok && Holds(c, b) && pool.requests == old(pool.requests) + 1
      ensures TableIsValid(t, nodes) && forall n :: n in nodes ==> fresh(n)
      ensures ContentOf(t, nodes) == ModuleTable(t.moduleName.text, [ExportOf(e)])
      ensures multiset(pool.live) == others + TableBlocks(t, nodes)
    {
      hide NodesBlocks, EntryBlocks, StringBlock, ExportOf, Entries, NodesLinked, AllNodes;
      EmptyList();
      ok, nodes := t.AppendExport(pool, e, [], others + multiset{t} + StringBlock(t.moduleName));
    }

    /** Gives the table just linked after the last one its first export. */
    method AddTable(pool: Pool, t: ModuleExportTable, e: ModuleExport, ghost name: Bytes,
                    ghost c: Contents, ghost b: seq<multiset<object>>, ghost others: multiset<object>)
      returns (ok: bool, ghost nodes: NodeList)
      requires Holds(c, b) && TablesLinked(exportTable, tables + [t]) && ListsDisjoint(lists)
      requires t !in tables && t.exports == null && t.moduleName != null && t.moduleName.text == name
      requires multiset(pool.live) == others + Sum(b) + multiset{t} + StringBlock(t.moduleName) + EntryBlocks(e)
      requires pool.address(pool.requests) != 0
      modifies this`tables, this`lists, t`exports, pool`requests, pool`live
      ensures ok && pool.requests == old(pool.requests) + 1
      ensures tables == old(tables) + [t]
      ensures lists == old(lists) + [nodes] && forall n :: n in nodes ==> fresh(n)
      ensures Valid()
      ensures Value() == c + [ModuleTable(name, [ExportOf(e)])]
      ensures multiset(pool.live) == others + Blocks()
    {
      hide NodesBlocks, EntryBlocks, StringBlock, ExportOf, Entries, NodesLinked, TablesLinked, AllNodes;
      hide ListsDisjoint, AllValid, ContentsOf, BlockList, Sum, TableBlocks, ContentOf, TableIsValid;
      ok, nodes := FirstExport(pool, t, e, c, b, others + Sum(b));
      AddList(c, b, t, nodes);
      AddDisjoint(lists, nodes);
      tables, lists := tables + [t], lists + [nodes];
    }

    /** Appends a table for a new module, holding one export. */
    method AppendExportTable(pool: Pool, last: ModuleExportTable?, name: Bytes, e: ModuleExport,
                             ghost others: multiset<object>)
      returns (ok: bool, ghost nodes: NodeList)
      requires Valid() && last == TableAt(tables, if tables == [] then 0 else |tables| - 1)
      requires multiset(pool.live) == others + Blocks() + EntryBlocks(e)
      requires var n := pool.requests;
               pool.address(n) != 0 && pool.address(n + 1) != 0 ==> pool.address(n + 2) != 0
      modifies this, tables`next, pool`requests, pool`live
      ensures ok == (pool.address(old(pool.requests)) != 0 && pool.address(old(pool.requests) + 1) != 0)
      ensures Valid() && (ok ==> pool.requests == old(pool.requests) + 3)
      ensures forall t :: t in tables ==> t in old(tables) || fresh(t)
      ensures ok ==> lists == old(lists) + [nodes] && forall n :: n in nodes ==> fresh(n)
      ensures !ok ==> lists == old(lists)
      ensures ok ==>
                && Value() == old(Value()) + [ModuleTable(name, [ExportOf(e)])]
                && multiset(pool.live) == others + Blocks()
      ensures !ok ==> Value() == old(Value()) && multiset(pool.live) == others + Blocks() + EntryBlocks(e)
    {
      hide NodesBlocks, EntryBlocks, StringBlock, ExportOf, Entries, NodesLinked, TablesLinked, AllNodes;
      hide ListsDisjoint, AllValid, ContentsOf, BlockList, Sum, TableBlocks, ContentOf, TableIsValid;
      ghost var c, b := Value(), BlockList(tables, lists);
      HoldsValue();
      var t := NewTable(pool, name, others + Sum(b) + EntryBlocks(e));
      assert Holds(c, b);
      if t == null {
        HeldValue(c, b);
        return false, [];
      }
      LinkTable(last, t);
      ok, nodes := AddTable(pool, t, e, name, c, b, others);
    }

    lemma AddDisjoint(lists: seq<NodeList>, nodes: NodeList)
      requires ListsDisjoint(lists)
      requires forall n, j :: n in nodes && 0 <= j < |lists| ==> n !in lists[j]
      ensures ListsDisjoint(lists + [nodes])
    {
      var longer := lists + [nodes];
      forall j, k | 0 <= j < k < |longer|
        ensures Apart(longer[j], longer[k])
      {
        assert k < |lists| ==> Apart(lists[j], lists[k]);
      }
    }

    lemma HeldValue(c: Contents, b: seq<multiset<object>>)
      requires Holds(c, b)
      ensures AllValid(tables, lists) && Value() == c && BlockList(tables, lists) == b
    {
    }

    lemma AddList(c: Contents, b: seq<multiset<object>>, t: ModuleExportTable, nodes: NodeList)
      requires Holds(c, b) && TableIsValid(t, nodes)
      ensures AllValid(tables + [t], lists + [nodes])
      ensures ContentsOf(tables + [t], lists + [nodes]) == c + [ContentOf(t, nodes)]
      ensures Sum(BlockList(tables + [t], lists + [nodes])) == Sum(b) + TableBlocks(t, nodes)
    {
      hide ContentsOf, AllValid, BlockList, Sum, TableBlocks, ContentOf, TableIsValid;
      assert BlockList(tables + [t], lists + [nodes]) == b + [TableBlocks(t, nodes)];
      SumAppend(b, TableBlocks(t, nodes));
    }

    lemma NameAt(i: nat)
      requires Valid() && i < |tables|
      ensures tables[i].moduleName != null && Value()[i].name == tables[i].moduleName.text
    {
      hide AllNodes, NodesLinked, AllValid, ContentsOf, ListsDisjoint, TablesLinked;
      assert TableIsValid(tables[i], lists[i]) && Value()[i] == ContentOf(tables[i], lists[i]);
    }

    /** The table of the module, if any, and otherwise the last table. */
    method FindTable(name: Bytes) returns (t: ModuleExportTable?, last: ModuleExportTable?, ghost i: nat)
      requires Valid()
      ensures if t == null then i == |tables| else i < |tables| && t == tables[i]
      ensures forall j :: 0 <= j < i ==> Value()[j].name != name
      ensures t != null ==> Value()[i].name == name
      ensures t == null ==> last == TableAt(tables, if tables == [] then 0 else |tables| - 1)
    {
      hide AllNodes, NodesLinked, AllValid, ContentsOf, ListsDisjoint, Registry.Value;
      t, last, i := exportTable, exportTable, 0;
      while t != null
        invariant i <= |tables| && t == TableAt(tables, i)
        invariant last == if i == 0 then exportTable else tables[i - 1]
        invariant forall j :: 0 <= j < i ==> Value()[j].name != name
        decreases |tables| - i
      {
        NameAt(i);
        if t.moduleName.text == name {
          return;
        }
        last := t;
        t := t.next;
        i := i + 1;
      }
    }

    /** The source does not check the allocation of an export node, so it must not be asked to fail. */
    ghost predicate NodeIsGranted(pool: Pool, name: Bytes, ordinal: Dword)
      requires |tables| == |lists|
      reads this`tables, this`lists, tables`moduleName, AllNodes(lists)`entry, pool
    {
      var n := pool.requests;
      if HasModule(Value(), name) then Lookup(Value(), name, ordinal).None? ==> pool.address(n) != 0
      else pool.address(n) != 0 && pool.address(n + 1) != 0 ==> pool.address(n + 2) != 0
    }

    /**
      Registers an export and takes over its strings; fails, leaving the strings to the caller, only when there is
      no memory for the table of a new module.
    */
    method MRRegisterMethod(pool: Pool, name: Bytes, e: ModuleExport, ghost others: multiset<object>) returns (ok: bool)
      requires Valid() && NodeIsGranted(pool, name, e.ordinal)
      requires multiset(pool.live) == others + Blocks() + EntryBlocks(e)
      modifies Footprint(), pool`requests, pool`live
      ensures Valid()
      ensures ok ==> pool.requests == old(pool.requests) + (if old(HasModule(Value(), name)) then 0 else 2)
                                      + NewNodes(FindModule(old(Value()), name), e.ordinal)
      ensures ok == (old(HasModule(Value(), name))
                     || (pool.address(old(pool.requests)) != 0 && pool.address(old(pool.requests) + 1) != 0))
      ensures ok ==> Value() == Put(old(Value()), name, ExportOf(e)) && multiset(pool.live) == others + Blocks()
      ensures !ok ==> Value() == old(Value()) && multiset(pool.live) == others + Blocks() + EntryBlocks(e)
      ensures fresh(Footprint() - old(Footprint()))
    {
      hide NodesBlocks, EntryBlocks, StringBlock, Entries, NodesLinked, TablesLinked, AllNodes, NewNodes;
      hide Registry.Value, Registry.Blocks;
      hide ListsDisjoint, AllValid, ContentsOf, BlockList, Sum, TableBlocks, Put, PutExport, FindOrdinal, FindModule;
      ghost var c, was := Value(), lists;
      var t, last, i := FindTable(name);
      if t != null {
        PutAt(c, i, name, ExportOf(e));
        OrdinalOf(e);
        ghost var nodes;
        ok, nodes := RegisterInTable(pool, t, e, i, others);
        assert fresh(Footprint() - old(Footprint())) by {
          UpdatedNodes(was, i, nodes);
          assert Within(was[i], AllNodes(was));
        }
      } else {
        PutNew(c, name, ExportOf(e));
        FirstNodeIsNew(e.ordinal);
        ghost var nodes;
        ok, nodes := AppendExportTable(pool, last, name, e, others);
        assert fresh(Footprint() - old(Footprint())) by {
          AddedNodes(was, nodes);
        }
      }
    }

    // ---------- Lookup ----------

    method MRGetMethodByOrdinal(name: Bytes, ordinal: Dword) returns (ok: bool, result: Dword)
      requires Valid()
      ensures var found := Lookup(Value(), name, ordinal);
              ok == found.Some? && result == if found.Some? then found.value.address else 0
    {
      hide AllNodes, AllValid, ContentsOf, Entries, TablesLinked, ListsDisjoint, NodesLinked, FindModule, FindOrdinal;
      ghost var c := Value();
      var t, _, i := FindTable(name);
      assert Value() == c;
      if t == null {
        FindNoModule(c, name);
        FindOrdinalAt([], 0, ordinal);
        return false, 0;
      }
      FindModuleAt(c, i, name);
      assert TableIsValid(t, lists[i]) && c[i] == ContentOf(t, lists[i]);
      ok, result := t.GetByOrdinal(ordinal, lists[i]);
      assert Value() == c && c[i].exports == Entries(lists[i]);
    }

    method MRGetMethodByName(module_: Bytes, name: Bytes) returns (ok: bool, result: Dword)
      requires Valid()
      ensures var found := FindName(FindModule(Value(), module_), name);
              ok == found.Some? && result == if found.Some? then found.value.address else 0
    {
      hide AllNodes, AllValid, ContentsOf, Entries, TablesLinked, ListsDisjoint, NodesLinked, FindModule, FindName;
      ghost var c := Value();
      var t, _, i := FindTable(module_);
      assert Value() == c;
      if t == null {
        FindNoModule(c, module_);
        FindNameAt([], 0, name);
        return false, 0;
      }
      FindModuleAt(c, i, module_);
      assert TableIsValid(t, lists[i]) && c[i] == ContentOf(t, lists[i]);
      ok, result := t.GetByName(name, lists[i]);
      assert Value() == c && c[i].exports == Entries(lists[i]);
    }

    // ---------- Counting and enumeration ----------

    method MRGetNumRegisteredModules() returns (count: nat)
      requires Valid()
      ensures count == |Value()|
    {
      hide AllNodes, AllValid;
      count := 0;
      var table := exportTable;
      while table != null
        invariant count <= |tables| && table == TableAt(tables, count)
        decreases |tables| - count
      {
        count := count + 1;
        table := table.next;
      }
    }

    method MRGetTotalNumExports() returns (count: nat)
      requires Valid()
      ensures count == |Flatten(Value())|
    {
      hide AllNodes, AllValid, ContentsOf, Entries, Flatten, Offset, NodesLinked, ListsDisjoint;
      count := 0;
      ghost var c, i := Value(), 0;
      OffsetStart(c);
      var table := exportTable;
      while table != null
        invariant i <= |tables| && table == TableAt(tables, i) && count == Offset(c, i) && Value() == c
        decreases |tables| - i
      {
        assert TableIsValid(table, lists[i]) && c[i] == ContentOf(table, lists[i]);
        count := table.CountNodes(count, lists[i]);
        assert Value() == c;
        OffsetNext(c, i);
        table := table.next;
        i := i + 1;
      }
      assert i == |tables|;
      OffsetEnd(c);
    }

    /** The cursor stands before the `k`-th export of the registry in registration order. */
    ghost predicate AtPosition(cursor: ModuleRegistryCursor, k: nat)
      requires |tables| == |lists|
      reads this`tables, this`lists, tables`moduleName, AllNodes(lists)`entry, cursor
    {
      if cursor.module_ == null then k == |Flatten(Value())|
      else
        && cursor.t < |tables| && cursor.module_ == tables[cursor.t]
        && cursor.i < |lists[cursor.t]| && cursor.export_ == lists[cursor.t][cursor.i]
        && k == Offset(Value(), cursor.t) + cursor.i
    }

    lemma StartsNonEmpty()
      requires Valid() && exportTable != null
      ensures tables != [] && exportTable == tables[0] && lists[0] != [] && exportTable.exports == lists[0][0]
    {
      hide AllNodes, AllValid;
      assert TableIsValid(tables[0], lists[0]);
    }

    /** Starts an enumeration; the source requires a registry that is not empty. */
    method MREnumerateRegistryBegin(cursor: ModuleRegistryCursor)
      requires Valid() && exportTable != null
      modifies cursor
      ensures AtPosition(cursor, 0) && Value() == old(Value())
    {
      hide AllNodes, AllValid, ContentsOf, Entries, Flatten, NodesLinked, ListsDisjoint, Registry.Value, Offset;
      StartsNonEmpty();
      OffsetStart(Value());
      cursor.module_, cursor.export_ := exportTable, exportTable.exports;
      cursor.t, cursor.i := 0, 0;
    }

    /** What the links of the `i`-th node of the `t`-th table lead to. */
    lemma Successor(t: nat, i: nat)
      requires Valid() && t < |tables| && i < |lists[t]|
      ensures Value()[t] == ContentOf(tables[t], lists[t]) && tables[t].moduleName != null
      ensures if i + 1 < |lists[t]| then lists[t][i].next == lists[t][i + 1] else lists[t][i].next == null
      ensures if t + 1 < |tables| then
                && tables[t].next == tables[t + 1]
                && lists[t + 1] != [] && tables[t + 1].exports == lists[t + 1][0]
              else tables[t].next == null
    {
      hide AllNodes, AllValid, ContentsOf, Entries;
      assert TableIsValid(tables[t], lists[t]);
      assert t + 1 < |tables| ==> TableIsValid(tables[t + 1], lists[t + 1]);
    }

    /** Yields the export at the cursor and steps past it, or reports the end. */
    method MREnumerateRegistry(cursor: ModuleRegistryCursor, ghost k: nat)
      returns (ok: bool, name: PoolString?, entry: ModuleExport)
      requires Valid() && AtPosition(cursor, k)
      modifies cursor
      ensures Value() == old(Value())
      ensures var all := Flatten(Value());
              && k <= |all| && ok == (k < |all|)
              && AtPosition(cursor, if ok then k + 1 else k)
              && (ok ==> name != null && all[k] == Item(name.text, ExportOf(entry)))
    {
      hide AllNodes, AllValid, ContentsOf, Entries, Flatten, Offset, ExportOf;
      hide TablesLinked, NodesLinked, ListsDisjoint, Registry.Value;
      name, entry := null, ModuleExport(0, null, null, 0);
      if cursor.module_ == null || cursor.export_ == null {
        return false, name, entry;
      }
      ghost var c, t, i := Value(), cursor.t, cursor.i;
      Successor(t, i);
      FlattenAt(c, t, i);
      OffsetNext(c, t);
      OffsetEnd(c);
      var table := cursor.module_;
      name := table.moduleName;
      var node := cursor.export_;
      entry := node.entry;
      node := node.next;
      if node == null {
        table := table.next;
        if table != null {
          node := table.exports;
        }
        cursor.t, cursor.i := t + 1, 0;
      } else {
        cursor.i := i + 1;
      }
      cursor.module_ := table;
      cursor.export_ := node;
      ok := true;
      assert Value() == c;
    }

    // ---------- Reset ----------

    /** Frees every table with all that it points to. */
    method FreeTables(pool: Pool, ghost others: multiset<object>)
      requires Valid() && multiset(pool.live) == others + Blocks()
      modifies pool`live
      ensures multiset(pool.live) == others
    {
      hide AllNodes, AllValid, ContentsOf, BlockList, ListsDisjoint, TableIsValid, TableBlocks, ContentOf;
      ghost var i, b := 0, BlockList(tables, lists);
      assert b[0..] == b;
      var table := exportTable;
      while table != null
        invariant i <= |tables| && table == TableAt(tables, i)
        invariant multiset(pool.live) == others + Sum(b[i..])
        decreases |tables| - i
      {
        assert b[i] == TableBlocks(table, lists[i]) && b[i..][1..] == b[i + 1..];
        var tableDelete := table;
        table := table.next;
        tableDelete.FreeTable(pool, lists[i], others + Sum(b[i + 1..]));
        i := i + 1;
      }
      assert i == |tables|;
    }

    /** Frees every block of the registry exactly once and empties it. */
    method MRResetRegistry(pool: Pool, ghost others: multiset<object>)
      requires Valid() && multiset(pool.live) == others + Blocks()
      modifies this, pool`live
      ensures Valid() && Value() == [] && exportTable == null
      ensures multiset(pool.live) == others
    {
      FreeTables(pool, others);
      exportTable, tables, lists := null, [], [];
    }
  }

  /** An enumeration in progress; the ghost fields say which table and node it points to. */
  class ModuleRegistryCursor {
    var module_: ModuleExportTable?
    var export_: ExportNode?
    ghost var t: nat
    ghost var i: nat

    constructor () {
      module_, export_, t, i := null, null, 0, 0;
    }
  }

  lemma EmptyList()
    ensures NodesLinked(null, []) && Entries([]) == [] && NodesBlocks([]) == multiset{}
    ensures forall e :: PutExport([], e) == [e] && FindOrdinal([], e.ordinal).None?
  {
  }

  lemma StillDisjoint(lists: seq<NodeList>, i: nat, nodes: NodeList)
    requires ListsDisjoint(lists) && i < |lists|
    requires forall n :: n in nodes ==> n in lists[i] || forall j :: 0 <= j < |lists| ==> n !in lists[j]
    ensures ListsDisjoint(lists[i := nodes])
  {
    var updated := lists[i := nodes];
    forall j, k | 0 <= j < k < |lists|
      ensures Apart(updated[j], updated[k])
    {
      assert Apart(lists[j], lists[k]);
    }
  }
}

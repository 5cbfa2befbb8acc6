/**
  The import walk of the loader, as a function of the image it binds while it reads the import tables from
  that same image, and the binding plan it refines.
 */
module Imports {
  import opened Words
  import opened Wrappers

  /** What a lookup table entry asks for. */
  datatype ImportRef = ByOrdinal(dll: Bytes, ordinal: Half) | ByName(dll: Bytes, name: Bytes)

  /** The two resolver callbacks of the loader's input. */
  type Resolver = ImportRef -> Option<Dword>

  const DESCRIPTOR_SIZE := 20

  /** `Undefined`: the walk reads or writes outside the image. */
  datatype BindOutcome = Bound(image: Bytes) | Forwarded(image: Bytes) | Unresolved(image: Bytes) | Undefined

  /** The C string at `at`, without its terminator; None when no NUL follows. */
  function CString(image: Bytes, at: nat): Option<Bytes>
    decreases |image| - at
  {
    if at >= |image| then None
    else if image[at] == 0 then Some([])
    else
      match CString(image, at + 1)
      case None => None
      case Some(rest) => Some([image[at]] + rest)
  }

  /** The request that the non-zero lookup entry `thunk` makes of the library named at `nameAt`. */
  function ReadSource(image: Bytes, nameAt: nat, thunk: Dword): Option<ImportRef> {
    match CString(image, nameAt)
    case None => None
    case Some(dll) =>
      if thunk >= 0x8000_0000 then Some(ByOrdinal(dll, thunk % 0x1_0000))
      else
        match CString(image, thunk + 2)
        case None => None
        case Some(name) => Some(ByName(dll, name))
  }

  // ---------- The walk over the image being bound ----------

  function WalkThunks(image: Bytes, nameAt: nat, thunk: nat, slot: nat, resolver: Resolver): (r: BindOutcome)
    ensures !r.Undefined? ==> |r.image| == |image|
    ensures !r.Forwarded?
    decreases |image| - thunk
  {
    if thunk + 4 > |image| then Undefined
    else if ReadDword(image, thunk) == 0 then Bound(image)
    else if slot + 4 > |image| then Undefined
    else
      match ReadSource(image, nameAt, ReadDword(image, thunk))
      case None => Undefined
      case Some(source) =>
        match resolver(source)
        case None => Unresolved(image)
        case Some(address) => WalkThunks(WriteDword(image, slot, address), nameAt, thunk + 4, slot + 4, resolver)
  }

  /** Where the lookup entries of the descriptor at `desc` start: its own table, or the slots themselves. */
  function LookupTable(image: Bytes, desc: nat): nat
    requires desc + DESCRIPTOR_SIZE <= |image|
  {
    if ReadDword(image, desc) != 0 then ReadDword(image, desc) else ReadDword(image, desc + 16)
  }

  function WalkDescriptors(image: Bytes, desc: nat, resolver: Resolver): (r: BindOutcome)
    ensures !r.Undefined? ==> |r.image| == |image|
    decreases |image| - desc
  {
    if desc + 16 > |image| then Undefined
    else if ReadDword(image, desc + 12) == 0 then Bound(image)
    else if ReadDword(image, desc + 8) != 0 then Forwarded(image)
    else if desc + DESCRIPTOR_SIZE > |image| then Undefined
    else
      var r := WalkThunks(
        image, ReadDword(image, desc + 12), LookupTable(image, desc), ReadDword(image, desc + 16), resolver);
      if r.Bound? then WalkDescriptors(r.image, desc + DESCRIPTOR_SIZE, resolver) else r
  }

  // ---------- The binding plan ----------

  datatype Import = Import(slot: nat, source: ImportRef)

  /**
    The imports up to the first forwarded descriptor, and every span that the walk reads other than a slot
    standing in for its own lookup entry.
  */
  datatype Plan = Plan(imports: seq<Import>, tables: set<Span>, forwarded: bool) | BadPlan

  function StringSpan(at: nat, s: Bytes): Span {
    Span(at, at + |s| + 1)
  }

  function SourceSpans(nameAt: nat, thunk: Dword, source: ImportRef): set<Span> {
    match source
    case ByOrdinal(dll, _) => {StringSpan(nameAt, dll)}
    case ByName(dll, name) => {StringSpan(nameAt, dll), StringSpan(thunk + 2, name)}
  }

  function DecodeThunks(image: Bytes, nameAt: nat, thunk: nat, slot: nat): (p: Plan)
    ensures p.Plan? ==> !p.forwarded
    decreases |image| - thunk
  {
    if thunk + 4 > |image| then BadPlan
    else if ReadDword(image, thunk) == 0 then Plan([], {DwordSpan(thunk)}, false)
    else if slot + 4 > |image| then BadPlan
    else
      match ReadSource(image, nameAt, ReadDword(image, thunk))
      case None => BadPlan
      case Some(source) =>
        match DecodeThunks(image, nameAt, thunk + 4, slot + 4)
        case BadPlan => BadPlan
        case Plan(imports, tables, _) =>
          var entry := if thunk == slot then {} else {DwordSpan(thunk)};
          Plan([Import(slot, source)] + imports,
               entry + SourceSpans(nameAt, ReadDword(image, thunk), source) + tables, false)
  }

  function DecodeDescriptors(image: Bytes, desc: nat): Plan
    decreases |image| - desc
  {
    if desc + 16 > |image| then BadPlan
    else if ReadDword(image, desc + 12) == 0 then Plan([], {DwordSpan(desc + 12)}, false)
    else if ReadDword(image, desc + 8) != 0 then Plan([], {Span(desc + 8, desc + 16)}, true)
    else if desc + DESCRIPTOR_SIZE > |image| then BadPlan
    else
      var nameAt, slots := ReadDword(image, desc + 12), ReadDword(image, desc + 16);
      var thunks := DecodeThunks(image, nameAt, LookupTable(image, desc), slots);
      if thunks.BadPlan? then BadPlan
      else
        match DecodeDescriptors(image, desc + DESCRIPTOR_SIZE)
        case BadPlan => BadPlan
        case Plan(imports, tables, forwarded) =>
          Plan(thunks.imports + imports, {Span(desc, desc + DESCRIPTOR_SIZE)} + thunks.tables + tables, forwarded)
  }

  /** Resolution of the imports in order, each into its slot. */
  function BindAll(image: Bytes, imports: seq<Import>, resolver: Resolver): (r: BindOutcome)
    requires SlotsInImage(image, imports)
    ensures r.Bound? || r.Unresolved?
    ensures |r.image| == |image|
    decreases |imports|
  {
    if imports == [] then Bound(image)
    else
      match resolver(imports[0].source)
      case None => Unresolved(image)
      case Some(address) => BindAll(WriteDword(image, imports[0].slot, address), imports[1..], resolver)
  }

  ghost predicate SlotsInImage(image: Bytes, imports: seq<Import>) {
    forall i :: 0 <= i < |imports| ==> imports[i].slot + 4 <= |image|
  }

  /** The slots lie in the image, do not overlap each other, and share no byte with the tables. */
  ghost predicate SlotsAreFree(image: Bytes, imports: seq<Import>, tables: set<Span>) {
    && SlotsInImage(image, imports)
    && (forall i, j :: 0 <= i < j < |imports| ==> DwordSpan(imports[i].slot).Apart(DwordSpan(imports[j].slot)))
    && forall i, s :: 0 <= i < |imports| && s in tables ==> DwordSpan(imports[i].slot).Apart(s)
  }

  // ---------- The walk refines the plan ----------

  /** `image` still holds what `orig` had in the tables and in the slots of the imports to come. */
  ghost predicate Unbound(image: Bytes, orig: Bytes, imports: seq<Import>, tables: set<Span>) {
    && SameOn(image, orig, tables)
    && forall i :: 0 <= i < |imports| ==> SameIn(image, orig, DwordSpan(imports[i].slot))
  }

  lemma {:induction false} CStringSame(orig: Bytes, image: Bytes, at: nat)
    requires var s := CString(orig, at); s.Some? && SameIn(image, orig, StringSpan(at, s.value))
    ensures CString(image, at) == CString(orig, at)
    decreases |orig| - at
  {
    if orig[at] != 0 {
      CStringSame(orig, image, at + 1);
    }
  }

  lemma SourceSame(orig: Bytes, image: Bytes, nameAt: nat, thunk: Dword, tables: set<Span>)
    requires SameOn(image, orig, tables)
    requires var s := ReadSource(orig, nameAt, thunk); s.Some? && SourceSpans(nameAt, thunk, s.value) <= tables
    ensures ReadSource(image, nameAt, thunk) == ReadSource(orig, nameAt, thunk)
  {
    hide CString;
    var source := ReadSource(orig, nameAt, thunk).value;
    assert StringSpan(nameAt, source.dll) in tables;
    CStringSame(orig, image, nameAt);
    if source.ByName? {
      assert StringSpan(thunk + 2, source.name) in tables;
      CStringSame(orig, image, thunk + 2);
    }
  }

  lemma FreeParts(image: Bytes, s: seq<Import>, t: seq<Import>, tables: set<Span>)
    requires SlotsAreFree(image, s + t, tables)
    ensures SlotsAreFree(image, s, tables) && SlotsAreFree(image, t, tables)
    ensures forall i, j :: 0 <= i < |s| && 0 <= j < |t| ==> DwordSpan(s[i].slot).Apart(DwordSpan(t[j].slot))
  {
    assert forall i :: 0 <= i < |s| ==> (s + t)[i] == s[i];
    assert forall i :: 0 <= i < |t| ==> (s + t)[|s| + i] == t[i];
  }

  /** Writing the first slot leaves everything that the rest of the walk will read. */
  lemma FirstBound(image: Bytes, orig: Bytes, imports: seq<Import>, tables: set<Span>, address: Dword)
    requires |image| == |orig| && imports != []
    requires SlotsAreFree(orig, imports, tables) && Unbound(image, orig, imports, tables)
    ensures Unbound(WriteDword(image, imports[0].slot, address), orig, imports[1..], tables)
  {
    hide WriteDword, DwordSpan;
    var slot := imports[0].slot;
    forall s | s in tables
      ensures SameIn(WriteDword(image, slot, address), orig, s)
    {
      WriteApart(image, slot, address, s);
    }
    forall i | 1 <= i < |imports|
      ensures SameIn(WriteDword(image, slot, address), orig, DwordSpan(imports[i].slot))
    {
      WriteApart(image, slot, address, DwordSpan(imports[i].slot));
    }
  }

  /** The inner loop, in either thunk mode, binds the imports that the unbound tables list. */
  lemma {:induction false} ThunksRefine(
      orig: Bytes, image: Bytes, nameAt: nat, thunk: nat, slot: nat, resolver: Resolver, tables: set<Span>)
    requires |image| == |orig|
    requires var p := DecodeThunks(orig, nameAt, thunk, slot);
             p.Plan? && p.tables <= tables && SlotsAreFree(orig, p.imports, tables)
             && Unbound(image, orig, p.imports, tables)
    ensures WalkThunks(image, nameAt, thunk, slot, resolver)
            == BindAll(image, DecodeThunks(orig, nameAt, thunk, slot).imports, resolver)
    decreases |orig| - thunk
  {
    hide ReadDword, WriteDword, ReadSource, SourceSpans;
    var p := DecodeThunks(orig, nameAt, thunk, slot);
    if ReadDword(orig, thunk) == 0 {
      assert DwordSpan(thunk) in tables;
      ReadSame(image, orig, thunk);
    } else {
      assert p.imports[0].slot == slot;
      assert thunk != slot ==> DwordSpan(thunk) in tables;
      ReadSame(image, orig, thunk);
      SourceSame(orig, image, nameAt, ReadDword(orig, thunk), tables);
      var answer := resolver(p.imports[0].source);
      if answer.Some? {
        assert p.imports == [p.imports[0]] + p.imports[1..];
        FreeParts(orig, [p.imports[0]], p.imports[1..], tables);
        FirstBound(image, orig, p.imports, tables, answer.value);
        ThunksRefine(orig, WriteDword(image, slot, answer.value), nameAt, thunk + 4, slot + 4, resolver, tables);
      }
    }
  }

  lemma {:induction false} BindConcat(image: Bytes, s: seq<Import>, t: seq<Import>, resolver: Resolver)
    requires SlotsInImage(image, s + t)
    ensures SlotsInImage(image, s) && SlotsInImage(image, t)
    ensures var r := BindAll(image, s, resolver);
            BindAll(image, s + t, resolver) == if r.Bound? then BindAll(r.image, t, resolver) else r
    decreases |s|
  {
    hide WriteDword;
    assert forall i :: 0 <= i < |s| ==> (s + t)[i] == s[i];
    assert forall i :: 0 <= i < |t| ==> (s + t)[|s| + i] == t[i];
    if s == [] {
      assert s + t == t;
    } else {
      assert (s + t)[1..] == s[1..] + t;
      var answer := resolver(s[0].source);
      if answer.Some? {
        BindConcat(WriteDword(image, s[0].slot, answer.value), s[1..], t, resolver);
      }
    }
  }

  /** Binding changes nothing outside the slots. */
  lemma {:induction false} BindApart(image: Bytes, imports: seq<Import>, resolver: Resolver, span: Span)
    requires SlotsInImage(image, imports)
    requires forall i :: 0 <= i < |imports| ==> DwordSpan(imports[i].slot).Apart(span)
    ensures SameIn(BindAll(image, imports, resolver).image, image, span)
    decreases |imports|
  {
    hide WriteDword;
    if imports != [] {
      var answer := resolver(imports[0].source);
      if answer.Some? {
        WriteApart(image, imports[0].slot, answer.value, span);
        BindApart(WriteDword(image, imports[0].slot, answer.value), imports[1..], resolver, span);
      }
    }
  }

  /** The whole walk binds exactly the plan, and fails at the first unresolved import or forwarded descriptor. */
  lemma {:induction false} DescriptorsRefine(orig: Bytes, image: Bytes, desc: nat, resolver: Resolver,
                                             tables: set<Span>)
    requires |image| == |orig|
    requires var p := DecodeDescriptors(orig, desc);
             p.Plan? && p.tables <= tables && SlotsAreFree(orig, p.imports, tables)
             && Unbound(image, orig, p.imports, tables)
    ensures var p := DecodeDescriptors(orig, desc);
            var r := BindAll(image, p.imports, resolver);
            WalkDescriptors(image, desc, resolver) == if r.Bound? && p.forwarded then Forwarded(r.image) else r
    decreases |orig| - desc
  {
    hide ReadDword, DecodeThunks, WalkThunks, BindAll;
    var p := DecodeDescriptors(orig, desc);
    BindNone(image, resolver);
    if ReadDword(orig, desc + 12) == 0 {
      assert DwordSpan(desc + 12) in tables;
      ReadSame(image, orig, desc + 12);
    } else if ReadDword(orig, desc + 8) != 0 {
      assert Span(desc + 8, desc + 16) in tables;
      ReadSame(image, orig, desc + 8);
      ReadSame(image, orig, desc + 12);
    } else {
      assert Span(desc, desc + DESCRIPTOR_SIZE) in tables;
      ReadSame(image, orig, desc);
      ReadSame(image, orig, desc + 8);
      ReadSame(image, orig, desc + 12);
      ReadSame(image, orig, desc + 16);
      var nameAt, table, slots := ReadDword(orig, desc + 12), LookupTable(orig, desc), ReadDword(orig, desc + 16);
      var first := DecodeThunks(orig, nameAt, table, slots).imports;
      var rest := DecodeDescriptors(orig, desc + DESCRIPTOR_SIZE).imports;
      FreeParts(orig, first, rest, tables);
      UnboundParts(image, orig, first, rest, tables);
      ThunksRefine(orig, image, nameAt, table, slots, resolver, tables);
      BindConcat(image, first, rest, resolver);
      StillUnbound(image, orig, first, rest, tables, resolver);
      var r := BindAll(image, first, resolver);
      if r.Bound? {
        DescriptorsRefine(orig, r.image, desc + DESCRIPTOR_SIZE, resolver, tables);
      }
    }
  }

  lemma BindNone(image: Bytes, resolver: Resolver)
    ensures BindAll(image, [], resolver) == Bound(image)
  {
  }

  lemma UnboundParts(image: Bytes, orig: Bytes, s: seq<Import>, t: seq<Import>, tables: set<Span>)
    requires Unbound(image, orig, s + t, tables)
    ensures Unbound(image, orig, s, tables) && Unbound(image, orig, t, tables)
  {
    assert forall i :: 0 <= i < |s| ==> (s + t)[i] == s[i];
    assert forall i :: 0 <= i < |t| ==> (s + t)[|s| + i] == t[i];
  }

  lemma StillUnbound(image: Bytes, orig: Bytes, s: seq<Import>, t: seq<Import>, tables: set<Span>, resolver: Resolver)
    requires |image| == |orig|
    requires SlotsAreFree(orig, s + t, tables) && Unbound(image, orig, s + t, tables)
    ensures SlotsInImage(image, s) && Unbound(BindAll(image, s, resolver).image, orig, t, tables)
  {
    hide BindAll, DwordSpan;
    FreeParts(orig, s, t, tables);
    UnboundParts(image, orig, s, t, tables);
    var bound := BindAll(image, s, resolver).image;
    forall span | span in tables
      ensures SameIn(bound, orig, span)
    {
      BindApart(image, s, resolver, span);
    }
    forall j | 0 <= j < |t|
      ensures SameIn(bound, orig, DwordSpan(t[j].slot))
    {
      BindApart(image, s, resolver, DwordSpan(t[j].slot));
    }
  }

  /** After a complete binding every slot holds the resolver's answer for its import. */
  lemma {:induction false} BindsEverySlot(image: Bytes, imports: seq<Import>, resolver: Resolver, i: nat)
    requires SlotsAreFree(image, imports, {}) && i < |imports|
    requires BindAll(image, imports, resolver).Bound?
    ensures resolver(imports[i].source).Some?
    ensures ReadDword(BindAll(image, imports, resolver).image, imports[i].slot) == resolver(imports[i].source).value
    decreases |imports|
  {
    hide WriteDword, ReadDword;
    var address := resolver(imports[0].source).value;
    var slot := imports[0].slot;
    var first := WriteDword(image, slot, address);
    if i == 0 {
      ReadWritten(image, slot, address);
      BindApart(first, imports[1..], resolver, DwordSpan(slot));
      ReadSame(BindAll(image, imports, resolver).image, first, slot);
    } else {
      BindsEverySlot(first, imports[1..], resolver, i - 1);
    }
  }

  /** Binding completes exactly when the resolver knows every import. */
  lemma {:induction false} BindsIffResolved(image: Bytes, imports: seq<Import>, resolver: Resolver)
    requires SlotsInImage(image, imports)
    ensures BindAll(image, imports, resolver).Bound? <==>
              forall i :: 0 <= i < |imports| ==> resolver(imports[i].source).Some?
    decreases |imports|
  {
    hide WriteDword;
    if imports != [] {
      var answer := resolver(imports[0].source);
      if answer.Some? {
        BindsIffResolved(WriteDword(image, imports[0].slot, answer.value), imports[1..], resolver);
        assert imports == [imports[0]] + imports[1..];
      }
    }
  }

  // ---------- The two thunk modes ----------

  /** The slots start out as a copy of the lookup table, up to and including its zero entry. */
  ghost predicate SlotsCopyTable(image: Bytes, table: nat, slots: nat, n: nat) {
    forall i :: 0 <= i <= n ==>
      table + 4 * i + 4 <= |image| && slots + 4 * i + 4 <= |image|
      && ReadDword(image, slots + 4 * i) == ReadDword(image, table + 4 * i)
  }

  lemma {:induction false} ModesListSame(image: Bytes, nameAt: nat, table: nat, slots: nat)
    requires var p := DecodeThunks(image, nameAt, table, slots);
             p.Plan? && SlotsCopyTable(image, table, slots, |p.imports|)
    ensures var p := DecodeThunks(image, nameAt, slots, slots);
            p.Plan? && p.imports == DecodeThunks(image, nameAt, table, slots).imports
    decreases |image| - table
  {
    hide ReadDword, ReadSource, SourceSpans;
    var p := DecodeThunks(image, nameAt, table, slots);
    assert ReadDword(image, slots + 4 * 0) == ReadDword(image, table + 4 * 0);
    if ReadDword(image, table) != 0 {
      var n := |p.imports| - 1;
      forall i | 0 <= i <= n
        ensures table + 4 + 4 * i + 4 <= |image| && slots + 4 + 4 * i + 4 <= |image|
        ensures ReadDword(image, slots + 4 + 4 * i) == ReadDword(image, table + 4 + 4 * i)
      {
        assert ReadDword(image, slots + 4 * (i + 1)) == ReadDword(image, table + 4 * (i + 1));
      }
      ModesListSame(image, nameAt, table + 4, slots + 4);
    }
  }

  /** Walking the slots instead of a separate table of the same entries binds them to the same addresses. */
  lemma ModesBindSame(image: Bytes, nameAt: nat, table: nat, slots: nat, resolver: Resolver)
    requires var separate := DecodeThunks(image, nameAt, table, slots);
             var aliased := DecodeThunks(image, nameAt, slots, slots);
             separate.Plan? && aliased.Plan? && SlotsCopyTable(image, table, slots, |separate.imports|)
             && SlotsAreFree(image, separate.imports, separate.tables + aliased.tables)
    ensures WalkThunks(image, nameAt, slots, slots, resolver) == WalkThunks(image, nameAt, table, slots, resolver)
  {
    var separate, aliased := DecodeThunks(image, nameAt, table, slots), DecodeThunks(image, nameAt, slots, slots);
    ModesListSame(image, nameAt, table, slots);
    ThunksRefine(image, image, nameAt, table, slots, resolver, separate.tables + aliased.tables);
    ThunksRefine(image, image, nameAt, slots, slots, resolver, separate.tables + aliased.tables);
  }
}

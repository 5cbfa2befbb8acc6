/** The import tables of an image as a linker writes them, and what the loader makes of them. */
module PrintedImports {
  import opened Words
  import opened Wrappers
  import opened Printing
  import opened Imports

  /** An import by ordinal, or by a name that stands after a hint at `at`. */
  datatype Entry = Ordinal(number: Half) | Name(at: Dword, hint: Half, name: Bytes) {
    /** The word of the lookup table. */
    function Word(): Dword {
      match this
      case Ordinal(number) => 0x8000_0000 + number
      case Name(at, _, _) => at
    }

    function Source(dll: Bytes): ImportRef {
      match this
      case Ordinal(number) => ByOrdinal(dll, number)
      case Name(_, _, name) => ByName(dll, name)
    }

    function Spans(): set<Span> {
      match this
      case Ordinal(_) => {}
      case Name(at, _, name) => {Span(at + 2, at + 2 + |name| + 1)}
    }
  }

  /** One library: its descriptor's five words, its name and its imports. */
  datatype Library = Library(
    lookupAt: Dword, stamp: Dword, chain: Dword, nameAt: Dword, slotsAt: Dword, dll: Bytes, entries: seq<Entry>)
  {
    function Print(): (b: Bytes)
      ensures |b| == 20
    {
      PrintDword(lookupAt) + (PrintDword(stamp) + (PrintDword(chain) + (PrintDword(nameAt) + PrintDword(slotsAt))))
    }

    /** The table that names the imports: the slots themselves if there is no other. */
    function TableAt(): Dword {
      if lookupAt == 0 then slotsAt else lookupAt
    }
  }

  /** `text` stands at `at`, with its terminator. */
  ghost predicate HoldsText(image: Bytes, at: nat, text: Bytes) {
    Holds(image, at, text + [0]) && forall k :: 0 <= k < |text| ==> text[k] != 0
  }

  ghost predicate HoldsEntry(image: Bytes, at: nat, e: Entry) {
    && Holds(image, at, PrintDword(e.Word()))
    && (e.Name? ==>
          && 0 < e.at < 0x8000_0000
          && Holds(image, e.at, PrintHalf(e.hint)) && HoldsText(image, e.at + 2, e.name))
  }

  /** The entries stand in a table at `at`, before a zero word, and there are as many slots. */
  ghost predicate HoldsEntries(image: Bytes, at: nat, slotsAt: nat, entries: seq<Entry>) {
    && slotsAt + 4 * |entries| <= |image|
    && (forall i :: 0 <= i < |entries| ==> HoldsEntry(image, at + 4 * i, entries[i]))
    && Holds(image, at + 4 * |entries|, PrintDword(0))
  }

  ghost predicate HoldsLibrary(image: Bytes, at: nat, l: Library) {
    && Holds(image, at, l.Print()) && l.chain == 0
    && l.nameAt != 0 && HoldsText(image, l.nameAt, l.dll)
    && HoldsEntries(image, l.TableAt(), l.slotsAt, l.entries)
  }

  /** The descriptors stand at `at`, before one whose Name is zero. */
  ghost predicate HoldsLibraries(image: Bytes, at: nat, libraries: seq<Library>) {
    && (forall i :: 0 <= i < |libraries| ==> HoldsLibrary(image, at + 20 * i, libraries[i]))
    && Holds(image, at + 20 * |libraries| + 12, PrintDword(0))
  }

  // ---------- What the tables ask for ----------

  /** The imports of a table, each with the slot of the same index. */
  function ImportsFrom(dll: Bytes, slotsAt: nat, entries: seq<Entry>): seq<Import> {
    seq(|entries|, i requires 0 <= i < |entries| => Import(slotsAt + 4 * i, entries[i].Source(dll)))
  }

  function AllImports(libraries: seq<Library>): seq<Import> {
    if libraries == [] then []
    else ImportsFrom(libraries[0].dll, libraries[0].slotsAt, libraries[0].entries) + AllImports(libraries[1..])
  }

  /** What is read of a table, apart from a slot that is its own entry, and of the texts it refers to. */
  function EntrySpans(dll: Bytes, nameAt: nat, at: nat, slotsAt: nat, entries: seq<Entry>): set<Span>
    decreases |entries|
  {
    if entries == [] then {DwordSpan(at)}
    else
      (if at == slotsAt then {} else {DwordSpan(at)})
      + ({Span(nameAt, nameAt + |dll| + 1)} + entries[0].Spans())
      + EntrySpans(dll, nameAt, at + 4, slotsAt + 4, entries[1..])
  }

  /** Every span that is read of the descriptors at `at` and what they refer to. */
  function AllSpans(at: nat, libraries: seq<Library>): set<Span>
    decreases |libraries|
  {
    if libraries == [] then {DwordSpan(at + 12)}
    else
      var l := libraries[0];
      {Span(at, at + 20)} + EntrySpans(l.dll, l.nameAt, l.TableAt(), l.slotsAt, l.entries)
      + AllSpans(at + 20, libraries[1..])
  }

  // ---------- Reading what was printed ----------

  lemma {:induction false} TextRead(image: Bytes, at: nat, text: Bytes)
    requires HoldsText(image, at, text)
    ensures CString(image, at) == Some(text)
    decreases |text|
  {
    if text == [] {
      assert image[at] == image[at..at + 1][0];
    } else {
      var rest := text[1..];
      assert text + [0] == [text[0]] + (rest + [0]);
      HoldsParts(image, at, [text[0]], rest + [0]);
      assert image[at] == image[at..at + 1][0];
      TextRead(image, at + 1, rest);
      assert [text[0]] + rest == text;
    }
  }

  lemma SourceRead(image: Bytes, nameAt: nat, dll: Bytes, at: nat, e: Entry)
    requires HoldsText(image, nameAt, dll) && HoldsEntry(image, at, e)
    ensures at + 4 <= |image| && ReadDword(image, at) == e.Word() > 0
    ensures ReadSource(image, nameAt, e.Word()) == Some(e.Source(dll))
  {
    hide ReadDword, CString;
    DwordRead(image, at, e.Word());
    TextRead(image, nameAt, dll);
    match e {
      case Ordinal(number) => ModuloOrdinal(number);
      case Name(nameEntryAt, _, name) => TextRead(image, nameEntryAt + 2, name);
    }
  }

  lemma ModuloOrdinal(number: Half)
    ensures (0x8000_0000 + number) % 0x1_0000 == number
  {
  }

  lemma RestHolds(image: Bytes, at: nat, slotsAt: nat, entries: seq<Entry>)
    requires HoldsEntries(image, at, slotsAt, entries) && entries != []
    ensures HoldsEntry(image, at, entries[0]) && HoldsEntries(image, at + 4, slotsAt + 4, entries[1..])
  {
    hide HoldsEntry;
    assert at + 4 * 0 == at;
    forall i | 0 <= i < |entries[1..]|
      ensures HoldsEntry(image, at + 4 + 4 * i, entries[1..][i])
    {
      assert HoldsEntry(image, at + 4 * (i + 1), entries[i + 1]);
      assert at + 4 + 4 * i == at + 4 * (i + 1);
    }
    assert at + 4 + 4 * |entries[1..]| == at + 4 * |entries|;
  }

  lemma OneMoreThunk(image: Bytes, nameAt: nat, at: nat, slotsAt: nat, source: ImportRef, rest: Plan)
    requires at + 4 <= |image| && slotsAt + 4 <= |image| && ReadDword(image, at) != 0
    requires ReadSource(image, nameAt, ReadDword(image, at)) == Some(source)
    requires rest.Plan? && DecodeThunks(image, nameAt, at + 4, slotsAt + 4) == rest
    ensures var entry := if at == slotsAt then {} else {DwordSpan(at)};
            DecodeThunks(image, nameAt, at, slotsAt)
            == Plan([Import(slotsAt, source)] + rest.imports,
                    entry + SourceSpans(nameAt, ReadDword(image, at), source) + rest.tables, false)
  {
    hide ReadDword, ReadSource, SourceSpans;
  }

  lemma SpansOf(nameAt: nat, dll: Bytes, e: Entry)
    ensures SourceSpans(nameAt, e.Word(), e.Source(dll)) == {Span(nameAt, nameAt + |dll| + 1)} + e.Spans()
  {
  }

  lemma ImportsOneMore(dll: Bytes, slotsAt: nat, entries: seq<Entry>)
    requires entries != []
    ensures ImportsFrom(dll, slotsAt, entries)
            == [Import(slotsAt, entries[0].Source(dll))] + ImportsFrom(dll, slotsAt + 4, entries[1..])
  {
  }

  lemma {:induction false} EntriesRead(
      image: Bytes, nameAt: nat, dll: Bytes, at: nat, slotsAt: nat, entries: seq<Entry>)
    requires HoldsText(image, nameAt, dll) && HoldsEntries(image, at, slotsAt, entries)
    ensures DecodeThunks(image, nameAt, at, slotsAt)
            == Plan(ImportsFrom(dll, slotsAt, entries), EntrySpans(dll, nameAt, at, slotsAt, entries), false)
    decreases |entries|
  {
    hide ReadDword, ReadSource, HoldsText, HoldsEntry, SourceSpans, ImportsFrom;
    if entries == [] {
      DwordRead(image, at, 0);
      assert ImportsFrom(dll, slotsAt, []) == [] by { NoImports(dll, slotsAt); }
    } else {
      hide DecodeThunks;
      var rest := entries[1..];
      RestHolds(image, at, slotsAt, entries);
      SourceRead(image, nameAt, dll, at, entries[0]);
      EntriesRead(image, nameAt, dll, at + 4, slotsAt + 4, rest);
      var later := DecodeThunks(image, nameAt, at + 4, slotsAt + 4);
      OneMoreThunk(image, nameAt, at, slotsAt, entries[0].Source(dll), later);
      ImportsOneMore(dll, slotsAt, entries);
      SpansOf(nameAt, dll, entries[0]);
    }
  }

  lemma NoImports(dll: Bytes, slotsAt: nat)
    ensures ImportsFrom(dll, slotsAt, []) == []
  {
  }

  lemma DescriptorRead(image: Bytes, at: nat, l: Library)
    requires Holds(image, at, l.Print())
    ensures at + 20 <= |image|
    ensures ReadDword(image, at) == l.lookupAt && ReadDword(image, at + 8) == l.chain
    ensures ReadDword(image, at + 12) == l.nameAt && ReadDword(image, at + 16) == l.slotsAt
  {
    hide ReadDword, PrintDword;
    var fourth := PrintDword(l.nameAt) + PrintDword(l.slotsAt);
    var third := PrintDword(l.chain) + fourth;
    var second := PrintDword(l.stamp) + third;
    NextDword(image, at, l.lookupAt, second);
    NextDword(image, at + 4, l.stamp, third);
    NextDword(image, at + 8, l.chain, fourth);
    NextDword(image, at + 12, l.nameAt, PrintDword(l.slotsAt));
    DwordRead(image, at + 16, l.slotsAt);
  }

  lemma RestOfLibraries(image: Bytes, at: nat, libraries: seq<Library>)
    requires HoldsLibraries(image, at, libraries) && libraries != []
    ensures HoldsLibrary(image, at, libraries[0]) && HoldsLibraries(image, at + 20, libraries[1..])
  {
    hide HoldsLibrary;
    assert at + 20 * 0 == at;
    forall i | 0 <= i < |libraries[1..]|
      ensures HoldsLibrary(image, at + 20 + 20 * i, libraries[1..][i])
    {
      assert HoldsLibrary(image, at + 20 * (i + 1), libraries[i + 1]);
      assert at + 20 + 20 * i == at + 20 * (i + 1);
    }
    assert at + 20 + 20 * |libraries[1..]| + 12 == at + 20 * |libraries| + 12;
  }

  /** Printed descriptors decode to the imports that were printed, each with its own slot. */
  lemma {:induction false} LibrariesRead(image: Bytes, at: nat, libraries: seq<Library>)
    requires HoldsLibraries(image, at, libraries)
    ensures DecodeDescriptors(image, at) == Plan(AllImports(libraries), AllSpans(at, libraries), false)
    decreases |libraries|
  {
    hide ReadDword, DecodeThunks, HoldsEntries, HoldsText, ImportsFrom, EntrySpans;
    if libraries == [] {
      DwordRead(image, at + 12, 0);
    } else {
      var l := libraries[0];
      RestOfLibraries(image, at, libraries);
      DescriptorRead(image, at, l);
      EntriesRead(image, l.nameAt, l.dll, l.TableAt(), l.slotsAt, l.entries);
      LibrariesRead(image, at + 20, libraries[1..]);
    }
  }

  // ---------- Single steps of the walk ----------

  /** The loader asks for a single import as it was printed, and writes the answer to its slot and nothing else. */
  lemma SingleImport(image: Bytes, nameAt: nat, dll: Bytes, at: nat, slot: nat, e: Entry, resolver: Resolver)
    requires HoldsText(image, nameAt, dll) && HoldsEntry(image, at, e) && Holds(image, at + 4, PrintDword(0))
    requires slot + 4 <= |image| && DwordSpan(slot).Apart(DwordSpan(at + 4))
    ensures WalkThunks(image, nameAt, at, slot, resolver)
            == match resolver(e.Source(dll))
               case None => Unresolved(image)
               case Some(address) => Bound(WriteDword(image, slot, address))
  {
    hide ReadDword, WriteDword, ReadSource;
    SourceRead(image, nameAt, dll, at, e);
    DwordRead(image, at + 4, 0);
    match resolver(e.Source(dll)) {
      case None =>
      case Some(address) =>
        WriteApart(image, slot, address, DwordSpan(at + 4));
        ReadSame(WriteDword(image, slot, address), image, at + 4);
    }
  }

  /** A library with a forwarder chain is refused. */
  lemma ForwarderIsRefused(image: Bytes, at: nat, l: Library, resolver: Resolver)
    requires Holds(image, at, l.Print()) && l.nameAt != 0 && l.chain != 0
    ensures WalkDescriptors(image, at, resolver) == Forwarded(image)
  {
    hide ReadDword;
    DescriptorRead(image, at, l);
  }
}

/** The headers of a 32-bit PE file, as far as the loader uses them, and the checks it makes on them. */
module PeFormat {
  import opened Words

  const DOS_HEADER_SIZE := 64
  const NT_HEADERS_SIZE := 248
  const OPTIONAL_HEADER_SIZE := 224
  const SECTION_HEADER_SIZE := 40

  const DOS_SIGNATURE := 0x5A4D
  const NT_SIGNATURE := 0x0000_4550
  const MACHINE_I386 := 0x014C
  const DYNAMIC_BASE := 0x0040

  /** What the loader is doing; `output.context` in the source. */
  datatype Stage = NotParsed | DosHeader | NtHeader | SectionTable | LoadImage | LoadSection | ResolveImports | Relocate

  datatype Status =
    | Okay
    | Error
    | FileTooSmall
    | InvalidSignature
    | WrongMachineType
    | FixedBase
    | OutOfMemory
    | ForwardingNotSupported
    | UnresolvedImport
    | NoRelocationData
    | UnsupportedRelocationType

  datatype Directory = Directory(address: Dword, size: Dword)

  datatype NtHeaders = NtHeaders(
    signature: Dword,
    machine: Half,
    sectionCount: Half,
    sizeOfOptionalHeader: Half,
    entryPoint: Dword,
    imageBase: Dword,
    sizeOfImage: Dword,
    sizeOfHeaders: Dword,
    dllCharacteristics: Half,
    imports: Directory,
    relocations: Directory)

  function ReadDirectory(b: Bytes, at: nat): Directory
    requires at + 8 <= |b|
  {
    Directory(ReadDword(b, at), ReadDword(b, at + 4))
  }

  function ReadNtHeaders(b: Bytes, at: nat): NtHeaders
    requires at + NT_HEADERS_SIZE <= |b|
  {
    NtHeaders(
      ReadDword(b, at),
      ReadHalf(b, at + 4),
      ReadHalf(b, at + 6),
      ReadHalf(b, at + 20),
      ReadDword(b, at + 40),
      ReadDword(b, at + 52),
      ReadDword(b, at + 80),
      ReadDword(b, at + 84),
      ReadHalf(b, at + 94),
      ReadDirectory(b, at + 128),
      ReadDirectory(b, at + 160))
  }

  /** VirtualAddress, SizeOfRawData and PointerToRawData of a section header. */
  datatype Section = Section(address: Dword, rawSize: Dword, rawStart: Dword)

  function ReadSection(b: Bytes, at: nat): Section
    requires at + SECTION_HEADER_SIZE <= |b|
  {
    Section(ReadDword(b, at + 12), ReadDword(b, at + 16), ReadDword(b, at + 20))
  }

  function ReadSections(b: Bytes, at: nat, n: nat): (s: seq<Section>)
    requires at + n * SECTION_HEADER_SIZE <= |b|
    ensures |s| == n
    ensures forall i :: 0 <= i < n ==> s[i] == ReadSection(b, at + i * SECTION_HEADER_SIZE)
    decreases n
  {
    if n == 0 then [] else [ReadSection(b, at)] + ReadSections(b, at + SECTION_HEADER_SIZE, n - 1)
  }

  /** The NT headers start at e_lfanew, or right after the DOS header when e_lfanew points into it. */
  function NtHeadersAt(raw: Bytes): nat
    requires DOS_HEADER_SIZE <= |raw|
  {
    Max(DOS_HEADER_SIZE, ReadDword(raw, 60))
  }

  /** The section table follows the optional header, whose declared size counts only when larger than usual. */
  function SectionTableAt(nt: NtHeaders, ntAt: nat): nat {
    ntAt + NT_HEADERS_SIZE + Max(OPTIONAL_HEADER_SIZE, nt.sizeOfOptionalHeader) - OPTIONAL_HEADER_SIZE
  }

  predicate IsDynamicBase(nt: NtHeaders) {
    nt.dllCharacteristics / DYNAMIC_BASE % 2 == 1
  }

  datatype HeaderOutcome = Parsed(nt: NtHeaders, tableAt: nat) | Rejected(stage: Stage, status: Status)

  /** The header checks in the order the loader makes them; `granted` is the fate of the section table's block. */
  function ParseHeader(raw: Bytes, granted: bool): (r: HeaderOutcome)
    ensures r.Parsed? ==> granted && r.tableAt + r.nt.sectionCount * SECTION_HEADER_SIZE <= |raw|
  {
    if |raw| < DOS_HEADER_SIZE then Rejected(DosHeader, FileTooSmall)
    else if ReadHalf(raw, 0) != DOS_SIGNATURE then Rejected(DosHeader, InvalidSignature)
    else if NtHeadersAt(raw) > |raw| then Rejected(DosHeader, FileTooSmall)
    else if NtHeadersAt(raw) + NT_HEADERS_SIZE > |raw| then Rejected(NtHeader, FileTooSmall)
    else
      var nt := ReadNtHeaders(raw, NtHeadersAt(raw));
      var tableAt := SectionTableAt(nt, NtHeadersAt(raw));
      if nt.signature != NT_SIGNATURE then Rejected(NtHeader, InvalidSignature)
      else if nt.machine != MACHINE_I386 then Rejected(NtHeader, WrongMachineType)
      else if !IsDynamicBase(nt) then Rejected(NtHeader, FixedBase)
      else if tableAt > |raw| then Rejected(NtHeader, FileTooSmall)
      else if !granted then Rejected(SectionTable, OutOfMemory)
      else if tableAt + nt.sectionCount * SECTION_HEADER_SIZE > |raw| then Rejected(SectionTable, FileTooSmall)
      else Parsed(nt, tableAt)
  }

  /** A file with its NT headers at `ntAt` and its section table at `tableAt`, all inside the file. */
  ghost predicate HeadersAt(raw: Bytes, ntAt: nat, tableAt: nat) {
    && DOS_HEADER_SIZE <= ntAt && ntAt + NT_HEADERS_SIZE <= tableAt <= |raw|
    && ReadHalf(raw, 0) == DOS_SIGNATURE
    && (ReadDword(raw, 60) == ntAt || (ntAt == DOS_HEADER_SIZE && ReadDword(raw, 60) < DOS_HEADER_SIZE))
    && ReadDword(raw, ntAt) == NT_SIGNATURE
    && ReadHalf(raw, ntAt + 4) == MACHINE_I386
    && IsDynamicBase(ReadNtHeaders(raw, ntAt))
    && tableAt == ntAt + 24 + Max(OPTIONAL_HEADER_SIZE, ReadHalf(raw, ntAt + 20))
    && tableAt + ReadHalf(raw, ntAt + 6) * SECTION_HEADER_SIZE <= |raw|
  }

  /** The checks, made in sequence on a moving read pointer, accept exactly the files with such headers. */
  lemma AcceptsExactlyHeaders(raw: Bytes, nt: NtHeaders, tableAt: nat)
    ensures ParseHeader(raw, true) == Parsed(nt, tableAt) <==>
              exists ntAt :: HeadersAt(raw, ntAt, tableAt) && nt == ReadNtHeaders(raw, ntAt)
  {
    hide ReadDword, ReadHalf, IsDynamicBase;
    if |raw| >= DOS_HEADER_SIZE && ParseHeader(raw, true) == Parsed(nt, tableAt) {
      assert HeadersAt(raw, NtHeadersAt(raw), tableAt);
    }
    forall ntAt | HeadersAt(raw, ntAt, tableAt) && nt == ReadNtHeaders(raw, ntAt)
      ensures ParseHeader(raw, true) == Parsed(nt, tableAt)
    {
      assert ntAt == NtHeadersAt(raw);
    }
  }

  lemma SameSection(raw: Bytes, tableAt: nat, copy: Bytes, at: nat)
    requires tableAt + |copy| <= |raw| && copy == raw[tableAt..tableAt + |copy|]
    requires at + SECTION_HEADER_SIZE <= |copy|
    ensures ReadSection(copy, at) == ReadSection(raw, tableAt + at)
  {
    assert forall k :: 0 <= k < |copy| ==> copy[k] == raw[tableAt + k];
  }

  /** A copy of the section table lists the sections of the file. */
  lemma CopyListsSections(raw: Bytes, tableAt: nat, n: nat, copy: Bytes)
    requires tableAt + n * SECTION_HEADER_SIZE <= |raw|
    requires copy == raw[tableAt..tableAt + n * SECTION_HEADER_SIZE]
    ensures ReadSections(copy, 0, n) == ReadSections(raw, tableAt, n)
  {
    hide ReadSection;
    forall i | 0 <= i < n
      ensures ReadSection(copy, i * SECTION_HEADER_SIZE) == ReadSection(raw, tableAt + i * SECTION_HEADER_SIZE)
    {
      SameSection(raw, tableAt, copy, i * SECTION_HEADER_SIZE);
    }
  }
}

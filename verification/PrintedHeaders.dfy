/**
  The headers and the section table of a PE file as a linker writes them, field after field, and what the loader
  makes of a file that starts with them.
 */
module PrintedHeaders {
  import opened Words
  import opened Printing
  import opened PeFormat
  import ImageMapping
  import LoadSpec

  /** The DOS header: e_magic, fields that the loader skips, e_lfanew. */
  datatype DosImage = DosImage(magic: Half, skipped: seq<Byte>, ntAt: Dword) {
    predicate Valid() {
      |skipped| == 58
    }

    function Print(): Bytes {
      PrintHalf(magic) + (skipped + PrintDword(ntAt))
    }
  }

  /** The NT headers; a sequence of words stands for fields that the loader skips. */
  datatype NtImage = NtImage(
    signature: Dword,
    // IMAGE_FILE_HEADER: TimeDateStamp and the symbol table are skipped
    machine: Half, sectionCount: Half, symbols: seq<Dword>, sizeOfOptionalHeader: Half, characteristics: Half,
    // IMAGE_OPTIONAL_HEADER: Magic to SizeOfUninitializedData, BaseOfCode and BaseOfData, the alignments and versions
    code: seq<Dword>, entryPoint: Dword, bases: seq<Dword>, imageBase: Dword, versions: seq<Dword>,
    sizeOfImage: Dword, sizeOfHeaders: Dword, checkSum: Dword, subsystem: Half, dllCharacteristics: Half,
    // the sizes of stack and heap, LoaderFlags and NumberOfRvaAndSizes
    memory: seq<Dword>,
    // the data directories: exports, imports, three that are skipped, relocations, ten that are skipped
    exports: Directory, imports: Directory, others: seq<Dword>, relocations: Directory, more: seq<Dword>)
  {
    predicate Valid() {
      && |symbols| == 3 && |code| == 4 && |bases| == 2 && |versions| == 6
      && |memory| == 6 && |others| == 6 && |more| == 20
    }

    function PrintFileHeader(): (b: Bytes)
      ensures Valid() ==> |b| == 24
    {
      PrintDword(signature) + (PrintHalf(machine) + (PrintHalf(sectionCount) + (PrintDwords(symbols)
        + (PrintHalf(sizeOfOptionalHeader) + PrintHalf(characteristics)))))
    }

    function PrintStandardFields(): (b: Bytes)
      ensures Valid() ==> |b| == 32
    {
      PrintDwords(code) + (PrintDword(entryPoint) + (PrintDwords(bases) + PrintDword(imageBase)))
    }

    function PrintWindowsFields(): (b: Bytes)
      ensures Valid() ==> |b| == 64
    {
      PrintDwords(versions) + (PrintDword(sizeOfImage) + (PrintDword(sizeOfHeaders) + (PrintDword(checkSum)
        + (PrintHalf(subsystem) + (PrintHalf(dllCharacteristics) + PrintDwords(memory))))))
    }

    function PrintDirectories(): (b: Bytes)
      ensures Valid() ==> |b| == 128
    {
      PrintDirectory(exports) + (PrintDirectory(imports) + (PrintDwords(others)
        + (PrintDirectory(relocations) + PrintDwords(more))))
    }

    function Print(): (b: Bytes)
      ensures Valid() ==> |b| == 248
    {
      PrintFileHeader() + (PrintStandardFields() + (PrintWindowsFields() + PrintDirectories()))
    }

    /** What the loader is to take from these headers. */
    function Fields(): NtHeaders {
      NtHeaders(signature, machine, sectionCount, sizeOfOptionalHeader, entryPoint, imageBase, sizeOfImage,
                sizeOfHeaders, dllCharacteristics, imports, relocations)
    }
  }

  function PrintDirectory(d: Directory): (b: Bytes)
    ensures |b| == 8
  {
    PrintDword(d.address) + PrintDword(d.size)
  }

  /** A section header: its name, four words, and fields that the loader skips. */
  datatype SectionImage = SectionImage(
    name: seq<Byte>, virtualSize: Dword, address: Dword, rawSize: Dword, rawStart: Dword, skipped: seq<Byte>)
  {
    predicate Valid() {
      |name| == 8 && |skipped| == 16
    }

    function Print(): (b: Bytes)
      ensures Valid() ==> |b| == 40
    {
      name + (PrintDword(virtualSize) + (PrintDword(address) + (PrintDword(rawSize)
        + (PrintDword(rawStart) + skipped))))
    }

    function Fields(): Section {
      Section(address, rawSize, rawStart)
    }
  }

  function AllFields(sections: seq<SectionImage>): seq<Section> {
    seq(|sections|, i requires 0 <= i < |sections| => sections[i].Fields())
  }

  /** The headers stand at the start of the file and where e_lfanew says, unless that is inside the DOS header. */
  ghost predicate HoldsHeaders(raw: Bytes, dos: DosImage, nt: NtImage) {
    && dos.Valid() && nt.Valid()
    && Holds(raw, 0, dos.Print()) && Holds(raw, Max(64, dos.ntAt), nt.Print())
  }

  /** The section table follows the optional header, whose declared size counts only if it is larger than usual. */
  function TableAt(dos: DosImage, nt: NtImage): nat {
    Max(64, dos.ntAt) + 24 + Max(224, nt.sizeOfOptionalHeader)
  }

  ghost predicate HoldsSections(raw: Bytes, at: nat, sections: seq<SectionImage>) {
    && at + 40 * |sections| <= |raw|
    && forall i :: 0 <= i < |sections| ==> sections[i].Valid() && Holds(raw, at + 40 * i, sections[i].Print())
  }

  // ---------- Reading what was printed ----------

  lemma DosRead(raw: Bytes, dos: DosImage)
    requires dos.Valid() && Holds(raw, 0, dos.Print())
    ensures |raw| >= 64 && ReadHalf(raw, 0) == dos.magic && ReadDword(raw, 60) == dos.ntAt
  {
    hide ReadHalf, ReadDword;
    NextHalf(raw, 0, dos.magic, dos.skipped + PrintDword(dos.ntAt));
    HoldsParts(raw, 2, dos.skipped, PrintDword(dos.ntAt));
    DwordRead(raw, 60, dos.ntAt);
  }

  lemma FileHeaderRead(b: Bytes, at: nat, nt: NtImage)
    requires nt.Valid() && Holds(b, at, nt.PrintFileHeader())
    ensures at + 24 <= |b| && ReadDword(b, at) == nt.signature
    ensures ReadHalf(b, at + 4) == nt.machine && ReadHalf(b, at + 6) == nt.sectionCount
    ensures ReadHalf(b, at + 20) == nt.sizeOfOptionalHeader
  {
    hide ReadHalf, ReadDword, Holds, PrintHalf, PrintDword, PrintDwords;
    var last := PrintHalf(nt.sizeOfOptionalHeader) + PrintHalf(nt.characteristics);
    var third := PrintDwords(nt.symbols) + last;
    var second := PrintHalf(nt.sectionCount) + third;
    NextDword(b, at, nt.signature, PrintHalf(nt.machine) + second);
    NextHalf(b, at + 4, nt.machine, second);
    NextHalf(b, at + 6, nt.sectionCount, third);
    HoldsParts(b, at + 8, PrintDwords(nt.symbols), last);
    NextHalf(b, at + 20, nt.sizeOfOptionalHeader, PrintHalf(nt.characteristics));
  }

  lemma StandardFieldsRead(b: Bytes, at: nat, nt: NtImage)
    requires nt.Valid() && Holds(b, at, nt.PrintStandardFields())
    ensures at + 32 <= |b| && ReadDword(b, at + 16) == nt.entryPoint && ReadDword(b, at + 28) == nt.imageBase
  {
    hide ReadDword, Holds, PrintDword, PrintDwords;
    var second := PrintDwords(nt.bases) + PrintDword(nt.imageBase);
    HoldsParts(b, at, PrintDwords(nt.code), PrintDword(nt.entryPoint) + second);
    NextDword(b, at + 16, nt.entryPoint, second);
    HoldsParts(b, at + 20, PrintDwords(nt.bases), PrintDword(nt.imageBase));
    HoldsFits(b, at + 28, PrintDword(nt.imageBase));
    DwordRead(b, at + 28, nt.imageBase);
  }

  lemma HoldsFits(b: Bytes, at: nat, piece: Bytes)
    requires Holds(b, at, piece)
    ensures at + |piece| <= |b|
  {
  }

  lemma WindowsFieldsRead(b: Bytes, at: nat, nt: NtImage)
    requires nt.Valid() && Holds(b, at, nt.PrintWindowsFields())
    ensures at + 64 <= |b| && ReadDword(b, at + 24) == nt.sizeOfImage && ReadDword(b, at + 28) == nt.sizeOfHeaders
    ensures ReadHalf(b, at + 38) == nt.dllCharacteristics
  {
    hide ReadHalf, ReadDword, Holds, PrintHalf, PrintDword, PrintDwords;
    var fifth := PrintHalf(nt.dllCharacteristics) + PrintDwords(nt.memory);
    var fourth := PrintHalf(nt.subsystem) + fifth;
    var third := PrintDword(nt.checkSum) + fourth;
    var second := PrintDword(nt.sizeOfHeaders) + third;
    HoldsFits(b, at, nt.PrintWindowsFields());
    HoldsParts(b, at, PrintDwords(nt.versions), PrintDword(nt.sizeOfImage) + second);
    NextDword(b, at + 24, nt.sizeOfImage, second);
    NextDword(b, at + 28, nt.sizeOfHeaders, third);
    NextDword(b, at + 32, nt.checkSum, fourth);
    NextHalf(b, at + 36, nt.subsystem, fifth);
    NextHalf(b, at + 38, nt.dllCharacteristics, PrintDwords(nt.memory));
  }

  lemma DirectoryRead(b: Bytes, at: nat, d: Directory, rest: Bytes)
    requires Holds(b, at, PrintDirectory(d) + rest)
    ensures at + 8 <= |b| && ReadDword(b, at) == d.address && ReadDword(b, at + 4) == d.size && Holds(b, at + 8, rest)
  {
    hide ReadDword;
    HoldsParts(b, at, PrintDirectory(d), rest);
    NextDword(b, at, d.address, PrintDword(d.size));
    DwordRead(b, at + 4, d.size);
  }

  lemma DirectoriesRead(b: Bytes, at: nat, nt: NtImage)
    requires nt.Valid() && Holds(b, at, nt.PrintDirectories())
    ensures at + 128 <= |b|
    ensures ReadDword(b, at) == nt.exports.address && ReadDword(b, at + 4) == nt.exports.size
    ensures ReadDword(b, at + 8) == nt.imports.address && ReadDword(b, at + 12) == nt.imports.size
    ensures ReadDword(b, at + 40) == nt.relocations.address && ReadDword(b, at + 44) == nt.relocations.size
  {
    hide ReadDword, Holds, PrintDirectory, PrintDwords;
    var fourth := PrintDirectory(nt.relocations) + PrintDwords(nt.more);
    var third := PrintDwords(nt.others) + fourth;
    var second := PrintDirectory(nt.imports) + third;
    HoldsFits(b, at, nt.PrintDirectories());
    DirectoryRead(b, at, nt.exports, second);
    DirectoryRead(b, at + 8, nt.imports, third);
    HoldsParts(b, at + 16, PrintDwords(nt.others), fourth);
    DirectoryRead(b, at + 40, nt.relocations, PrintDwords(nt.more));
  }

  /** The loader's fields of printed NT headers are the printed ones. */
  lemma NtRead(b: Bytes, at: nat, nt: NtImage)
    requires nt.Valid() && Holds(b, at, nt.Print())
    ensures at + 248 <= |b| && ReadNtHeaders(b, at) == nt.Fields()
    ensures ReadDword(b, at + 0x78) == nt.exports.address && ReadDword(b, at + 0x7C) == nt.exports.size
  {
    hide ReadHalf, ReadDword, Holds;
    var third := nt.PrintWindowsFields() + nt.PrintDirectories();
    HoldsFits(b, at, nt.Print());
    HoldsParts(b, at, nt.PrintFileHeader(), nt.PrintStandardFields() + third);
    HoldsParts(b, at + 24, nt.PrintStandardFields(), third);
    HoldsParts(b, at + 56, nt.PrintWindowsFields(), nt.PrintDirectories());
    FileHeaderRead(b, at, nt);
    StandardFieldsRead(b, at + 24, nt);
    WindowsFieldsRead(b, at + 56, nt);
    DirectoriesRead(b, at + 120, nt);
  }

  lemma SectionRead(b: Bytes, at: nat, s: SectionImage)
    requires s.Valid() && Holds(b, at, s.Print())
    ensures at + 40 <= |b| && ReadSection(b, at) == s.Fields()
  {
    hide ReadDword, Holds, PrintDword;
    var fourth := PrintDword(s.rawStart) + s.skipped;
    var third := PrintDword(s.rawSize) + fourth;
    var second := PrintDword(s.address) + third;
    HoldsFits(b, at, s.Print());
    HoldsParts(b, at, s.name, PrintDword(s.virtualSize) + second);
    NextDword(b, at + 8, s.virtualSize, second);
    NextDword(b, at + 12, s.address, third);
    NextDword(b, at + 16, s.rawSize, fourth);
    NextDword(b, at + 20, s.rawStart, s.skipped);
  }

  /** A printed section table lists the sections that were printed. */
  lemma SectionsRead(raw: Bytes, at: nat, sections: seq<SectionImage>)
    requires HoldsSections(raw, at, sections)
    ensures ReadSections(raw, at, |sections|) == AllFields(sections)
  {
    hide ReadSection;
    forall i | 0 <= i < |sections|
      ensures ReadSection(raw, at + 40 * i) == sections[i].Fields()
    {
      SectionRead(raw, at + 40 * i, sections[i]);
    }
    assert ReadSections(raw, at, |sections|) == AllFields(sections);
  }

  /** What the header checks make of printed headers: the first of these that applies. */
  lemma HeadersOutcome(raw: Bytes, granted: bool, dos: DosImage, nt: NtImage)
    requires HoldsHeaders(raw, dos, nt)
    ensures ParseHeader(raw, granted)
            == if dos.magic != 0x5A4D then Rejected(DosHeader, InvalidSignature)
               else if nt.signature != 0x4550 then Rejected(NtHeader, InvalidSignature)
               else if nt.machine != 0x14C then Rejected(NtHeader, WrongMachineType)
               else if nt.dllCharacteristics / 0x40 % 2 == 0 then Rejected(NtHeader, FixedBase)
               else if TableAt(dos, nt) > |raw| then Rejected(NtHeader, FileTooSmall)
               else if !granted then Rejected(SectionTable, OutOfMemory)
               else if TableAt(dos, nt) + 40 * nt.sectionCount > |raw| then Rejected(SectionTable, FileTooSmall)
               else Parsed(nt.Fields(), TableAt(dos, nt))
  {
    hide ReadHalf, ReadDword, ReadNtHeaders, Holds;
    DosRead(raw, dos);
    NtRead(raw, Max(64, dos.ntAt), nt);
  }

  /** A file that ends inside its headers is rejected as such, unless its first two bytes are wrong. */
  lemma TruncatedHeaders(raw: Bytes, granted: bool, dos: DosImage)
    ensures |raw| < 64 ==> ParseHeader(raw, granted) == Rejected(DosHeader, FileTooSmall)
    ensures dos.Valid() && Holds(raw, 0, dos.Print()) && Max(64, dos.ntAt) + 248 > |raw| ==>
              ParseHeader(raw, granted)
              == if dos.magic != 0x5A4D then Rejected(DosHeader, InvalidSignature)
                 else Rejected(if dos.ntAt > |raw| then DosHeader else NtHeader, FileTooSmall)
  {
    hide ReadHalf, ReadDword, ReadNtHeaders;
    if dos.Valid() && Holds(raw, 0, dos.Print()) {
      DosRead(raw, dos);
    }
  }

  // ---------- Printing what was read ----------

  /** The NT headers that any 248 bytes can be taken for. */
  function NtAt(b: Bytes, at: nat): (nt: NtImage)
    requires at + 248 <= |b|
    ensures nt.Valid()
  {
    NtImage(
      ReadDword(b, at),
      ReadHalf(b, at + 4), ReadHalf(b, at + 6), ReadDwords(b, at + 8, 3), ReadHalf(b, at + 20), ReadHalf(b, at + 22),
      ReadDwords(b, at + 24, 4), ReadDword(b, at + 40), ReadDwords(b, at + 44, 2), ReadDword(b, at + 52),
      ReadDwords(b, at + 56, 6), ReadDword(b, at + 80), ReadDword(b, at + 84), ReadDword(b, at + 88),
      ReadHalf(b, at + 92), ReadHalf(b, at + 94), ReadDwords(b, at + 96, 6),
      ReadDirectory(b, at + 120), ReadDirectory(b, at + 128), ReadDwords(b, at + 136, 6),
      ReadDirectory(b, at + 160), ReadDwords(b, at + 168, 20))
  }

  lemma FileHeaderPrinted(b: Bytes, at: nat)
    requires at + 248 <= |b|
    ensures Holds(b, at, NtAt(b, at).PrintFileHeader())
  {
    hide ReadDword, ReadHalf, PrintDword, PrintHalf, PrintDwords, ReadDwords, Holds;
    var nt := NtAt(b, at);
    var last := PrintHalf(nt.sizeOfOptionalHeader) + PrintHalf(nt.characteristics);
    var third := PrintDwords(nt.symbols) + last;
    var second := PrintHalf(nt.sectionCount) + third;
    HalfPrinted(b, at + 22);
    HalfPrinted(b, at + 20);
    HoldsJoined(b, at + 20, PrintHalf(nt.sizeOfOptionalHeader), PrintHalf(nt.characteristics));
    DwordsPrinted(b, at + 8, 3);
    HoldsJoined(b, at + 8, PrintDwords(nt.symbols), last);
    HalfPrinted(b, at + 6);
    HoldsJoined(b, at + 6, PrintHalf(nt.sectionCount), third);
    HalfPrinted(b, at + 4);
    HoldsJoined(b, at + 4, PrintHalf(nt.machine), second);
    DwordPrinted(b, at);
    HoldsJoined(b, at, PrintDword(nt.signature), PrintHalf(nt.machine) + second);
  }

  lemma StandardFieldsPrinted(b: Bytes, at: nat)
    requires at + 248 <= |b|
    ensures Holds(b, at + 24, NtAt(b, at).PrintStandardFields())
  {
    hide ReadDword, ReadHalf, PrintDword, PrintDwords, ReadDwords, Holds;
    var nt := NtAt(b, at);
    var second := PrintDwords(nt.bases) + PrintDword(nt.imageBase);
    DwordPrinted(b, at + 52);
    DwordsPrinted(b, at + 44, 2);
    HoldsJoined(b, at + 44, PrintDwords(nt.bases), PrintDword(nt.imageBase));
    DwordPrinted(b, at + 40);
    HoldsJoined(b, at + 40, PrintDword(nt.entryPoint), second);
    DwordsPrinted(b, at + 24, 4);
    HoldsJoined(b, at + 24, PrintDwords(nt.code), PrintDword(nt.entryPoint) + second);
  }

  lemma WindowsFieldsPrinted(b: Bytes, at: nat)
    requires at + 248 <= |b|
    ensures Holds(b, at + 56, NtAt(b, at).PrintWindowsFields())
  {
    hide ReadDword, ReadHalf, PrintDword, PrintHalf, PrintDwords, ReadDwords, Holds;
    var nt := NtAt(b, at);
    var fifth := PrintHalf(nt.dllCharacteristics) + PrintDwords(nt.memory);
    var fourth := PrintHalf(nt.subsystem) + fifth;
    var third := PrintDword(nt.checkSum) + fourth;
    var second := PrintDword(nt.sizeOfHeaders) + third;
    DwordsPrinted(b, at + 96, 6);
    HalfPrinted(b, at + 94);
    HoldsJoined(b, at + 94, PrintHalf(nt.dllCharacteristics), PrintDwords(nt.memory));
    HalfPrinted(b, at + 92);
    HoldsJoined(b, at + 92, PrintHalf(nt.subsystem), fifth);
    DwordPrinted(b, at + 88);
    HoldsJoined(b, at + 88, PrintDword(nt.checkSum), fourth);
    DwordPrinted(b, at + 84);
    HoldsJoined(b, at + 84, PrintDword(nt.sizeOfHeaders), third);
    DwordPrinted(b, at + 80);
    HoldsJoined(b, at + 80, PrintDword(nt.sizeOfImage), second);
    DwordsPrinted(b, at + 56, 6);
    HoldsJoined(b, at + 56, PrintDwords(nt.versions), PrintDword(nt.sizeOfImage) + second);
  }

  lemma DirectoryPrinted(b: Bytes, at: nat)
    requires at + 8 <= |b|
    ensures Holds(b, at, PrintDirectory(ReadDirectory(b, at)))
  {
    hide ReadDword, PrintDword;
    DwordPrinted(b, at);
    DwordPrinted(b, at + 4);
    HoldsJoined(b, at, PrintDword(ReadDword(b, at)), PrintDword(ReadDword(b, at + 4)));
  }

  lemma DirectoriesPrinted(b: Bytes, at: nat)
    requires at + 248 <= |b|
    ensures Holds(b, at + 120, NtAt(b, at).PrintDirectories())
  {
    hide ReadDword, ReadHalf, PrintDirectory, ReadDirectory, PrintDwords, ReadDwords, Holds;
    var nt := NtAt(b, at);
    var fourth := PrintDirectory(nt.relocations) + PrintDwords(nt.more);
    var third := PrintDwords(nt.others) + fourth;
    var second := PrintDirectory(nt.imports) + third;
    DwordsPrinted(b, at + 168, 20);
    DirectoryPrinted(b, at + 160);
    HoldsJoined(b, at + 160, PrintDirectory(nt.relocations), PrintDwords(nt.more));
    DwordsPrinted(b, at + 136, 6);
    HoldsJoined(b, at + 136, PrintDwords(nt.others), fourth);
    DirectoryPrinted(b, at + 128);
    HoldsJoined(b, at + 128, PrintDirectory(nt.imports), third);
    DirectoryPrinted(b, at + 120);
    HoldsJoined(b, at + 120, PrintDirectory(nt.exports), second);
  }

  lemma NtPrinted(b: Bytes, at: nat)
    requires at + 248 <= |b|
    ensures Holds(b, at, NtAt(b, at).Print())
  {
    hide Holds, NtAt;
    var nt := NtAt(b, at);
    var third := nt.PrintWindowsFields() + nt.PrintDirectories();
    FileHeaderPrinted(b, at);
    StandardFieldsPrinted(b, at);
    WindowsFieldsPrinted(b, at);
    DirectoriesPrinted(b, at);
    HoldsJoined(b, at + 56, nt.PrintWindowsFields(), nt.PrintDirectories());
    HoldsJoined(b, at + 24, nt.PrintStandardFields(), third);
    HoldsJoined(b, at, nt.PrintFileHeader(), nt.PrintStandardFields() + third);
  }

  /** The DOS header that any 64 bytes can be taken for. */
  function DosAt(raw: Bytes): (dos: DosImage)
    requires |raw| >= 64
    ensures dos.Valid()
  {
    DosImage(ReadHalf(raw, 0), raw[2..60], ReadDword(raw, 60))
  }

  lemma DosPrinted(raw: Bytes)
    requires |raw| >= 64
    ensures Holds(raw, 0, DosAt(raw).Print())
  {
    hide ReadDword, ReadHalf, PrintDword, PrintHalf;
    var dos := DosAt(raw);
    HalfPrinted(raw, 0);
    DwordPrinted(raw, 60);
    HoldsJoined(raw, 2, dos.skipped, PrintDword(dos.ntAt));
    HoldsJoined(raw, 0, PrintHalf(dos.magic), dos.skipped + PrintDword(dos.ntAt));
  }

  /** The section header that any 40 bytes can be taken for. */
  function SectionAt(b: Bytes, at: nat): (s: SectionImage)
    requires at + 40 <= |b|
    ensures s.Valid()
  {
    SectionImage(b[at..at + 8], ReadDword(b, at + 8), ReadDword(b, at + 12), ReadDword(b, at + 16),
                 ReadDword(b, at + 20), b[at + 24..at + 40])
  }

  lemma SectionPrinted(b: Bytes, at: nat)
    requires at + 40 <= |b|
    ensures Holds(b, at, SectionAt(b, at).Print())
  {
    hide ReadDword, PrintDword;
    var s := SectionAt(b, at);
    var fourth := PrintDword(s.rawStart) + s.skipped;
    var third := PrintDword(s.rawSize) + fourth;
    var second := PrintDword(s.address) + third;
    DwordPrinted(b, at + 20);
    HoldsJoined(b, at + 20, PrintDword(s.rawStart), s.skipped);
    DwordPrinted(b, at + 16);
    HoldsJoined(b, at + 16, PrintDword(s.rawSize), fourth);
    DwordPrinted(b, at + 12);
    HoldsJoined(b, at + 12, PrintDword(s.address), third);
    DwordPrinted(b, at + 8);
    HoldsJoined(b, at + 8, PrintDword(s.virtualSize), second);
    HoldsJoined(b, at, s.name, PrintDword(s.virtualSize) + second);
  }

  function SectionsAt(raw: Bytes, at: nat, n: nat): (sections: seq<SectionImage>)
    requires at + 40 * n <= |raw|
    ensures |sections| == n
  {
    seq(n, i requires 0 <= i < n => SectionAt(raw, at + 40 * i))
  }

  lemma AcceptedFits(raw: Bytes)
    requires ParseHeader(raw, true).Parsed?
    ensures |raw| >= 64 && Max(64, DosAt(raw).ntAt) + 248 <= |raw|
  {
    hide ReadDword, ReadHalf, ReadNtHeaders;
  }

  lemma SectionsPrinted(raw: Bytes, at: nat, n: nat)
    requires at + 40 * n <= |raw|
    ensures HoldsSections(raw, at, SectionsAt(raw, at, n))
  {
    hide Holds, SectionAt;
    forall i | 0 <= i < n
      ensures Holds(raw, at + 40 * i, SectionAt(raw, at + 40 * i).Print())
    {
      SectionPrinted(raw, at + 40 * i);
    }
  }

  /** Every file whose headers are accepted starts with printed headers and has a printed section table. */
  lemma AcceptedIsPrinted(raw: Bytes)
    requires ParseHeader(raw, true).Parsed?
    ensures |raw| >= 64 && Max(64, DosAt(raw).ntAt) + 248 <= |raw|
    ensures var dos, nt := DosAt(raw), NtAt(raw, Max(64, DosAt(raw).ntAt));
            && HoldsHeaders(raw, dos, nt)
            && dos.magic == 0x5A4D && nt.signature == 0x4550 && nt.machine == 0x14C
            && nt.dllCharacteristics / 0x40 % 2 == 1
            && TableAt(dos, nt) + 40 * nt.sectionCount <= |raw|
            && HoldsSections(raw, TableAt(dos, nt), SectionsAt(raw, TableAt(dos, nt), nt.sectionCount))
  {
    AcceptedFits(raw);
    hide DosAt, NtAt, SectionsAt, Holds, HoldsSections, ParseHeader;
    var dos, nt := DosAt(raw), NtAt(raw, Max(64, DosAt(raw).ntAt));
    DosPrinted(raw);
    NtPrinted(raw, Max(64, dos.ntAt));
    HeadersOutcome(raw, true, dos, nt);
    SectionsPrinted(raw, TableAt(dos, nt), nt.sectionCount);
  }
}

/** The export directory of a loaded image as a linker writes it, what its registration makes of it, and an example. */
module PrintedExports {
  import opened Words
  import opened Wrappers
  import opened Printing
  import opened PrintedHeaders
  import opened RegistryModel
  import opened ExportLinker

  /** IMAGE_EXPORT_DIRECTORY, and the table of addresses that it refers to. */
  datatype ExportImage = ExportImage(
    flags: Dword, stamp: Dword, version: Dword, nameAt: Dword, ordinalBase: Dword, names: Dword,
    functionsAt: Dword, namesAt: Dword, ordinalsAt: Dword, functions: seq<Dword>)
  {
    /** Of as many functions as the count can tell. */
    predicate Valid() {
      |functions| < 0x1_0000_0000
    }

    function PrintCounts(): (b: Bytes)
      requires Valid()
      ensures |b| == 16
    {
      PrintDword(ordinalBase) + (PrintDword(|functions|) + (PrintDword(names) + PrintDword(functionsAt)))
    }

    function Print(): (b: Bytes)
      requires Valid()
      ensures |b| == 40
    {
      PrintDwords([flags, stamp, version, nameAt]) + (PrintCounts() + PrintDwords([namesAt, ordinalsAt]))
    }
  }

  /** The headers of a module as they stand at its base. */
  ghost predicate HoldsModule(image: Bytes, dos: DosImage, nt: NtImage) {
    dos.Valid() && nt.Valid() && Holds(image, 0, dos.Print()) && Holds(image, dos.ntAt, nt.Print())
  }

  /** The directory and its table stand where the headers and the directory say. */
  ghost predicate HoldsExports(image: Bytes, nt: NtImage, x: ExportImage) {
    && x.Valid() && Holds(image, nt.exports.address, x.Print())
    && Holds(image, x.functionsAt, PrintDwords(x.functions))
  }

  /** The exports that the registry is to be given. */
  function AsRegistered(name: Bytes, moduleBase: Dword, x: ExportImage, n: nat): seq<Registration>
    requires n <= |x.functions|
  {
    seq(n, i requires 0 <= i < n => Registration(name, ExportOf(moduleBase, x, i)))
  }

  function ExportOf(moduleBase: Dword, x: ExportImage, i: nat): Export
    requires i < |x.functions|
  {
    Export(Wrap(x.ordinalBase + i), None, None, Wrap(moduleBase + x.functions[i]))
  }

  // ---------- Reading what was printed ----------

  lemma {:induction false} WordOfTable(b: Bytes, at: nat, vs: seq<Dword>, i: nat)
    requires Holds(b, at, PrintDwords(vs)) && i < |vs|
    ensures at + 4 * i + 4 <= |b| && ReadDword(b, at + 4 * i) == vs[i]
    decreases i
  {
    hide ReadDword, PrintDword;
    HoldsParts(b, at, PrintDword(vs[0]), PrintDwords(vs[1..]));
    if i == 0 {
      DwordRead(b, at, vs[0]);
    } else {
      WordOfTable(b, at + 4, vs[1..], i - 1);
      assert at + 4 + 4 * (i - 1) == at + 4 * i;
    }
  }

  lemma DirectoryIsRead(image: Bytes, at: nat, x: ExportImage)
    requires x.Valid() && Holds(image, at, x.Print())
    ensures at + 40 <= |image| && ReadDword(image, at + 0x10) == x.ordinalBase
    ensures ReadDword(image, at + 0x14) == |x.functions| && ReadDword(image, at + 0x1C) == x.functionsAt
  {
    hide ReadDword, PrintDword, PrintDwords, Holds;
    var third := PrintDword(x.names) + PrintDword(x.functionsAt);
    HoldsFits(image, at, x.Print());
    HoldsParts(image, at, PrintDwords([x.flags, x.stamp, x.version, x.nameAt]),
               x.PrintCounts() + PrintDwords([x.namesAt, x.ordinalsAt]));
    HoldsParts(image, at + 16, x.PrintCounts(), PrintDwords([x.namesAt, x.ordinalsAt]));
    NextDword(image, at + 16, x.ordinalBase, PrintDword(|x.functions|) + third);
    NextDword(image, at + 20, |x.functions|, third);
    NextDword(image, at + 24, x.names, PrintDword(x.functionsAt));
    DwordRead(image, at + 28, x.functionsAt);
  }

  /** Registration goes by the signatures and by the size of the export directory. */
  lemma HeadersAreSurveyed(image: Bytes, dos: DosImage, nt: NtImage)
    requires HoldsModule(image, dos, nt)
    ensures SurveyImage(image) == if dos.magic != 0x5A4D || nt.signature != 0x4550 then BadImage
                                  else if nt.exports.size == 0 then NoExports
                                  else if HasDirectory(image) then HasExports
                                  else Undefined
    ensures HasHeaders(image) && DirectoryAt(image) == nt.exports.address
  {
    hide ReadDword, ReadHalf, ReadExportDirectory;
    DosRead(image, dos);
    NtRead(image, dos.ntAt, nt);
    SignatureRead(image, dos.ntAt, nt);
  }

  /** A printed directory is found and has the printed fields. */
  lemma ModuleIsSurveyed(image: Bytes, dos: DosImage, nt: NtImage, x: ExportImage)
    requires HoldsModule(image, dos, nt) && HoldsExports(image, nt, x)
    ensures HasDirectory(image)
    ensures ReadExportDirectory(image) == ExportDirectory(x.ordinalBase, |x.functions|, x.functionsAt)
  {
    hide ReadDword, PrintDwords, HoldsModule, DirectoryAt;
    HeadersAreSurveyed(image, dos, nt);
    DirectoryIsRead(image, nt.exports.address, x);
    HoldsFits(image, x.functionsAt, PrintDwords(x.functions));
  }

  lemma SignatureRead(image: Bytes, at: nat, nt: NtImage)
    requires nt.Valid() && Holds(image, at, nt.Print())
    ensures at + 4 <= |image| && ReadDword(image, at) == nt.signature
  {
    hide ReadDword;
    NtRead(image, at, nt);
  }

  lemma ExportIsRead(image: Bytes, moduleBase: Dword, dos: DosImage, nt: NtImage, x: ExportImage, i: nat)
    requires HoldsModule(image, dos, nt) && HoldsExports(image, nt, x) && i < |x.functions|
    ensures HasDirectory(image) && ReadExportDirectory(image).count == |x.functions|
    ensures ExportAt(image, moduleBase, i) == ExportOf(moduleBase, x, i)
  {
    hide ReadDword, HasDirectory, ReadExportDirectory, HoldsModule;
    ModuleIsSurveyed(image, dos, nt, x);
    WordOfTable(image, x.functionsAt, x.functions, i);
  }

  /** The registrations of a printed directory are its functions, in order, counted from its base. */
  lemma {:induction false} RegisteredAsPrinted(
      name: Bytes, image: Bytes, moduleBase: Dword, dos: DosImage, nt: NtImage, x: ExportImage, n: nat)
    requires HoldsModule(image, dos, nt) && HoldsExports(image, nt, x) && n <= |x.functions|
    ensures HasDirectory(image) && ReadExportDirectory(image).count == |x.functions|
    ensures Registrations(name, image, moduleBase, n) == AsRegistered(name, moduleBase, x, n)
    decreases n
  {
    hide HasDirectory, ReadExportDirectory, HoldsModule, HoldsExports, ExportAt, ExportOf;
    ModuleIsSurveyed(image, dos, nt, x);
    if n > 0 {
      RegisteredAsPrinted(name, image, moduleBase, dos, nt, x, n - 1);
      ExportIsRead(image, moduleBase, dos, nt, x, n - 1);
      assert AsRegistered(name, moduleBase, x, n)
          == AsRegistered(name, moduleBase, x, n - 1) + [Registration(name, ExportOf(moduleBase, x, n - 1))];
    }
  }

  /** After them a lookup finds the printed functions, and under other ordinals what it found before. */
  lemma FoundAsPrinted(
      c: Contents, name: Bytes, image: Bytes, moduleBase: Dword, dos: DosImage, nt: NtImage, x: ExportImage, i: nat)
    requires HoldsModule(image, dos, nt) && HoldsExports(image, nt, x) && i < 0x1_0000_0000
    ensures HasDirectory(image)
    ensures var ordinal := Wrap(x.ordinalBase + i);
            Lookup(PutAll(c, AsRegistered(name, moduleBase, x, |x.functions|)), name, ordinal)
            == if i < |x.functions| then Some(Export(ordinal, None, None, Wrap(moduleBase + x.functions[i])))
               else Lookup(c, name, ordinal)
  {
    hide HasDirectory, ReadExportDirectory, HoldsModule, HoldsExports, ExportAt, Registrations, PutAll, Lookup;
    hide AsRegistered;
    ModuleIsSurveyed(image, dos, nt, x);
    RegisteredAsPrinted(name, image, moduleBase, dos, nt, x, |x.functions|);
    RegisteredOrdinals(c, name, image, moduleBase, |x.functions|, i);
    if i < |x.functions| {
      ExportIsRead(image, moduleBase, dos, nt, x, i);
    }
  }

  /** In an image that fits the address space, the bootstrap finds the printed functions, counted from 1. */
  lemma ResolvedAsPrinted(
      image: Bytes, moduleBase: Dword, dos: DosImage, nt: NtImage, x: ExportImage, ordinal: Dword)
    requires HoldsModule(image, dos, nt) && HoldsExports(image, nt, x)
    requires moduleBase + |image| <= 0x1_0000_0000 && 1 <= ordinal <= 0x8000_0000
    ensures ResolveExport(image, moduleBase, ordinal)
            == if ordinal <= |x.functions| then Resolved(Wrap(moduleBase + x.functions[ordinal - 1]))
               else NoSuchOrdinal
  {
    hide HasDirectory, ReadExportDirectory, HoldsModule, HoldsExports, ExportAt, ResolveExport;
    ModuleIsSurveyed(image, dos, nt, x);
    ResolvesByIndex(image, moduleBase, ordinal);
    if ordinal <= |x.functions| {
      ExportIsRead(image, moduleBase, dos, nt, x, ordinal - 1);
    }
  }

  // ---------- An exporter, byte by byte ----------

  const SIZE := 0x14C

  /** Two functions at 0x1100 and 0x1200, exported from ordinal 7 on, one of them with a name. */
  function ImageByte(k: nat): Byte {
    match k
    // MZ, e_lfanew 0x80; PE; the export directory at 0x110
    case 0 => 0x4D
    case 1 => 0x5A
    case 0x3C => 0x80
    case 0x80 => 0x50
    case 0x81 => 0x45
    case 0xF8 => 0x10
    case 0xF9 => 0x01
    case 0xFC => 40
    // Base, NumberOfFunctions, NumberOfNames, AddressOfFunctions
    case 0x120 => 7
    case 0x124 => 2
    case 0x128 => 1
    case 0x12C => 0x40
    case 0x12D => 0x01
    // The addresses, and the word after them
    case 0x141 => 0x11
    case 0x145 => 0x12
    case 0x149 => 0x13
    case _ => 0
  }

  function Image(): (b: Bytes)
    ensures |b| == SIZE && forall k :: 0 <= k < |b| ==> b[k] == ImageByte(k)
  {
    seq(SIZE, k requires 0 <= k => ImageByte(k))
  }

  lemma WordIs(at: nat)
    requires at + 4 <= SIZE
    ensures ReadDword(Image(), at)
            == ImageByte(at) + ImageByte(at + 1) * 0x100 + ImageByte(at + 2) * 0x1_0000 + ImageByte(at + 3) * 0x100_0000
  {
  }

  lemma HeaderWords()
    ensures ReadHalf(Image(), 0) == 0x5A4D && ReadDword(Image(), 0x3C) == 0x80 && ReadDword(Image(), 0x80) == 0x4550
    ensures ReadDword(Image(), 0xF8) == 0x110 && ReadDword(Image(), 0xFC) == 40
  {
    hide ReadDword, Image;
    assert Image()[0] == 0x4D && Image()[1] == 0x5A;
    WordIs(0x3C);
    WordIs(0x80);
    WordIs(0xF8);
    WordIs(0xFC);
  }

  lemma DirectoryWords()
    ensures ReadDword(Image(), 0x120) == 7 && ReadDword(Image(), 0x124) == 2 && ReadDword(Image(), 0x12C) == 0x140
    ensures ReadDword(Image(), 0x140) == 0x1100 && ReadDword(Image(), 0x144) == 0x1200
  {
    hide ReadDword, Image;
    WordIs(0x120);
    WordIs(0x124);
    WordIs(0x12C);
    WordIs(0x140);
    WordIs(0x144);
  }

  lemma ExporterIsSurveyed()
    ensures SurveyImage(Image()) == HasExports && ReadExportDirectory(Image()) == ExportDirectory(7, 2, 0x140)
  {
    hide ReadDword, ReadHalf, Image;
    HeaderWords();
    DirectoryWords();
  }

  /** Its registration under a new name makes ordinals 7 and 8 known, and 9 not. */
  lemma ExporterIsRegistered(c: Contents, name: Bytes, moduleBase: Dword)
    requires !HasModule(c, name)
    ensures SurveyImage(Image()).HasExports?
    ensures var all := PutAll(c, Registrations(name, Image(), moduleBase, ReadExportDirectory(Image()).count));
            && Lookup(all, name, 7) == Some(Export(7, None, None, Wrap(moduleBase + 0x1100)))
            && Lookup(all, name, 8) == Some(Export(8, None, None, Wrap(moduleBase + 0x1200)))
            && Lookup(all, name, 9) == None
  {
    hide HasDirectory, ReadExportDirectory, ReadDword, Image, Registrations, PutAll, FindModule;
    ExporterIsSurveyed();
    DirectoryWords();
    RegisteredOrdinals(c, name, Image(), moduleBase, 2, 0);
    RegisteredOrdinals(c, name, Image(), moduleBase, 2, 1);
    RegisteredOrdinals(c, name, Image(), moduleBase, 2, 2);
    FindNoModule(c, name);
  }

  /** The bootstrap knows the same functions as 1 and 2, and no third. */
  lemma ExporterIsResolved(moduleBase: Dword)
    requires moduleBase + SIZE <= 0x1_0000_0000
    ensures ResolveExport(Image(), moduleBase, 1) == Resolved(Wrap(moduleBase + 0x1100))
    ensures ResolveExport(Image(), moduleBase, 2) == Resolved(Wrap(moduleBase + 0x1200))
    ensures ResolveExport(Image(), moduleBase, 3) == NoSuchOrdinal
  {
    hide HasDirectory, ReadExportDirectory, ReadDword, Image, ResolveExport;
    ExporterIsSurveyed();
    DirectoryWords();
    ResolvesByIndex(Image(), moduleBase, 1);
    ResolvesByIndex(Image(), moduleBase, 2);
    ResolvesByIndex(Image(), moduleBase, 3);
  }
}

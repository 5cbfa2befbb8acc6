/** The runtime DLL loader: a context object whose output fields and image buffer are updated in place. */
module DllLoader {
  import opened Words
  import opened Wrappers
  import opened PeFormat
  import ImageMapping
  import Imports
  import LoadSpec
  import opened Pools
  import Relocation

  method StoreDword(a: array<Byte>, at: nat, v: Dword)
    requires at + 4 <= a.Length
    modifies a
    ensures a[..] == WriteDword(old(a[..]), at, v)
  {
    var v1 := v / 0x100;
    var v2 := v1 / 0x100;
    a[at], a[at + 1], a[at + 2], a[at + 3] := v % 0x100, v1 % 0x100, v2 % 0x100, v2 / 0x100;
  }

  method CopyBytes(dest: array<Byte>, at: nat, source: array<Byte>, from: nat, size: nat)
    requires dest != source
    requires at + size <= dest.Length && from + size <= source.Length
    modifies dest
    ensures dest[..] == ImageMapping.Blit(old(dest[..]), at, source[from..from + size])
  {
    for k := 0 to size
      invariant forall j :: 0 <= j < dest.Length ==>
        dest[j] == if at <= j < at + k then source[from + j - at] else old(dest[j])
    {
      dest[at + k] := source[from + k];
    }
  }

  /** The allocator's answers to its `n`-th and the next request, taken as those of a load. */
  ghost function GrantsAt(pool: Pool, n: nat): LoadSpec.Grants {
    var contents := pool.fill;
    LoadSpec.Grants(pool.address(n) != 0, pool.address(n + 1), k => contents(n + 1, k))
  }

  class DllContext {
    const pool: Pool
    const raw: array<Byte>
    const resolver: Imports.Resolver

    var header: NtHeaders
    var sectionHeaders: array?<Byte>
    var image: array?<Byte>
    /** The numeric value of the image pointer. */
    var imageAt: Dword
    var entrypoint: Dword
    var stage: Stage
    var status: Status

    constructor (pool: Pool, raw: array<Byte>, resolver: Imports.Resolver)
      ensures this.pool == pool && this.raw == raw && this.resolver == resolver
      ensures sectionHeaders == null && image == null
    {
      this.pool, this.raw, this.resolver := pool, raw, resolver;
      header := BlankHeaders();
      sectionHeaders, image, imageAt, entrypoint := null, null, 0, 0;
      stage, status := NotParsed, Okay;
    }

    static function BlankHeaders(): NtHeaders {
      NtHeaders(0, 0, 0, 0, 0, 0, 0, 0, 0, Directory(0, 0), Directory(0, 0))
    }

    /** The loaded module that the output fields hold. */
    function View(): LoadSpec.Module
      reads this, image
      requires image != null
    {
      LoadSpec.Module(header, image[..], entrypoint)
    }

    /** The allocator's answers to the two requests that a load starting now would make. */
    ghost function NextGrants(): LoadSpec.Grants
      reads pool
    {
      GrantsAt(pool, pool.requests)
    }

    /** The blocks this context has to free. */
    ghost function Owned(): set<object>
      reads this
    {
      (if sectionHeaders == null then {} else {sectionHeaders}) + (if image == null then {} else {image})
    }

    /** Everything live beyond `others` is owned, and the two blocks are different ones. */
    ghost predicate OwnsRest(others: set<object>)
      reads this, pool
    {
      && pool.live == others + Owned() && Owned() !! others
      && (sectionHeaders != null ==> sectionHeaders != image && sectionHeaders != raw)
      && (image != null ==> image != raw)
    }

    method DLLFreeContext(keepImage: bool)
      requires sectionHeaders != null ==> sectionHeaders in pool.live && sectionHeaders != image
      requires image != null && !keepImage ==> image in pool.live
      modifies this`sectionHeaders, this`image, pool`live
      ensures sectionHeaders == null
      ensures image == if keepImage then old(image) else null
      ensures pool.live == old(pool.live) - (old(Owned()) - Owned())
    {
      if sectionHeaders != null {
        pool.Free(sectionHeaders);
        sectionHeaders := null;
      }
      if !keepImage && image != null {
        pool.Free(image);
        image := null;
      }
    }

    /** The last part of the header parse: a copy of the section table, from `tableAt` on. */
    method CopySectionTable(tableAt: nat, ghost others: set<object>) returns (ok: bool)
      requires sectionHeaders == null && image == null && status == Okay && pool.live == others
      modifies this`sectionHeaders, this`stage, this`status, pool
      ensures OwnsRest(others) && fresh(Owned())
      ensures stage == SectionTable && pool.requests == old(pool.requests) + 1
      ensures var end := tableAt + header.sectionCount * SECTION_HEADER_SIZE;
              if old(pool.address(pool.requests) == 0) then !ok && status == OutOfMemory
              else if end > raw.Length then !ok && status == FileTooSmall
              else ok && status == Okay && sectionHeaders != null && sectionHeaders[..] == raw[tableAt..end]
    {
      stage := SectionTable;
      var tableSize: nat := header.sectionCount * SECTION_HEADER_SIZE;
      sectionHeaders := pool.AllocBytes(tableSize);
      if sectionHeaders == null {
        status := OutOfMemory;
        return false;
      }
      if tableAt + tableSize > raw.Length {
        status := FileTooSmall;
        return false;
      }
      CopyBytes(sectionHeaders, 0, raw, tableAt, tableSize);
      ok := true;
    }

    method DLLParseHeader(ghost others: set<object>) returns (ok: bool)
      requires sectionHeaders == null && image == null && status == Okay && pool.live == others
      modifies this, pool
      ensures image == null && entrypoint == old(entrypoint)
      ensures OwnsRest(others) && fresh(Owned())
      ensures var r := ParseHeader(raw[..], old(pool.address(pool.requests) != 0));
              if ok then
                && r.Parsed? && header == r.nt && status == Okay
                && pool.requests == old(pool.requests) + 1
                && sectionHeaders != null
                && sectionHeaders[..] == raw[r.tableAt..r.tableAt + r.nt.sectionCount * SECTION_HEADER_SIZE]
              else r == Rejected(stage, status)
    {
      hide ReadDword, ReadHalf, ReadNtHeaders, IsDynamicBase;
      var file := raw[..];
      ok := false;
      stage := DosHeader;
      if raw.Length < DOS_HEADER_SIZE {
        status := FileTooSmall;
        return;
      }
      var readPtr := DOS_HEADER_SIZE;
      if ReadHalf(file, 0) != DOS_SIGNATURE {
        status := InvalidSignature;
        return;
      }
      var lfanew := ReadDword(file, 60);
      if lfanew > DOS_HEADER_SIZE {
        readPtr := readPtr + (lfanew - DOS_HEADER_SIZE);
        if readPtr > raw.Length {
          status := FileTooSmall;
          return;
        }
      }

      stage := NtHeader;
      var ntAt := readPtr;
      readPtr := readPtr + NT_HEADERS_SIZE;
      if readPtr > raw.Length {
        status := FileTooSmall;
        return;
      }
      header := ReadNtHeaders(file, ntAt);
      if header.signature != NT_SIGNATURE {
        status := InvalidSignature;
        return;
      }
      if header.machine != MACHINE_I386 {
        status := WrongMachineType;
        return;
      }
      if !IsDynamicBase(header) {
        status := FixedBase;
        return;
      }
      if header.sizeOfOptionalHeader > OPTIONAL_HEADER_SIZE {
        readPtr := readPtr + (header.sizeOfOptionalHeader - OPTIONAL_HEADER_SIZE);
        if readPtr > raw.Length {
          status := FileTooSmall;
          return;
        }
      }

      ok := CopySectionTable(readPtr, others);
    }

    method DLLLoadImage(ghost others: set<object>) returns (ok: bool)
      requires image == null && status == Okay && OwnsRest(others)
      requires pool.address(pool.requests) != 0 && header.sizeOfHeaders <= header.sizeOfImage ==>
                 header.sizeOfHeaders <= raw.Length
      modifies this`image, this`imageAt, this`stage, this`status, pool
      ensures OwnsRest(others) && stage == LoadImage
      ensures image != null ==> fresh(image)
      ensures if old(pool.address(pool.requests)) == 0 then !ok && status == OutOfMemory
              else if header.sizeOfHeaders > header.sizeOfImage then !ok && status == Error
              else
                && ok && status == Okay && image != null && imageAt == old(pool.address(pool.requests))
                && image[..] == ImageMapping.Blit(
                     LoadSpec.FreshImage(header.sizeOfImage, old(NextFill())), 0, raw[..header.sizeOfHeaders])
    {
      stage := LoadImage;
      ghost var fill := NextFill();
      imageAt := pool.address(pool.requests);
      image := pool.AllocBytes(header.sizeOfImage);
      if image == null {
        status := OutOfMemory;
        return false;
      }
      if header.sizeOfHeaders > header.sizeOfImage {
        status := Error;
        return false;
      }
      assert image[..] == LoadSpec.FreshImage(header.sizeOfImage, fill);
      CopyBytes(image, 0, raw, 0, header.sizeOfHeaders);
      assert raw[0..0 + header.sizeOfHeaders] == raw[..header.sizeOfHeaders];
      ok := true;
    }

    /** What the next block from the pool holds at first. */
    ghost function NextFill(): nat -> Byte
      reads pool
    {
      var n, contents := pool.requests, pool.fill;
      k => contents(n, k)
    }

    method ProcessSection(s: Section) returns (ok: bool)
      requires image != null && image != raw && status == Okay
      requires s.rawSize != 0 && s.rawStart + s.rawSize <= raw.Length ==> s.address + s.rawSize <= image.Length
      modifies this`stage, this`status, image
      ensures stage == LoadSection
      ensures if s.rawSize == 0 then ok && status == Okay && image[..] == old(image[..])
              else if s.rawStart + s.rawSize > raw.Length then !ok && status == FileTooSmall
              else
                && ok && status == Okay
                && image[..] == ImageMapping.Blit(old(image[..]), s.address, raw[s.rawStart..s.rawStart + s.rawSize])
    {
      stage := LoadSection;
      if s.rawSize == 0 {
        return true;
      }
      var readPtr: nat := s.rawStart;
      if readPtr > raw.Length {
        status := FileTooSmall;
        return false;
      }
      var sectionStart := readPtr;
      readPtr := readPtr + s.rawSize;
      if readPtr > raw.Length {
        status := FileTooSmall;
        return false;
      }
      CopyBytes(image, s.address, raw, sectionStart, s.rawSize);
      ok := true;
    }

    /** The section headers that the loader copied out of the file. */
    function Sections(): seq<Section>
      reads this, sectionHeaders
      requires sectionHeaders != null && sectionHeaders.Length == header.sectionCount * SECTION_HEADER_SIZE
    {
      ReadSections(sectionHeaders[..], 0, header.sectionCount)
    }

    method DLLProcessSections() returns (ok: bool)
      requires image != null && sectionHeaders != null && status == Okay
      requires image != raw && image != sectionHeaders
      requires sectionHeaders.Length == header.sectionCount * SECTION_HEADER_SIZE
      requires !ImageMapping.MapSections(raw[..], Sections(), image[..]).Undefined?
      modifies this`stage, this`status, image
      ensures var r := ImageMapping.MapSections(raw[..], old(Sections()), old(image[..]));
              if ok then r == ImageMapping.Mapped(image[..]) && status == Okay
              else r.Truncated? && stage == LoadSection && status == FileTooSmall
    {
      hide ReadSection, ImageMapping.Blit;
      ghost var file, all, before := raw[..], Sections(), image[..];
      var i: nat := 0;
      while i < header.sectionCount
        invariant i <= header.sectionCount == |all| && status == Okay
        invariant raw[..] == file && Sections() == all
        invariant ImageMapping.MapSections(file, all, before) == ImageMapping.MapSections(file, all[i..], image[..])
      {
        var s := ReadSection(sectionHeaders[..], i * SECTION_HEADER_SIZE);
        assert s == all[i] && all[i..][0] == s && all[i..][1..] == all[i + 1..];
        ok := ProcessSection(s);
        if !ok {
          return;
        }
        i := i + 1;
      }
      ok := true;
    }

    /** Binds the thunks from `thunk` on into the slots from `slot` on, for the library named at `nameAt`. */
    method BindThunks(nameAt: nat, thunk: nat, slot: nat) returns (ok: bool)
      requires image != null && status == Okay
      requires !Imports.WalkThunks(image[..], nameAt, thunk, slot, resolver).Undefined?
      modifies this`status, image
      ensures var r := Imports.WalkThunks(old(image[..]), nameAt, thunk, slot, resolver);
              if ok then r == Imports.Bound(image[..]) && status == Okay
              else r == Imports.Unresolved(image[..]) && status == Status.UnresolvedImport
    {
      hide ReadDword, WriteDword, Imports.ReadSource;
      ghost var before := image[..];
      var t, f := thunk, slot;
      while ReadDword(image[..], t) != 0
        invariant status == Okay && t + 4 <= image.Length
        invariant !Imports.WalkThunks(image[..], nameAt, t, f, resolver).Undefined?
        invariant Imports.WalkThunks(before, nameAt, thunk, slot, resolver)
                  == Imports.WalkThunks(image[..], nameAt, t, f, resolver)
        decreases image.Length - t
      {
        var address := resolver(Imports.ReadSource(image[..], nameAt, ReadDword(image[..], t)).value);
        if address == None {
          status := Status.UnresolvedImport;
          return false;
        }
        StoreDword(image, f, address.value);
        t, f := t + 4, f + 4;
      }
      ok := true;
    }

    method DLLResolveImports() returns (ok: bool)
      requires image != null && status == Okay
      requires !LoadSpec.BindImports(header, image[..], resolver).Undefined?
      modifies this`stage, this`status, image
      ensures stage == ResolveImports
      ensures var r := LoadSpec.BindImports(header, old(image[..]), resolver);
              && !r.Undefined? && r.image == image[..]
              && (ok <==> r.Bound?)
              && status == (if r.Bound? then Okay
                            else if r.Forwarded? then ForwardingNotSupported
                            else UnresolvedImport)
    {
      hide ReadDword, Imports.WalkThunks;
      stage := ResolveImports;
      if header.imports.size == 0 {
        return true;
      }
      ghost var before := image[..];
      var descriptor: nat := header.imports.address;
      while ReadDword(image[..], descriptor + 12) != 0
        invariant stage == ResolveImports && status == Okay && descriptor + 16 <= image.Length
        invariant !Imports.WalkDescriptors(image[..], descriptor, resolver).Undefined?
        invariant Imports.WalkDescriptors(before, header.imports.address, resolver)
               == Imports.WalkDescriptors(image[..], descriptor, resolver)
        decreases image.Length - descriptor
      {
        var nameAt := ReadDword(image[..], descriptor + 12);
        if ReadDword(image[..], descriptor + 8) != 0 {
          status := ForwardingNotSupported;
          return false;
        }
        var slots := ReadDword(image[..], descriptor + 16);
        var thunk := if ReadDword(image[..], descriptor) != 0 then ReadDword(image[..], descriptor) else slots;
        ok := BindThunks(nameAt, thunk, slots);
        if !ok {
          return;
        }
        descriptor := descriptor + Imports.DESCRIPTOR_SIZE;
      }
      ok := true;
    }

    /** Applies the entries between `entry` and `end` to the page at `page`. */
    method RelocateEntries(page: Dword, start: nat, end: nat, delta: int) returns (ok: bool)
      requires image != null
      requires !Relocation.WalkEntries(image[..], page, start, end, delta).Undefined?
      modifies this`status, image
      ensures var r := Relocation.WalkEntries(old(image[..]), page, start, end, delta);
              if ok then r == Relocation.Done(image[..]) && status == old(status)
              else r == Relocation.Unsupported(image[..]) && status == UnsupportedRelocationType
    {
      hide ReadHalf, ReadDword, WriteDword;
      ghost var before := image[..];
      var entry := start;
      while entry < end
        invariant status == old(status)
        invariant !Relocation.WalkEntries(image[..], page, entry, end, delta).Undefined?
        invariant Relocation.WalkEntries(before, page, start, end, delta)
               == Relocation.WalkEntries(image[..], page, entry, end, delta)
        decreases end - entry
      {
        var e := ReadHalf(image[..], entry);
        var kind, offset := Relocation.EntryKind(e), Relocation.EntryOffset(e);
        entry := entry + 2;
        if kind == Relocation.ABSOLUTE {
          continue;
        }
        if kind != Relocation.HIGHLOW {
          status := UnsupportedRelocationType;
          return false;
        }
        StoreDword(image, page + offset, Wrap(ReadDword(image[..], page + offset) + delta));
      }
      ok := true;
    }

    method DLLRelocate(base: Dword) returns (ok: bool)
      requires image != null
      requires !LoadSpec.Rebase(View(), base).RebaseUndefined?
      modifies this`header, this`entrypoint, this`stage, this`status, image
      ensures stage == Stage.Relocate
      ensures var r := LoadSpec.Rebase(old(View()), base);
              if ok then r == LoadSpec.Rebased(View()) && status == old(status)
              else r == LoadSpec.Unrebased(status, View())
    {
      hide ReadDword, Relocation.WalkEntries;
      stage := Stage.Relocate;
      if base == header.imageBase {
        return true;
      }
      var delta := Relocation.ImageDelta(base, header.imageBase);
      if header.relocations.size == 0 {
        status := NoRelocationData;
        return false;
      }
      ghost var before := image[..];
      var relocationStart: nat := header.relocations.address;
      while ReadDword(image[..], relocationStart) > 0
        invariant stage == Stage.Relocate && status == old(status) && relocationStart + 4 <= image.Length
        invariant header == old(header) && entrypoint == old(entrypoint)
        invariant !Relocation.WalkBlocks(image[..], relocationStart, Relocation.CURSOR_START, delta).Undefined?
        invariant Relocation.WalkBlocks(before, header.relocations.address, Relocation.CURSOR_START, delta)
               == Relocation.WalkBlocks(image[..], relocationStart, Relocation.CURSOR_START, delta)
        decreases image.Length - relocationStart
      {
        var page := ReadDword(image[..], relocationStart);
        var relocationEnd := relocationStart + ReadDword(image[..], relocationStart + 4);
        ok := RelocateEntries(page, relocationStart + Relocation.CURSOR_START, relocationEnd, delta);
        if !ok {
          return;
        }
        relocationStart := relocationEnd;
      }
      header := header.(imageBase := base);
      entrypoint := Wrap(header.imageBase + header.entryPoint);
      ok := true;
    }

    /** The stages of a parse after the headers. */
    method MapAndBindSections(ghost others: set<object>) returns (ok: bool)
      requires sectionHeaders != null && image == null && entrypoint == 0 && status == Okay && OwnsRest(others)
      requires sectionHeaders.Length == header.sectionCount * SECTION_HEADER_SIZE
      requires !LoadSpec.MapAndBind(raw[..], header, Sections(), resolver, ImageGrants()).LoadUndefined?
      modifies this`image, this`imageAt, this`stage, this`status, pool
      ensures OwnsRest(others) && (image != null ==> fresh(image))
      ensures var r := LoadSpec.MapAndBind(raw[..], header, old(Sections()), resolver, old(ImageGrants()));
              if ok then
                && image != null && r == LoadSpec.Loaded(View())
                && imageAt == old(ImageGrants()).image && status == Okay
              else r == LoadSpec.Failed(stage, status)
    {
      hide ImageMapping.MapSections, ReadSections, Imports.WalkDescriptors, ImageMapping.Blit;
      ok := DLLLoadImage(others);
      if !ok {
        return;
      }
      ok := DLLProcessSections();
      if !ok {
        return;
      }
      ok := DLLResolveImports();
    }

    /** The allocator's answer to the image request, the section table having been allocated. */
    ghost function ImageGrants(): LoadSpec.Grants
      reads pool
    {
      LoadSpec.Grants(true, pool.address(pool.requests), NextFill())
    }

    lemma AfterHeaders(file: Bytes, g: LoadSpec.Grants)
      requires var r := ParseHeader(file, g.table);
               && r.Parsed? && header == r.nt && sectionHeaders != null
               && sectionHeaders[..] == file[r.tableAt..r.tableAt + r.nt.sectionCount * SECTION_HEADER_SIZE]
      requires g.image == ImageGrants().image && forall k: nat :: g.fill(k) == ImageGrants().fill(k)
      ensures sectionHeaders.Length == header.sectionCount * SECTION_HEADER_SIZE
      ensures LoadSpec.MapAndBind(file, header, Sections(), resolver, ImageGrants())
              == LoadSpec.Parse(file, resolver, g)
    {
      hide ParseHeader, ReadSections, LoadSpec.MapAndBind;
      CopyListsSections(file, ParseHeader(file, g.table).tableAt, header.sectionCount, sectionHeaders[..]);
      LoadSpec.SameGrants(file, header, Sections(), resolver, ImageGrants(), g);
    }

    /** Maps the file and binds its imports; every failure frees whatever had been allocated. */
    method DLLParse(ghost others: set<object>) returns (ok: bool)
      requires pool.live == others
      requires !LoadSpec.Parse(raw[..], resolver, NextGrants()).LoadUndefined?
      modifies this, pool
      ensures OwnsRest(others) && fresh(Owned())
      ensures var r := LoadSpec.Parse(old(raw[..]), resolver, old(NextGrants()));
              if ok then
                && image != null && sectionHeaders != null
                && r == LoadSpec.Loaded(View()) && imageAt == old(NextGrants()).image && status == Okay
              else image == null && sectionHeaders == null && r == LoadSpec.Failed(stage, status)
    {
      hide ParseHeader, ReadSections, LoadSpec.MapAndBind, Sections, ReadNtHeaders, ReadSection, ReadDword, ReadHalf;
      ghost var file, grants := raw[..], NextGrants();
      stage := NotParsed;
      header := BlankHeaders();
      sectionHeaders, image, imageAt, entrypoint := null, null, 0, 0;
      stage, status := NotParsed, Okay;

      ok := DLLParseHeader(others);
      if ok {
        AfterHeaders(file, grants);
        ok := MapAndBindSections(others);
      }
      if !ok {
        DLLFreeContext(false);
      }
    }

    /** Loads the file into a new block and rebases it to that block's address. */
    method DLLLoad(ghost others: set<object>) returns (ok: bool)
      requires pool.live == others
      requires !LoadSpec.Load(raw[..], resolver, NextGrants()).LoadUndefined?
      modifies this, pool
      ensures OwnsRest(others) && fresh(Owned())
      ensures var r := LoadSpec.Load(old(raw[..]), resolver, old(NextGrants()));
              if ok then
                && image != null && sectionHeaders != null
                && r == LoadSpec.Loaded(View()) && imageAt == old(NextGrants()).image
              else image == null && sectionHeaders == null && r == LoadSpec.Failed(stage, status)
    {
      hide LoadSpec.Parse, LoadSpec.Rebase;
      ok := DLLParse(others);
      if !ok {
        return;
      }
      ok := DLLRelocate(imageAt);
      if !ok {
        DLLFreeContext(false);
      }
    }
  }
}

# A verified model of the dynamic DXT loader

The loader runs on the original Xbox inside XBDM, the debug monitor. It receives a PE32 DLL in chunks, parses it, maps
its sections, binds its imports through a registry of exports, rebases it to wherever the debug heap put it, and calls
its entrypoint. This project models that pipeline and proves what each stage and the whole of it do, for every input.

| module | part of the program |
|---|---|
| `Words`, `Wrappers`, `Pools` | little-endian words, arithmetic modulo 2^32, the debug heap as an allocator that may refuse any request |
| `PeFormat`, `ImageMapping`, `Imports`, `Relocation`, `LoadSpec` | the loader's stages as functions of the file, the resolver and the allocator's answers, and the theorems about them |
| `Printing`, `PrintedHeaders`, `PrintedImports`, `PrintedRelocations`, `PrintedExports` | the file format from the linker's side: headers and tables printed field by field, and what the loader and the registration make of them |
| `PrintedFile` | the whole load of a file that is described by what was printed |
| `Overlaps` | what overlapping and repeated relocation sites do: the exact condition of the rebasing law |
| `SectionedFile` | a file with two sections, imports by name and by ordinal, and a relocation, and its load byte by byte |
| `SampleFile`, `FailingInputs` | a small well-formed file on which the hypotheses of the theorems hold, and files and a command on which their conditions fail |
| `DllLoader` | the loader itself: `DllContext`, whose fields and image buffer are updated in place |
| `CommandGrammar`, `CommandParser` | the command parameter grammar, its printer, and the parser over growing arrays of heap strings |
| `RegistryModel`, `ModuleRegistry`, `MethodListing` | the registry as an ordered map, the list of lists of linked nodes that implements it, and its listing |
| `ImageReceive` | the `load` command and the chunked transfer of an image |
| `ExportLinker`, `LinkedImports` | registration of a loaded module's exports, the bootstrap's own resolver, and the registry as the loader's resolver |
| `Pipeline` | linking, receiving and loading composed |
| `HexText`, `HexMachine` | the bootstrap's hexadecimal printer and parser, and the parser as a machine of jumps and registers |

How to read it:

* Code that updates state is a class with methods that modify it, and each method is proved to compute a
  specification function of the old state. The loader's loops read tables from the image that they are patching, so
  their specification functions (`WalkBlocks`, `WalkDescriptors`) read the evolving image too. The lemmas relate
  these to tables decoded once, from the unpatched image.
* The functions that read a header or a table (`ReadNtHeaders`, `ReadSection`, `ReadSource`, `ReadExportDirectory`) are
  not their own specification: the `Printed` modules print each structure as a concatenation of its fields, in the
  order of the format, and prove that the readers return what was printed. `SectionedFile` and `PrintedExports` end
  with literal files.
* An outcome `Undefined` or `Overrun` marks an input on which the C code reads or writes outside a buffer or runs
  forever; the methods require that it does not occur. Every rejection that the code makes is an outcome of its own.
* A pool answers its n-th request by an arbitrary but fixed function and fills blocks with arbitrary bytes, so a
  theorem over all pools covers every schedule of allocation failures and every first content of a block.
  `Pool.live` is the set of allocated blocks; `Free` requires a live block, so nothing is ever freed twice.
* `Wrap` reduces modulo 2^32; signed 32-bit values go through `Relocation.ToInt32`.

Where the code does something other than expected, the model follows the code; the member in parentheses says how:

* `DLLRelocate` returns before setting the entrypoint when the base does not change (`EntrypointNeedsRebase`; for the
  sample file, `PreferredBaseHasNoEntrypoint`).
* A file without relocation data loads at its preferred base only (`NeedsRelocationData`; such a file,
  `UnrelocatableStays`).
* The relocation entry cursor starts at the size of a pointer, not of a block header (`CursorListsSame`); a file
  with a block of 0x1000 bytes of padding does not load for that reason (`LargeBlockIsRejected`).
* Relocation sites that overlap break rebasing: for a table that lists no site more than 63 times, rebasing is
  independent of the path if and only if different sites do not overlap (`PathIndependentExactly`; a file on which it
  fails, `OverlapBreaksRebasing`). Some bound is needed: a site listed 256 times may overlap another harmlessly
  (`OftenRepeatedComposes`).
* A command that ends in an open quote, each of whose quotes and whose end are escaped, is scanned past its end, and no
  other is (`CommandOverrunExactly`; the shortest kind, `BackslashOverruns`).
* An import by name is answered by the first registered of the ordinals that have been left with the name, whichever
  was registered last (`NameAfterRun`, `FirstOfANameAnswers`); a name whose ordinal has been registered again under
  another name is lost (`RenamedIsNotFound`).
* `GetExportAddress` agrees with the registry exactly for the ordinals from 1 to 2^31 (`ResolversAgree`): ordinal zero
  reads the word before the address table (`OrdinalZeroReadsBefore`), and ordinal 0xC0000001 gives the first export
  (`HighOrdinalWrapsAround`).
* `integer_to_hex` of zero writes `0`, a terminator and `x`, which does not parse (`HexText.RoundTrip`).
* `parse_integer` hangs on a numeral followed by a character above `f` (`HangsExactly`; for instance on `0xg`,
  `HangsOnLetter`).
* A `load` of size zero is accepted and never completes, so its block stays allocated (`ReceiveNothing`).
* `SetExportEntry` does not notice a failed allocation (`Registry.NodeIsGranted` and
  `ExportLinker.NodesAreGranted` are what registration requires: no more than the requests it comes to make), and
  an enumeration must not be started on an empty registry (`Registry.MREnumerateRegistryBegin`).

## Model

| member | source | states |
|---|---|---|
| PeFormat.AcceptsExactlyHeaders | dll_loader/dll_loader.c:146-206 | with memory for the section table, the header checks succeed with given headers exactly when the file has DOS and NT signatures, an i386 dynamic-base header where e_lfanew points, and a complete section table after the optional header |
| PeFormat.CopyListsSections | dll_loader/dll_loader.c:200-203 | the copied section table lists the sections of the file |
| PrintedHeaders.HeadersOutcome | dll_loader/dll_loader.c:146-206 | for headers printed field by field, with any values: the first of seven checks that applies decides the stage and the status, and accepted headers have the printed values |
| PrintedHeaders.TruncatedHeaders | dll_loader/dll_loader.c:146-167 | a file that ends inside its headers is too small, at the DOS or at the NT header, unless its magic number is wrong |
| PrintedHeaders.SectionsRead | dll_loader/dll_loader.c:200-203 | a table of printed 40-byte section headers lists the printed addresses, sizes and file positions |
| PrintedHeaders.AcceptedIsPrinted | dll_loader/dll_loader.c:146-206 | every file whose headers are accepted starts with printed headers and a printed section table, so the description excludes none |
| ImageMapping.MapsWhatFits | dll_loader/dll_loader.c:228-260 | sections whose data lies in the file and whose destination lies in the image are all mapped |
| ImageMapping.CoveredByte | dll_loader/dll_loader.c:242-247 | a byte of the image that a section covers is that section's raw byte, if no two sections overlap |
| ImageMapping.UncoveredByte | dll_loader/dll_loader.c:233-247 | a byte that no section covers keeps its value |
| ImageMapping.OrderIsIrrelevant | dll_loader/dll_loader.c:252-260 | non-overlapping sections give the same image in any order |
| PrintedFile.Maps | dll_loader/dll_loader.c:208-260 | a file with printed headers and sections maps to the image that has each section's bytes at its printed address, the headers below, and what the block held at first elsewhere |
| Imports.ThunksRefine | dll_loader/dll_loader.c:285-318 | the thunk loop, with a separate lookup table or with one aliased onto the slots it overwrites, resolves exactly the entries that the unbound table lists, up to its original zero entry, and stops at the first that is unknown |
| Imports.DescriptorsRefine | dll_loader/dll_loader.c:262-322 | the descriptor loop binds exactly the decoded imports in order, and fails at the first unresolved import or forwarded descriptor |
| Imports.BindsEverySlot | dll_loader/dll_loader.c:295-318 | after a successful binding each slot holds the resolver's answer for its original entry |
| Imports.BindsIffResolved | dll_loader/dll_loader.c:298-317 | binding succeeds if and only if the resolver knows every import |
| Imports.BindApart | dll_loader/dll_loader.c:295-318 | binding changes nothing outside the slots, in particular no separate lookup table |
| Imports.ModesBindSame | dll_loader/dll_loader.c:288-293 | walking the slots instead of a separate table with the same entries gives the same image and outcome |
| PrintedImports.LibrariesRead | dll_loader/dll_loader.c:262-318 | printed descriptors, names, hints and lookup tables decode to the printed imports by ordinal and by name, the i-th of a library with its i-th slot, whether or not the library has a lookup table of its own |
| PrintedImports.SingleImport | dll_loader/dll_loader.c:295-318 | one printed entry makes the loader ask for that ordinal or name of that library, and write the answer to the slot |
| PrintedImports.ForwarderIsRefused | dll_loader/dll_loader.c:279-282 | a descriptor printed with a forwarder chain is refused |
| Relocation.EntriesRefine | dll_loader/dll_loader.c:355-378 | the entry loop patches exactly the HIGHLOW sites of the block as first decoded, skips padding and stops at an unsupported type |
| Relocation.TableRefines | dll_loader/dll_loader.c:349-382 | the nested loops over the image they patch equal one patch of the sites decoded from the unpatched table |
| PrintedRelocations.SingleFixup | dll_loader/dll_loader.c:358-378 | an entry printed from a kind and a 12-bit offset is skipped for kind 0, adds to the dword at page plus offset for kind 3, and is unsupported otherwise |
| PrintedRelocations.PagesRead | dll_loader/dll_loader.c:349-382 | a printed table of blocks below 0x1000 bytes decodes to the printed sites, in order, and ends where it was printed to end |
| Relocation.AddAllShifts | dll_loader/dll_loader.c:368-371 | each of several non-overlapping sites ends up shifted by the delta exactly once, modulo 2^32 |
| Relocation.AddAllApart | dll_loader/dll_loader.c:368-371 | a patch leaves every byte that no site covers |
| Relocation.AddAllTwice | dll_loader/dll_loader.c:324-391 | two shifts of the same separate sites are one shift by the sum |
| FailingInputs.OverlapBreaksRebasing | dll_loader/dll_loader.c:352-382 | a file whose table lists two overlapping sites parses, and two rebases of the parsed module do not give the image of one |
| FailingInputs.OverlapParses | dll_loader/dll_loader.c:79-105 | wherever its one import resolves, that file parses to its own bytes with the slot bound |
| Overlaps.ShiftsComposeExactly | dll_loader/dll_loader.c:368-371 | for sites listed at most 63 times each, shifting twice is shifting once by the sum, on every image, if and only if different sites do not overlap |
| Overlaps.OverlapBreaksShifts | dll_loader/dll_loader.c:368-371 | for every such list with an overlap, two shifts and an image, differing from any given one in the sites only, on which the law fails |
| Overlaps.OftenRepeatedComposes | dll_loader/dll_loader.c:368-371 | a list with an overlap on which the law holds, because one of the two sites is listed 256 times |
| Relocation.DeltaIsDifference | dll_loader/dll_loader.c:332-337 | both signed branches compute the difference of the bases modulo 2^32, also when the negation overflows |
| Relocation.CursorListsSame | dll_loader/dll_loader.c:353-361 | starting the entry cursor at 4 instead of 8 lists the same sites if and only if both halves of every SizeOfBlock read as padding |
| FailingInputs.LargeBlockIsRejected | dll_loader/dll_loader.c:353-377 | a file that parses, whose table the walk from 8-byte headers accepts, and whose load away from its preferred base fails because SizeOfBlock is read as an entry |
| Relocation.PagePacking | dll_loader/dll_loader.c:358-371 | at most 1024 non-overlapping dwords start in one page |
| Relocation.TablePacking | dll_loader/dll_loader.c:353-378 | non-overlapping sites and at most 1019 padding entries a block keep every SizeOfBlock below 0x1000 |
| Relocation.CursorIsHarmless | dll_loader/dll_loader.c:353-382 | on such a table the loader's walk is the walk that the PE format describes, from 8-byte block headers |
| LoadSpec.RebaseMoves | dll_loader/dll_loader.c:324-391 | rebasing a module with a supported table, off whose bytes its sites lie, always succeeds, adds the distance at the sites in order, sets ImageBase, and sets the entrypoint unless the base is unchanged |
| LoadSpec.RebaseKeepsTable | dll_loader/dll_loader.c:349-382 | a rebased module has the same table and can be rebased again |
| LoadSpec.RebasingIsPathIndependent | dll_loader/dll_loader.c:324-391 | if the sites are equal or apart, any sequence of rebases leaves the image, ImageBase and entrypoint of one rebase to the last address |
| Overlaps.PathIndependentExactly | dll_loader/dll_loader.c:324-391 | a module whose table lists no site more than 63 times can be rebased by any path, whatever its image holds outside the table, if and only if different sites do not overlap |
| Overlaps.SeparateIsIndependent | dll_loader/dll_loader.c:324-391 | the sufficient half holds for every table, however often it lists a site |
| LoadSpec.RebasingBackRestores | dll_loader/dll_loader.c:324-391 | returning to the original base by any route restores the image bit for bit |
| LoadSpec.MappedBytes | dll_loader/dll_loader.c:208-260 | the mapped image holds section bytes, else header bytes, else what the block held at first |
| LoadSpec.BindingFollowsPlan | dll_loader/dll_loader.c:262-322 | the import stage of a file with free slots performs the decoded plan, and succeeds exactly when every import resolves, with or without relocation data |
| LoadSpec.ParseFollowsPlan | dll_loader/dll_loader.c:79-105 | DLLParse of a file with disjoint sections and free slots gives the mapped and bound image, or an unresolved import, with or without relocation data |
| LoadSpec.BoundAndMoved | dll_loader/dll_loader.c:262-391 | in the bound image, rebased if it must be, every slot holds its address, every site is shifted, and every other byte is the file's |
| LoadSpec.LoadsExactly | dll_loader/dll_loader.c:67-78 | a file with disjoint sections, free slots and, unless it lands on its preferred base, a relocation table clear of both, loads if and only if all its imports resolve; each byte of the result, the headers and the entrypoint are determined |
| PrintedFile.LoadsAsPrinted | dll_loader/dll_loader.c:67-391 | a file described by what was printed loads if and only if its printed imports are all known; each slot, each site, every other byte, the headers and the entrypoint follow from the description |
| SectionedFile.LoadsByteByByte | dll_loader/dll_loader.c:67-391 | a literal file with two sections, a name import, an ordinal import, a separate lookup table and a relocation at offset 0x818 of its page: what a load leaves at each literal address |
| PrintedFile.ImageIsRefused | dll_loader/dll_loader.c:208-222 | the status when the image cannot be allocated, or is smaller than its headers |
| PrintedFile.SectionIsTruncated | dll_loader/dll_loader.c:228-243 | a file that ends inside the data of a section is too small |
| PrintedFile.ForwarderFails | dll_loader/dll_loader.c:279-282 | a file whose first library has a forwarder chain does not load |
| SampleFile.SampleIsWellFormed | dll_loader/dll_loader.c:146-391 | a concrete file with one import and one relocation decodes to a plan that is well-formed at every base, whatever the image block holds at first, so the theorems above are not vacuous |
| LoadSpec.EntrypointNeedsRebase | dll_loader/dll_loader.c:327-330 | after any successful load the entrypoint is base + AddressOfEntryPoint exactly when the base changed (or that sum is zero) |
| FailingInputs.PreferredBaseHasNoEntrypoint | dll_loader/dll_loader.c:327-330 | that file, loaded at its preferred base, has entrypoint zero although its header names another |
| LoadSpec.NeedsRelocationData | dll_loader/dll_loader.c:339-347 | a file without relocation data loads only at its preferred base |
| FailingInputs.UnrelocatableStays | dll_loader/dll_loader.c:339-347 | the sample file without its relocation directory loads at its preferred base, and fails for lack of relocation data at any other |
| DllLoader.DllContext.DLLFreeContext | dll_loader/dll_loader.c:132-144 | frees exactly the owned blocks that are still there, keeping the image on request; a second call frees nothing |
| DllLoader.DllContext.DLLParseHeader | dll_loader/dll_loader.c:146-206 | reads exactly the specified headers and section table, or fails with the specified stage and status, and owns what it allocated |
| DllLoader.DllContext.DLLLoadImage | dll_loader/dll_loader.c:208-226 | the image is the new block with the header bytes copied over it, or no memory, or headers larger than the image |
| DllLoader.DllContext.ProcessSection | dll_loader/dll_loader.c:228-250 | copies one section's raw data to its address, or reports a truncated file |
| DllLoader.DllContext.DLLProcessSections | dll_loader/dll_loader.c:252-260 | maps every section of the table |
| DllLoader.DllContext.BindThunks | dll_loader/dll_loader.c:295-318 | the in-place thunk loop computes the specified walk |
| DllLoader.DllContext.DLLResolveImports | dll_loader/dll_loader.c:262-322 | the in-place descriptor loop computes the specified walk and its status |
| DllLoader.DllContext.RelocateEntries | dll_loader/dll_loader.c:355-378 | the in-place entry loop computes the specified walk of one block |
| DllLoader.DllContext.DLLRelocate | dll_loader/dll_loader.c:324-391 | rebases the context in place as specified, on failure too |
| DllLoader.DllContext.DLLParse | dll_loader/dll_loader.c:79-105 | gives the specified parsed module, or frees everything that any failing stage had allocated |
| DllLoader.DllContext.DLLLoad | dll_loader/dll_loader.c:67-78 | gives the specified loaded module and owns just the section table and the image, or leaves both pointers null and the heap as it was, with the specified stage and status |
| CommandGrammar.ScannedUnescapes | src/command_processor_util.c:102-110 | every quoted value that the scanner accepts can be unescaped, and the result fits the block sized for its text |
| CommandGrammar.NoUnterminatedEscape | src/command_processor_util.c:104-108 | the unterminated-escape error is never reported |
| CommandGrammar.QuoteEnds | src/command_processor_util.c:315-326 | a quoted value ends at the first quote with an even number of backslashes before it, or at the end of the text |
| CommandGrammar.OverrunExactly | src/command_processor_util.c:317-324 | the scanner steps past the terminator if and only if every quote is escaped and an odd number of backslashes ends the text |
| CommandGrammar.OverrunEndsInBackslash | src/command_processor_util.c:313-326 | only a command that ends in a backslash can be scanned past its end |
| CommandGrammar.CommandOverrunExactly | src/command_processor_util.c:142-179 | a command is scanned past its end if and only if, after entries in any spelling, it ends in a key with an open quote in which every quote and the terminator are escaped |
| CommandGrammar.RejectedExactly | src/command_processor_util.c:142-179 | a command is rejected with -10 if and only if, after entries in any spelling, something starts with an equals sign, with -11 if and only if a key with an unclosed quote follows, and with no other code |
| FailingInputs.BackslashOverruns | src/command_processor_util.c:317-324 | a key with an open quote around one backslash is such a command |
| CommandGrammar.EntryRoundTrip | src/command_processor_util.c:143-178 | an entry in any spelling (bare, dangling, plain, quoted with any characters escaped) parses back to itself, whatever follows |
| CommandGrammar.RoundTrip | src/command_processor_util.c:118-182 | any list of entries, in any spelling and spacing, is a C string that parses to exactly that list |
| CommandGrammar.AcceptsExactlyRendered | src/command_processor_util.c:118-182 | a command is accepted if and only if it is a list of entries in some spelling and spacing |
| CommandGrammar.PrintingIsCanonical | src/command_processor_util.c:118-182 | printing the entries of an accepted command in one canonical form gives a command with the same entries |
| CommandGrammar.ParsedIsValid | src/command_processor_util.c:143-168 | parsed keys are non-empty, without space, equals sign or NUL, and values are non-empty |
| CommandParser.FirstNonSpace | src/command_processor_util.c:299-304 | stops at the first character that is no space |
| CommandParser.KeyEnd | src/command_processor_util.c:306-311 | stops where the grammar's key ends |
| CommandParser.ValueEnd | src/command_processor_util.c:313-331 | stops where the grammar's value ends and tells whether it contains a backslash |
| CommandParser.UnescapeText | src/command_processor_util.c:102-111 | writes the unescaped text and its terminator into a block of the escaped size, or fails on an escape at the end |
| CommandParser.ScanEntry | src/command_processor_util.c:143-168 | finds the key, the value between its quotes and the end of the entry as the grammar says, or its error |
| CommandParser.CommandParameters.CPDelete | src/command_processor_util.c:17-37 | frees every block of the list exactly once and empties it, also when growth failed between the two arrays |
| CommandParser.CommandParameters.Reserve | src/command_processor_util.c:39-68 | moves both arrays to larger ones with the entries unchanged and the new slots null, or fails leaving a list that can still be deleted |
| CommandParser.CommandParameters.Append | src/command_processor_util.c:70-116 | appends exactly one entry, doubling the arrays when full; growth copies fewer than twice as many slots as there are entries |
| CommandParser.CapacityDoubles | src/command_processor_util.c:74-80 | the number of slots that the requests are counted from is four, doubled until the entries fit |
| CommandParser.CommandParameters.ParseNext | src/command_processor_util.c:142-179 | one round of the parser appends the grammar's next entry and moves to the one after it |
| CommandParser.CommandParameters.ParseText | src/command_processor_util.c:130-181 | the list holds exactly the grammar's entries, or every block of it is freed and it is empty; the number of requests is that of the entries |
| CommandParser.CPParseCommandParameters | src/command_processor_util.c:118-182 | the text determines how many requests a full parse makes; it runs out of memory if and only if one of that many is refused, and else makes exactly that many and returns the grammar's entry count or its error code; a negative result leaves nothing allocated |
| CommandParser.CPHasKey | src/command_processor_util.c:213-223 | tells whether some entry has the key |
| CommandParser.CPGetString | src/command_processor_util.c:225-243 | gives the value of the first entry with the key, if it has one |
| CommandGrammar.MatchIsFirst | src/command_processor_util.c:236-241 | of several entries with the key the first in the list is found |
| CommandParser.CPGetUInt32 | src/command_processor_util.c:245-268 | gives that value as a number exactly when the whole of it is one; otherwise, also for a null key or list, stores zero, or what strtoul returns for a text without a number |
| RegistryModel.PutShape | src/module_registry.c:34-45 | a registration moves no module and changes no other; a new module goes last |
| RegistryModel.PutExportShape | src/module_registry.c:193-218 | a known ordinal is replaced in place, a new one goes last, and no other export changes |
| RegistryModel.PutKeepsWellFormed | src/module_registry.c:34-45 | a registration keeps module names unique, ordinals unique in each module, and every module non-empty |
| RegistryModel.RunsAreWellFormed | src/module_registry.c:34-45 | so does every run of registrations |
| RegistryModel.LookupAfterPut | src/module_registry.c:47-69 | a registration sets what is found for its own module and ordinal and for no other |
| RegistryModel.LookupAfterRun | src/module_registry.c:47-69 | after any run from empty, a lookup finds the last registration of that module and ordinal |
| RegistryModel.TableAfterRun | src/module_registry.c:193-218 | after any run each module holds the last registrations of its ordinals, in the order of their first ones |
| RegistryModel.NameAfterRun | src/module_registry.c:71-100 | after any run a name is found exactly when some ordinal's last registration has it as name or alias, and the answer is the last registration of the first registered such ordinal |
| RegistryModel.FirstNamedAt | src/module_registry.c:83-92 | a lookup by name finds the first export whose name or whose alias it is, and nothing if there is none |
| RegistryModel.AliasAnswers | src/module_registry.c:83-92 | an export is found under its name and under its alias, and under no third name |
| RegistryModel.FirstOfANameAnswers | src/module_registry.c:83-92 | of two ordinals with one name the first registered answers |
| RegistryModel.RenamedIsNotFound | src/module_registry.c:199-212 | registering an ordinal again under another name loses the first name |
| RegistryModel.FlattenAt | src/module_registry.c:133-157 | where in the enumeration the i-th export of the t-th module comes |
| RegistryModel.FlattenIsUnique | src/module_registry.c:133-157 | no module and ordinal is enumerated twice |
| RegistryModel.CountAfterPut | src/module_registry.c:112-126 | replacing an export keeps the total number of exports, any other registration adds one |
| ModuleRegistry.ModuleExportTable.AppendExport | src/module_registry.c:193-218 | replaces or appends in the linked list as the map does, and frees exactly the displaced strings |
| ModuleRegistry.ModuleExportTable.FindNode | src/module_registry.c:60-63 | finds the first node with the ordinal, or the last node |
| ModuleRegistry.Registry.NewTable | src/module_registry.c:220-236 | allocates a table and a copy of its name, freeing the table again if the copy fails |
| ModuleRegistry.Registry.AppendExportTable | src/module_registry.c:238-256 | a table for a new module goes last with its first export, or nothing changes |
| ModuleRegistry.Registry.MRRegisterMethod | src/module_registry.c:34-45 | keeps both list levels acyclic and disjoint, performs the map's registration, and keeps the live blocks exactly those of the contents; fails, leaving the strings to the caller, exactly when a new module's table cannot be allocated |
| ModuleRegistry.Registry.MRGetMethodByOrdinal | src/module_registry.c:47-69 | returns what the map finds, and zero otherwise |
| ModuleRegistry.Registry.MRGetMethodByName | src/module_registry.c:71-100 | returns the first export of the module with that name or alias, and zero otherwise |
| ModuleRegistry.Registry.MRGetNumRegisteredModules | src/module_registry.c:102-110 | counts the modules |
| ModuleRegistry.Registry.MRGetTotalNumExports | src/module_registry.c:112-126 | counts the exports of all modules |
| ModuleRegistry.Registry.MREnumerateRegistryBegin | src/module_registry.c:128-131 | stands before the first export of a non-empty registry |
| ModuleRegistry.Registry.MREnumerateRegistry | src/module_registry.c:133-157 | yields the k-th export in registration order with its module and steps to the next, across modules; after the last it returns false and stays there |
| ModuleRegistry.Registry.MRResetRegistry | src/module_registry.c:159-181 | frees every block of the registry exactly once and empties it |
| MethodListing.SendMethodAddresses | src/dxtmain.c:151-168 | sends the next export's fields, or ends the response |
| MethodListing.HandleHello | src/dxtmain.c:170-182 | the whole response has one line for every export, in registration order, which shows its module, ordinal, name, alias and address, and then ends |
| ImageReceive.ReadSize | src/dxtmain.c:187-200 | finds the size that the command asks for, or its error, which is out of memory exactly if a request of the parse is refused, and frees every parameter again |
| ImageReceive.SizeIsAsked | src/dxtmain.c:187-200 | the command `key=v` asks for what strtoul reads from `v`, if that is all of it and the key is `size`, and fails otherwise |
| ImageReceive.CommandContext.HandleDynamicLoad | src/dxtmain.c:184-224 | starts a transfer into a new block of the requested size, or replies with the error that applies and leaves nothing allocated |
| ImageReceive.CommandContext.ReceiveImageData | src/dxtmain.c:316-335 | keeps buffer_size equal to bytes_remaining and the buffer pointer right after the received data; completes exactly on the last byte; rejects an empty chunk |
| ImageReceive.CommandContext.ReceiveAll | src/dxtmain.c:316-335 | for every split into non-empty chunks, the loader runs once, on the last chunk, with the outcome of loading the concatenation; an incomplete transfer holds the concatenation so far |
| ImageReceive.CommandContext.ReceiveNothing | src/dxtmain.c:319-323 | a transfer of size zero never completes, and its block stays allocated, however often the handler is called; `ReceiveAll` completes every other size |
| ImageReceive.ReceiveImageDataComplete | src/dxtmain.c:259-314 | frees the received block whatever comes of it; success leaves just the loaded image allocated and enters it, failure leaves nothing |
| ImageReceive.ConcatGrows | src/dxtmain.c:325-331 | the received prefix grows by one chunk and reaches the whole only with the last |
| ExportLinker.RegisterModuleExports | src/link_loaded_modules.c:10-60 | rejects a module without the signatures, skips one without exports, and else registers its whole address table in order, or fails with the registry unchanged when a new module's table cannot be allocated; it requires only that the nodes it comes to ask for are granted |
| ExportLinker.NodesLeftAreAdded | src/module_registry.c:193-218 | the nodes that a registration asks for are exactly as many as the exports it adds to the registry |
| ExportLinker.ReadExport | src/link_loaded_modules.c:40-45 | the ordinal counts from the directory's base and the address from the module's, both modulo 2^32 |
| ExportLinker.RegisteredOrdinals | src/link_loaded_modules.c:39-54 | after the first n registrations each of their ordinals finds its export, and the others what they found before |
| ExportLinker.GetExportAddress | bootstrap/bootstrap_l2.asm:634-689 | computes the specified resolution register by register |
| ExportLinker.ResolvesByIndex | bootstrap/bootstrap_l2.asm:663-680 | for ordinals 1 to 2^31 the bootstrap finds the export of that index exactly if there is one |
| ExportLinker.OrdinalZeroReadsBefore | bootstrap/bootstrap_l2.asm:663-680 | for ordinal zero it returns the word before the table |
| ExportLinker.HighOrdinalWrapsAround | bootstrap/bootstrap_l2.asm:663-680 | ordinal 0xC0000001, though positive, resolves to the first export |
| ExportLinker.ResolversAgree | bootstrap/bootstrap_l2.asm:634-689 | for a freshly registered module and every ordinal, the bootstrap's answer is the registry's, for the same export counted from the directory's base, if and only if the ordinal is from 1 to 2^31 |
| ExportLinker.ResolversAgreeFromOne | src/link_loaded_modules.c:39-54 | with directory base 1, the same for one and the same ordinal |
| ExportLinker.RegisteredByIndex | src/module_registry.c:47-69 | the registry finds the exports of the directory and nothing under any other ordinal of the module |
| PrintedExports.HeadersAreSurveyed | src/link_loaded_modules.c:15-33 | for printed headers: wrong signatures are refused, and an export directory of size zero is nothing to do |
| PrintedExports.RegisteredAsPrinted | src/link_loaded_modules.c:35-54 | a directory printed with its eleven fields and its address table is registered as its functions, counted from its base |
| PrintedExports.FoundAsPrinted | src/link_loaded_modules.c:35-54 | a lookup then finds the module base plus the printed address under each of those ordinals, and what it found before under any other |
| PrintedExports.ResolvedAsPrinted | bootstrap/bootstrap_l2.asm:634-689 | the bootstrap finds the same addresses under the ordinals counted from 1 |
| PrintedExports.ExporterIsRegistered | src/link_loaded_modules.c:35-54 | a literal image with base 7, two functions and one name makes ordinals 7 and 8 known, and 9 not |
| PrintedExports.ExporterIsResolved | bootstrap/bootstrap_l2.asm:634-689 | in the same image the bootstrap knows ordinals 1 and 2, and not 3 |
| LinkedImports.ResolveImport | src/dxtmain.c:271-277 | the loader's callbacks answer what the contents of the registry determine |
| LinkedImports.LoadBindsRegistered | src/dxtmain.c:276-279 | after any run of registrations a well-formed file loads exactly when each import's ordinal has been registered, or some ordinal of its module has been left with its name; each slot then holds the address of that ordinal's last registration, for a name that of the first registered such ordinal |
| Pipeline.LinkedResolves | src/dxtmain.c:271-277 | after a module has been linked, an import by ordinal from it resolves to its base plus the address table entry modulo 2^32, and an ordinal without an entry as before, not at all for a new module |
| Pipeline.LoadedSlots | src/dxtmain.c:276-279 | a well-formed file loaded then has in each slot for an ordinal of that module base plus entry; one that imports from a new module only loads exactly when all its entries are in the table |
| Pipeline.ReceivedSlots | src/dxtmain.c:259-335 | the same of the image left by any chunked transfer of the file, with the outcome that ReceiveAll gives it |
| Pipeline.PrintedFileBinds | src/dxtmain.c:259-279 | after any run of registrations a file with printed imports loads exactly when each has been registered, by ordinal or by name, and has the registered address in its slot |
| HexText.NumeralMeans | bootstrap/bootstrap_l2.asm:191-202 | the reversed digits denote the value |
| HexText.NumeralShape | bootstrap/bootstrap_l2.asm:191-202 | a non-zero value has one to eight digits, the first not zero |
| HexText.NumeralIsLowerCase | bootstrap/bootstrap_l2.asm:191-202 | its characters are decimal digits and the letters `a` to `f` |
| HexText.EmitDigits | bootstrap/bootstrap_l2.asm:191-202 | writes the digits least significant first |
| HexText.ReverseBytes | bootstrap/bootstrap_l2.asm:208-215 | reverses a stretch in place, and swaps the two neighbours of an empty one |
| HexText.IntegerToHex | bootstrap/bootstrap_l2.asm:181-219 | writes the prefixed, terminated numeral at the destination and nothing else |
| HexText.ParseInteger | bootstrap/bootstrap_l2.asm:126-174 | reads the prefix and accumulates digits of either case modulo 2^32 |
| HexText.ParsesNumerals | bootstrap/bootstrap_l2.asm:126-174 | any prefixed run of digits is read to its value modulo 2^32, stopping right after it |
| HexText.RoundTrip | bootstrap/bootstrap_l2.asm:126-219 | a printed value parses back to itself, stopping at the terminator, exactly when it is not zero |
| HexMachine.HangsExactly | bootstrap/bootstrap_l2.asm:136-174 | no state of the run ends it if and only if the character after the digits is above `f`; a run that ends does so with the value and position that the parser is said to return |
| HexMachine.HangsOnLetter | bootstrap/bootstrap_l2.asm:158-164 | on `0xg` the run never ends |
| HexMachine.Settle | bootstrap/bootstrap_l2.asm:136-174 | from the top of the loop every run comes to a state that steps to itself, the one that the scan of the rest of the string describes |
| HexText.Terminates | bootstrap/bootstrap_l2.asm:137-174 | it stops on every terminated string with no character above `f` after its prefix |

## Left out

- PrintedImports.LibrariesRead: ordinal entries with bits 16 to 30 set, which the loader ignores; the format requires them to be zero.
- PrintedRelocations.PagesRead: blocks of 0x1000 bytes and more, whose size the loader may read as an unsupported entry (`LargeBlockIsRejected`).
- Malformed tables: behaviour outside the buffers is not described; the methods require that it does not occur.
- Pointers: offsets into a buffer are unbounded, so a read pointer or an e_lfanew that wraps around 2^32 counts as outside the file.
- Failed imports: the error message text, and the zero that the registry writes into the slot of an unresolved import, in an image that is freed at once.
- DllLoader.DllContext.DLLParse: the four failure branches share one clean-up call.
- ModuleRegistry.Registry.AppendExportTable: the list is not walked a second time; the last table comes from the search before it.
- ModuleRegistry.Registry.FreeTables: reads of a block after it has been freed are not ruled out by the model; the order of reads and frees is that of the source.
- CommandParser.CommandParameters.Reserve: overflow of the 32-bit slot count, which would need two thousand million entries.
- CommandParser.CPGetUInt32: strtoul is a parameter; CPGetInt32 differs from it only in calling strtol.
- CPPrintError and all response text; a reply is modelled by its status.
- TLS callbacks and the call of the entrypoint, which are foreign code; the entered address is a result.
- XBDM: command dispatch, the walk over loaded modules (LinkLoadedModules), and the socket. It is modelled as an environment that delivers chunks no larger than what remains.
- Overlaps.PathIndependentExactly: tables that list a site more than 63 times; for them only the sufficient half is proved (SeparateIsIndependent), which OftenRepeatedComposes shows is not necessary.
- Two commands at once: a `hello` during an unfinished `load` would share its context.
- MethodListing.SendMethodAddresses: a line is the tuple of its fields, not the formatted text.
- HexText.ParseInteger: the value left in the register when the prefix is missing; its outcome `Diverges` is proved to be an endless run in HexMachine.
- HexText.ReverseBytes: the signed comparison of addresses, which assumes that a buffer does not straddle 2^31.
- The start-up registrations of DXTMain, the handlers compiled out of the lean build, and the rest of both bootstraps.

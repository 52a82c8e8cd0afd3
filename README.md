# ELF symbol table (ELFSymtab) in Dafny

This project models the symbol-table section of GraalVM's ELF object-file
writer, `ELFSymtab`, and proves properties of the model. It covers:

- **Entries** (`ElfSymbols`). An `Entry` is an immutable symbol: name, value,
  size, binding, type, and a reference to a real section or to one of the
  pseudo-sections ABS, COMMON and UNDEF. Only the null entry refers to
  nothing. `Entry` is a class with constant fields, because the
  `entriesToIndex` map (its keys are entries) tells entries apart by
  identity. The `TreeSet` does not use identity: it orders entries, and drops
  a tied entry, with `compareEntries`.
- **Order** (`EntryOrder`). `CompareEntries` is the comparator as written,
  except that its name tie-break works on Unicode scalar values (see "Left
  out"). `Compare` is the same comparator with a total-order offset step.
  `SetAdd` is `TreeSet.add` on the sorted sequence of entries.
- **The table** (`ElfSymtab.Symtab`). It holds:
  - the ordered entries, with the null entry first;
  - the name map, `entriesByName`;
  - the entry-to-index map, `entriesToIndex`, whose creation seals the table.

  Its methods are the source's `addEntry`, `newDefinedEntry`,
  `newUndefinedEntry`, `getNullEntry`, `getSymbol`, `indexOf`,
  `initializeEntriesToIndex`, `getLinkedInfo` (sh_info), `getOrDecideContent`,
  `getWrittenSize` and `getDependencies`. Methods that loop in the source
  loop here too, with their invariants.
- **Records** (`EntryCodec`, `ByteCodec`). One entry becomes an Elf32_Sym
  (16 bytes) or an Elf64_Sym (24 bytes) record, as laid out in chapter 4,
  "Symbol Table", of the System V gABI. The info byte is
  ELF32_ST_INFO(binding, type). A reader inverts the writer, which proves
  the field order and widths.
- **Java semantics** (`JavaSemantics`). This module covers long wrap-around,
  `(short)`, `Math.toIntExact`, `Boolean.compare`, `Long.compare`,
  `String.compareTo`, and exceptions as a `Result`. Java `assert` statements
  are modelled as if assertions were enabled: a failing one yields
  `AssertionError`.

Facts the layout engine supplies are parameters of type `Resolved`:

- the string-table offset of each name;
- the object file's index for each section;
- the decided vaddr of each section;
- the file class and the byte order.

Two details of the written records:

- **Section-index field.** The System V gABI reserves the special indices
  SHN_ABS, SHN_COMMON and SHN_UNDEF for these pseudo-sections. The code
  instead writes `getIndexForSection(getReferencedSection())`, and
  `getReferencedSection()` is null for every pseudo-section (line 383). So
  ABS, COMMON and UNDEF entries all get the index the object file gives to
  null (`EntryCodec.StructFields`).
- **Zero info byte.** `createInfoByte` returns 0 for the null entry's absent
  binding and type, and also for a LOCAL symbol of type NOTYPE
  (`ElfSymbols.InfoByteZero`). The table never holds such a symbol: it only
  adds GLOBAL or LOCAL symbols of type FUNC or OBJECT. So in the table, the
  info byte is 0 for the null entry alone (`ElfSymtab.InfoByteZeroOnlyNull`).

## Model

All source cells are in `substratevm/src/com.oracle.objectfile/src/com/oracle/objectfile/elf/ELFSymtab.java`.

| member | source | states |
|---|---|---|
| JavaSemantics.ToIntExact | substratevm/src/com.oracle.objectfile/src/com/oracle/objectfile/elf/ELFSymtab.java:212-213 | the same value when it fits an int, ArithmeticException exactly when it does not |
| JavaSemantics.WrapLong | substratevm/src/com.oracle.objectfile/src/com/oracle/objectfile/elf/ELFSymtab.java:377 | a long sum is congruent to the exact sum modulo 2^64 and equals it when it fits a long |
| JavaSemantics.ToShort | substratevm/src/com.oracle.objectfile/src/com/oracle/objectfile/elf/ELFSymtab.java:383 | `(short)` keeps the value modulo 2^16 and keeps it unchanged when it fits a short |
| JavaSemantics.StringCompareTo | substratevm/src/com.oracle.objectfile/src/com/oracle/objectfile/elf/ELFSymtab.java:262-264 | the name tie-break; StringCompareToZero, StringCompareToAntisymmetric and StringCompareToTransitive state that it is 0 exactly for equal names and orders names totally |
| JavaSemantics.StringCompareToZero | substratevm/src/com.oracle.objectfile/src/com/oracle/objectfile/elf/ELFSymtab.java:263 | `compareTo` is 0 exactly for equal names |
| JavaSemantics.StringCompareToAntisymmetric | substratevm/src/com.oracle.objectfile/src/com/oracle/objectfile/elf/ELFSymtab.java:263 | swapping the names negates `compareTo` |
| JavaSemantics.StringCompareToTransitive | substratevm/src/com.oracle.objectfile/src/com/oracle/objectfile/elf/ELFSymtab.java:263 | `compareTo` is transitive |
| ByteCodec.EncodeSigned | substratevm/src/com.oracle.objectfile/src/com/oracle/objectfile/elf/ELFSymtab.java:211-216 | write2Byte/write4Byte/write8Byte emit exactly n bytes in the given byte order |
| ByteCodec.SignedRoundTrip | substratevm/src/com.oracle.objectfile/src/com/oracle/objectfile/elf/ELFSymtab.java:211-224 | every representable signed n-byte value reads back unchanged, in either byte order |
| ElfSymbols.Entry.InSection | substratevm/src/com.oracle.objectfile/src/com/oracle/objectfile/elf/ELFSymtab.java:139-142 | an entry that refers to a real section, with the given fields |
| ElfSymbols.Entry.InPseudoSection | substratevm/src/com.oracle.objectfile/src/com/oracle/objectfile/elf/ELFSymtab.java:144-147 | an entry that refers to a pseudo-section, with the given fields |
| ElfSymbols.Entry.Null | substratevm/src/com.oracle.objectfile/src/com/oracle/objectfile/elf/ELFSymtab.java:149-152 | the null entry: empty name, value and size 0, no binding, type or reference |
| ElfSymbols.Entry.IsDefined | substratevm/src/com.oracle.objectfile/src/com/oracle/objectfile/elf/ELFSymtab.java:71-74 | every entry that is not UNDEF is defined, the null entry included |
| ElfSymbols.Entry.IsAbsolute | substratevm/src/com.oracle.objectfile/src/com/oracle/objectfile/elf/ELFSymtab.java:76-79 | an ABS entry is defined |
| ElfSymbols.Entry.IsCommon | substratevm/src/com.oracle.objectfile/src/com/oracle/objectfile/elf/ELFSymtab.java:81-84 | a COMMON entry is defined and not absolute |
| ElfSymbols.Entry.IsFunction | substratevm/src/com.oracle.objectfile/src/com/oracle/objectfile/elf/ELFSymtab.java:86-89 | a FUNC entry is never the null entry |
| ElfSymbols.Entry.IsNull | substratevm/src/com.oracle.objectfile/src/com/oracle/objectfile/elf/ELFSymtab.java:91-93 | the null entry is not LOCAL, so the LOCAL test of compareEntries and getLinkedInfo never counts it |
| ElfSymbols.Entry.GetDefinedOffset | substratevm/src/com.oracle.objectfile/src/com/oracle/objectfile/elf/ELFSymtab.java:100-107 | the value exactly for defined, non-absolute entries; IllegalStateException otherwise |
| ElfSymbols.Entry.GetDefinedAbsoluteValue | substratevm/src/com.oracle.objectfile/src/com/oracle/objectfile/elf/ELFSymtab.java:119-126 | the value exactly for absolute entries; IllegalStateException otherwise |
| ElfSymbols.Entry.GetReferencedSection | substratevm/src/com.oracle.objectfile/src/com/oracle/objectfile/elf/ELFSymtab.java:154-156 | a section exactly when the entry refers to a real one, and that section |
| ElfSymbols.CreateInfoByte | substratevm/src/com.oracle.objectfile/src/com/oracle/objectfile/elf/ELFSymtab.java:180-189 | succeeds exactly when type and binding are both present or both absent; otherwise AssertionError |
| ElfSymbols.InfoByteRoundTrip | substratevm/src/com.oracle.objectfile/src/com/oracle/objectfile/elf/ELFSymtab.java:188 | ELF32_ST_BIND and ELF32_ST_TYPE of the packed byte give back the binding's and the type's ordinals |
| ElfSymbols.InfoByteZero | substratevm/src/com.oracle.objectfile/src/com/oracle/objectfile/elf/ELFSymtab.java:180-189 | the byte is 0 exactly for (absent, absent) and for (NOTYPE, LOCAL) |
| EntryOrder.NullEntryFirst | substratevm/src/com.oracle.objectfile/src/com/oracle/objectfile/elf/ELFSymtab.java:248 | the null entry sorts before every other entry, under both comparators |
| EntryOrder.LocalsBeforeNonLocals | substratevm/src/com.oracle.objectfile/src/com/oracle/objectfile/elf/ELFSymtab.java:249-251 | a non-null LOCAL entry sorts before every non-null non-LOCAL entry |
| EntryOrder.UndefinedBeforeDefined | substratevm/src/com.oracle.objectfile/src/com/oracle/objectfile/elf/ELFSymtab.java:253-255 | with equal null and LOCAL flags, undefined sorts before defined |
| EntryOrder.NonAbsoluteBeforeAbsolute | substratevm/src/com.oracle.objectfile/src/com/oracle/objectfile/elf/ELFSymtab.java:256-258 | with the earlier flags equal, non-absolute sorts before absolute |
| EntryOrder.CompareEntries | substratevm/src/com.oracle.objectfile/src/com/oracle/objectfile/elf/ELFSymtab.java:247-266 | the comparator as written throws only ArithmeticException, and only when the four flags tie and the offsets count; CompareEntriesAgreesWithCompare states exactly when it throws and when it agrees with Compare |
| EntryOrder.SetAdd | substratevm/src/com.oracle.objectfile/src/com/oracle/objectfile/elf/ELFSymtab.java:446 | TreeSet.add on the sorted entries; SetAddKeepsOrder states that it keeps them sorted, changes nothing on a tie and otherwise adds exactly the new entry |
| EntryOrder.CompareEntriesAgreesWithCompare | substratevm/src/com.oracle.objectfile/src/com/oracle/objectfile/elf/ELFSymtab.java:247-266 | the comparator as written throws exactly when the flags tie, the offsets count, and their wrapped difference does not fit an int; when it returns and the subtraction did not wrap, it has the corrected comparator's sign |
| EntryOrder.CompareEntriesThrowsAt2GiB | substratevm/src/com.oracle.objectfile/src/com/oracle/objectfile/elf/ELFSymtab.java:259-261 | as written: offsets 2^31 and 0 make the comparator throw ArithmeticException |
| EntryOrder.CompareEntriesWrapsAtExtremes | substratevm/src/com.oracle.objectfile/src/com/oracle/objectfile/elf/ELFSymtab.java:259-261 | as written: offset Long.MAX_VALUE sorts before Long.MIN_VALUE |
| EntryOrder.CompareAntisymmetric | substratevm/src/com.oracle.objectfile/src/com/oracle/objectfile/elf/ELFSymtab.java:247-266 | the corrected comparator is antisymmetric |
| EntryOrder.CompareReflexive | substratevm/src/com.oracle.objectfile/src/com/oracle/objectfile/elf/ELFSymtab.java:247-266 | every entry ties with itself |
| EntryOrder.CompareTie | substratevm/src/com.oracle.objectfile/src/com/oracle/objectfile/elf/ELFSymtab.java:247-266 | tied entries compare alike with every third entry |
| EntryOrder.CompareTransitive | substratevm/src/com.oracle.objectfile/src/com/oracle/objectfile/elf/ELFSymtab.java:247-266 | the corrected comparator is transitive, so it is a strict total order |
| EntryOrder.SetAddKeepsOrder | substratevm/src/com.oracle.objectfile/src/com/oracle/objectfile/elf/ELFSymtab.java:446 | TreeSet.add keeps the set sorted; it leaves the set unchanged when an element ties with the new one, and otherwise adds exactly that one element |
| EntryOrder.HasTieGrows | substratevm/src/com.oracle.objectfile/src/com/oracle/objectfile/elf/ELFSymtab.java:446 | once an element ties with e, it still does after more elements are added |
| EntryCodec.EntrySize | substratevm/src/com.oracle.objectfile/src/com/oracle/objectfile/elf/ELFSymtab.java:229-237 | a record is 16 bytes exactly for ELFCLASS32 and 24 bytes exactly for ELFCLASS64 |
| EntryCodec.Write | substratevm/src/com.oracle.objectfile/src/com/oracle/objectfile/elf/ELFSymtab.java:208-227 | a record has its file class's width; it fails exactly in a 32-bit file whose value or size does not fit an int |
| EntryCodec.WriteReadRoundTrip | substratevm/src/com.oracle.objectfile/src/com/oracle/objectfile/elf/ELFSymtab.java:208-227 | reading the fields back at the gABI offsets gives the record's fields unchanged |
| EntryCodec.RoundTrip32 | substratevm/src/com.oracle.objectfile/src/com/oracle/objectfile/elf/ELFSymtab.java:210-217 | the Elf32_Sym order: name, value, size, info, other, shndx |
| EntryCodec.RoundTrip64 | substratevm/src/com.oracle.objectfile/src/com/oracle/objectfile/elf/ELFSymtab.java:218-225 | the Elf64_Sym order: name, info, other, shndx, value, size |
| EntryCodec.EncodeEntry | substratevm/src/com.oracle.objectfile/src/com/oracle/objectfile/elf/ELFSymtab.java:353-384 | one entry's record, when it can be written, has its file class's width |
| EntryCodec.EncodedValue | substratevm/src/com.oracle.objectfile/src/com/oracle/objectfile/elf/ELFSymtab.java:359-378 | an AssertionError exactly for COMMON and for a non-null entry that refers to nothing; 0 for UNDEF; in a static table every other entry writes its own value (StructFields gives the dynamic vaddr-plus-offset case) |
| EntryCodec.FillStruct | substratevm/src/com.oracle.objectfile/src/com/oracle/objectfile/elf/ELFSymtab.java:353-383 | the fields are decided exactly when the value is and binding and type are both present or both absent; any failure is an AssertionError (StructFields gives every field) |
| EntryCodec.StructFields | substratevm/src/com.oracle.objectfile/src/com/oracle/objectfile/elf/ELFSymtab.java:356-383 | the decided fields: the value by reference kind (ABS raw, UNDEF 0, null 0, static in-section raw, dynamic vaddr plus offset), size, packed info, other 0, and shndx from the referenced section |
| EntryCodec.RecordFields | substratevm/src/com.oracle.objectfile/src/com/oracle/objectfile/elf/ELFSymtab.java:353-384 | the bytes written for an entry read back as those decided fields |
| EntryCodec.EncodeEntryFails | substratevm/src/com.oracle.objectfile/src/com/oracle/objectfile/elf/ELFSymtab.java:360-384 | a record fails exactly for a COMMON entry, a binding without a type or the reverse, or a 32-bit file whose value or size does not fit an int |
| EntryCodec.EncodeEntriesSucceeds | substratevm/src/com.oracle.objectfile/src/com/oracle/objectfile/elf/ELFSymtab.java:352-386 | the content is produced exactly when every entry's record is |
| EntryCodec.EncodeEntriesLength | substratevm/src/com.oracle.objectfile/src/com/oracle/objectfile/elf/ELFSymtab.java:389-391 | the content is entries.size() times the record width |
| EntryCodec.EncodeEntriesRecordAt | substratevm/src/com.oracle.objectfile/src/com/oracle/objectfile/elf/ELFSymtab.java:352-386 | entry i's record sits at bytes i*w up to (i+1)*w of the content |
| EntryCodec.RecordReadsOnlyItsVaddr | substratevm/src/com.oracle.objectfile/src/com/oracle/objectfile/elf/ELFSymtab.java:377 | a record reads at most its own section's vaddr, and only in a dynamic table |
| EntryCodec.ContentReadsOnlyReferencedVaddrs | substratevm/src/com.oracle.objectfile/src/com/oracle/objectfile/elf/ELFSymtab.java:412-423 | the content depends on no vaddr in a static table, and only on the referenced sections' vaddrs in a dynamic one, which justifies the declared dependencies |
| ElfSymtab.TieSameName | substratevm/src/com.oracle.objectfile/src/com/oracle/objectfile/elf/ELFSymtab.java:262-264 | entries tie only with entries of the same name |
| ElfSymtab.SortedDistinct | substratevm/src/com.oracle.objectfile/src/com/oracle/objectfile/elf/ELFSymtab.java:268 | the sorted set holds no entry twice |
| ElfSymtab.IndexesOfCardinality | substratevm/src/com.oracle.objectfile/src/com/oracle/objectfile/elf/ELFSymtab.java:474 | a numbering of distinct entries has exactly as many keys as entries |
| ElfSymtab.LocalsContiguous | substratevm/src/com.oracle.objectfile/src/com/oracle/objectfile/elf/ELFSymtab.java:335 | in table order, every entry before a LOCAL entry is the null entry or LOCAL |
| ElfSymtab.LocalBoundaryIsLast | substratevm/src/com.oracle.objectfile/src/com/oracle/objectfile/elf/ELFSymtab.java:328-341 | the boundary is one past the last LOCAL entry, and no later entry is LOCAL |
| ElfSymtab.LocalBoundarySplits | substratevm/src/com.oracle.objectfile/src/com/oracle/objectfile/elf/ELFSymtab.java:328-341 | in table order, entry i is LOCAL exactly when 1 <= i < boundary; the boundary is 0 exactly when no entry is LOCAL |
| ElfSymtab.StandardLinkedInfoSplitsLocals | substratevm/src/com.oracle.objectfile/src/com/oracle/objectfile/elf/ELFSymtab.java:324-327 | corrected: the entries below sh_info are exactly those whose written st_info has binding STB_LOCAL, and 1 <= sh_info <= entry count |
| ElfSymtab.LinkedInfoZeroMissesNullEntry | substratevm/src/com.oracle.objectfile/src/com/oracle/objectfile/elf/ELFSymtab.java:328-341 | as written: null entry plus one GLOBAL symbol gives 0, while the null entry is written as STB_LOCAL and the corrected value is 1 |
| ElfSymtab.InfoByteZeroOnlyNull | substratevm/src/com.oracle.objectfile/src/com/oracle/objectfile/elf/ELFSymtab.java:380-381 | in the table the written st_info is 0 for the null entry at index 0 and for no other entry |
| ElfSymtab.AddKeepsTableOrder | substratevm/src/com.oracle.objectfile/src/com/oracle/objectfile/elf/ELFSymtab.java:446 | adding keeps the null entry first, the set sorted, and every later entry addable |
| ElfSymtab.AddKeepsNameMap | substratevm/src/com.oracle.objectfile/src/com/oracle/objectfile/elf/ELFSymtab.java:446-447 | after add and put, every entry's name is a key and every key maps to an entry that ties with an entry of the set |
| ElfSymtab.AddKeepsInvariant | substratevm/src/com.oracle.objectfile/src/com/oracle/objectfile/elf/ELFSymtab.java:442-449 | an unsealed add keeps the whole table invariant |
| ElfSymtab.Symtab.constructor | substratevm/src/com.oracle.objectfile/src/com/oracle/objectfile/elf/ELFSymtab.java:274-290 | a new table holds only the null entry, under the name "", and is not sealed |
| ElfSymtab.Symtab.AddEntry | substratevm/src/com.oracle.objectfile/src/com/oracle/objectfile/elf/ELFSymtab.java:442-449 | sealed: "Symbol table already sealed" and nothing changes; otherwise TreeSet.add (no change on a tie, else exactly one more entry), the name now maps to the entry, and the entry is returned |
| ElfSymtab.Symtab.NewDefinedEntry | substratevm/src/com.oracle.objectfile/src/com/oracle/objectfile/elf/ELFSymtab.java:432-435 | a fresh GLOBAL or LOCAL, FUNC or OBJECT entry at the offset in the section, added; a null section is an assertion failure; sealed tables refuse it |
| ElfSymtab.Symtab.NewUndefinedEntry | substratevm/src/com.oracle.objectfile/src/com/oracle/objectfile/elf/ELFSymtab.java:437-440 | a fresh GLOBAL UNDEF entry of value and size 0, added; sealed tables refuse it |
| ElfSymtab.Symtab.GetNullEntry | substratevm/src/com.oracle.objectfile/src/com/oracle/objectfile/elf/ELFSymtab.java:451-453 | the first entry is the null entry and sorts before every other entry |
| ElfSymtab.Symtab.GetSymbol | substratevm/src/com.oracle.objectfile/src/com/oracle/objectfile/elf/ELFSymtab.java:483-486 | an entry exactly for mapped names; it has that name and ties with an entry of the table |
| ElfSymtab.Symtab.InitializeEntriesToIndex | substratevm/src/com.oracle.objectfile/src/com/oracle/objectfile/elf/ELFSymtab.java:467-475 | seals the table with a map from each entry to its position, with as many keys as entries |
| ElfSymtab.Symtab.IndexOf | substratevm/src/com.oracle.objectfile/src/com/oracle/objectfile/elf/ELFSymtab.java:455-465 | seals the table; the entry's position, or -1 exactly when the entry is not in the table |
| ElfSymtab.Symtab.GetWrittenSize | substratevm/src/com.oracle.objectfile/src/com/oracle/objectfile/elf/ELFSymtab.java:389-391 | 16 bytes per entry for ELFCLASS32, 24 for ELFCLASS64 |
| ElfSymtab.Symtab.GetLinkedInfo | substratevm/src/com.oracle.objectfile/src/com/oracle/objectfile/elf/ELFSymtab.java:322-342 | one past the last LOCAL entry, or 0 exactly when there is none; the entries before it, apart from the null entry, are exactly the LOCAL ones |
| ElfSymtab.Symtab.GetOrDecideContent | substratevm/src/com.oracle.objectfile/src/com/oracle/objectfile/elf/ELFSymtab.java:344-387 | the records of all entries in table order, or the first failing entry's exception; the content's size is getWrittenSize |
| ElfSymtab.Symtab.CollectReferencedSections | substratevm/src/com.oracle.objectfile/src/com/oracle/objectfile/elf/ELFSymtab.java:414-420 | the set of sections some entry refers to |
| ElfSymtab.Symtab.VaddrDependencies | substratevm/src/com.oracle.objectfile/src/com/oracle/objectfile/elf/ELFSymtab.java:421-423 | one content-on-vaddr dependency per section of the set, each exactly once |
| ElfSymtab.Symtab.GetDependencies | substratevm/src/com.oracle.objectfile/src/com/oracle/objectfile/elf/ELFSymtab.java:407-426 | the defaults, then content on the string table's content; then, in dynamic tables only, one distinct content-on-vaddr dependency per referenced section and no other |

## Left out

- String table: `StringTable` and `indexFor` are not part of this model. A name's offset is the parameter `Resolved.nameOffset`.
- Object-file queries: `getIndexForSection` and `getFileClass` are parameters, `Resolved.sectionIndex` and `Resolved.fileClass`.
- Layout engine: the decided string-table content, the vaddr lookup, and `defaultDependencies` are not modelled. They become `Resolved.vaddr` and an opaque prefix of dependencies.
- `BuildDependency.createOrGet`: its interning is not modelled. A dependency is a plain value.
- Output buffers: the `ByteBuffer`, `OutputAssembler` and `AssemblyBuffer` plumbing is not modelled. The output is a byte sequence, built from an integer encoder parameterised by byte order.
- `getOrDecideOffset`, `getOrDecideVaddr`, `getDecisions` and `getOrDecideSize`: these only delegate to the object file's defaults or to `getWrittenSize`.
- Section wiring: `getLinkedSection`, `DefaultStrtabImpl`, the section flags, the string table's naming and `isDynamic`'s section-type test are not modelled. The table keeps only a `dynamic` flag and the two section identities.
- `iterator()`: it is a raw-type cast of the entry set's iterator.
- HashSet iteration order: it is not modelled. `VaddrDependencies` picks the next section by an unspecified choice, so its contract holds for every order.
- JavaSemantics.StringCompareTo: names are sequences of Unicode scalar values, not of UTF-16 code units, so for names with supplementary characters the name tie-break can differ in sign from Java's `compareTo`. For example, U+10000 sorts after U+FFFF here, but before it in Java (0xD800 < 0xFFFF). No encoding is modelled.
- Java assertions are modelled as enabled: a failing `assert` is an AssertionError. With assertions disabled the source behaves differently. A COMMON symbol, or a non-null entry that refers to nothing, is written with value 0 (lines 366-372). `newDefinedEntry` with a null section adds an entry that refers to nothing (line 136). `createInfoByte` with only one of type and binding absent returns 0 (lines 183-186). None of these runs is modelled.
- ElfSymtab.Symtab.AddEntry: the table is ordered by the corrected comparator `Compare`, not the as-written `CompareEntries`. The as-written comparator can throw, and where it throws inside `TreeSet.add` depends on the red-black tree's shape; see Findings.
- ElfSymtab.Symtab.GetWrittenSize: the product is an unbounded integer, so the int overflow of `entries.size() * getEntrySize()` past 2^31 bytes is not modelled.
- ElfSymtab.Symtab.GetDependencies: the default dependencies are taken as an opaque prefix. Nothing is stated about their contents.

## Findings

| source | as written | input that shows it | evidently intended | confidence | as-written member | corrected member |
|---|---|---|---|---|---|---|
| substratevm/src/com.oracle.objectfile/src/com/oracle/objectfile/elf/ELFSymtab.java:259-261 | offsets are ordered by `toIntExact` of their long difference, which throws past the int range and wraps past the long range | two GLOBAL symbols in sections, at offsets 2^31 and 0: ArithmeticException. At offsets Long.MAX_VALUE and Long.MIN_VALUE, the wrapped difference is -1, so MAX sorts first | order the offsets with `Long.compare`, a total order (`EntryOrder.Compare`, proved antisymmetric, reflexive and transitive) | medium: needs offsets 2 GiB apart; not executed | EntryOrder.CompareEntriesThrowsAt2GiB | EntryOrder.CompareTransitive |
| substratevm/src/com.oracle.objectfile/src/com/oracle/objectfile/elf/ELFSymtab.java:328-341 | sh_info is 0 when no non-null entry is LOCAL, because the scan skips the null entry | a table holding the null entry and one GLOBAL symbol gives 0, but the null entry is written with st_info 0, binding STB_LOCAL | one greater than the index of the last STB_LOCAL symbol, counting the null entry (the gABI rule the source's own comment cites), so at least 1 (`ElfSymtab.StandardLinkedInfo`) | medium: readers often accept 0; not executed | ElfSymtab.LinkedInfoZeroMissesNullEntry | ElfSymtab.StandardLinkedInfoSplitsLocals |

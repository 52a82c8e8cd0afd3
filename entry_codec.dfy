/**
 * The on-disk symbol-table record (ELFSymtab.EntryStruct): how one entry's
 * fields are decided (the loop body of getOrDecideContent) and how they are
 * laid out as Elf32_Sym (16 bytes) or Elf64_Sym (24 bytes), as given in the
 * System V gABI, chapter 4, "Symbol Table".
 */
module EntryCodec {
  import opened JavaSemantics
  import opened ByteCodec
  import opened ElfSymbols

  datatype FileClass = ELFCLASS32 | ELFCLASS64

  /** One record's fields before they are written. */
  datatype EntryStruct = EntryStruct(name: Int32, value: Int64, size: Int64, info: uint8, other: uint8, shndx: Int16)

  /**
   * What the layout engine has already decided when the table's content is
   * produced, and what the owning object file supplies.
   */
  datatype Resolved = Resolved(
    nameOffset: string -> Int32,                // StringTable.indexFor over the string table's content
    sectionIndex: Option<SectionId> -> Int32,   // the object file's getIndexForSection
    vaddr: SectionId -> Int32,                  // a section's decided VADDR, as an int
    fileClass: FileClass,
    byteOrder: ByteOrder)

  /** EntryStruct.getWrittenSize: the record width of the file class. */
  function EntrySize(c: FileClass): (r: nat)
    ensures r == 16 <==> c == ELFCLASS32
    ensures r == 24 <==> c == ELFCLASS64
  {
    match c
    case ELFCLASS32 => 16
    case ELFCLASS64 => 24
  }

  /**
   * EntryStruct.write: name, value, size, info, other, shndx for 32-bit files
   * (value and size narrowed by toIntExact); name, info, other, shndx, value,
   * size for 64-bit files.
   */
  function Write(s: EntryStruct, c: FileClass, order: ByteOrder): (r: Result<seq<uint8>>)
    ensures r.Ok? ==> |r.value| == EntrySize(c)
    ensures r.Throws? <==> c == ELFCLASS32 && !(INT_MIN <= s.value <= INT_MAX && INT_MIN <= s.size <= INT_MAX)
  {
    Pow256Widths();
    match c
    case ELFCLASS32 =>
      var value :- ToIntExact(s.value);
      var size :- ToIntExact(s.size);
      Ok(EncodeSigned(s.name, 4, order) + EncodeSigned(value, 4, order) + EncodeSigned(size, 4, order)
         + [s.info, s.other] + EncodeSigned(s.shndx, 2, order))
    case ELFCLASS64 =>
      Ok(EncodeSigned(s.name, 4, order) + [s.info, s.other] + EncodeSigned(s.shndx, 2, order)
         + EncodeSigned(s.value, 8, order) + EncodeSigned(s.size, 8, order))
  }

  /** Reading a record back, field by field, at the gABI offsets. */
  function Read(b: seq<uint8>, c: FileClass, order: ByteOrder): EntryStruct
    requires |b| == EntrySize(c)
  {
    Pow256Widths();
    match c
    case ELFCLASS32 =>
      EntryStruct(DecodeSigned(b[0..4], order), DecodeSigned(b[4..8], order), DecodeSigned(b[8..12], order),
                  b[12], b[13], DecodeSigned(b[14..16], order))
    case ELFCLASS64 =>
      EntryStruct(DecodeSigned(b[0..4], order), DecodeSigned(b[8..16], order), DecodeSigned(b[16..24], order),
                  b[4], b[5], DecodeSigned(b[6..8], order))
  }

  /** Every record written can be read back unchanged. */
  lemma WriteReadRoundTrip(s: EntryStruct, c: FileClass, order: ByteOrder)
    requires Write(s, c, order).Ok?
    ensures Read(Write(s, c, order).value, c, order) == s
  {
    match c
    case ELFCLASS32 => RoundTrip32(s, order);
    case ELFCLASS64 => RoundTrip64(s, order);
  }

  lemma RoundTrip32(s: EntryStruct, order: ByteOrder)
    requires Write(s, ELFCLASS32, order).Ok?
    ensures Read(Write(s, ELFCLASS32, order).value, ELFCLASS32, order) == s
  {
    Pow256Widths();
    var b := Write(s, ELFCLASS32, order).value;
    SignedRoundTrip(s.name, 4, order);
    SignedRoundTrip(s.value, 4, order);
    SignedRoundTrip(s.size, 4, order);
    SignedRoundTrip(s.shndx, 2, order);
    assert b[0..4] == EncodeSigned(s.name, 4, order);
    assert b[4..8] == EncodeSigned(s.value, 4, order);
    assert b[8..12] == EncodeSigned(s.size, 4, order);
    assert b[14..16] == EncodeSigned(s.shndx, 2, order);
  }

  lemma RoundTrip64(s: EntryStruct, order: ByteOrder)
    requires Write(s, ELFCLASS64, order).Ok?
    ensures Read(Write(s, ELFCLASS64, order).value, ELFCLASS64, order) == s
  {
    Pow256Widths();
    var b := Write(s, ELFCLASS64, order).value;
    SignedRoundTrip(s.name, 4, order);
    SignedRoundTrip(s.value, 8, order);
    SignedRoundTrip(s.size, 8, order);
    SignedRoundTrip(s.shndx, 2, order);
    assert b[0..4] == EncodeSigned(s.name, 4, order);
    assert b[6..8] == EncodeSigned(s.shndx, 2, order);
    assert b[8..16] == EncodeSigned(s.value, 8, order);
    assert b[16..24] == EncodeSigned(s.size, 8, order);
  }

  /**
   * The value field: the raw value for ABS, 0 for UNDEF and for the null
   * entry, the in-section offset for a real section in a static table, the
   * section's vaddr plus the offset (a long addition) in a dynamic table. A
   * COMMON symbol, or a non-null entry that refers to nothing, is an assertion
   * failure.
   */
  function EncodedValue(e: Entry, dynamic: bool, vaddr: SectionId -> Int32): (r: Result<Int64>)
    ensures r.Ok? <==> !e.IsCommon() && (e.reference.NoReference? ==> e.IsNull())
    ensures r.Throws? ==> r.error == AssertionError
    ensures r.Ok? && !e.IsDefined() ==> r.value == 0
    ensures r.Ok? && !dynamic && e.IsDefined() ==> r.value == e.value
  {
    match e.reference
    case Pseudo(ABS) => Ok(e.value)
    case Pseudo(UNDEF) => Ok(0)
    case Pseudo(COMMON) => Throws(AssertionError)
    case NoReference => if e.IsNull() then Ok(0) else Throws(AssertionError)
    case InSection(section) => Ok(if dynamic then WrapLong(vaddr(section) + e.value) else e.value)
  }

  /** The fields getOrDecideContent decides for one entry. */
  function FillStruct(e: Entry, dynamic: bool, ctx: Resolved): (r: Result<EntryStruct>)
    ensures r.Ok? <==> EncodedValue(e, dynamic, ctx.vaddr).Ok? && e.symType.Some? == e.binding.Some?
    ensures r.Throws? ==> r.error == AssertionError
  {
    var value :- EncodedValue(e, dynamic, ctx.vaddr);
    var info :- CreateInfoByte(e.symType, e.binding);
    Ok(EntryStruct(ctx.nameOffset(e.name), value, e.size, info, 0, ToShort(ctx.sectionIndex(e.GetReferencedSection()))))
  }

  /** One entry's record. */
  function EncodeEntry(e: Entry, dynamic: bool, ctx: Resolved): (r: Result<seq<uint8>>)
    ensures r.Ok? ==> |r.value| == EntrySize(ctx.fileClass)
  {
    var s :- FillStruct(e, dynamic, ctx);
    Write(s, ctx.fileClass, ctx.byteOrder)
  }

  /**
   * Records written one after another, in order; the first record that cannot
   * be written aborts the whole.
   */
  function Concat<T>(s: seq<T>, record: T -> Result<seq<uint8>>): Result<seq<uint8>>
  {
    if s == [] then Ok([])
    else
      var prefix :- Concat(s[..|s| - 1], record);
      var last :- record(s[|s| - 1]);
      Ok(prefix + last)
  }

  /** The table's content: every entry's record, in table order. */
  function EncodeEntries(s: seq<Entry>, dynamic: bool, ctx: Resolved): Result<seq<uint8>>
  {
    Concat(s, e => EncodeEntry(e, dynamic, ctx))
  }

  /** The sections that entries of s refer to. */
  function ReferencedSections(s: seq<Entry>): set<SectionId>
  {
    set i | 0 <= i < |s| && s[i].reference.InSection? :: s[i].reference.section
  }

  /**
   * What a written record holds, read back at the gABI offsets: the name's
   * string-table offset; the value chosen by what the entry refers to; the
   * size; the packed binding and type; 0; the referenced section's index, the
   * same for every pseudo-section and for the null entry.
   */
  lemma RecordFields(e: Entry, dynamic: bool, ctx: Resolved)
    requires EncodeEntry(e, dynamic, ctx).Ok?
    ensures |EncodeEntry(e, dynamic, ctx).value| == EntrySize(ctx.fileClass)
    ensures var r := Read(EncodeEntry(e, dynamic, ctx).value, ctx.fileClass, ctx.byteOrder);
      && r.name == ctx.nameOffset(e.name)
      && (e.IsAbsolute() ==> r.value == e.value)
      && (!e.IsDefined() ==> r.value == 0)
      && (e.IsNull() ==> r.value == 0 && r.info == 0)
      && (e.reference.InSection? && !dynamic ==> r.value == e.value)
      && (e.reference.InSection? && dynamic ==> r.value == WrapLong(ctx.vaddr(e.reference.section) + e.value))
      && r.size == e.size
      && (e.binding.Some? ==> e.symType.Some? && StBind(r.info) == e.binding.value.Ordinal()
                                               && StType(r.info) == e.symType.value.Ordinal())
      && r.other == 0
      && r.shndx == ToShort(ctx.sectionIndex(if e.reference.InSection? then Some(e.reference.section) else None))
  {
    var st := FillStruct(e, dynamic, ctx).value;
    assert EncodeEntry(e, dynamic, ctx) == Write(st, ctx.fileClass, ctx.byteOrder);
    WriteReadRoundTrip(st, ctx.fileClass, ctx.byteOrder);
    StructFields(e, dynamic, ctx);
  }

  /** The fields FillStruct decides, before they are written. */
  lemma StructFields(e: Entry, dynamic: bool, ctx: Resolved)
    requires FillStruct(e, dynamic, ctx).Ok?
    ensures var r := FillStruct(e, dynamic, ctx).value;
      && r.name == ctx.nameOffset(e.name)
      && (e.IsAbsolute() ==> r.value == e.value)
      && (!e.IsDefined() ==> r.value == 0)
      && (e.IsNull() ==> r.value == 0 && r.info == 0)
      && (e.reference.InSection? && !dynamic ==> r.value == e.value)
      && (e.reference.InSection? && dynamic ==> r.value == WrapLong(ctx.vaddr(e.reference.section) + e.value))
      && r.size == e.size
      && (e.binding.Some? ==> e.symType.Some? && StBind(r.info) == e.binding.value.Ordinal()
                                               && StType(r.info) == e.symType.value.Ordinal())
      && r.other == 0
      && r.shndx == ToShort(ctx.sectionIndex(if e.reference.InSection? then Some(e.reference.section) else None))
  {
    if e.binding.Some? {
      InfoByteRoundTrip(e.symType.value, e.binding.value);
    }
  }

  /**
   * When a record cannot be written: a COMMON symbol, a binding without a type
   * (or the reverse), or, in a 32-bit file, a value field or size that does
   * not fit an int.
   */
  lemma EncodeEntryFails(e: Entry, dynamic: bool, ctx: Resolved)
    requires e.WellFormed()
    ensures EncodeEntry(e, dynamic, ctx).Throws? <==>
      || e.IsCommon()
      || e.binding.Some? != e.symType.Some?
      || (ctx.fileClass == ELFCLASS32 &&
          !(INT_MIN <= EncodedValue(e, dynamic, ctx.vaddr).value <= INT_MAX && INT_MIN <= e.size <= INT_MAX))
  {
  }

  /** Record i of n records of width w lies wholly inside the first n * w bytes. */
  lemma RecordInsidePrefix(i: nat, n: nat, w: nat)
    requires i < n
    ensures i * w + w <= n * w
  {
    assert (i + 1) * w <= n * w by {
      var k := n - (i + 1);
      assert n * w == (i + 1) * w + k * w;
    }
  }

  /** Appending a record of width w to n records of width w. */
  lemma AppendRecord(prefix: seq<uint8>, last: seq<uint8>, n: nat, w: nat, i: nat)
    requires |prefix| == n * w && |last| == w && i <= n
    ensures |prefix + last| == (n + 1) * w
    ensures (prefix + last)[i * w..(i + 1) * w] == if i < n then prefix[i * w..(i + 1) * w] else last
  {
    assert (n + 1) * w == n * w + w;
    assert (i + 1) * w == i * w + w;
    if i < n {
      RecordInsidePrefix(i, n, w);
    }
  }

  /** The concatenation succeeds exactly when every record does. */
  lemma {:induction false} ConcatSucceeds<T>(s: seq<T>, record: T -> Result<seq<uint8>>)
    ensures Concat(s, record).Ok? <==> forall i :: 0 <= i < |s| ==> record(s[i]).Ok?
  {
    if s != [] {
      var n := |s| - 1;
      ConcatSucceeds(s[..n], record);
      assert forall i :: 0 <= i < n ==> s[..n][i] == s[i];
    }
  }

  /** Records of width w concatenate to |s| * w bytes. */
  lemma {:induction false} ConcatLength<T>(s: seq<T>, record: T -> Result<seq<uint8>>, w: nat)
    requires forall x :: record(x).Ok? ==> |record(x).value| == w
    requires Concat(s, record).Ok?
    ensures |Concat(s, record).value| == |s| * w
  {
    if s != [] {
      var n := |s| - 1;
      ConcatLength(s[..n], record, w);
      assert |s| * w == n * w + w;
    }
  }

  /** content holds rec as its record i, at bytes i * w up to (i + 1) * w. */
  predicate RecordAt(content: seq<uint8>, i: nat, w: nat, rec: seq<uint8>)
  {
    (i + 1) * w <= |content| && content[i * w..(i + 1) * w] == rec
  }

  /** Record i lies at bytes i * w up to (i + 1) * w. */
  lemma {:induction false} ConcatRecordAt<T>(s: seq<T>, record: T -> Result<seq<uint8>>, w: nat, i: nat)
    requires forall x :: record(x).Ok? ==> |record(x).value| == w
    requires Concat(s, record).Ok? && i < |s|
    ensures record(s[i]).Ok?
    ensures RecordAt(Concat(s, record).value, i, w, record(s[i]).value)
  {
    var n := |s| - 1;
    var prefix := Concat(s[..n], record).value;
    var last := record(s[n]).value;
    ConcatLength(s[..n], record, w);
    if i < n {
      ConcatRecordAt(s[..n], record, w, i);
      assert s[..n][i] == s[i];
    }
    AppendRecord(prefix, last, n, w, i);
  }

  /** Once the records before i succeed, the first failing record i decides the failure. */
  lemma {:induction false} ConcatFirstFailure<T>(s: seq<T>, record: T -> Result<seq<uint8>>, i: nat)
    requires i < |s| && Concat(s[..i], record).Ok? && record(s[i]).Throws?
    ensures Concat(s, record) == Throws(record(s[i]).error)
  {
    var n := |s| - 1;
    if i < n {
      assert s[..n][..i] == s[..i];
      assert s[..n][i] == s[i];
      ConcatFirstFailure(s[..n], record, i);
    } else {
      assert s[..n] == s[..i];
    }
  }

  /** The concatenation depends only on the records of the elements of s. */
  lemma {:induction false} ConcatCongruent<T>(s: seq<T>, record1: T -> Result<seq<uint8>>, record2: T -> Result<seq<uint8>>)
    requires forall i :: 0 <= i < |s| ==> record1(s[i]) == record2(s[i])
    ensures Concat(s, record1) == Concat(s, record2)
  {
    if s != [] {
      var n := |s| - 1;
      assert forall i :: 0 <= i < n ==> s[..n][i] == s[i];
      ConcatCongruent(s[..n], record1, record2);
    }
  }

  /** The content is produced exactly when every entry's record can be. */
  lemma {:induction false} EncodeEntriesSucceeds(s: seq<Entry>, dynamic: bool, ctx: Resolved)
    ensures EncodeEntries(s, dynamic, ctx).Ok? <==> forall i :: 0 <= i < |s| ==> EncodeEntry(s[i], dynamic, ctx).Ok?
  {
    var record := e => EncodeEntry(e, dynamic, ctx);
    assert EncodeEntries(s, dynamic, ctx) == Concat(s, record);
    ConcatSucceeds(s, record);
    assert forall i :: 0 <= i < |s| ==> record(s[i]) == EncodeEntry(s[i], dynamic, ctx);
  }

  /**
   * The content is one record per entry: entries.size() * 16 bytes for
   * ELFCLASS32 and entries.size() * 24 bytes for ELFCLASS64.
   */
  lemma {:induction false} EncodeEntriesLength(s: seq<Entry>, dynamic: bool, ctx: Resolved)
    requires EncodeEntries(s, dynamic, ctx).Ok?
    ensures |EncodeEntries(s, dynamic, ctx).value| == |s| * EntrySize(ctx.fileClass)
  {
    var record := e => EncodeEntry(e, dynamic, ctx);
    assert EncodeEntries(s, dynamic, ctx) == Concat(s, record);
    ConcatLength(s, record, EntrySize(ctx.fileClass));
  }

  /** Entry i's record is at bytes i * size up to (i + 1) * size of the content. */
  lemma {:induction false} EncodeEntriesRecordAt(s: seq<Entry>, dynamic: bool, ctx: Resolved, i: nat)
    requires EncodeEntries(s, dynamic, ctx).Ok? && i < |s|
    ensures EncodeEntry(s[i], dynamic, ctx).Ok?
    ensures RecordAt(EncodeEntries(s, dynamic, ctx).value, i, EntrySize(ctx.fileClass), EncodeEntry(s[i], dynamic, ctx).value)
  {
    var record := e => EncodeEntry(e, dynamic, ctx);
    assert EncodeEntries(s, dynamic, ctx) == Concat(s, record);
    ConcatRecordAt(s, record, EntrySize(ctx.fileClass), i);
    assert record(s[i]) == EncodeEntry(s[i], dynamic, ctx);
  }

  /** One record reads at most the vaddr of the section its entry refers to, and only in a dynamic table. */
  lemma RecordReadsOnlyItsVaddr(e: Entry, dynamic: bool, ctx: Resolved, vaddr: SectionId -> Int32)
    requires dynamic && e.reference.InSection? ==> vaddr(e.reference.section) == ctx.vaddr(e.reference.section)
    ensures EncodeEntry(e, dynamic, ctx) == EncodeEntry(e, dynamic, ctx.(vaddr := vaddr))
  {
    var ctx' := ctx.(vaddr := vaddr);
    assert EncodedValue(e, dynamic, ctx.vaddr) == EncodedValue(e, dynamic, vaddr);
    assert FillStruct(e, dynamic, ctx) == FillStruct(e, dynamic, ctx');
  }

  /**
   * A static table's content does not depend on any section's vaddr; a
   * dynamic table's depends only on the vaddrs of the sections its entries
   * refer to.
   */
  lemma {:induction false} ContentReadsOnlyReferencedVaddrs(s: seq<Entry>, dynamic: bool, ctx: Resolved, vaddr: SectionId -> Int32)
    requires dynamic ==> forall sec :: sec in ReferencedSections(s) ==> vaddr(sec) == ctx.vaddr(sec)
    ensures EncodeEntries(s, dynamic, ctx) == EncodeEntries(s, dynamic, ctx.(vaddr := vaddr))
  {
    var ctx' := ctx.(vaddr := vaddr);
    forall i | 0 <= i < |s|
      ensures EncodeEntry(s[i], dynamic, ctx) == EncodeEntry(s[i], dynamic, ctx')
    {
      if s[i].reference.InSection? {
        assert s[i].reference.section in ReferencedSections(s);
      }
      RecordReadsOnlyItsVaddr(s[i], dynamic, ctx, vaddr);
    }
    var record := e => EncodeEntry(e, dynamic, ctx);
    var record' := e => EncodeEntry(e, dynamic, ctx');
    assert EncodeEntries(s, dynamic, ctx) == Concat(s, record);
    assert EncodeEntries(s, dynamic, ctx') == Concat(s, record');
    ConcatCongruent(s, record, record');
  }
}

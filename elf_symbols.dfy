/**
 * One row of an ELF symbol table (ELFSymtab.Entry) and the enumerations it is
 * built from: symbol binding, symbol type and the pseudo-sections (section
 * indices SHN_ABS, SHN_COMMON and SHN_UNDEF of the System V gABI, chapter 4,
 * "Symbol Table").
 */
module ElfSymbols {
  import opened JavaSemantics
  import opened ByteCodec

  /** STB_* values, in declaration order (the ordinal is the on-disk value). */
  datatype SymBinding = LOCAL | GLOBAL | WEAK | LOPROC | HIPROC {
    function Ordinal(): (r: nat)
      ensures r < 5
    {
      match this
      case LOCAL => 0
      case GLOBAL => 1
      case WEAK => 2
      case LOPROC => 3
      case HIPROC => 4
    }
  }

  /** STT_* values, in declaration order. */
  datatype SymType = NOTYPE | OBJECT | FUNC | SECTION | FILE | LOPROC | HIPROC {
    function Ordinal(): (r: nat)
      ensures r < 7
    {
      match this
      case NOTYPE => 0
      case OBJECT => 1
      case FUNC => 2
      case SECTION => 3
      case FILE => 4
      case LOPROC => 5
      case HIPROC => 6
    }
  }

  datatype PseudoSection = ABS | COMMON | UNDEF

  /** Identity of an ELF section of the enclosing object file. */
  type SectionId = nat

  /**
   * What an entry refers to: a real section or a pseudo-section. The source
   * keeps two nullable fields of which at most one is set; neither is set only
   * for the null entry.
   */
  datatype Reference = InSection(section: SectionId) | Pseudo(pseudo: PseudoSection) | NoReference

  /** An immutable symbol-table entry; object identity matters (entries are hashed by identity). */
  class Entry {
    const name: string
    const value: Int64
    const size: Int64
    const binding: Option<SymBinding>
    const symType: Option<SymType>
    const reference: Reference

    /** An entry that refers to a real section. */
    constructor InSection(name: string, value: Int64, size: Int64, binding: Option<SymBinding>,
                          symType: Option<SymType>, section: SectionId)
      ensures this.name == name && this.value == value && this.size == size
      ensures this.binding == binding && this.symType == symType
      ensures reference == Reference.InSection(section)
      ensures WellFormed()
    {
      this.name := name;
      this.value := value;
      this.size := size;
      this.binding := binding;
      this.symType := symType;
      this.reference := Reference.InSection(section);
    }

    /** An entry that refers to a pseudo-section. */
    constructor InPseudoSection(name: string, value: Int64, size: Int64, binding: Option<SymBinding>,
                                symType: Option<SymType>, pseudo: PseudoSection)
      ensures this.name == name && this.value == value && this.size == size
      ensures this.binding == binding && this.symType == symType
      ensures reference == Pseudo(pseudo)
      ensures WellFormed()
    {
      this.name := name;
      this.value := value;
      this.size := size;
      this.binding := binding;
      this.symType := symType;
      this.reference := Pseudo(pseudo);
    }

    /** The null entry, at index 0 of every symbol table. */
    constructor Null()
      ensures IsNull() && WellFormed()
    {
      name := "";
      value := 0;
      size := 0;
      binding := None;
      symType := None;
      reference := NoReference;
    }

    /** The constructors' invariant: only the null entry refers to nothing. */
    predicate WellFormed()
    {
      reference.NoReference? ==> IsNull()
    }

    /** The null entry counts as defined: it has no pseudo-section at all. */
    predicate IsDefined()
      ensures IsNull() ==> IsDefined()
    {
      reference != Pseudo(UNDEF)
    }

    predicate IsAbsolute()
      ensures IsAbsolute() ==> IsDefined()
    {
      reference == Pseudo(ABS)
    }

    predicate IsCommon()
      ensures IsCommon() ==> IsDefined() && !IsAbsolute()
    {
      reference == Pseudo(COMMON)
    }

    predicate IsFunction()
      ensures IsFunction() ==> !IsNull()
    {
      symType == Some(FUNC)
    }

    predicate IsNull()
      ensures IsNull() ==> !IsLocal()
    {
      name == [] && value == 0 && size == 0 && binding.None? && symType.None? && reference.NoReference?
    }

    /** The test the table uses to keep local symbols together. */
    predicate IsLocal()
    {
      binding == Some(LOCAL)
    }

    /** getDefinedOffset: the value, for defined, non-absolute symbols only. */
    function GetDefinedOffset(): (r: Result<Int64>)
      ensures r.Ok? <==> IsDefined() && !IsAbsolute()
      ensures r.Ok? ==> r.value == value
      ensures r.Throws? ==> r.error.IllegalStateException?
    {
      if !IsDefined() || IsAbsolute() then Throws(IllegalStateException("queried offset of an undefined or absolute symbol"))
      else Ok(value)
    }

    /** getDefinedAbsoluteValue: the value, for absolute symbols only. */
    function GetDefinedAbsoluteValue(): (r: Result<Int64>)
      ensures r.Ok? <==> IsAbsolute()
      ensures r.Ok? ==> r.value == value
      ensures r.Throws? ==> r.error.IllegalStateException?
    {
      if !IsAbsolute() then Throws(IllegalStateException("queried absolute value of a non-absolute symbol"))
      else Ok(value)
    }

    /** getReferencedSection (also getDefinedSection): null for pseudo-sections and the null entry. */
    function GetReferencedSection(): (r: Option<SectionId>)
      ensures r.Some? <==> reference.InSection?
      ensures r.Some? ==> reference == Reference.InSection(r.value)
    {
      if reference.InSection? then Some(reference.section) else None
    }
  }

  /**
   * st_info = ELF32_ST_INFO(binding, type): type in the low nibble, binding in
   * the high nibble; 0 when both are absent (the null entry). One absent
   * without the other is an assertion failure.
   */
  function CreateInfoByte(t: Option<SymType>, b: Option<SymBinding>): (r: Result<uint8>)
    ensures r.Ok? <==> t.Some? == b.Some?
    ensures r.Throws? ==> r.error == AssertionError
  {
    if t.None? || b.None? then
      if t.None? && b.None? then Ok(0) else Throws(AssertionError)
    else
      Ok(((t.value.Ordinal() as bv8) | ((b.value.Ordinal() as bv8) << 4)) as int)
  }

  /** ELF32_ST_BIND(i): the high nibble. */
  function StBind(info: uint8): nat
  {
    info / 16
  }

  /** ELF32_ST_TYPE(i): the low nibble. */
  function StType(info: uint8): nat
  {
    info % 16
  }

  lemma PackNibbles(t: bv8, b: bv8)
    requires t < 16 && b < 16
    ensures (t | (b << 4)) as int == t as int + 16 * b as int
  {
  }

  /** The gABI's unpacking macros recover the binding and the type that were packed. */
  lemma InfoByteRoundTrip(t: SymType, b: SymBinding)
    ensures CreateInfoByte(Some(t), Some(b)).Ok?
    ensures StBind(CreateInfoByte(Some(t), Some(b)).value) == b.Ordinal()
    ensures StType(CreateInfoByte(Some(t), Some(b)).value) == t.Ordinal()
  {
    PackNibbles(t.Ordinal() as bv8, b.Ordinal() as bv8);
  }

  /**
   * The info byte is 0 exactly for the null entry's (absent, absent) and for a
   * LOCAL symbol of type NOTYPE.
   */
  lemma InfoByteZero(t: Option<SymType>, b: Option<SymBinding>)
    requires CreateInfoByte(t, b).Ok?
    ensures CreateInfoByte(t, b).value == 0 <==> t.None? || (t == Some(NOTYPE) && b == Some(LOCAL))
  {
    if t.Some? {
      InfoByteRoundTrip(t.value, b.value);
    }
  }
}

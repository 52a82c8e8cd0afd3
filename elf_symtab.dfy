/**
 * The symbol-table section (ELFSymtab): entries kept in comparator order with
 * the null entry first, a name map, and an entry-to-index map whose creation
 * seals the table; the sh_info value, the section content and the layout
 * dependencies it reports.
 */
module ElfSymtab {
  import opened JavaSemantics
  import opened ByteCodec
  import opened ElfSymbols
  import opened EntryOrder
  import opened EntryCodec

  /**
   * What newDefinedEntry and newUndefinedEntry hand to addEntry: a referring
   * entry, bound GLOBAL or LOCAL, of type FUNC or OBJECT.
   */
  predicate Addable(e: Entry)
  {
    && e.WellFormed() && !e.IsNull()
    && (e.binding == Some(GLOBAL) || e.binding == Some(LOCAL))
    && (e.symType == Some(FUNC) || e.symType == Some(OBJECT))
  }

  /** The TreeSet's contents in iteration order: the null entry, then the added entries, ascending. */
  ghost predicate TableOrder(s: seq<Entry>)
  {
    |s| >= 1 && s[0].IsNull() && Sorted(s) && forall i :: 1 <= i < |s| ==> Addable(s[i])
  }

  /**
   * entriesByName: every entry's name is a key, and each key maps to an entry
   * of that name that ties with keptFor[name], an entry of the table (the
   * mapped entry itself, or the one the TreeSet kept in its place).
   */
  ghost predicate NamesIndexed(s: seq<Entry>, byName: map<string, Entry>, keptFor: map<string, Entry>)
  {
    && (forall i {:trigger s[i].name in byName} :: 0 <= i < |s| ==> s[i].name in byName)
    && (forall n {:trigger byName[n]} :: n in byName ==>
          && n in keptFor && byName[n].name == n && keptFor[n].name == n
          && keptFor[n] in s && Compare(keptFor[n], byName[n]) == 0)
  }

  /** entriesToIndex: exactly the entries of s, each mapped to its position. */
  ghost predicate IndexesOf(m: map<Entry, int>, s: seq<Entry>)
  {
    && (forall e :: e in m ==> 0 <= m[e] < |s| && s[m[e]] == e)
    && (forall i {:trigger s[i] in m} :: 0 <= i < |s| ==> s[i] in m && m[s[i]] == i)
  }

  /** A numbering of distinct entries has one key per entry. */
  lemma IndexesOfCardinality(m: map<Entry, int>, s: seq<Entry>)
    requires IndexesOf(m, s)
    requires forall i, j :: 0 <= i < j < |s| ==> s[i] != s[j]
    ensures |m| == |s|
  {
    forall e | e in s
      ensures e in m
    {
      var i :| 0 <= i < |s| && s[i] == e;
    }
    assert m.Keys == set e | e in s;
    DistinctCardinality(s);
  }

  lemma SortedDistinct(s: seq<Entry>)
    requires Sorted(s)
    ensures forall i, j :: 0 <= i < j < |s| ==> s[i] != s[j]
  {
    forall i, j | 0 <= i < j < |s|
      ensures s[i] != s[j]
    {
      CompareReflexive(s[i]);
    }
  }

  /** A sequence without repeated elements has as many distinct elements as positions. */
  lemma {:induction false} DistinctCardinality(s: seq<Entry>)
    requires forall i, j :: 0 <= i < j < |s| ==> s[i] != s[j]
    ensures |set e | e in s| == |s|
  {
    if s != [] {
      var n := |s| - 1;
      DistinctCardinality(s[..n]);
      assert (set e | e in s) == (set e | e in s[..n]) + {s[n]};
      assert s[n] !in (set e | e in s[..n]);
    }
  }

  /** Entries tie only with entries of the same name. */
  lemma TieSameName(a: Entry, b: Entry)
    requires Compare(a, b) == 0
    ensures a.name == b.name
  {
    FlagCompareIsRankOrder(a, b);
    StringCompareToZero(a.name, b.name);
  }

  /**
   * In a table in order, the LOCAL entries are exactly those at indices 1 up
   * to the first non-LOCAL one: they form one block right after the null
   * entry.
   */
  lemma LocalsContiguous(s: seq<Entry>, i: nat, j: nat)
    requires TableOrder(s)
    requires i < j < |s| && s[j].IsLocal()
    ensures s[i].IsNull() || s[i].IsLocal()
  {
    if !s[i].IsNull() && !s[i].IsLocal() {
      LocalsBeforeNonLocals(s[j], s[i]);
      CompareAntisymmetric(s[j], s[i]);
    }
  }

  /** One greater than the index of the last LOCAL entry, 0 when there is none. */
  ghost function LocalBoundary(s: seq<Entry>): nat
  {
    if s == [] then 0
    else if s[|s| - 1].IsLocal() then |s|
    else LocalBoundary(s[..|s| - 1])
  }

  /** LocalBoundary(s) is one past the last LOCAL entry; no later entry is LOCAL. */
  lemma {:induction false} LocalBoundaryIsLast(s: seq<Entry>)
    ensures LocalBoundary(s) <= |s|
    ensures LocalBoundary(s) > 0 ==> s[LocalBoundary(s) - 1].IsLocal()
    ensures forall i :: LocalBoundary(s) <= i < |s| ==> !s[i].IsLocal()
  {
    if s != [] && !s[|s| - 1].IsLocal() {
      LocalBoundaryIsLast(s[..|s| - 1]);
    }
  }

  /**
   * In a table in order, entry i is LOCAL exactly when 1 <= i < LocalBoundary:
   * sh_info computed this way is one past a contiguous block of locals.
   */
  lemma LocalBoundarySplits(s: seq<Entry>)
    requires TableOrder(s)
    ensures forall i :: 0 <= i < |s| ==> (s[i].IsLocal() <==> 1 <= i < LocalBoundary(s))
    ensures LocalBoundary(s) == 0 <==> forall i :: 0 <= i < |s| ==> !s[i].IsLocal()
  {
    LocalBoundaryIsLast(s);
    var k := LocalBoundary(s);
    forall i | 0 <= i < |s|
      ensures s[i].IsLocal() <==> 1 <= i < k
    {
      if 1 <= i && i + 1 < k {
        LocalsContiguous(s, i, k - 1);
      }
    }
  }

  /**
   * The sh_info the gABI asks for: one greater than the index of the last
   * symbol whose binding is STB_LOCAL, counting the null entry at index 0,
   * whose st_info of 0 reads as STB_LOCAL.
   */
  ghost function StandardLinkedInfo(s: seq<Entry>): nat
  {
    if LocalBoundary(s) == 0 then 1 else LocalBoundary(s)
  }

  /** The binding nibble that entry e's st_info carries (the null entry's is 0). */
  function InfoBinding(e: Entry): nat
    requires e.binding.Some? == e.symType.Some?
  {
    StBind(CreateInfoByte(e.symType, e.binding).value)
  }

  /**
   * With the standard value, the entries before sh_info are exactly those whose
   * written st_info says STB_LOCAL.
   */
  lemma StandardLinkedInfoSplitsLocals(s: seq<Entry>)
    requires TableOrder(s)
    ensures 1 <= StandardLinkedInfo(s) <= |s|
    ensures forall i :: 0 <= i < |s| ==> (InfoBinding(s[i]) == LOCAL.Ordinal() <==> i < StandardLinkedInfo(s))
  {
    LocalBoundarySplits(s);
    LocalBoundaryIsLast(s);
    forall i | 0 <= i < |s|
      ensures InfoBinding(s[i]) == LOCAL.Ordinal() <==> s[i].IsNull() || s[i].IsLocal()
    {
      if !s[i].IsNull() {
        InfoByteRoundTrip(s[i].symType.value, s[i].binding.value);
        assert s[i].binding.value.Ordinal() == 0 <==> s[i].binding.value == LOCAL;
      }
    }
    forall i | 1 <= i < |s|
      ensures !s[i].IsNull()
    {
    }
  }

  /**
   * In the table, the written st_info is 0 for the null entry alone: every
   * other entry is FUNC or OBJECT, whose type nibble is not 0.
   */
  lemma InfoByteZeroOnlyNull(s: seq<Entry>)
    requires TableOrder(s)
    ensures forall i :: 0 <= i < |s| ==> (CreateInfoByte(s[i].symType, s[i].binding) == Ok(0) <==> i == 0)
  {
    forall i | 0 <= i < |s|
      ensures CreateInfoByte(s[i].symType, s[i].binding) == Ok(0) <==> i == 0
    {
      if i > 0 {
        InfoByteRoundTrip(s[i].symType.value, s[i].binding.value);
      }
    }
  }

  /**
   * A table holding the null entry and one GLOBAL symbol: getLinkedInfo's value
   * (LocalBoundary) is 0, yet the null entry at index 0 is written with
   * binding STB_LOCAL, so an sh_info of 0 claims no local symbol where the
   * gABI counts one.
   */
  lemma LinkedInfoZeroMissesNullEntry(s: seq<Entry>)
    requires |s| == 2 && s[0].IsNull() && s[1].binding == Some(GLOBAL)
    ensures LocalBoundary(s) == 0
    ensures InfoBinding(s[0]) == LOCAL.Ordinal()
    ensures StandardLinkedInfo(s) == 1
  {
    assert s[..1][..0] == [];
    assert LocalBoundary(s[..1]) == 0;
  }

  /** A layout decision: one property of one element of the object file. */
  datatype DecisionKind = OFFSET | CONTENT | SIZE | VADDR

  datatype Decision = Decision(element: SectionId, kind: DecisionKind)

  /** "dependent cannot be decided before dependency". */
  datatype BuildDependency = BuildDependency(dependent: Decision, dependency: Decision)

  /** The sections entries of s refer to, gathered one entry at a time. */
  lemma ReferencedSectionsStep(s: seq<Entry>, i: nat)
    requires i < |s|
    ensures ReferencedSections(s[..i + 1]) ==
      ReferencedSections(s[..i]) + (if s[i].reference.InSection? then {s[i].reference.section} else {})
  {
    var a := s[..i + 1];
    assert forall j :: 0 <= j < i ==> a[j] == s[..i][j];
  }

  /** Adding a non-null entry leaves the null entry in front. */
  lemma AddKeepsNullFirst(s: seq<Entry>, e: Entry)
    requires |s| >= 1 && s[0].IsNull() && !e.IsNull()
    ensures |SetAdd(s, e)| >= 1 && SetAdd(s, e)[0] == s[0]
  {
    NullEntryFirst(s[0], e);
    CompareAntisymmetric(s[0], e);
  }

  /** Every entry after the null entry is still one addEntry accepts. */
  lemma AddKeepsAddable(s: seq<Entry>, t: seq<Entry>, e: Entry)
    requires |s| >= 1 && (forall i :: 1 <= i < |s| ==> Addable(s[i])) && Addable(e)
    requires multiset(t) <= multiset(s) + multiset{e}
    requires |t| >= 1 && t[0] == s[0] && forall i, j :: 0 <= i < j < |t| ==> t[i] != t[j]
    ensures forall i :: 1 <= i < |t| ==> Addable(t[i])
  {
    forall i | 1 <= i < |t|
      ensures Addable(t[i])
    {
      assert t[i] in multiset(s) + multiset{e};
      if t[i] != e {
        var j :| 0 <= j < |s| && s[j] == t[i];
        assert j != 0;
      }
    }
  }

  /**
   * The name map after addEntry(e): e's name now maps to e, whose tie partner
   * p is in the table; every other name keeps its partner.
   */
  lemma AddKeepsNames(s: seq<Entry>, t: seq<Entry>, byName: map<string, Entry>, keptFor: map<string, Entry>,
                      e: Entry, p: Entry)
    requires NamesIndexed(s, byName, keptFor)
    requires multiset(s) <= multiset(t) <= multiset(s) + multiset{e}
    requires p in t && p.name == e.name && Compare(p, e) == 0
    ensures NamesIndexed(t, byName[e.name := e], keptFor[e.name := p])
  {
    var byName' := byName[e.name := e];
    forall i | 0 <= i < |t|
      ensures t[i].name in byName'
    {
      assert t[i] in multiset(s) + multiset{e};
    }
    forall n | n in byName' && n != e.name
      ensures keptFor[n] in t
    {
      assert keptFor[n] in multiset(s);
    }
  }

  /** addEntry keeps the null entry first, the order, and what entries may follow it. */
  lemma AddKeepsTableOrder(s: seq<Entry>, e: Entry)
    requires TableOrder(s) && Addable(e)
    ensures TableOrder(SetAdd(s, e))
  {
    var t := SetAdd(s, e);
    SetAddKeepsOrder(s, e);
    AddKeepsNullFirst(s, e);
    SortedDistinct(t);
    AddKeepsAddable(s, t, e);
  }

  /**
   * addEntry keeps the name map's invariant; p is the entry of the new table
   * that e ties with (e itself when the TreeSet took it).
   */
  lemma AddKeepsNameMap(s: seq<Entry>, byName: map<string, Entry>, keptFor: map<string, Entry>, e: Entry)
    returns (p: Entry)
    requires Sorted(s) && NamesIndexed(s, byName, keptFor)
    ensures NamesIndexed(SetAdd(s, e), byName[e.name := e], keptFor[e.name := p])
  {
    var t := SetAdd(s, e);
    SetAddKeepsOrder(s, e);
    if HasTie(s, e) {
      var k :| 0 <= k < |s| && Compare(s[k], e) == 0;
      p := s[k];
      TieSameName(p, e);
    } else {
      p := e;
      CompareReflexive(e);
      assert e in multiset(t);
    }
    AddKeepsNames(s, t, byName, keptFor, e, p);
  }

  /** What every method of the table keeps: ordered entries, names indexed, and a seal that numbers them. */
  ghost predicate TableInvariant(s: seq<Entry>, byName: map<string, Entry>, keptFor: map<string, Entry>,
                                 index: Option<map<Entry, int>>)
  {
    && TableOrder(s)
    && NamesIndexed(s, byName, keptFor)
    && (index.Some? ==> IndexesOf(index.value, s))
  }

  /** An unsealed add keeps the table invariant, with p the entry that now stands for e.name. */
  lemma AddKeepsInvariant(s: seq<Entry>, byName: map<string, Entry>, keptFor: map<string, Entry>, e: Entry)
    returns (p: Entry)
    requires TableInvariant(s, byName, keptFor, None) && Addable(e)
    ensures TableInvariant(SetAdd(s, e), byName[e.name := e], keptFor[e.name := p], None)
  {
    AddKeepsTableOrder(s, e);
    p := AddKeepsNameMap(s, byName, keptFor, e);
  }

  class Symtab {
    /** SHT_DYNSYM (true) or SHT_SYMTAB (false). */
    const dynamic: bool
    /** This section and its string table, as elements of the object file. */
    const section: SectionId
    const strtab: SectionId

    /** The TreeSet in iteration order. */
    var entries: seq<Entry>
    var entriesByName: map<string, Entry>
    /** null (None) until the first indexOf; once set, the table is sealed. */
    var entriesToIndex: Option<map<Entry, int>>
    /** For each name, the entry of the table that its mapped entry ties with. */
    ghost var keptFor: map<string, Entry>

    ghost predicate Valid()
      reads this
    {
      TableInvariant(entries, entriesByName, keptFor, entriesToIndex)
    }

    /** A new table holds the null entry alone, under the name "", and is not sealed. */
    constructor(dynamic: bool, section: SectionId, strtab: SectionId)
      ensures Valid()
      ensures this.dynamic == dynamic && this.section == section && this.strtab == strtab
      ensures |entries| == 1 && entries[0].IsNull()
      ensures entriesByName == map["" := entries[0]]
      ensures entriesToIndex.None?
    {
      this.dynamic := dynamic;
      this.section := section;
      this.strtab := strtab;
      var nullEntry := new Entry.Null();
      entries := [nullEntry];
      entriesByName := map[nullEntry.name := nullEntry];
      entriesToIndex := None;
      keptFor := map[nullEntry.name := nullEntry];
      new;
      CompareReflexive(nullEntry);
      assert Compare(entries[0], nullEntry) == 0;
    }

    /**
     * addEntry: refused once sealed; otherwise the entry joins the ordered set
     * (unless an entry already there ties with it) and its name is mapped to it
     * in any case. The entry is returned either way.
     */
    method AddEntry(e: Entry) returns (r: Result<Entry>)
      requires Valid() && Addable(e)
      modifies this
      ensures Valid()
      ensures entriesToIndex == old(entriesToIndex)
      ensures old(entriesToIndex).Some? ==>
        && r == Throws(IllegalArgumentException("Symbol table already sealed"))
        && unchanged(this)
      ensures old(entriesToIndex).None? ==>
        && r == Ok(e)
        && entries == SetAdd(old(entries), e)
        && entriesByName == old(entriesByName)[e.name := e]
      ensures old(entriesToIndex).None? && HasTie(old(entries), e) ==> entries == old(entries)
      ensures old(entriesToIndex).None? && !HasTie(old(entries), e) ==>
        multiset(entries) == multiset(old(entries)) + multiset{e}
    {
      if entriesToIndex.Some? {
        return Throws(IllegalArgumentException("Symbol table already sealed"));
      }
      ghost var p := AddKeepsInvariant(entries, entriesByName, keptFor, e);
      SetAddKeepsOrder(entries, e);
      keptFor := keptFor[e.name := p];
      entries := SetAdd(entries, e);
      entriesByName := entriesByName[e.name := e];
      r := Ok(e);
    }

    /**
     * newDefinedEntry: an entry at an offset in a section, GLOBAL or LOCAL,
     * FUNC or OBJECT. A null section fails the Entry constructor's assertion.
     */
    method NewDefinedEntry(name: string, referencedSection: Option<SectionId>, referencedOffset: Int64, size: Int64,
                           isGlobal: bool, isCode: bool) returns (r: Result<Entry>)
      requires Valid()
      modifies this
      ensures Valid()
      ensures referencedSection.None? ==> r == Throws(AssertionError) && unchanged(this)
      ensures referencedSection.Some? && old(entriesToIndex).Some? ==>
        r == Throws(IllegalArgumentException("Symbol table already sealed")) && unchanged(this)
      ensures referencedSection.Some? && old(entriesToIndex).None? ==>
        && r.Ok? && fresh(r.value)
        && r.value.name == name && r.value.value == referencedOffset && r.value.size == size
        && r.value.binding == Some(if isGlobal then GLOBAL else LOCAL)
        && r.value.symType == Some(if isCode then FUNC else OBJECT)
        && r.value.reference == Reference.InSection(referencedSection.value)
        && entries == SetAdd(old(entries), r.value)
        && entriesByName == old(entriesByName)[name := r.value]
        && entriesToIndex.None?
    {
      if referencedSection.None? {
        return Throws(AssertionError);
      }
      var e := new Entry.InSection(name, referencedOffset, size, Some(if isGlobal then GLOBAL else LOCAL),
                                   Some(if isCode then FUNC else OBJECT), referencedSection.value);
      r := AddEntry(e);
    }

    /** newUndefinedEntry: a GLOBAL, UNDEF entry of value and size 0, FUNC or OBJECT. */
    method NewUndefinedEntry(name: string, isCode: bool) returns (r: Result<Entry>)
      requires Valid()
      modifies this
      ensures Valid()
      ensures old(entriesToIndex).Some? ==>
        r == Throws(IllegalArgumentException("Symbol table already sealed")) && unchanged(this)
      ensures old(entriesToIndex).None? ==>
        && r.Ok? && fresh(r.value)
        && r.value.name == name && r.value.value == 0 && r.value.size == 0
        && r.value.binding == Some(GLOBAL)
        && r.value.symType == Some(if isCode then FUNC else OBJECT)
        && r.value.reference == Pseudo(UNDEF)
        && entries == SetAdd(old(entries), r.value)
        && entriesByName == old(entriesByName)[name := r.value]
        && entriesToIndex.None?
    {
      var e := new Entry.InPseudoSection(name, 0, 0, Some(GLOBAL), Some(if isCode then FUNC else OBJECT), UNDEF);
      r := AddEntry(e);
    }

    /** getNullEntry: the first entry in iteration order. */
    function GetNullEntry(): (r: Entry)
      requires Valid()
      reads this
      ensures r.IsNull() && r.name == [] && r.binding.None? && r.symType.None?
      ensures forall i :: 1 <= i < |entries| ==> Compare(r, entries[i]) < 0
    {
      entries[0]
    }

    /** getSymbol: the entry last added under name, or null. */
    function GetSymbol(name: string): (r: Option<Entry>)
      requires Valid()
      reads this
      ensures r.Some? <==> name in entriesByName
      ensures r.Some? ==> r.value.name == name && HasTie(entries, r.value)
    {
      if name in entriesByName then Some(entriesByName[name]) else None
    }

    /**
     * initializeEntriesToIndex: number the entries in iteration order. The
     * map has as many keys as there are entries (the source's assertion).
     */
    method InitializeEntriesToIndex()
      requires Valid()
      modifies this
      ensures Valid()
      ensures entries == old(entries) && entriesByName == old(entriesByName)
      ensures entriesToIndex.Some? && IndexesOf(entriesToIndex.value, entries)
      ensures |entriesToIndex.value| == |entries|
    {
      SortedDistinct(entries);
      var m: map<Entry, int> := map[];
      for index := 0 to |entries|
        invariant forall e :: e in m ==> 0 <= m[e] < index && entries[m[e]] == e
        invariant forall j :: 0 <= j < index ==> entries[j] in m && m[entries[j]] == j
      {
        m := m[entries[index] := index];
      }
      IndexesOfCardinality(m, entries);
      entriesToIndex := Some(m);
    }

    /**
     * indexOf: seals the table on first use; an entry's position in iteration
     * order, or -1 for an entry that is not in the table.
     */
    method IndexOf(sym: Entry) returns (r: int)
      requires Valid()
      modifies this
      ensures Valid()
      ensures entries == old(entries) && entriesByName == old(entriesByName)
      ensures entriesToIndex.Some?
      ensures old(entriesToIndex).Some? ==> entriesToIndex == old(entriesToIndex)
      ensures r == -1 <==> sym !in entries
      ensures r != -1 ==> 0 <= r < |entries| && entries[r] == sym
    {
      if entriesToIndex.None? {
        InitializeEntriesToIndex();
      }
      var m := entriesToIndex.value;
      if sym in m {
        r := m[sym];
      } else {
        r := -1;
        forall i | 0 <= i < |entries|
          ensures entries[i] != sym
        {
          assert entries[i] in m;
        }
      }
    }

    /** getWrittenSize: one record per entry. */
    function GetWrittenSize(c: FileClass): (r: nat)
      reads this
      ensures c == ELFCLASS32 ==> r == 16 * |entries|
      ensures c == ELFCLASS64 ==> r == 24 * |entries|
    {
      |entries| * EntrySize(c)
    }

    /**
     * getLinkedInfo: scan for the last LOCAL entry, skipping the null entry
     * and stopping at the first non-LOCAL entry after a LOCAL one; one past
     * its index, or 0 when there is none.
     */
    method GetLinkedInfo() returns (info: int)
      requires Valid()
      ensures info == LocalBoundary(entries)
      ensures info == 0 <==> forall i :: 0 <= i < |entries| ==> !entries[i].IsLocal()
      ensures forall i :: 0 <= i < |entries| ==> (entries[i].IsLocal() <==> 1 <= i < info)
    {
      LocalBoundarySplits(entries);
      var lastLocal := -1;
      var i := 0;
      while i < |entries|
        invariant 0 <= i <= |entries|
        invariant -1 <= lastLocal < i
        invariant lastLocal == -1 ==> forall j :: 0 <= j < i ==> !entries[j].IsLocal()
        invariant lastLocal != -1 ==> 1 <= lastLocal && forall j :: 0 <= j < i ==> (entries[j].IsLocal() <==> 1 <= j <= lastLocal)
        decreases |entries| - i
      {
        var entry := entries[i];
        if !entry.IsNull() {
          if entry.IsLocal() {
            lastLocal := i;
          } else if lastLocal != -1 {
            break;
          }
        }
        i := i + 1;
      }
      assert i == |entries| || (i >= 1 && !entries[i].IsLocal());
      LocalBoundaryIsLast(entries);
      if lastLocal != -1 {
        var k := LocalBoundary(entries);
        assert entries[lastLocal].IsLocal();
        assert entries[k - 1].IsLocal();
      }
      info := lastLocal + 1;
    }

    /**
     * getOrDecideContent: one record per entry, in iteration order; the
     * first entry whose record cannot be produced aborts with its exception.
     */
    method GetOrDecideContent(ctx: Resolved) returns (r: Result<seq<uint8>>)
      requires Valid()
      ensures r == EncodeEntries(entries, dynamic, ctx)
      ensures r.Ok? ==> |r.value| == GetWrittenSize(ctx.fileClass)
    {
      var out: seq<uint8> := [];
      for i := 0 to |entries|
        invariant EncodeEntries(entries[..i], dynamic, ctx) == Ok(out)
      {
        EncodeEntriesStep(entries, i, dynamic, ctx);
        var e := entries[i];
        var s :- FillStruct(e, dynamic, ctx);
        var record :- Write(s, ctx.fileClass, ctx.byteOrder);
        out := out + record;
      }
      assert entries[..|entries|] == entries;
      EncodeEntriesLength(entries, dynamic, ctx);
      r := Ok(out);
    }

    /** The HashSet of the sections getReferencedSection returns for some entry. */
    method CollectReferencedSections() returns (referencedSections: set<SectionId>)
      ensures referencedSections == ReferencedSections(entries)
    {
      referencedSections := {};
      for i := 0 to |entries|
        invariant referencedSections == ReferencedSections(entries[..i])
      {
        ReferencedSectionsStep(entries, i);
        var es := entries[i].GetReferencedSection();
        if es.Some? {
          referencedSections := referencedSections + {es.value};
        }
      }
      assert entries[..|entries|] == entries;
    }

    /**
     * getDependencies: the default dependencies, then this table's content on
     * its string table's content, then (dynamic tables only) this table's
     * content on the vaddr of each distinct referenced section, in the
     * HashSet's unspecified order.
     */
    method GetDependencies(defaults: seq<BuildDependency>) returns (deps: seq<BuildDependency>)
      ensures |deps| >= |defaults| + 1
      ensures deps[..|defaults| + 1] ==
        defaults + [BuildDependency(Decision(section, CONTENT), Decision(strtab, CONTENT))]
      ensures !dynamic ==> |deps| == |defaults| + 1
      ensures dynamic ==> |deps| == |defaults| + 1 + |ReferencedSections(entries)|
      ensures dynamic ==> forall sec :: sec in ReferencedSections(entries) <==> VaddrDependency(sec) in deps[|defaults| + 1..]
      ensures forall i :: |defaults| + 1 <= i < |deps| ==>
        deps[i] == VaddrDependency(deps[i].dependency.element)
      ensures forall i, j :: |defaults| + 1 <= i < j < |deps| ==> deps[i] != deps[j]
    {
      deps := defaults + [BuildDependency(Decision(section, CONTENT), Decision(strtab, CONTENT))];
      var base := |deps|;
      if dynamic {
        var referencedSections := CollectReferencedSections();
        var added := VaddrDependencies(referencedSections);
        deps := deps + added;
        assert deps[base..] == added;
      }
    }

    /**
     * One content-on-vaddr dependency per section of referencedSections, each
     * once, in the set's unspecified iteration order.
     */
    method VaddrDependencies(referencedSections: set<SectionId>) returns (added: seq<BuildDependency>)
      ensures |added| == |referencedSections|
      ensures forall sec :: sec in referencedSections <==> VaddrDependency(sec) in added
      ensures forall i :: 0 <= i < |added| ==> added[i] == VaddrDependency(added[i].dependency.element)
      ensures forall i, j :: 0 <= i < j < |added| ==> added[i] != added[j]
    {
      var remaining := referencedSections;
      added := [];
      ghost var done: set<SectionId> := {};
      while remaining != {}
        invariant forall x :: x in referencedSections <==> x in done || x in remaining
        invariant forall x :: x in done ==> x !in remaining
        invariant |added| == |done|
        invariant forall i :: 0 <= i < |added| ==>
          added[i] == VaddrDependency(added[i].dependency.element) && added[i].dependency.element in done
        invariant forall sec :: sec in done ==> VaddrDependency(sec) in added
        invariant forall i, j :: 0 <= i < j < |added| ==> added[i] != added[j]
        decreases |remaining|
      {
        var es :| es in remaining;
        ghost var before := added;
        added := added + [VaddrDependency(es)];
        forall i | 0 <= i < |before|
          ensures before[i] != VaddrDependency(es)
        {
          assert before[i].dependency.element in done;
        }
        forall sec | sec in done
          ensures VaddrDependency(sec) in added
        {
          assert VaddrDependency(sec) in before;
        }
        remaining := remaining - {es};
        done := done + {es};
      }
      assert done == referencedSections;
    }

    /** "This table's content needs section sec's vaddr." */
    function VaddrDependency(sec: SectionId): BuildDependency
    {
      BuildDependency(Decision(section, CONTENT), Decision(sec, VADDR))
    }
  }

  /** One more entry's record extends the content, or its failure is the content's failure. */
  lemma EncodeEntriesStep(s: seq<Entry>, i: nat, dynamic: bool, ctx: Resolved)
    requires i < |s| && EncodeEntries(s[..i], dynamic, ctx).Ok?
    ensures EncodeEntry(s[i], dynamic, ctx).Ok? ==>
      EncodeEntries(s[..i + 1], dynamic, ctx) ==
        Ok(EncodeEntries(s[..i], dynamic, ctx).value + EncodeEntry(s[i], dynamic, ctx).value)
    ensures EncodeEntry(s[i], dynamic, ctx).Throws? ==>
      EncodeEntries(s, dynamic, ctx) == Throws(EncodeEntry(s[i], dynamic, ctx).error)
  {
    var record := e => EncodeEntry(e, dynamic, ctx);
    assert EncodeEntries(s[..i + 1], dynamic, ctx) == Concat(s[..i + 1], record);
    assert EncodeEntries(s[..i], dynamic, ctx) == Concat(s[..i], record);
    assert EncodeEntries(s, dynamic, ctx) == Concat(s, record);
    assert s[..i + 1][..i] == s[..i];
    if record(s[i]).Throws? {
      ConcatFirstFailure(s, record, i);
    }
  }
}

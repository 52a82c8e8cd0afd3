/**
 * The order in which a symbol table keeps its entries (ELFSymtab.compareEntries)
 * and insertion into the comparator-ordered set that holds them (TreeSet.add).
 *
 * CompareEntries is the comparator as written. Its offset step subtracts two
 * longs (which wraps) and narrows with Math.toIntExact (which throws), so it is
 * not a total order on all entries. Compare is the same comparator with that
 * step done by Long.compare; it is a total order, and it is the one the table
 * model sorts by.
 */
module EntryOrder {
  import opened JavaSemantics
  import opened ElfSymbols

  /**
   * The first four steps: the null entry first, then LOCAL entries, then
   * undefined before defined, then non-absolute before absolute.
   */
  function FlagCompare(a: Entry, b: Entry): int
  {
    var byNull := -BooleanCompare(a.IsNull(), b.IsNull());
    if byNull != 0 then byNull
    else
      var byLocal := -BooleanCompare(a.IsLocal(), b.IsLocal());
      if byLocal != 0 then byLocal
      else
        var byDefined := BooleanCompare(a.IsDefined(), b.IsDefined());
        if byDefined != 0 then byDefined
        else BooleanCompare(a.IsAbsolute(), b.IsAbsolute())
  }

  /** Entries whose in-section offset takes part in the order. */
  predicate HasOffset(e: Entry)
  {
    e.IsDefined() && !e.IsAbsolute()
  }

  /** compareEntries as written: offsets compared by toIntExact(a.value - b.value), a long subtraction. */
  function CompareEntries(a: Entry, b: Entry): (r: Result<int>)
    ensures r.Throws? ==> r.error == ArithmeticException && FlagCompare(a, b) == 0 && HasOffset(a)
  {
    var flags := FlagCompare(a, b);
    if flags != 0 then Ok(flags)
    else if HasOffset(a) then
      // getDefinedOffset cannot throw here: a and b agree on defined and absolute
      match ToIntExact(WrapLong(a.value - b.value))
      case Throws(e) => Throws(e)
      case Ok(d) => if d == 0 then Ok(StringCompareTo(a.name, b.name)) else Ok(d)
    else Ok(StringCompareTo(a.name, b.name))
  }

  /** compareEntries with the offset step done by Long.compare. */
  function Compare(a: Entry, b: Entry): int
  {
    var flags := FlagCompare(a, b);
    if flags != 0 then flags
    else if HasOffset(a) && a.value != b.value then LongCompare(a.value, b.value)
    else StringCompareTo(a.name, b.name)
  }

  /** The four flags as one number, in the order FlagCompare gives them. */
  function Rank(e: Entry): nat
  {
    (if e.IsNull() then 0 else 8) + (if e.IsLocal() then 0 else 4)
    + (if e.IsDefined() then 2 else 0) + (if e.IsAbsolute() then 1 else 0)
  }

  lemma FlagCompareIsRankOrder(a: Entry, b: Entry)
    ensures FlagCompare(a, b) == LongCompare(Rank(a), Rank(b))
  {
  }

  /** Swapping the operands negates the result. */
  lemma CompareAntisymmetric(a: Entry, b: Entry)
    ensures Compare(a, b) == -Compare(b, a)
  {
    FlagCompareIsRankOrder(a, b);
    FlagCompareIsRankOrder(b, a);
    StringCompareToAntisymmetric(a.name, b.name);
  }

  /** Every entry ties with itself. */
  lemma CompareReflexive(a: Entry)
    ensures Compare(a, a) == 0
  {
    StringCompareToZero(a.name, a.name);
  }

  /** Tied entries are interchangeable: they compare alike with every entry. */
  lemma CompareTie(a: Entry, b: Entry, c: Entry)
    requires Compare(a, b) == 0
    ensures Compare(a, c) == Compare(b, c)
  {
    FlagCompareIsRankOrder(a, b);
    FlagCompareIsRankOrder(a, c);
    FlagCompareIsRankOrder(b, c);
    StringCompareToZero(a.name, b.name);
  }

  /** Compare is a strict order. */
  lemma CompareTransitive(a: Entry, b: Entry, c: Entry)
    requires Compare(a, b) < 0 && Compare(b, c) < 0
    ensures Compare(a, c) < 0
  {
    FlagCompareIsRankOrder(a, b);
    FlagCompareIsRankOrder(b, c);
    FlagCompareIsRankOrder(a, c);
    if Rank(a) == Rank(b) == Rank(c) {
      if HasOffset(a) && a.value == b.value == c.value {
        StringCompareToTransitive(a.name, b.name, c.name);
      } else if HasOffset(a) && a.value == b.value {
        StringCompareToZero(a.name, b.name);
      } else if HasOffset(a) && b.value == c.value {
        StringCompareToZero(b.name, c.name);
      } else if !HasOffset(a) {
        StringCompareToTransitive(a.name, b.name, c.name);
      }
    }
  }

  /** The null entry sorts before every other entry and ties only with null entries. */
  lemma NullEntryFirst(n: Entry, e: Entry)
    requires n.IsNull()
    ensures Compare(n, e) == (if e.IsNull() then 0 else -1)
    ensures CompareEntries(n, e) == Ok(Compare(n, e))
  {
  }

  /** A non-null LOCAL entry sorts before every non-null, non-LOCAL entry. */
  lemma LocalsBeforeNonLocals(a: Entry, b: Entry)
    requires !a.IsNull() && !b.IsNull() && a.IsLocal() && !b.IsLocal()
    ensures Compare(a, b) < 0 && CompareEntries(a, b) == Ok(Compare(a, b))
  {
  }

  /** Among equally bound entries, undefined sorts before defined. */
  lemma UndefinedBeforeDefined(a: Entry, b: Entry)
    requires a.IsNull() == b.IsNull() && a.IsLocal() == b.IsLocal()
    requires !a.IsDefined() && b.IsDefined()
    ensures Compare(a, b) < 0 && CompareEntries(a, b) == Ok(Compare(a, b))
  {
  }

  /** Among equally bound defined entries, non-absolute sorts before absolute. */
  lemma NonAbsoluteBeforeAbsolute(a: Entry, b: Entry)
    requires a.IsNull() == b.IsNull() && a.IsLocal() == b.IsLocal()
    requires a.IsDefined() && b.IsDefined() && !a.IsAbsolute() && b.IsAbsolute()
    ensures Compare(a, b) < 0 && CompareEntries(a, b) == Ok(Compare(a, b))
  {
  }

  /**
   * compareEntries throws exactly when the four flags tie, the offsets take
   * part, and their wrapped difference does not fit an int; when it returns
   * and the subtraction did not wrap, its sign is that of Compare.
   */
  lemma CompareEntriesAgreesWithCompare(a: Entry, b: Entry)
    ensures CompareEntries(a, b).Throws? <==>
              FlagCompare(a, b) == 0 && HasOffset(a) && !(INT_MIN <= WrapLong(a.value - b.value) <= INT_MAX)
    ensures CompareEntries(a, b).Ok? && LONG_MIN <= a.value - b.value <= LONG_MAX ==>
              LongCompare(CompareEntries(a, b).value, 0) == LongCompare(Compare(a, b), 0)
  {
    StringCompareToZero(a.name, b.name);
    StringCompareToAntisymmetric(a.name, b.name);
    if CompareEntries(a, b).Ok? && LONG_MIN <= a.value - b.value <= LONG_MAX && FlagCompare(a, b) == 0 && HasOffset(a) {
      assert WrapLong(a.value - b.value) == a.value - b.value;
    }
  }

  /**
   * As written, two defined symbols of the same binding whose offsets are 2^31
   * apart make compareEntries throw ArithmeticException, although Compare
   * orders them.
   */
  lemma CompareEntriesThrowsAt2GiB(a: Entry, b: Entry)
    requires a.reference.InSection? && b.reference.InSection?
    requires a.binding == b.binding == Some(GLOBAL)
    requires a.value == 0x8000_0000 && b.value == 0
    ensures CompareEntries(a, b) == Throws(ArithmeticException)
    ensures Compare(a, b) == 1
  {
  }

  /**
   * As written, the long subtraction wraps: the largest offset sorts before the
   * smallest.
   */
  lemma CompareEntriesWrapsAtExtremes(a: Entry, b: Entry)
    requires a.reference.InSection? && b.reference.InSection?
    requires a.binding == b.binding == Some(GLOBAL)
    requires a.value == LONG_MAX && b.value == LONG_MIN
    ensures CompareEntries(a, b) == Ok(-1)
    ensures Compare(a, b) == 1
  {
  }

  /** The order a TreeSet built with Compare keeps: strictly ascending. */
  ghost predicate Sorted(s: seq<Entry>)
  {
    forall i, j {:trigger Compare(s[i], s[j])} :: 0 <= i < j < |s| ==> Compare(s[i], s[j]) < 0
  }

  /** Some element of s ties with e, so TreeSet.add(e) would leave s unchanged. */
  ghost predicate HasTie(s: seq<Entry>, e: Entry)
  {
    exists i :: 0 <= i < |s| && Compare(s[i], e) == 0
  }

  /** TreeSet.add: insert e at its place, unless an element ties with it. */
  function SetAdd(s: seq<Entry>, e: Entry): seq<Entry>
  {
    if s == [] then [e]
    else
      var c := Compare(e, s[0]);
      if c < 0 then [e] + s
      else if c == 0 then s
      else [s[0]] + SetAdd(s[1..], e)
  }

  lemma SortedTail(s: seq<Entry>)
    requires Sorted(s) && s != []
    ensures Sorted(s[1..])
  {
    forall i, j | 0 <= i < j < |s[1..]|
      ensures Compare(s[1..][i], s[1..][j]) < 0
    {
      assert s[1..][i] == s[i + 1] && s[1..][j] == s[j + 1];
    }
  }

  /** An element that sorts before the head of a sorted set sorts before all of it. */
  lemma BeforeHead(s: seq<Entry>, e: Entry)
    requires Sorted(s) && s != [] && Compare(e, s[0]) < 0
    ensures Sorted([e] + s)
    ensures !HasTie(s, e)
  {
    forall j | 0 <= j < |s|
      ensures Compare(e, s[j]) < 0 && Compare(s[j], e) != 0
    {
      if j > 0 {
        CompareTransitive(e, s[0], s[j]);
      }
      CompareAntisymmetric(e, s[j]);
    }
    assert forall j :: 0 < j < |[e] + s| ==> ([e] + s)[j] == s[j - 1];
  }

  /** Past the head, a tie can only be found in the tail. */
  lemma HasTieTail(s: seq<Entry>, e: Entry)
    requires s != [] && Compare(s[0], e) != 0
    ensures HasTie(s, e) <==> HasTie(s[1..], e)
  {
    if HasTie(s, e) {
      var i :| 0 <= i < |s| && Compare(s[i], e) == 0;
      assert i > 0 && s[1..][i - 1] == s[i];
    }
    if HasTie(s[1..], e) {
      var i :| 0 <= i < |s[1..]| && Compare(s[1..][i], e) == 0;
      assert s[i + 1] == s[1..][i];
    }
  }

  /** Prefixing an element below every element of a sorted tail keeps it sorted. */
  lemma ConsSorted(x: Entry, t: seq<Entry>)
    requires Sorted(t)
    requires forall j :: 0 <= j < |t| ==> Compare(x, t[j]) < 0
    ensures Sorted([x] + t)
  {
    assert forall j :: 0 < j < |[x] + t| ==> ([x] + t)[j] == t[j - 1];
  }

  /**
   * Adding keeps the set sorted; it adds e exactly when no element ties with
   * it, and otherwise changes nothing.
   */
  lemma {:induction false} SetAddKeepsOrder(s: seq<Entry>, e: Entry)
    requires Sorted(s)
    ensures Sorted(SetAdd(s, e))
    ensures HasTie(s, e) ==> SetAdd(s, e) == s
    ensures !HasTie(s, e) ==> multiset(SetAdd(s, e)) == multiset(s) + multiset{e}
  {
    if s == [] {
    } else {
      var c := Compare(e, s[0]);
      CompareAntisymmetric(e, s[0]);
      if c < 0 {
        BeforeHead(s, e);
      } else if c == 0 {
        assert Compare(s[0], e) == 0;
      } else {
        SortedTail(s);
        SetAddKeepsOrder(s[1..], e);
        PastHead(s, e);
      }
    }
  }

  /** The inductive step of SetAddKeepsOrder, when e goes past the head. */
  lemma PastHead(s: seq<Entry>, e: Entry)
    requires Sorted(s) && s != [] && Compare(e, s[0]) > 0
    requires Sorted(SetAdd(s[1..], e))
    requires HasTie(s[1..], e) ==> SetAdd(s[1..], e) == s[1..]
    requires !HasTie(s[1..], e) ==> multiset(SetAdd(s[1..], e)) == multiset(s[1..]) + multiset{e}
    ensures Sorted(SetAdd(s, e))
    ensures HasTie(s, e) ==> SetAdd(s, e) == s
    ensures !HasTie(s, e) ==> multiset(SetAdd(s, e)) == multiset(s) + multiset{e}
  {
    var t := SetAdd(s[1..], e);
    assert SetAdd(s, e) == [s[0]] + t;
    CompareAntisymmetric(e, s[0]);
    HasTieTail(s, e);
    assert s == [s[0]] + s[1..];
    if !HasTie(s, e) {
      assert multiset([s[0]] + t) == multiset{s[0]} + multiset(t);
    }
    HeadBelowInsertion(s, e);
  }

  /** When e goes past the head, the head stays below everything after it. */
  lemma HeadBelowInsertion(s: seq<Entry>, e: Entry)
    requires Sorted(s) && s != [] && Compare(e, s[0]) > 0
    requires Sorted(SetAdd(s[1..], e))
    requires multiset(SetAdd(s[1..], e)) <= multiset(s[1..]) + multiset{e}
    ensures Sorted(SetAdd(s, e))
  {
    var t := SetAdd(s[1..], e);
    CompareAntisymmetric(e, s[0]);
    forall j | 0 <= j < |t|
      ensures Compare(s[0], t[j]) < 0
    {
      assert t[j] in multiset(t);
      if t[j] != e {
        assert t[j] in multiset(s[1..]);
        var k :| 0 <= k < |s[1..]| && s[1..][k] == t[j];
        assert s[k + 1] == t[j];
      }
    }
    ConsSorted(s[0], t);
  }

  /** A tie found in a set is still found after more elements are added. */
  lemma HasTieGrows(s: seq<Entry>, t: seq<Entry>, e: Entry)
    requires HasTie(s, e) && multiset(s) <= multiset(t)
    ensures HasTie(t, e)
  {
    var i :| 0 <= i < |s| && Compare(s[i], e) == 0;
    assert s[i] in multiset(t);
    var j :| 0 <= j < |t| && t[j] == s[i];
  }
}

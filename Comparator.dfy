/**
 * IDataDefaultComparator.compare: two documents compared entry by entry in
 * cursor order, key first and then value, recursing into nested documents,
 * with a longer document ordered after its prefix.
 *
 * What the comparator asks of a Java object beyond its shape (is it
 * Comparable, are two classes assignable, compareTo, hashCode, reference
 * identity) is a parameter of type Runtime.
 */
module Comparator {

  import opened Values

  /** The Java behaviour of the values being compared. */
  datatype Runtime = Runtime(
    comparable: Value -> bool,          // instanceof Comparable
    assignable: (Value, Value) -> bool, // a.getClass().isAssignableFrom(b.getClass())
    compareTo: (Value, Value) -> int,   // ((Comparable) a).compareTo(b)
    hashCode: Value -> int,
    same: (Value, Value) -> bool)       // a == b, reference identity

  /** -1, 0 or 1, as the sign of `x`. */
  function Sign(x: int): int {
    if x < 0 then -1 else if x > 0 then 1 else 0
  }

  /**
   * String.compareTo: the difference of the first differing characters,
   * or else the difference of the lengths.
   */
  function StringCompare(a: string, b: string): int {
    if a == [] || b == [] then |a| - |b|
    else if a[0] != b[0] then a[0] as int - b[0] as int
    else StringCompare(a[1..], b[1..])
  }

  /** Integer.compareTo. */
  function IntCompare(x: int, y: int): int {
    if x < y then -1 else if x > y then 1 else 0
  }

  /** String.compareTo is zero exactly on equal strings. */
  lemma {:induction false} StringCompareZero(a: string, b: string)
    ensures StringCompare(a, b) == 0 <==> a == b
  {
    if a != [] && b != [] && a[0] == b[0] {
      StringCompareZero(a[1..], b[1..]);
      assert a == [a[0]] + a[1..] && b == [b[0]] + b[1..];
    }
  }

  /** Swapping the strings negates String.compareTo. */
  lemma {:induction false} StringCompareAntisymmetric(a: string, b: string)
    ensures StringCompare(a, b) == -StringCompare(b, a)
  {
    if a != [] && b != [] && a[0] == b[0] {
      StringCompareAntisymmetric(a[1..], b[1..]);
    }
  }

  /**
   * String.compareTo is decided at the first position where the strings
   * differ, and by the lengths when one is a prefix of the other.
   */
  lemma {:induction false} StringCompareFirstDifference(a: string, b: string, k: nat)
    requires k <= |a| && k <= |b| && a[..k] == b[..k]
    ensures k < |a| && k < |b| && a[k] != b[k] ==> StringCompare(a, b) == a[k] as int - b[k] as int
    ensures k == |a| || k == |b| ==> StringCompare(a, b) == |a| - |b|
  {
    if k > 0 {
      assert a[0] == a[..k][0] && b[0] == b[..k][0];
      assert a[1..][..k - 1] == a[..k][1..] && b[1..][..k - 1] == b[..k][1..];
      StringCompareFirstDifference(a[1..], b[1..], k - 1);
    }
  }

  /** The comparison of one pair of values with equal keys: nulls, nested documents, compareTo, then hash codes. */
  function CompareValues(v1: Value, v2: Value, rt: Runtime): int
    decreases v1
  {
    if v1 == Null || v2 == Null then
      if v1 != Null then 1 else if v2 != Null then -1 else 0
    else if v1.Doc? && v2.Doc? then
      CompareEntries(v1.doc.entries, v2.doc.entries, rt)
    else if rt.comparable(v1) && rt.comparable(v2) && rt.assignable(v1, v2) then
      rt.compareTo(v1, v2)
    else if rt.comparable(v1) && rt.comparable(v2) && rt.assignable(v2, v1) then
      -Sign(rt.compareTo(v2, v1))
    else if !rt.same(v1, v2) then
      var h := IntCompare(rt.hashCode(v1), rt.hashCode(v2));
      if h == 0 then 1 else h
    else 0
  }

  /** The comparison of the entries at one cursor position: keys first, then values. */
  function CompareEntry(a: Entry, b: Entry, rt: Runtime): int
    decreases a
  {
    var k := StringCompare(a.key, b.key);
    if k != 0 then k else CompareValues(a.value, b.value, rt)
  }

  /**
   * The lock-step cursor loop and the adjustment after it: the first
   * position that compares non-zero decides; otherwise the document with
   * entries left over is the greater one.
   */
  function CompareEntries(e1: seq<Entry>, e2: seq<Entry>, rt: Runtime): int
    decreases e1
  {
    if e1 == [] || e2 == [] then
      if e1 != [] then 1 else if e2 != [] then -1 else 0
    else
      var c := CompareEntry(e1[0], e2[0], rt);
      if c != 0 then c else CompareEntries(e1[1..], e2[1..], rt)
  }

  /** compare(document1, document2): null sorts before every document. */
  function Compared(document1: Option<IData>, document2: Option<IData>, rt: Runtime): (r: int)
    ensures document1.None? && document2.None? ==> r == 0
    ensures document1.Some? && document2.None? ==> r == 1
    ensures document1.None? && document2.Some? ==> r == -1
  {
    if document1.None? || document2.None? then
      if document1.Some? then 1 else if document2.Some? then -1 else 0
    else CompareEntries(document1.value.entries, document2.value.entries, rt)
  }

  // ---------------------------------------------------------------------
  // The comparator as Java runs it.

  /** IDataDefaultComparator.compare: the null checks, then the cursor loop. */
  method Compare(document1: Option<IData>, document2: Option<IData>, rt: Runtime) returns (result: int)
    ensures result == Compared(document1, document2, rt)
  {
    result := 0;
    if document1.None? || document2.None? {
      if document1.Some? {
        result := 1;
      } else if document2.Some? {
        result := -1;
      }
    } else {
      result := CompareBody(document1.value, document2.value, rt);
    }
  }

  /** The lock-step loop over two cursors of non-null documents, with the adjustment for entries left over. */
  method CompareBody(document1: IData, document2: IData, rt: Runtime) returns (result: int)
    ensures result == CompareEntries(document1.entries, document2.entries, rt)
    decreases document1
  {
    var e1, e2 := document1.entries, document2.entries;
    result := 0;
    var i := 0;
    var next1, next2 := i < |e1|, i < |e2|;
    while next1 && next2
      invariant i <= |e1| && i <= |e2|
      invariant next1 == (i < |e1|) && next2 == (i < |e2|)
      invariant result == 0
      invariant CompareEntries(e1, e2, rt) == CompareEntries(e1[i..], e2[i..], rt)
      decreases |e1| - i
    {
      assert e1[i..][1..] == e1[i + 1..] && e2[i..][1..] == e2[i + 1..];
      result := StringCompare(e1[i].key, e2[i].key);
      if result == 0 {
        result := CompareValue(e1[i].value, e2[i].value, rt);
      }
      if result != 0 {
        break;
      }
      i := i + 1;
      next1, next2 := i < |e1|, i < |e2|;
    }
    if next1 && !next2 {
      result := 1;
    } else if !next1 && next2 {
      result := -1;
    }
  }

  /** The value branch of the loop, taken under equal keys: nulls, nested documents, compareTo, then hash codes. */
  method CompareValue(value1: Value, value2: Value, rt: Runtime) returns (result: int)
    ensures result == CompareValues(value1, value2, rt)
    decreases value1
  {
    result := 0;
    if value1 == Null || value2 == Null {
      if value1 != Null {
        result := 1;
      } else if value2 != Null {
        result := -1;
      }
    } else if value1.Doc? && value2.Doc? {
      result := CompareBody(value1.doc, value2.doc, rt);
    } else if rt.comparable(value1) && rt.comparable(value2) && rt.assignable(value1, value2) {
      result := rt.compareTo(value1, value2);
    } else if rt.comparable(value1) && rt.comparable(value2) && rt.assignable(value2, value1) {
      var comparison := rt.compareTo(value2, value1);
      result := if comparison < 0 then 1 else if comparison > 0 then -1 else 0;
    } else if !rt.same(value1, value2) {
      result := IntCompare(rt.hashCode(value1), rt.hashCode(value2));
      if result == 0 {
        result := 1;
      }
    }
  }

  // ---------------------------------------------------------------------
  // What the ordering promises.

  /**
   * The first cursor position whose keys or values differ decides the
   * comparison; the positions after it are never looked at.
   */
  lemma {:induction false} FirstDifferenceDecides(e1: seq<Entry>, e2: seq<Entry>, rt: Runtime, i: nat)
    requires i < |e1| && i < |e2|
    requires forall j :: 0 <= j < i ==> CompareEntry(e1[j], e2[j], rt) == 0
    requires CompareEntry(e1[i], e2[i], rt) != 0
    ensures CompareEntries(e1, e2, rt) == CompareEntry(e1[i], e2[i], rt)
  {
    if i > 0 {
      assert CompareEntry(e1[0], e2[0], rt) == 0;
      assert forall j :: 0 <= j < i - 1 ==> e1[1..][j] == e1[j + 1] && e2[1..][j] == e2[j + 1];
      FirstDifferenceDecides(e1[1..], e2[1..], rt, i - 1);
    }
  }

  /**
   * When every shared position compares equal, the document with more
   * entries is the greater, and documents of equal length are equal.
   */
  lemma {:induction false} PrefixOrdersFirst(e1: seq<Entry>, e2: seq<Entry>, rt: Runtime)
    requires forall j :: 0 <= j < |e1| && j < |e2| ==> CompareEntry(e1[j], e2[j], rt) == 0
    ensures CompareEntries(e1, e2, rt) == Sign(|e1| - |e2|)
    decreases |e1|
  {
    if e1 != [] && e2 != [] {
      assert CompareEntry(e1[0], e2[0], rt) == 0;
      assert forall j :: 0 <= j < |e1| - 1 && j < |e2| - 1 ==> e1[1..][j] == e1[j + 1] && e2[1..][j] == e2[j + 1];
      PrefixOrdersFirst(e1[1..], e2[1..], rt);
    }
  }

  /** Under equal keys a null value sorts before any other value, and two nulls are equal. */
  lemma NullValueFirst(key: string, v: Value, rest1: seq<Entry>, rest2: seq<Entry>, rt: Runtime)
    requires v != Null
    ensures CompareEntries([Entry(key, Null)] + rest1, [Entry(key, v)] + rest2, rt) == -1
    ensures CompareEntries([Entry(key, v)] + rest1, [Entry(key, Null)] + rest2, rt) == 1
    ensures CompareEntries([Entry(key, Null)] + rest1, [Entry(key, Null)] + rest2, rt)
            == CompareEntries(rest1, rest2, rt)
  {
    StringCompareZero(key, key);
    assert CompareEntry(Entry(key, Null), Entry(key, v), rt) == -1;
    assert CompareEntry(Entry(key, v), Entry(key, Null), rt) == 1;
    assert CompareEntry(Entry(key, Null), Entry(key, Null), rt) == 0;
    assert ([Entry(key, Null)] + rest1)[1..] == rest1 && ([Entry(key, Null)] + rest2)[1..] == rest2;
  }

  /** The runtime behaves as Java promises for a value compared with itself. */
  ghost predicate ReflexiveRuntime(rt: Runtime) {
    forall v :: rt.assignable(v, v) && rt.same(v, v) && (rt.comparable(v) ==> rt.compareTo(v, v) == 0)
  }

  /**
   * Comparing a value with itself gives 0 when compareTo is reflexive: the
   * identical reference never reaches the hash-code fallback.
   */
  lemma {:induction false} ValueSelfEqual(v: Value, rt: Runtime)
    requires ReflexiveRuntime(rt)
    ensures CompareValues(v, v, rt) == 0
    decreases v
  {
    assert rt.assignable(v, v) && rt.same(v, v);
    if v.Doc? {
      EntriesSelfEqual(v.doc.entries, rt);
    }
  }

  lemma {:induction false} EntriesSelfEqual(es: seq<Entry>, rt: Runtime)
    requires ReflexiveRuntime(rt)
    ensures CompareEntries(es, es, rt) == 0
    decreases es
  {
    if es != [] {
      StringCompareZero(es[0].key, es[0].key);
      ValueSelfEqual(es[0].value, rt);
      EntriesSelfEqual(es[1..], rt);
    }
  }

  /** A document compared with itself is equal to itself. */
  lemma DocumentSelfEqual(document: Option<IData>, rt: Runtime)
    requires ReflexiveRuntime(rt)
    ensures Compared(document, document, rt) == 0
  {
    if document.Some? {
      EntriesSelfEqual(document.value.entries, rt);
    }
  }

  /**
   * The runtime behaves as Java promises for two values compared both ways:
   * compareTo between objects of one class is antisymmetric in sign, and
   * reference identity is symmetric.
   */
  ghost predicate AntisymmetricRuntime(rt: Runtime) {
    && (forall a, b :: rt.comparable(a) && rt.comparable(b) && rt.assignable(a, b) && rt.assignable(b, a)
                       ==> Sign(rt.compareTo(a, b)) == -Sign(rt.compareTo(b, a)))
    && (forall a, b :: rt.same(a, b) ==> rt.same(b, a))
  }

  /** The pair of values is decided without the hash-code fallback for unrelated, non-identical objects. */
  predicate ValuesAvoidHash(v1: Value, v2: Value, rt: Runtime)
    decreases v1
  {
    if v1 == Null || v2 == Null then true
    else if v1.Doc? && v2.Doc? then EntriesAvoidHash(v1.doc.entries, v2.doc.entries, rt)
    else if rt.comparable(v1) && rt.comparable(v2) && (rt.assignable(v1, v2) || rt.assignable(v2, v1)) then true
    else rt.same(v1, v2)
  }

  /**
   * Every pair of values the cursor loop compares, up to the position that
   * decides the result, avoids the hash-code fallback.
   */
  predicate EntriesAvoidHash(e1: seq<Entry>, e2: seq<Entry>, rt: Runtime)
    decreases e1
  {
    e1 == [] || e2 == [] || e1[0].key != e2[0].key ||
    (ValuesAvoidHash(e1[0].value, e2[0].value, rt)
     && (CompareValues(e1[0].value, e2[0].value, rt) == 0 ==> EntriesAvoidHash(e1[1..], e2[1..], rt)))
  }

  /**
   * Swapping two values negates the sign of their comparison, whenever
   * the hash-code fallback is not reached.
   */
  lemma {:induction false} ValuesAntisymmetric(v1: Value, v2: Value, rt: Runtime)
    requires AntisymmetricRuntime(rt) && ValuesAvoidHash(v1, v2, rt)
    ensures Sign(CompareValues(v1, v2, rt)) == -Sign(CompareValues(v2, v1, rt))
    decreases v1
  {
    if v1 != Null && v2 != Null {
      if v1.Doc? && v2.Doc? {
        EntriesAntisymmetric(v1.doc.entries, v2.doc.entries, rt);
      } else if rt.comparable(v1) && rt.comparable(v2) && rt.assignable(v1, v2) && rt.assignable(v2, v1) {
        assert Sign(rt.compareTo(v1, v2)) == -Sign(rt.compareTo(v2, v1));
      } else if !(rt.comparable(v1) && rt.comparable(v2) && (rt.assignable(v1, v2) || rt.assignable(v2, v1))) {
        assert rt.same(v1, v2) && rt.same(v2, v1);
      }
    }
  }

  /**
   * Swapping two documents' entries negates the sign of their comparison,
   * whenever the hash-code fallback is not reached.
   */
  lemma {:induction false} EntriesAntisymmetric(e1: seq<Entry>, e2: seq<Entry>, rt: Runtime)
    requires AntisymmetricRuntime(rt) && EntriesAvoidHash(e1, e2, rt)
    ensures Sign(CompareEntries(e1, e2, rt)) == -Sign(CompareEntries(e2, e1, rt))
    decreases e1
  {
    if e1 != [] && e2 != [] {
      StringCompareAntisymmetric(e1[0].key, e2[0].key);
      StringCompareZero(e1[0].key, e2[0].key);
      if e1[0].key == e2[0].key {
        ValuesAntisymmetric(e1[0].value, e2[0].value, rt);
        if CompareValues(e1[0].value, e2[0].value, rt) == 0 {
          EntriesAntisymmetric(e1[1..], e2[1..], rt);
        }
      }
    }
  }

  /** Swapping two documents negates the sign of their comparison, barring the hash-code fallback. */
  lemma DocumentsAntisymmetric(document1: Option<IData>, document2: Option<IData>, rt: Runtime)
    requires AntisymmetricRuntime(rt)
    requires document1.Some? && document2.Some? ==>
               EntriesAvoidHash(document1.value.entries, document2.value.entries, rt)
    ensures Sign(Compared(document1, document2, rt)) == -Sign(Compared(document2, document1, rt))
  {
    if document1.Some? && document2.Some? {
      EntriesAntisymmetric(document1.value.entries, document2.value.entries, rt);
    }
  }

  /**
   * The hash-code fallback is not an ordering: two distinct objects with
   * equal hash codes, neither comparable with the other, each compare as
   * greater than the other.
   */
  lemma HashTieBothGreater(key: string, v1: Value, v2: Value, rt: Runtime)
    requires v1 != Null && v2 != Null && !(v1.Doc? && v2.Doc?)
    requires !(rt.comparable(v1) && rt.comparable(v2))
    requires !rt.same(v1, v2) && !rt.same(v2, v1) && rt.hashCode(v1) == rt.hashCode(v2)
    ensures Compared(Some(IData([Entry(key, v1)])), Some(IData([Entry(key, v2)])), rt) == 1
    ensures Compared(Some(IData([Entry(key, v2)])), Some(IData([Entry(key, v1)])), rt) == 1
  {
    StringCompareZero(key, key);
    assert CompareEntry(Entry(key, v1), Entry(key, v2), rt) == 1;
    assert CompareEntry(Entry(key, v2), Entry(key, v1), rt) == 1;
  }
}

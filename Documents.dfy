/**
 * The document walker: `substitute(IData, Object, boolean, boolean,
 * SubstitutionType, IData...)` and `substitute(IData[], ...)`.
 *
 * Every entry of the input document is visited in cursor order; Strings,
 * String[] and String[][] are substituted, nested documents and document
 * lists are walked when `recurse` is set, and everything else is carried
 * over. An entry is written to the output only when its new value is not
 * null or nulls are included.
 */
module Documents {

  import opened Values
  import opened Placeholders
  import opened Substitution

  /** A String[] result stored back as String[]: each String, or null. */
  function TextsOf(vs: seq<Value>): seq<Text> {
    seq(|vs|, i requires 0 <= i < |vs| => AsText(vs[i]))
  }

  /** A String[][] result stored back as String[][]. */
  function RowsOf(rows: seq<Option<seq<Value>>>): seq<Option<seq<Text>>> {
    seq(|rows|, i requires 0 <= i < |rows| => if rows[i].Some? then Some(TextsOf(rows[i].value)) else None)
  }

  /** Null or missing scopes stand for the document itself (the `scopes == null || scopes.length == 0` fallback). */
  function ScopedTo(document: IData, env: Env): (e: Env)
    ensures e.scopes != []
    ensures env.scopes != [] ==> e == env
  {
    if env.scopes == [] then env.(scopes := [document]) else env
  }

  /** `b` is the same kind of value as `a`, with as many elements when it is an array or a list. */
  predicate SameShape(a: Value, b: Value) {
    match a
    case Null => b.Null?
    case Str(_) => b.Str?
    case StrArr(items) => b.StrArr? && |b.elems| == |items|
    case StrTable(rows) => b.StrTable? && |b.rows| == |rows|
    case Doc(_) => b.Doc?
    case DocList(docs) => b.DocList? && |b.docs| == |docs|
    case Other(_) => b == a
  }

  /** The value a document argument becomes: null stays null. */
  function SubstitutedDocument(document: Option<IData>, default: Value, recurse: bool, includeNulls: bool, env: Env)
    : (r: Result<Option<IData>>)
    ensures document.None? ==> r == Success(None)
    ensures document.Some? && r.Success? ==> r.value.Some?
    ensures r.Failure? ==> r.error == NullReplacement && default != Null
    decreases document
  {
    match document
    case None => Success(None)
    case Some(d) =>
      var output :- SubstitutedBody(d, default, recurse, includeNulls, env);
      Success(Some(output))
  }

  /**
   * The output document built from a non-null input document: the new
   * values of its entries, visited in cursor order, written under their
   * keys; the first exception escapes.
   */
  function SubstitutedBody(document: IData, default: Value, recurse: bool, includeNulls: bool, env: Env)
    : (r: Result<IData>)
    ensures r.Failure? ==> r.error == NullReplacement && default != Null
    decreases document
  {
    var es := document.entries;
    var output :- WrittenResults(es, ValueResults(es, default, recurse, includeNulls, ScopedTo(document, env)), includeNulls);
    Success(IData(output))
  }

  /** What the cursor loop computes for each entry, in cursor order: its new value or its exception. */
  function ValueResults(es: seq<Entry>, default: Value, recurse: bool, includeNulls: bool, env: Env)
    : (rs: seq<Result<Value>>)
    ensures |rs| == |es|
    ensures forall i :: 0 <= i < |es| ==> rs[i] == SubstitutedValue(es[i].value, default, recurse, includeNulls, env)
    decreases es
  {
    seq(|es|, i requires 0 <= i < |es| => SubstitutedValue(es[i].value, default, recurse, includeNulls, env))
  }

  /**
   * The new value of one entry. A String may become null; every other value
   * keeps its kind, and arrays and document lists keep their length.
   */
  function SubstitutedValue(value: Value, default: Value, recurse: bool, includeNulls: bool, env: Env)
    : (r: Result<Value>)
    ensures r.Failure? ==> r.error == NullReplacement && default != Null
    ensures r.Success? && value.Str? ==> r.value.Str? || r.value.Null?
    ensures r.Success? && !value.Str? ==> SameShape(value, r.value)
    ensures !recurse && (value.Doc? || value.DocList?) ==> r == Success(value)
    ensures value.Null? || value.Other? ==> r == Success(value)
    decreases value
  {
    match value
    case DocList(docs) =>
      if recurse then
        var output :- Collect(DocumentResults(docs, default, recurse, includeNulls, env));
        Success(DocList(output))
      else Success(value)
    case Doc(d) =>
      if recurse then
        var output :- SubstitutedBody(d, default, recurse, includeNulls, env);
        Success(Doc(output))
      else Success(value)
    case Str(s) => SubstitutedString(Some(s), Some(StringClass), default, env)
    case StrArr(items) =>
      var output :- SubstitutedStrings(Some(items), Some(StringClass), default, env);
      Success(StrArr(TextsOf(output.value)))
    case StrTable(rows) =>
      var output :- SubstitutedTable(Some(rows), Some(StringClass), default, env);
      Success(StrTable(RowsOf(output.value)))
    case Null => Success(value)
    case Other(_) => Success(value)
  }

  /** What the IData[] loop computes for each element, in index order: a null element stays null. */
  function DocumentResults(docs: seq<Option<IData>>, default: Value, recurse: bool, includeNulls: bool, env: Env)
    : (rs: seq<Result<Option<IData>>>)
    ensures |rs| == |docs|
    ensures forall i :: 0 <= i < |docs| ==> rs[i] == SubstitutedDocument(docs[i], default, recurse, includeNulls, env)
    decreases docs
  {
    seq(|docs|, i requires 0 <= i < |docs| => SubstitutedDocument(docs[i], default, recurse, includeNulls, env))
  }

  /** An entry with new value `v` is written to the output. */
  predicate IsKept(v: Value, includeNulls: bool) {
    v != Null || includeNulls
  }

  /**
   * The output cursor once entries `es`, whose new values are `vs`, were
   * visited in order: each kept value put under its entry's key.
   */
  function Written(es: seq<Entry>, vs: seq<Value>, includeNulls: bool): seq<Entry>
    requires |vs| == |es|
  {
    if es == [] then []
    else
      var n := |es| - 1;
      var output := Written(es[..n], vs[..n], includeNulls);
      if IsKept(vs[n], includeNulls) then Put(output, es[n].key, vs[n]) else output
  }

  /**
   * The output cursor once entries `es`, whose new values are computed as
   * `rs`, were visited in order, or the first exception.
   */
  function WrittenResults(es: seq<Entry>, rs: seq<Result<Value>>, includeNulls: bool): (r: Result<seq<Entry>>)
    requires |rs| == |es|
    ensures r.Failure? ==> Failure(r.error) in rs
  {
    if es == [] then Success([])
    else
      var n := |es| - 1;
      var output :- WrittenResults(es[..n], rs[..n], includeNulls);
      var v :- rs[n];
      Success(if IsKept(v, includeNulls) then Put(output, es[n].key, v) else output)
  }

  lemma WrittenResultsStep(es: seq<Entry>, rs: seq<Result<Value>>, i: nat, includeNulls: bool)
    requires |rs| == |es| && i < |es| && WrittenResults(es[..i], rs[..i], includeNulls).Success?
    ensures var output := WrittenResults(es[..i], rs[..i], includeNulls).value;
            WrittenResults(es[..i + 1], rs[..i + 1], includeNulls)
            == if rs[i].Failure? then rs[i].PropagateFailure()
               else Success(if IsKept(rs[i].value, includeNulls) then Put(output, es[i].key, rs[i].value) else output)
  {
    assert es[..i + 1][..i] == es[..i] && rs[..i + 1][..i] == rs[..i];
  }

  lemma {:induction false} WrittenResultsPrefixFailure(es: seq<Entry>, rs: seq<Result<Value>>, k: nat, includeNulls: bool)
    requires |rs| == |es| && k <= |es| && WrittenResults(es[..k], rs[..k], includeNulls).Failure?
    ensures WrittenResults(es, rs, includeNulls) == WrittenResults(es[..k], rs[..k], includeNulls)
    decreases |es| - k
  {
    if k < |es| {
      assert es[..k + 1][..k] == es[..k] && rs[..k + 1][..k] == rs[..k];
      WrittenResultsPrefixFailure(es, rs, k + 1, includeNulls);
    } else {
      assert es[..k] == es && rs[..k] == rs;
    }
  }

  /** The new values of the entries, in cursor order, or the first exception. */
  function NewValues(es: seq<Entry>, default: Value, recurse: bool, includeNulls: bool, env: Env)
    : (r: Result<seq<Value>>)
    ensures r.Success? ==> |r.value| == |es|
  {
    Collect(ValueResults(es, default, recurse, includeNulls, env))
  }

  /** The value `substitute(IData[], ...)` returns: null for a null array. */
  function SubstitutedDocumentArray(items: Option<seq<Option<IData>>>, default: Value, recurse: bool,
                                    includeNulls: bool, env: Env)
    : (r: Result<Option<seq<Option<IData>>>>)
    ensures items.None? ==> r == Success(None)
    ensures items.Some? && r.Success? ==> r.value.Some? && |r.value.value| == |items.value|
    ensures r.Failure? ==> r.error == NullReplacement && default != Null
  {
    match items
    case None => Success(None)
    case Some(docs) =>
      var output :- Collect(DocumentResults(docs, default, recurse, includeNulls, env));
      Success(Some(output))
  }

  /** With no default value the walker never raises. */
  lemma NoDefaultNeverFails(document: Option<IData>, recurse: bool, includeNulls: bool, env: Env)
    ensures SubstitutedDocument(document, Null, recurse, includeNulls, env).Success?
  {
  }

  // ---------------------------------------------------------------------
  // The walker as Java runs it.

  /** SubstitutionHelper.substitute on an IData: null stays null, otherwise the cursor walk. */
  method SubstituteDocument(document: Option<IData>, default: Value, recurse: bool, includeNulls: bool, env: Env)
    returns (r: Result<Option<IData>>)
    ensures r == SubstitutedDocument(document, default, recurse, includeNulls, env)
    decreases document
  {
    if document.None? {
      return Success(None);
    }
    var output := SubstituteBody(document.value, default, recurse, includeNulls, env);
    if output.Failure? {
      return output.PropagateFailure();
    }
    return Success(Some(output.value));
  }

  /** The cursor walk over a non-null document, against its scopes or itself. */
  method SubstituteBody(document: IData, default: Value, recurse: bool, includeNulls: bool, env: Env)
    returns (r: Result<IData>)
    ensures r == SubstitutedBody(document, default, recurse, includeNulls, env)
    decreases document
  {
    var scoped := ScopedTo(document, env);
    var output := WriteEntries(document.entries, default, recurse, includeNulls, scoped);
    if output.Failure? {
      return output.PropagateFailure();
    }
    return Success(IData(output.value));
  }

  /** The `while (inputCursor.next())` loop, with its output puts. */
  method WriteEntries(es: seq<Entry>, default: Value, recurse: bool, includeNulls: bool, env: Env)
    returns (r: Result<seq<Entry>>)
    ensures r == WrittenResults(es, ValueResults(es, default, recurse, includeNulls, env), includeNulls)
    decreases es
  {
    ghost var rs := ValueResults(es, default, recurse, includeNulls, env);
    var output: seq<Entry> := [];
    var i := 0;
    while i < |es|
      invariant 0 <= i <= |es|
      invariant WrittenResults(es[..i], rs[..i], includeNulls) == Success(output)
    {
      var next := VisitEntry(es, i, output, default, recurse, includeNulls, env);
      if next.Failure? {
        WrittenResultsPrefixFailure(es, rs, i + 1, includeNulls);
        return next.PropagateFailure();
      }
      output := next.value;
      i := i + 1;
    }
    assert es[..|es|] == es && rs[..|es|] == rs;
    return Success(output);
  }

  /** One turn of the cursor loop: the entry's new value, put into the output when it is kept. */
  method VisitEntry(es: seq<Entry>, i: nat, output: seq<Entry>, default: Value, recurse: bool, includeNulls: bool,
                    env: Env)
    returns (r: Result<seq<Entry>>)
    requires i < |es|
    requires WrittenResults(es[..i], ValueResults(es, default, recurse, includeNulls, env)[..i], includeNulls)
             == Success(output)
    ensures r == WrittenResults(es[..i + 1], ValueResults(es, default, recurse, includeNulls, env)[..i + 1], includeNulls)
    decreases es[i]
  {
    ghost var rs := ValueResults(es, default, recurse, includeNulls, env);
    var key, value := es[i].key, es[i].value;
    var x := SubstituteValue(value, default, recurse, includeNulls, env);
    WrittenResultsStep(es, rs, i, includeNulls);
    if x.Failure? {
      return x.PropagateFailure();
    }
    var next := output;
    if x.value != Null || includeNulls {
      next := Put(output, key, x.value);
    }
    return Success(next);
  }

  /** The `instanceof` dispatch on one entry's value: document list, document, String, String[], String[][], anything else. */
  method SubstituteValue(value: Value, default: Value, recurse: bool, includeNulls: bool, env: Env)
    returns (r: Result<Value>)
    ensures r == SubstitutedValue(value, default, recurse, includeNulls, env)
    decreases value
  {
    r := Success(value);
    if value != Null {
      if recurse && value.DocList? {
        var output := SubstituteDocuments(value.docs, default, recurse, includeNulls, env);
        if output.Failure? {
          return output.PropagateFailure();
        }
        r := Success(DocList(output.value));
      } else if recurse && value.Doc? {
        var output := SubstituteBody(value.doc, default, recurse, includeNulls, env);
        if output.Failure? {
          return output.PropagateFailure();
        }
        r := Success(Doc(output.value));
      } else if value.Str? {
        r := SubstituteString(Some(value.s), Some(StringClass), default, env);
      } else if value.StrArr? {
        var output := SubstituteStrings(Some(value.elems), Some(StringClass), default, env);
        if output.Failure? {
          return output.PropagateFailure();
        }
        r := Success(StrArr(TextsOf(output.value.value)));
      } else if value.StrTable? {
        var output := SubstituteTable(Some(value.rows), Some(StringClass), default, env);
        if output.Failure? {
          return output.PropagateFailure();
        }
        r := Success(StrTable(RowsOf(output.value.value)));
      }
    }
  }

  /** The `for` loop of substitute(IData[], ...) that fills the output array element by element. */
  method SubstituteDocuments(docs: seq<Option<IData>>, default: Value, recurse: bool, includeNulls: bool, env: Env)
    returns (r: Result<seq<Option<IData>>>)
    ensures r == Collect(DocumentResults(docs, default, recurse, includeNulls, env))
    decreases docs
  {
    ghost var rs := DocumentResults(docs, default, recurse, includeNulls, env);
    var output := new Option<IData>[|docs|];
    for i := 0 to |docs|
      invariant Collect(rs[..i]) == Success(output[..i])
    {
      var x := SubstituteDocument(docs[i], default, recurse, includeNulls, env);
      CollectStep(rs, i);
      if x.Failure? {
        CollectPrefixFailure(rs, i + 1);
        return x.PropagateFailure();
      }
      output[i] := x.value;
      assert output[..i + 1] == output[..i] + [x.value];
    }
    assert rs[..|docs|] == rs && output[..|docs|] == output[..];
    return Success(output[..]);
  }

  /** SubstitutionHelper.substitute on an IData[]: null stays null, otherwise the element loop. */
  method SubstituteDocumentArray(items: Option<seq<Option<IData>>>, default: Value, recurse: bool,
                                 includeNulls: bool, env: Env)
    returns (r: Result<Option<seq<Option<IData>>>>)
    ensures r == SubstitutedDocumentArray(items, default, recurse, includeNulls, env)
  {
    if items.None? {
      return Success(None);
    }
    var output := SubstituteDocuments(items.value, default, recurse, includeNulls, env);
    if output.Failure? {
      return output.PropagateFailure();
    }
    return Success(Some(output.value));
  }

  /**
   * The cursor loop first computes every new value and then writes the
   * kept ones: a failure is the first exception among the values, and
   * otherwise the output is the values written in order.
   */
  lemma {:induction false} WrittenResultsCollect(es: seq<Entry>, rs: seq<Result<Value>>, includeNulls: bool)
    requires |rs| == |es|
    ensures WrittenResults(es, rs, includeNulls)
            == if Collect(rs).Success? then Success(Written(es, Collect(rs).value, includeNulls))
               else Collect(rs).PropagateFailure()
    decreases |es|
  {
    if es != [] {
      var n := |es| - 1;
      WrittenResultsCollect(es[..n], rs[..n], includeNulls);
      var init := Collect(rs[..n]);
      if init.Success? && rs[n].Success? {
        assert Collect(rs).value[..n] == init.value;
      }
    }
  }

  // ---------------------------------------------------------------------
  // What the output document holds.

  /**
   * The new values are the entry values substituted one by one: they
   * exist exactly when every entry value substitutes, value i is the
   * substitution of entry i's value, and otherwise the exception is that of
   * the first failing entry.
   */
  lemma NewValuesElementwise(es: seq<Entry>, default: Value, recurse: bool, includeNulls: bool, env: Env)
    ensures var r := NewValues(es, default, recurse, includeNulls, env);
            && (r.Success? <==> forall i :: 0 <= i < |es| ==> SubstitutedValue(es[i].value, default, recurse, includeNulls, env).Success?)
            && (r.Success? ==> forall i :: 0 <= i < |es| ==>
                                 SubstitutedValue(es[i].value, default, recurse, includeNulls, env) == Success(r.value[i]))
            && (r.Failure? ==> exists i :: 0 <= i < |es|
                                 && SubstitutedValue(es[i].value, default, recurse, includeNulls, env) == Failure(r.error)
                                 && forall j :: 0 <= j < i ==> SubstitutedValue(es[j].value, default, recurse, includeNulls, env).Success?)
  {
    CollectCharacterized(ValueResults(es, default, recurse, includeNulls, env));
  }

  /**
   * What a lookup of `key` finds once entries `es`, whose new values are
   * `vs`, were visited: the new value of the last entry with that key that
   * was kept, since each put overwrites the one before.
   */
  function LastKept(es: seq<Entry>, vs: seq<Value>, key: string, includeNulls: bool): Option<Value>
    requires |vs| == |es|
  {
    if es == [] then None
    else
      var n := |es| - 1;
      if es[n].key == key && IsKept(vs[n], includeNulls) then Some(vs[n])
      else LastKept(es[..n], vs[..n], key, includeNulls)
  }

  /** The entries in input order with their new values, dropping those not kept. */
  function Kept(es: seq<Entry>, vs: seq<Value>, includeNulls: bool): seq<Entry>
    requires |vs| == |es|
  {
    if es == [] then []
    else
      var n := |es| - 1;
      Kept(es[..n], vs[..n], includeNulls) + (if IsKept(vs[n], includeNulls) then [Entry(es[n].key, vs[n])] else [])
  }

  /** No key occurs twice. */
  predicate DistinctKeys(es: seq<Entry>) {
    forall i, j :: 0 <= i < j < |es| ==> es[i].key != es[j].key
  }

  /** A lookup in the output cursor finds the last kept new value of the key. */
  lemma {:induction false} WrittenLookup(es: seq<Entry>, vs: seq<Value>, includeNulls: bool)
    requires |vs| == |es|
    ensures forall key :: Lookup(Written(es, vs, includeNulls), key) == LastKept(es, vs, key, includeNulls)
    decreases |es|
  {
    if es != [] {
      var n := |es| - 1;
      WrittenLookup(es[..n], vs[..n], includeNulls);
      if IsKept(vs[n], includeNulls) {
        PutLookup(Written(es[..n], vs[..n], includeNulls), es[n].key, vs[n]);
      }
    }
  }

  lemma {:induction false} NoEntryNoneKept(es: seq<Entry>, vs: seq<Value>, key: string, includeNulls: bool)
    requires |vs| == |es| && forall i :: 0 <= i < |es| ==> es[i].key != key
    ensures LastKept(es, vs, key, includeNulls).None?
    decreases |es|
  {
    if es != [] {
      NoEntryNoneKept(es[..|es| - 1], vs[..|es| - 1], key, includeNulls);
    }
  }

  /** With distinct keys every put of the cursor loop appends. */
  lemma {:induction false} WrittenInOrder(es: seq<Entry>, vs: seq<Value>, includeNulls: bool)
    requires |vs| == |es| && DistinctKeys(es)
    ensures Written(es, vs, includeNulls) == Kept(es, vs, includeNulls)
    decreases |es|
  {
    if es != [] {
      var n := |es| - 1;
      assert DistinctKeys(es[..n]);
      WrittenInOrder(es[..n], vs[..n], includeNulls);
      if IsKept(vs[n], includeNulls) {
        var init := Written(es[..n], vs[..n], includeNulls);
        WrittenLookup(es[..n], vs[..n], includeNulls);
        NoEntryNoneKept(es[..n], vs[..n], es[n].key, includeNulls);
        PutGrowsOnlyWhenAbsent(init, es[n].key, vs[n]);
      }
    }
  }

  /**
   * The cursor loop fails exactly when some entry value fails, with the
   * exception of the first; otherwise a lookup of any key in the output
   * document finds the new value of the last kept entry with that key, and
   * nothing for a key no kept entry has.
   */
  lemma EntriesLookup(document: IData, default: Value, recurse: bool, includeNulls: bool, env: Env)
    ensures var es := document.entries;
            var r := SubstitutedBody(document, default, recurse, includeNulls, env);
            var vs := NewValues(es, default, recurse, includeNulls, ScopedTo(document, env));
            && (r.Failure? <==> vs.Failure?)
            && (r.Failure? ==> r.error == vs.error)
            && (r.Success? ==> forall key :: Lookup(r.value.entries, key) == LastKept(es, vs.value, key, includeNulls))
  {
    var es, scoped := document.entries, ScopedTo(document, env);
    WrittenResultsCollect(es, ValueResults(es, default, recurse, includeNulls, scoped), includeNulls);
    var vs := NewValues(es, default, recurse, includeNulls, scoped);
    if vs.Success? {
      WrittenLookup(es, vs.value, includeNulls);
    }
  }

  /**
   * With distinct keys the output document is the input in input order,
   * each entry carrying its new value, minus the entries not kept: keys
   * appear in input order and a key is left out only when its new value is
   * null and nulls are not included.
   */
  lemma EntriesInOrder(document: IData, default: Value, recurse: bool, includeNulls: bool, env: Env)
    requires DistinctKeys(document.entries)
    ensures var es := document.entries;
            var r := SubstitutedBody(document, default, recurse, includeNulls, env);
            var vs := NewValues(es, default, recurse, includeNulls, ScopedTo(document, env));
            r.Success? ==> vs.Success? && r.value.entries == Kept(es, vs.value, includeNulls)
  {
    var es, scoped := document.entries, ScopedTo(document, env);
    WrittenResultsCollect(es, ValueResults(es, default, recurse, includeNulls, scoped), includeNulls);
    var vs := NewValues(es, default, recurse, includeNulls, scoped);
    if vs.Success? {
      WrittenInOrder(es, vs.value, includeNulls);
    }
  }

  /**
   * substitute(IData[]) works element by element: it succeeds exactly when
   * every element does, element i of the result is element i of the input
   * substituted, and a null element stays null.
   */
  lemma DocumentArrayElementwise(docs: seq<Option<IData>>, default: Value, recurse: bool, includeNulls: bool, env: Env)
    ensures var r := SubstitutedDocumentArray(Some(docs), default, recurse, includeNulls, env);
            && (r.Success? <==> forall i :: 0 <= i < |docs| ==> SubstitutedDocument(docs[i], default, recurse, includeNulls, env).Success?)
            && (r.Success? ==> forall i :: 0 <= i < |docs| ==>
                                 && SubstitutedDocument(docs[i], default, recurse, includeNulls, env) == Success(r.value.value[i])
                                 && (r.value.value[i].None? <==> docs[i].None?))
  {
    CollectCharacterized(DocumentResults(docs, default, recurse, includeNulls, env));
  }

  /**
   * A document given no scopes is its own single scope, and so are the
   * documents nested in it: a nested document's values are substituted
   * against the outer document, not against the nested one.
   */
  lemma NestedUseOuterScope(document: IData, inner: IData, default: Value, includeNulls: bool, env: Env)
    requires env.scopes == []
    ensures SubstitutedBody(document, default, true, includeNulls, env)
            == SubstitutedBody(document, default, true, includeNulls, env.(scopes := [document]))
    ensures ScopedTo(inner, ScopedTo(document, env)) == env.(scopes := [document])
    ensures var nested := SubstitutedValue(Doc(inner), default, true, includeNulls, ScopedTo(document, env));
            var vs := NewValues(inner.entries, default, true, includeNulls, env.(scopes := [document]));
            && (nested.Failure? <==> vs.Failure?)
            && (nested.Success? ==> nested.value == Doc(IData(Written(inner.entries, vs.value, includeNulls))))
  {
    var outer := env.(scopes := [document]);
    WrittenResultsCollect(inner.entries, ValueResults(inner.entries, default, true, includeNulls, outer), includeNulls);
  }

  // ---------------------------------------------------------------------
  // Documents without placeholders.

  /** No String of the sequence holds a placeholder. */
  predicate TokenFreeTexts(items: seq<Text>) {
    forall i :: 0 <= i < |items| && items[i].Some? ==> !HasToken(items[i].value)
  }

  /**
   * No String the walker substitutes in `v` holds a placeholder; nested
   * documents are not looked into.
   */
  predicate TokenFreeValue(v: Value) {
    match v
    case Str(s) => !HasToken(s)
    case StrArr(items) => TokenFreeTexts(items)
    case StrTable(rows) => forall i :: 0 <= i < |rows| && rows[i].Some? ==> TokenFreeTexts(rows[i].value)
    case _ => true
  }

  /** A String[] without placeholders comes back as it was. */
  lemma TextsUnchanged(items: seq<Text>, default: Value, env: Env)
    requires TokenFreeTexts(items) && env.scopes != []
    ensures var r := SubstitutedStrings(Some(items), Some(StringClass), default, env);
            r.Success? && TextsOf(r.value.value) == items
  {
    forall i | 0 <= i < |items|
      ensures SubstitutedString(items[i], Some(StringClass), default, env) == Success(if items[i].Some? then Str(items[i].value) else Null)
    {
      if items[i].Some? {
        TokenFreeUnchanged(items[i].value, StringClass, default, env);
      }
    }
    StringsElementwise(items, StringClass, default, env);
  }

  /** Without recursion, a value without placeholders comes back as it was. */
  lemma ValueUnchanged(v: Value, default: Value, includeNulls: bool, env: Env)
    requires TokenFreeValue(v) && env.scopes != []
    ensures SubstitutedValue(v, default, false, includeNulls, env) == Success(v)
  {
    match v
    case Str(s) => TokenFreeUnchanged(s, StringClass, default, env);
    case StrArr(items) => TextsUnchanged(items, default, env);
    case StrTable(rows) =>
      var r := SubstitutedTable(Some(rows), Some(StringClass), default, env);
      TableElementwise(rows, StringClass, default, env);
      forall i | 0 <= i < |rows|
        ensures SubstitutedStrings(rows[i], Some(StringClass), default, env).Success?
        ensures rows[i].Some? ==> TextsOf(SubstitutedStrings(rows[i], Some(StringClass), default, env).value.value) == rows[i].value
      {
        if rows[i].Some? {
          TextsUnchanged(rows[i].value, default, env);
        }
      }
      assert RowsOf(r.value.value) == rows;
    case _ =>
  }

  /** The input values of the entries, in cursor order. */
  function ValuesOf(es: seq<Entry>): (vs: seq<Value>)
    ensures |vs| == |es|
  {
    seq(|es|, i requires 0 <= i < |es| => es[i].value)
  }

  lemma {:induction false} KeptAll(es: seq<Entry>, includeNulls: bool)
    requires forall i :: 0 <= i < |es| ==> IsKept(es[i].value, includeNulls)
    ensures Kept(es, ValuesOf(es), includeNulls) == es
    decreases |es|
  {
    if es != [] {
      var n := |es| - 1;
      KeptAll(es[..n], includeNulls);
      assert ValuesOf(es)[..n] == ValuesOf(es[..n]);
    }
  }

  /**
   * Identity law: without recursion, a document with distinct keys whose
   * Strings hold no placeholder, and that has no null value unless nulls
   * are included, is copied to an equal document.
   */
  lemma DocumentUnchanged(document: IData, default: Value, includeNulls: bool, env: Env)
    requires DistinctKeys(document.entries)
    requires forall i :: 0 <= i < |document.entries| ==>
               TokenFreeValue(document.entries[i].value) && IsKept(document.entries[i].value, includeNulls)
    ensures SubstitutedBody(document, default, false, includeNulls, env) == Success(document)
  {
    var es, scoped := document.entries, ScopedTo(document, env);
    forall i | 0 <= i < |es| ensures SubstitutedValue(es[i].value, default, false, includeNulls, scoped) == Success(es[i].value) {
      ValueUnchanged(es[i].value, default, includeNulls, scoped);
    }
    var rs := ValueResults(es, default, false, includeNulls, scoped);
    CollectCharacterized(rs);
    assert Collect(rs).value == ValuesOf(es);
    WrittenResultsCollect(es, rs, includeNulls);
    WrittenInOrder(es, ValuesOf(es), includeNulls);
    KeptAll(es, includeNulls);
  }
}

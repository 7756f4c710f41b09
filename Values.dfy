/**
 * The values the substitution engine and the document comparator work on.
 *
 * A webMethods pipeline document (IData) is an ordered list of key/value
 * entries; its values are Java objects. The shapes the engine distinguishes
 * are closed into one datatype: String, String[], String[][], a nested
 * document (IData and its IDataCodable / IDataPortable / ValuesCodable
 * wrappers), a document list (IData[] and its Table / codable array forms),
 * null, and any other object, which the engine passes through untouched.
 */
module Values {

  datatype Option<T> = None | Some(value: T)

  /** The exceptions the engine lets escape to its caller. */
  datatype Error =
    | NullValueClass   // the requested value class is null
    | NullReplacement  // a null string reaches Matcher.appendReplacement

  datatype Result<T> = Success(value: T) | Failure(error: Error) {
    predicate IsFailure() { Failure? }

    function PropagateFailure<U>(): Result<U>
      requires Failure?
    {
      Failure(error)
    }

    function Extract(): T
      requires Success?
    {
      value
    }
  }

  /** A java.lang.String reference: None stands for null. */
  type Text = Option<string>

  datatype Value =
    | Null
    | Str(s: string)
    | StrArr(elems: seq<Text>)
    | StrTable(rows: seq<Option<seq<Text>>>)
    | Doc(doc: IData)
    | DocList(docs: seq<Option<IData>>)
    | Other(id: int)

  /** An IData document: its entries in cursor order. Keys may repeat. */
  datatype IData = IData(entries: seq<Entry>)

  datatype Entry = Entry(key: string, value: Value)

  /** SubstitutionType: which scopes a placeholder may be resolved from. */
  datatype Selector = All | Local | Global {
    predicate SearchesLocal() { All? || Local? }
    predicate SearchesGlobal() { All? || Global? }
  }

  /**
   * A java.lang.Class as far as the engine looks at it: its name, and
   * whether `isAssignableFrom(String.class)` holds of it (String, Object,
   * CharSequence, ...).
   */
  datatype ClassRef = ClassRef(name: string, acceptsString: bool)

  const StringClass := ClassRef("java.lang.String", true)

  /**
   * ObjectHelper.convert(value, class) is declared `<T> T convert(Object, Class<T>)`:
   * null converts to null, and asked for a String it yields a String or null.
   * It is also taken never to throw: a conversion error is not modelled.
   * Nothing else is assumed of it.
   */
  ghost predicate ConverterLaws(convert: (Value, ClassRef) -> Value) {
    && (forall c :: convert(Null, c) == Null)
    && (forall v :: convert(v, StringClass).Str? || convert(v, StringClass).Null?)
  }

  type Converter = convert: (Value, ClassRef) -> Value | ConverterLaws(convert)
    witness (v: Value, c: ClassRef) => Null

  /** The Java text of a String result, as it is stored into a String[]. */
  function AsText(v: Value): Text {
    if v.Str? then Some(v.s) else None
  }

  /**
   * The first entry with `key`, as IDataHelper reads a document: None when
   * no entry has that key.
   */
  function Lookup(es: seq<Entry>, key: string): (r: Option<Value>)
    ensures r.None? <==> forall i :: 0 <= i < |es| ==> es[i].key != key
    ensures r.Some? ==> exists i :: 0 <= i < |es| && es[i] == Entry(key, r.value)
                                    && forall j :: 0 <= j < i ==> es[j].key != key
  {
    if es == [] then None
    else if es[0].key == key then Some(es[0].value)
    else
      Lookup(es[1..], key)
  }

  /** IDataHelper.exists(document, key): some entry has the key, whatever its value. */
  predicate HasKey(d: IData, key: string) {
    Lookup(d.entries, key).Some?
  }

  /** IDataHelper.get(document, key): the first value under the key, null when absent. */
  function Get(d: IData, key: string): Value {
    match Lookup(d.entries, key)
    case Some(v) => v
    case None => Null
  }

  /**
   * IDataUtil.put on the output document: overwrite the first entry with the
   * key, or append a new entry at the end.
   */
  function Put(es: seq<Entry>, key: string, value: Value): (r: seq<Entry>)
    ensures |r| == |es| || r == es + [Entry(key, value)]
  {
    if es == [] then [Entry(key, value)]
    else if es[0].key == key then [Entry(key, value)] + es[1..]
    else [es[0]] + Put(es[1..], key, value)
  }

  /** After a put the key reads back the new value. */
  lemma {:induction false} PutReadsBack(es: seq<Entry>, key: string, value: Value)
    ensures Lookup(Put(es, key, value), key) == Some(value)
  {
    if es != [] && es[0].key != key {
      PutReadsBack(es[1..], key, value);
      assert Put(es, key, value)[1..] == Put(es[1..], key, value);
    }
  }

  /** A put leaves every other key reading as before. */
  lemma {:induction false} PutKeepsOthers(es: seq<Entry>, key: string, value: Value, other: string)
    requires other != key
    ensures Lookup(Put(es, key, value), other) == Lookup(es, other)
  {
    if es != [] && es[0].key != key {
      PutKeepsOthers(es[1..], key, value, other);
      assert Put(es, key, value)[1..] == Put(es[1..], key, value);
    }
  }

  /** A put of an absent key appends; a put of a present key overwrites in place. */
  lemma {:induction false} PutGrowsOnlyWhenAbsent(es: seq<Entry>, key: string, value: Value)
    ensures Lookup(es, key).None? ==> Put(es, key, value) == es + [Entry(key, value)]
    ensures Lookup(es, key).Some? ==> |Put(es, key, value)| == |es|
  {
    if es != [] && es[0].key != key {
      PutGrowsOnlyWhenAbsent(es[1..], key, value);
      assert es == [es[0]] + es[1..];
    }
  }

  /**
   * After a put the key reads back the new value, every other key reads as
   * before, and the document grows only when the key was absent.
   */
  lemma PutLookup(es: seq<Entry>, key: string, value: Value)
    ensures Lookup(Put(es, key, value), key) == Some(value)
    ensures forall k :: k != key ==> Lookup(Put(es, key, value), k) == Lookup(es, k)
    ensures Lookup(es, key).None? ==> Put(es, key, value) == es + [Entry(key, value)]
    ensures Lookup(es, key).Some? ==> |Put(es, key, value)| == |es|
  {
    PutReadsBack(es, key, value);
    forall k | k != key
      ensures Lookup(Put(es, key, value), k) == Lookup(es, k)
    {
      PutKeepsOthers(es, key, value, k);
    }
    PutGrowsOnlyWhenAbsent(es, key, value);
  }

  /**
   * A Java loop that stores the results rs[0], rs[1], ... of a computation
   * that may throw into an output array: the values in order, or the first
   * exception in index order.
   */
  function Collect<T>(rs: seq<Result<T>>): (r: Result<seq<T>>)
    ensures r.Success? ==> |r.value| == |rs|
    ensures r.Failure? ==> Failure(r.error) in rs
  {
    if rs == [] then Success([])
    else
      var n := |rs| - 1;
      var init :- Collect(rs[..n]);
      var last :- rs[n];
      Success(init + [last])
  }

  /** One turn of the loop: the next result is stored, or its exception escapes. */
  lemma CollectStep<T>(rs: seq<Result<T>>, i: nat)
    requires i < |rs| && Collect(rs[..i]).Success?
    ensures Collect(rs[..i + 1]) == if rs[i].Failure? then rs[i].PropagateFailure()
                                    else Success(Collect(rs[..i]).value + [rs[i].value])
  {
    assert rs[..i + 1][..i] == rs[..i];
  }

  /** Once an exception has escaped, the later results do not matter. */
  lemma {:induction false} CollectPrefixFailure<T>(rs: seq<Result<T>>, k: nat)
    requires k <= |rs| && Collect(rs[..k]).Failure?
    ensures Collect(rs) == Collect(rs[..k])
    decreases |rs| - k
  {
    if k < |rs| {
      assert rs[..k + 1][..k] == rs[..k];
      CollectPrefixFailure(rs, k + 1);
    } else {
      assert rs[..k] == rs;
    }
  }

  /**
   * The loop succeeds exactly when every result is a success, then stores
   * them in order; otherwise the exception is that of the first failing
   * result.
   */
  lemma {:induction false} CollectCharacterized<T>(rs: seq<Result<T>>)
    ensures Collect(rs).Success? <==> forall i :: 0 <= i < |rs| ==> rs[i].Success?
    ensures Collect(rs).Success? ==> forall i :: 0 <= i < |rs| ==> rs[i] == Success(Collect(rs).value[i])
    ensures Collect(rs).Failure? ==> exists i :: 0 <= i < |rs| && rs[i] == Collect(rs).PropagateFailure()
                                                && forall j :: 0 <= j < i ==> rs[j].Success?
    decreases |rs|
  {
    if rs != [] {
      var n := |rs| - 1;
      CollectCharacterized(rs[..n]);
      assert forall i :: 0 <= i < n ==> rs[..n][i] == rs[i];
      var init := Collect(rs[..n]);
      if init.Failure? {
        var i :| 0 <= i < n && rs[..n][i] == init.PropagateFailure() && forall j :: 0 <= j < i ==> rs[..n][j].Success?;
        assert rs[i] == Collect(rs).PropagateFailure();
      }
    }
  }
}

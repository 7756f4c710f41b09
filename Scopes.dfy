/**
 * Resolution of a placeholder key against the local scopes, in the order the
 * caller gives them, and the process-wide global variable store
 * (SubstitutionHelper.exists and SubstitutionHelper.getValue).
 *
 * The global store is a snapshot map passed in by the caller; its
 * concurrent updates are not part of the model.
 */
module Scopes {

  import opened Values

  /** GlobalVariableHelper.get over the snapshot: null when the key is absent. */
  function GlobalGet(global: map<string, Value>, key: string): Value {
    if key in global then global[key] else Null
  }

  /**
   * The key is visible under the selector: some local scope holds it, even
   * mapped to null, or the global store holds it.
   */
  predicate KeyExists(key: string, selector: Selector, scopes: seq<IData>, global: map<string, Value>) {
    || (selector.SearchesLocal() && exists i :: 0 <= i < |scopes| && HasKey(scopes[i], key))
    || (selector.SearchesGlobal() && key in global)
  }

  /** The first non-null value of the key across the local scopes, in order. */
  function LocalValue(scopes: seq<IData>, key: string): (v: Value)
    ensures v == Null <==> forall i :: 0 <= i < |scopes| ==> Get(scopes[i], key) == Null
    ensures v != Null ==> exists i :: 0 <= i < |scopes| && Get(scopes[i], key) == v
                                      && forall j :: 0 <= j < i ==> Get(scopes[j], key) == Null
  {
    if scopes == [] then Null
    else if Get(scopes[0], key) != Null then Get(scopes[0], key)
    else
      var v := LocalValue(scopes[1..], key);
      assert forall i :: 0 < i < |scopes| ==> scopes[1..][i - 1] == scopes[i];
      v
  }

  /**
   * The raw value getValue finds before converting it: the first non-null
   * local value when local scopes are searched, else the global store's value
   * when it is searched, else null.
   */
  function Resolve(key: string, selector: Selector, scopes: seq<IData>, global: map<string, Value>): Value {
    var local := if selector.SearchesLocal() then LocalValue(scopes, key) else Null;
    if local == Null && selector.SearchesGlobal() then GlobalGet(global, key) else local
  }

  /** SubstitutionHelper.exists: stops at the first scope that has the key. */
  method Exists(key: string, selector: Selector, scopes: seq<IData>, global: map<string, Value>)
    returns (found: bool)
    ensures found <==> KeyExists(key, selector, scopes, global)
  {
    found := false;
    if selector.SearchesLocal() {
      var i := 0;
      while i < |scopes|
        invariant 0 <= i <= |scopes|
        invariant forall j :: 0 <= j < i ==> !HasKey(scopes[j], key)
        invariant !found
      {
        var localExists := HasKey(scopes[i], key);
        if localExists {
          found := localExists;
          break;
        }
        i := i + 1;
      }
    }
    if !found && selector.SearchesGlobal() {
      found := key in global;
    }
  }

  /**
   * SubstitutionHelper.getValue: skips scopes whose value is null, falls back
   * to the global store, and converts what it found to the requested class.
   */
  method GetValue(key: string, valueClass: ClassRef, selector: Selector, scopes: seq<IData>,
                  global: map<string, Value>, convert: Converter)
    returns (v: Value)
    ensures v == convert(Resolve(key, selector, scopes, global), valueClass)
  {
    var value := Null;
    if selector.SearchesLocal() {
      var i := 0;
      while i < |scopes|
        invariant 0 <= i <= |scopes|
        invariant value == Null
        invariant LocalValue(scopes[i..], key) == LocalValue(scopes, key)
      {
        var localValue := Get(scopes[i], key);
        if localValue != Null {
          value := localValue;
          break;
        }
        assert scopes[i..][1..] == scopes[i + 1..];
        i := i + 1;
      }
    }
    if value == Null && selector.SearchesGlobal() {
      value := GlobalGet(global, key);
    }
    v := convert(value, valueClass);
  }

  /** The first scope holding a non-null value wins over every later scope and the global store. */
  lemma {:induction false} FirstLocalWins(key: string, selector: Selector, scopes: seq<IData>,
                                           global: map<string, Value>, i: nat)
    requires selector.SearchesLocal() && i < |scopes| && Get(scopes[i], key) != Null
    requires forall j :: 0 <= j < i ==> Get(scopes[j], key) == Null
    ensures Resolve(key, selector, scopes, global) == Get(scopes[i], key)
    ensures KeyExists(key, selector, scopes, global)
  {
    LocalValueAt(scopes, key, i);
    assert HasKey(scopes[i], key);
  }

  lemma {:induction false} LocalValueAt(scopes: seq<IData>, key: string, i: nat)
    requires i < |scopes| && Get(scopes[i], key) != Null
    requires forall j :: 0 <= j < i ==> Get(scopes[j], key) == Null
    ensures LocalValue(scopes, key) == Get(scopes[i], key)
  {
    if i > 0 {
      assert Get(scopes[0], key) == Null;
      assert forall j :: 0 <= j < i - 1 ==> scopes[1..][j] == scopes[j + 1];
      LocalValueAt(scopes[1..], key, i - 1);
    }
  }

  /** The global store is read only when no local scope holds a non-null value. */
  lemma GlobalOnlyAsFallback(key: string, selector: Selector, scopes: seq<IData>, global: map<string, Value>)
    ensures selector.Global? || (selector.All? && forall i :: 0 <= i < |scopes| ==> Get(scopes[i], key) == Null)
            ==> Resolve(key, selector, scopes, global) == GlobalGet(global, key)
    ensures selector.All? && (exists i :: 0 <= i < |scopes| && Get(scopes[i], key) != Null)
            ==> Resolve(key, selector, scopes, global) == LocalValue(scopes, key) != Null
  {
  }

  /** LOCAL never reads the global store; GLOBAL never reads a local scope. */
  lemma SelectorIsolation(key: string, scopes1: seq<IData>, scopes2: seq<IData>,
                          global1: map<string, Value>, global2: map<string, Value>)
    ensures Resolve(key, Local, scopes1, global1) == Resolve(key, Local, scopes1, global2)
    ensures KeyExists(key, Local, scopes1, global1) == KeyExists(key, Local, scopes1, global2)
    ensures Resolve(key, Global, scopes1, global1) == Resolve(key, Global, scopes2, global1)
    ensures KeyExists(key, Global, scopes1, global1) == KeyExists(key, Global, scopes2, global1)
  {
  }

  /**
   * exists and getValue disagree on a key held as null: it counts as
   * existing, yet its value comes from the global store under ALL.
   */
  lemma NullEntryExistsButFallsThrough(key: string, scope: IData, global: map<string, Value>)
    requires HasKey(scope, key) && Get(scope, key) == Null
    ensures KeyExists(key, All, [scope], global)
    ensures Resolve(key, All, [scope], global) == GlobalGet(global, key)
    ensures KeyExists(key, Local, [scope], global) && Resolve(key, Local, [scope], global) == Null
  {
    assert HasKey([scope][0], key);
  }
}

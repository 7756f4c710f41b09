/**
 * The substitution of `%key%` placeholders in a String, a String[] and a
 * String[][] (the first three `SubstitutionHelper.substitute` overloads).
 *
 * Each operation is a method that follows the Java loop, proved equal to a
 * function that states the rule declaratively.
 */
module Substitution {

  import opened Values
  import opened Placeholders
  import opened Scopes

  /**
   * What every call resolves placeholders against: the substitution type,
   * the local scopes in the order given, a snapshot of the global variables,
   * and ObjectHelper.convert.
   */
  datatype Env = Env(selector: Selector, scopes: seq<IData>, global: map<string, Value>, convert: Converter)

  /** The value of `key` in the environment, converted to `valueClass` as getValue returns it. */
  function ValueOf(key: string, valueClass: ClassRef, env: Env): Value {
    env.convert(Resolve(key, env.selector, env.scopes, env.global), valueClass)
  }

  /**
   * The text appended in place of an embedded `%key%`: the key's String
   * value; failing that the default value as a String; failing that the
   * placeholder itself. A default whose String form is null cannot be
   * appended, and the exception escapes.
   */
  function Replacement(key: string, default: Value, env: Env): (r: Result<string>)
    ensures r.Failure? <==> ValueOf(key, StringClass, env) == Null && default != Null
                            && env.convert(default, StringClass) == Null
    ensures r.Failure? ==> r.error == NullReplacement
    ensures ValueOf(key, StringClass, env) != Null ==> r == Success(ValueOf(key, StringClass, env).s)
    ensures ValueOf(key, StringClass, env) == Null && default != Null && env.convert(default, StringClass) != Null
            ==> r == Success(env.convert(default, StringClass).s)
    ensures ValueOf(key, StringClass, env) == Null && default == Null ==> r == Success("%" + key + "%")
  {
    var value := ValueOf(key, StringClass, env);
    assert value.Str? || value.Null?;
    if value != Null then Success(value.s)
    else if default != Null then
      var text := env.convert(default, StringClass);
      assert text.Str? || text.Null?;
      if text != Null then Success(text.s) else Failure(NullReplacement)
    else Success("%" + key + "%")
  }

  /** The text a piece contributes to the result. */
  function PieceResult(p: Piece, default: Value, env: Env): Result<string> {
    match p
    case Literal(text) => Success(text)
    case Placeholder(key) => Replacement(key, default, env)
  }

  /**
   * The text the `find()` loop builds from the pieces of a template: each
   * piece in order, the first exception escaping.
   */
  function Fill(ps: seq<Piece>, default: Value, env: Env): (r: Result<string>)
    ensures r.Failure? ==> r.error == NullReplacement && default != Null
                           && env.convert(default, StringClass) == Null
  {
    if ps == [] then Success("")
    else
      var head :- PieceResult(ps[0], default, env);
      var tail :- Fill(ps[1..], default, env);
      Success(head + tail)
  }

  /** Pieces that all stand for themselves fill back to the text they were cut from. */
  lemma {:induction false} FillVerbatim(ps: seq<Piece>, default: Value, env: Env)
    requires forall k :: 0 <= k < |ps| ==> PieceResult(ps[k], default, env) == Success(PieceText(ps[k]))
    ensures Fill(ps, default, env) == Success(Join(ps))
  {
    if ps != [] {
      assert forall k :: 0 < k < |ps| ==> ps[1..][k - 1] == ps[k];
      FillVerbatim(ps[1..], default, env);
    }
  }

  /** The fill fails exactly when one of its pieces does. */
  lemma {:induction false} FillFails(ps: seq<Piece>, default: Value, env: Env)
    ensures Fill(ps, default, env).Failure?
            <==> exists k :: 0 <= k < |ps| && PieceResult(ps[k], default, env).Failure?
  {
    if ps != [] {
      FillFails(ps[1..], default, env);
      if PieceResult(ps[0], default, env).Success? {
        forall k | 0 < k < |ps| ensures ps[1..][k - 1] == ps[k] { }
      }
    }
  }

  /** `pre` put ahead of the text `r` builds, or `r`'s exception. */
  function Prefixed(pre: string, r: Result<string>): Result<string> {
    if r.Success? then Success(pre + r.value) else r
  }

  /**
   * The value `substitute(String, Class, Object, SubstitutionType, IData...)`
   * returns. A template that is one whole placeholder yields the key's value
   * converted to the requested class (or the converted default when that is
   * null); if the key is nowhere to be found, the template itself converted.
   * Any other template yields, when the class accepts a String, the text with
   * every embedded placeholder replaced; otherwise null.
   */
  function SubstitutedString(template: Text, valueClass: Option<ClassRef>, default: Value, env: Env)
    : (r: Result<Value>)
    ensures r == Failure(NullValueClass) <==> valueClass.None?
    ensures valueClass.Some? && (template.None? || env.scopes == []) ==> r == Success(Null)
    ensures r.Failure? && valueClass.Some? ==> r.error == NullReplacement && default != Null
    ensures valueClass == Some(StringClass) && r.Success? ==> r.value.Str? || r.value.Null?
    ensures valueClass.Some? && !valueClass.value.acceptsString && r.Success? && r.value != Null
            ==> template.Some? && IsToken(template.value)
    ensures valueClass.Some? && !valueClass.value.acceptsString && template.Some? && !IsToken(template.value)
            ==> r == Success(Null)
  {
    if valueClass.None? then Failure(NullValueClass)
    else if template.None? || env.scopes == [] then Success(Null)
    else
      var s, cls := template.value, valueClass.value;
      match WholeMatch(s)
      case Some(key) =>
        if KeyExists(key, env.selector, env.scopes, env.global) then
          var output := ValueOf(key, cls, env);
          if output == Null && default != Null then Success(env.convert(default, cls))
          else Success(output)
        else Success(env.convert(Str(s), cls))
      case None =>
        if cls.acceptsString then
          var text :- Fill(Tokenize(s, 0), default, env);
          Success(Str(text))
        else Success(Null)
  }

  /** Filling a literal and a placeholder ahead of the rest. */
  lemma FillTwo(text: string, key: string, rest: seq<Piece>, default: Value, env: Env)
    ensures var rep := Replacement(key, default, env);
            Fill([Literal(text), Placeholder(key)] + rest, default, env)
            == if rep.Success? then Prefixed(text + rep.value, Fill(rest, default, env)) else rep
  {
    var rep := Replacement(key, default, env);
    var ps := [Literal(text), Placeholder(key)] + rest;
    assert ps[1..] == [Placeholder(key)] + rest;
    assert ps[1..][1..] == rest;
    var tail := Fill(rest, default, env);
    if rep.Success? && tail.Success? {
      assert text + (rep.value + tail.value) == text + rep.value + tail.value;
    }
  }

  /** One turn of the `find()` loop: the text before the match, then the replacement. */
  lemma FillStep(s: string, from: nat, st: nat, en: nat, default: Value, env: Env)
    requires from <= |s| && NextMatch(s, from) == Some((st, en))
    ensures st + 1 <= en - 1
    ensures var rep := Replacement(s[st + 1..en - 1], default, env);
            Fill(Tokenize(s, from), default, env)
            == if rep.Success? then Prefixed(s[from..st] + rep.value, Fill(Tokenize(s, en), default, env))
               else rep
  {
    var rest := Tokenize(s, en);
    var ps := [Literal(s[from..st]), Placeholder(s[st + 1..en - 1])] + rest;
    TokenizeStep(s, from);
    assert Tokenize(s, from) == ps;
    FillTwo(s[from..st], s[st + 1..en - 1], rest, default, env);
  }

  lemma PrefixedNothing(r: Result<string>)
    ensures Prefixed("", r) == r
  {
    if r.Success? {
      assert "" + r.value == r.value;
    }
  }

  lemma FillLiteral(text: string, default: Value, env: Env)
    ensures Fill([Literal(text)], default, env) == Success(text)
  {
    assert [Literal(text)][1..] == [];
    assert text + "" == text;
  }

  lemma PrefixedTwice(a: string, b: string, r: Result<string>)
    ensures Prefixed(a, Prefixed(b, r)) == Prefixed(a + b, r)
  {
    if r.Success? {
      assert a + (b + r.value) == a + b + r.value;
    }
  }

  /**
   * The `find()` / `appendReplacement` / `appendTail` loop of the embedded
   * branch, taken when the class accepts a String: the text it builds, or the
   * exception it raises.
   */
  method ReplaceEmbedded(s: string, default: Value, env: Env) returns (r: Result<string>)
    ensures r == Fill(Tokenize(s, 0), default, env)
  {
    var buffer := "";
    var pos := 0;  // where the next appendReplacement copies from
    var m := NextMatch(s, 0);
    PrefixedNothing(Fill(Tokenize(s, 0), default, env));
    while m.Some?
      invariant pos <= |s| && m == NextMatch(s, pos)
      invariant Fill(Tokenize(s, 0), default, env) == Prefixed(buffer, Fill(Tokenize(s, pos), default, env))
      decreases |s| - pos
    {
      var (start, end) := m.value;
      FillStep(s, pos, start, end, default, env);
      var key := s[start + 1..end - 1];
      var value := GetValue(key, StringClass, env.selector, env.scopes, env.global, env.convert);
      assert value == ValueOf(key, StringClass, env);
      var replacement;
      if value != Null {
        replacement := value.s;
        assert Replacement(key, default, env) == Success(replacement);
      } else if default != Null {
        var text := env.convert(default, StringClass);
        if text == Null {
          return Failure(NullReplacement);
        }
        replacement := text.s;
        assert Replacement(key, default, env) == Success(replacement);
      } else {
        MatchParts(s, pos, start, end);
        replacement := s[start..end];  // group(0)
        assert Replacement(key, default, env) == Success(replacement);
      }
      PrefixedTwice(buffer, s[pos..start] + replacement, Fill(Tokenize(s, end), default, env));
      buffer := buffer + (s[pos..start] + replacement);
      pos := end;
      m := NextMatch(s, pos);
    }
    assert Tokenize(s, pos) == [Literal(s[pos..])];
    FillLiteral(s[pos..], default, env);
    buffer := buffer + s[pos..];  // appendTail
    return Success(buffer);
  }

  /** SubstitutionHelper.substitute on a String: the whole-placeholder branch or the embedded branch. */
  method SubstituteString(template: Text, valueClass: Option<ClassRef>, default: Value, env: Env)
    returns (r: Result<Value>)
    ensures r == SubstitutedString(template, valueClass, default, env)
  {
    if valueClass.None? {
      return Failure(NullValueClass);
    }
    if template.None? || |env.scopes| == 0 {
      return Success(Null);
    }
    var s, cls := template.value, valueClass.value;
    var output := Null;
    var whole := WholeMatch(s);
    if whole.Some? {
      var key := whole.value;
      var found := Exists(key, env.selector, env.scopes, env.global);
      if found {
        output := GetValue(key, cls, env.selector, env.scopes, env.global, env.convert);
        if output == Null && default != Null {
          output := env.convert(default, cls);
        }
      } else {
        output := env.convert(Str(s), cls);
      }
    } else if cls.acceptsString {
      var text := ReplaceEmbedded(s, default, env);
      if text.Failure? {
        return text.PropagateFailure();
      }
      output := Str(text.value);
    }
    r := Success(output);
  }

  /** A template with no placeholder in it comes back unchanged as a String. */
  lemma TokenFreeUnchanged(s: string, cls: ClassRef, default: Value, env: Env)
    requires !HasToken(s) && cls.acceptsString && env.scopes != []
    ensures SubstitutedString(Some(s), Some(cls), default, env) == Success(Str(s))
  {
    assert !IsToken(s) by {
      if |s| > 0 {
        assert s[0..|s|] == s;
      }
    }
    NoTokenOneLiteral(s);
    FillLiteral(s, default, env);
  }

  /**
   * Placeholders whose keys resolve to nothing, with no default, are kept
   * verbatim: the text comes back unchanged.
   */
  lemma UnresolvedPlaceholdersKept(s: string, cls: ClassRef, env: Env)
    requires WholeMatch(s).None? && cls.acceptsString && env.scopes != []
    requires forall p :: p in Tokenize(s, 0) && p.Placeholder?
                         ==> Resolve(p.key, env.selector, env.scopes, env.global) == Null
    ensures SubstitutedString(Some(s), Some(cls), Null, env) == Success(Str(s))
  {
    var ps := Tokenize(s, 0);
    forall k | 0 <= k < |ps| ensures PieceResult(ps[k], Null, env) == Success(PieceText(ps[k])) {
      assert ps[k] in ps;
    }
    FillVerbatim(ps, Null, env);
    TokenizeJoin(s, 0);
  }

  /** A whole-string placeholder whose key is nowhere to be found: the template itself, converted. */
  lemma WholeUnknownKeyKeepsTemplate(key: string, cls: ClassRef, default: Value, env: Env)
    requires IsKey(key) && env.scopes != []
    requires !KeyExists(key, env.selector, env.scopes, env.global)
    ensures SubstitutedString(Some("%" + key + "%"), Some(cls), default, env)
            == Success(env.convert(Str("%" + key + "%"), cls))
  {
    WholeMatchOfKey(key);
  }

  /**
   * A whole-string placeholder yields the typed value of the first scope that
   * holds it, converted to the requested class, not its text.
   */
  lemma WholeFirstScopeValue(key: string, cls: ClassRef, default: Value, env: Env, i: nat)
    requires IsKey(key) && env.selector.SearchesLocal() && i < |env.scopes|
    requires Get(env.scopes[i], key) != Null
    requires forall j :: 0 <= j < i ==> Get(env.scopes[j], key) == Null
    requires env.convert(Get(env.scopes[i], key), cls) != Null
    ensures SubstitutedString(Some("%" + key + "%"), Some(cls), default, env)
            == Success(env.convert(Get(env.scopes[i], key), cls))
  {
    WholeMatchOfKey(key);
    FirstLocalWins(key, env.selector, env.scopes, env.global, i);
  }

  /**
   * A whole-string placeholder whose key exists in the searched scopes or
   * store yields the key's value converted to the requested class, or, when
   * that conversion is null and a default is given, the converted default.
   */
  lemma WholeExistingKey(key: string, cls: ClassRef, default: Value, env: Env)
    requires IsKey(key) && env.scopes != []
    requires KeyExists(key, env.selector, env.scopes, env.global)
    ensures var value := ValueOf(key, cls, env);
            SubstitutedString(Some("%" + key + "%"), Some(cls), default, env)
            == Success(if value == Null && default != Null then env.convert(default, cls) else value)
  {
    WholeMatchOfKey(key);
  }

  /**
   * A whole-string placeholder whose key is present but has no non-null
   * value anywhere yields the default value converted to the requested class.
   */
  lemma WholeNullValueUsesDefault(key: string, cls: ClassRef, default: Value, env: Env)
    requires IsKey(key) && env.scopes != [] && default != Null
    requires KeyExists(key, env.selector, env.scopes, env.global)
    requires Resolve(key, env.selector, env.scopes, env.global) == Null
    ensures SubstitutedString(Some("%" + key + "%"), Some(cls), default, env)
            == Success(env.convert(default, cls))
  {
    WholeMatchOfKey(key);
  }

  /**
   * What the String[] loop computes for each element, in index order: the
   * substitution of a[i] or its exception.
   */
  function ElementResults(a: seq<Text>, valueClass: Option<ClassRef>, default: Value, env: Env)
    : (rs: seq<Result<Value>>)
    ensures |rs| == |a|
    ensures forall i :: 0 <= i < |a| ==> rs[i] == SubstitutedString(a[i], valueClass, default, env)
  {
    seq(|a|, i requires 0 <= i < |a| => SubstitutedString(a[i], valueClass, default, env))
  }

  /**
   * The value `substitute(String[], ...)` returns: null for a null array,
   * otherwise each element substituted in place, in order, the first
   * exception escaping.
   */
  function SubstitutedStrings(items: Option<seq<Text>>, valueClass: Option<ClassRef>, default: Value, env: Env)
    : (r: Result<Option<seq<Value>>>)
    ensures items.None? ==> r == Success(None)
    ensures items.Some? && valueClass.None? ==> r == Failure(NullValueClass)
    ensures r.Failure? && valueClass.Some? ==> r.error == NullReplacement && default != Null
    ensures items.Some? && r.Success? ==> r.value.Some? && |r.value.value| == |items.value|
  {
    if items.None? then Success(None)
    else if valueClass.None? then Failure(NullValueClass)
    else
      var output :- Collect(ElementResults(items.value, valueClass, default, env));
      Success(Some(output))
  }

  /** SubstitutionHelper.substitute on a String[]: null stays null, otherwise the element loop. */
  method SubstituteStrings(items: Option<seq<Text>>, valueClass: Option<ClassRef>, default: Value, env: Env)
    returns (r: Result<Option<seq<Value>>>)
    ensures r == SubstitutedStrings(items, valueClass, default, env)
  {
    if items.None? {
      return Success(None);
    }
    if valueClass.None? {
      return Failure(NullValueClass);  // ArrayHelper.instantiate(null, n)
    }
    var a := items.value;
    ghost var rs := ElementResults(a, valueClass, default, env);
    var output := new Value[|a|];
    for i := 0 to |a|
      invariant Collect(rs[..i]) == Success(output[..i])
    {
      var x := SubstituteString(a[i], valueClass, default, env);
      CollectStep(rs, i);
      if x.Failure? {
        CollectPrefixFailure(rs, i + 1);
        return x.PropagateFailure();
      }
      output[i] := x.value;
      assert output[..i + 1] == output[..i] + [x.value];
    }
    assert rs[..|a|] == rs && output[..|a|] == output[..];
    return Success(Some(output[..]));
  }

  /**
   * What the String[][] loop computes for each row, in index order: the
   * substitution of t[i] as a String[] or its exception.
   */
  function RowResults(t: seq<Option<seq<Text>>>, valueClass: Option<ClassRef>, default: Value, env: Env)
    : (rs: seq<Result<Option<seq<Value>>>>)
    ensures |rs| == |t|
    ensures forall i :: 0 <= i < |t| ==> rs[i] == SubstitutedStrings(t[i], valueClass, default, env)
  {
    seq(|t|, i requires 0 <= i < |t| => SubstitutedStrings(t[i], valueClass, default, env))
  }

  /**
   * The value `substitute(String[][], ...)` returns: null for a null table,
   * otherwise each row substituted as a String[], in order, the first
   * exception escaping.
   */
  function SubstitutedTable(table: Option<seq<Option<seq<Text>>>>, valueClass: Option<ClassRef>,
                            default: Value, env: Env)
    : (r: Result<Option<seq<Option<seq<Value>>>>>)
    ensures table.None? ==> r == Success(None)
    ensures table.Some? && valueClass.None? ==> r == Failure(NullValueClass)
    ensures r.Failure? && valueClass.Some? ==> r.error == NullReplacement && default != Null
    ensures table.Some? && r.Success? ==> r.value.Some? && |r.value.value| == |table.value|
  {
    if table.None? then Success(None)
    else if valueClass.None? then Failure(NullValueClass)
    else
      var output :- Collect(RowResults(table.value, valueClass, default, env));
      Success(Some(output))
  }

  /** SubstitutionHelper.substitute on a String[][]: null stays null, otherwise the row loop. */
  method SubstituteTable(table: Option<seq<Option<seq<Text>>>>, valueClass: Option<ClassRef>,
                         default: Value, env: Env)
    returns (r: Result<Option<seq<Option<seq<Value>>>>>)
    ensures r == SubstitutedTable(table, valueClass, default, env)
  {
    if table.None? {
      return Success(None);
    }
    if valueClass.None? {
      return Failure(NullValueClass);  // ArrayHelper.instantiate(null, n, 0)
    }
    var t := table.value;
    ghost var rs := RowResults(t, valueClass, default, env);
    var output := new Option<seq<Value>>[|t|];
    for i := 0 to |t|
      invariant Collect(rs[..i]) == Success(output[..i])
    {
      var x := SubstituteStrings(t[i], valueClass, default, env);
      CollectStep(rs, i);
      if x.Failure? {
        CollectPrefixFailure(rs, i + 1);
        return x.PropagateFailure();
      }
      output[i] := x.value;
      assert output[..i + 1] == output[..i] + [x.value];
    }
    assert rs[..|t|] == rs && output[..|t|] == output[..];
    return Success(Some(output[..]));
  }

  /**
   * substitute(String[]) works element by element: it succeeds exactly when
   * every element substitutes, element i of the result is element i of the
   * input substituted, and a failure is that of the first failing element.
   */
  lemma StringsElementwise(items: seq<Text>, cls: ClassRef, default: Value, env: Env)
    ensures var r := SubstitutedStrings(Some(items), Some(cls), default, env);
            && (r.Success? <==> forall i :: 0 <= i < |items| ==> SubstitutedString(items[i], Some(cls), default, env).Success?)
            && (r.Success? ==> forall i :: 0 <= i < |items| ==>
                                 SubstitutedString(items[i], Some(cls), default, env) == Success(r.value.value[i]))
            && (r.Failure? ==> exists i :: 0 <= i < |items| && SubstitutedString(items[i], Some(cls), default, env) == Failure(r.error)
                                 && forall j :: 0 <= j < i ==> SubstitutedString(items[j], Some(cls), default, env).Success?)
  {
    CollectCharacterized(ElementResults(items, Some(cls), default, env));
  }

  /**
   * substitute(String[][]) works row by row: row i of the result is row i
   * of the input substituted as a String[], so a null row stays null and
   * every other row keeps its length.
   */
  lemma TableElementwise(rows: seq<Option<seq<Text>>>, cls: ClassRef, default: Value, env: Env)
    ensures var r := SubstitutedTable(Some(rows), Some(cls), default, env);
            && (r.Success? <==> forall i :: 0 <= i < |rows| ==> SubstitutedStrings(rows[i], Some(cls), default, env).Success?)
            && (r.Success? ==> forall i :: 0 <= i < |rows| ==>
                                 && SubstitutedStrings(rows[i], Some(cls), default, env) == Success(r.value.value[i])
                                 && (r.value.value[i].None? <==> rows[i].None?)
                                 && (rows[i].Some? ==> |r.value.value[i].value| == |rows[i].value|))
  {
    CollectCharacterized(RowResults(rows, Some(cls), default, env));
  }
}

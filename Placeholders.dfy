/**
 * Recognition of `%key%` placeholders: the regular expression `%([^%]+)%`
 * (SubstitutionHelper.SUBSTITUTION_PATTERN) as the engine uses it, through
 * `Matcher.matches()` (the whole string is one placeholder) and repeated
 * `Matcher.find()` (the placeholders embedded in a string, left to right,
 * not overlapping).
 */
module Placeholders {

  import opened Values

  /** `t` is one token of the pattern: '%', one or more non-'%' characters, '%'. */
  predicate IsToken(t: string) {
    |t| >= 3 && t[0] == '%' && t[|t| - 1] == '%'
    && forall k :: 0 < k < |t| - 1 ==> t[k] != '%'
  }

  /** A key that a placeholder can carry: non-empty and free of '%'. */
  predicate IsKey(key: string) {
    key != [] && forall k :: 0 <= k < |key| ==> key[k] != '%'
  }

  /** `s` contains a token somewhere. */
  predicate HasToken(s: string) {
    exists i, e :: 0 <= i < e <= |s| && IsToken(s[i..e])
  }

  /**
   * `matcher.matches()` and `matcher.group(1)`: the key when the whole of `s`
   * is one token.
   */
  function WholeMatch(s: string): (key: Option<string>)
    ensures key.Some? <==> IsToken(s)
    ensures key.Some? ==> IsKey(key.value) && s == "%" + key.value + "%"
  {
    if IsToken(s) then Some(s[1..|s| - 1]) else None
  }

  /** The whole-string match reads back the key it was built from. */
  lemma WholeMatchOfKey(key: string)
    requires IsKey(key)
    ensures WholeMatch("%" + key + "%") == Some(key)
  {
    var s := "%" + key + "%";
    assert forall k :: 0 < k < |s| - 1 ==> s[k] == key[k - 1];
    assert s[1..|s| - 1] == key;
  }

  /** The position of the first '%' at or after `i`, if any. */
  function NextPercent(s: string, i: nat): (j: Option<nat>)
    requires i <= |s|
    ensures j.Some? ==> i <= j.value < |s| && s[j.value] == '%'
                        && forall k :: i <= k < j.value ==> s[k] != '%'
    ensures j.None? ==> forall k :: i <= k < |s| ==> s[k] != '%'
    decreases |s| - i
  {
    if i == |s| then None
    else if s[i] == '%' then Some(i)
    else NextPercent(s, i + 1)
  }

  /**
   * The pattern tried at position `i`: '%', then the maximal run of non-'%'
   * characters, which must be non-empty, then '%'. Yields the end of the
   * match. Backtracking cannot help: a shorter run is followed by a non-'%'.
   */
  function MatchAt(s: string, i: nat): (end: Option<nat>)
    requires i <= |s|
    ensures end.Some? ==> i + 3 <= end.value <= |s| && IsToken(s[i..end.value])
    ensures end.None? ==> forall e :: i < e <= |s| ==> !IsToken(s[i..e])
  {
    if i < |s| && s[i] == '%' then
      match NextPercent(s, i + 1)
      case Some(j) =>
        if j > i + 1 then Some(j + 1)
        else
          assert forall e :: i < e <= |s| ==> !IsToken(s[i..e]) by {
            forall e | i < e <= |s| && e > i + 2 ensures s[i..e][1] == '%' {
              assert s[i..e][1] == s[i + 1];
            }
          }
          None
      case None => None
    else None
  }

  /**
   * `matcher.find()` started at `from`: the first position at or after `from`
   * where the pattern matches, with the end of that match.
   */
  function NextMatch(s: string, from: nat): (m: Option<(nat, nat)>)
    requires from <= |s|
    ensures m.Some? ==> from <= m.value.0 && m.value.0 + 3 <= m.value.1 <= |s|
                        && IsToken(s[m.value.0..m.value.1])
                        && MatchAt(s, m.value.0) == Some(m.value.1)
    ensures m.Some? ==> forall i :: from <= i < m.value.0 ==> MatchAt(s, i).None?
    ensures m.None? ==> forall i :: from <= i <= |s| ==> MatchAt(s, i).None?
    decreases |s| - from
  {
    if from == |s| then None
    else
      match MatchAt(s, from)
      case Some(end) => Some((from, end))
      case None => NextMatch(s, from + 1)
  }

  /** `find()` reports no match exactly when the string holds no token. */
  lemma NoMatchIffNoToken(s: string)
    ensures NextMatch(s, 0).None? <==> !HasToken(s)
  {
    if NextMatch(s, 0).None? {
      forall i, e | 0 <= i < e <= |s| ensures !IsToken(s[i..e]) {
        assert MatchAt(s, i).None?;
      }
    } else {
      var (st, en) := NextMatch(s, 0).value;
      assert IsToken(s[st..en]);
    }
  }

  /** The key `group(1)` and the text `group(0)` of a match found by `find()`. */
  lemma MatchParts(s: string, from: nat, st: nat, en: nat)
    requires from <= |s| && NextMatch(s, from) == Some((st, en))
    ensures st + 1 <= en - 1 <= |s|
    ensures IsKey(s[st + 1..en - 1]) && s[st..en] == "%" + s[st + 1..en - 1] + "%"
  {
    assert IsToken(s[st..en]);
    assert s[st + 1..en - 1] == s[st..en][1..en - st - 1];
    assert s[st..en] == [s[st]] + s[st + 1..en - 1] + [s[en - 1]];
  }

  /** A piece of a string as `find()` cuts it: literal text or a placeholder. */
  datatype Piece = Literal(text: string) | Placeholder(key: string)

  /**
   * The pieces of `s[from..]` in the order the `find()` loop visits them:
   * the text before each match, the match, and finally the tail.
   */
  function Tokenize(s: string, from: nat): seq<Piece>
    requires from <= |s|
    decreases |s| - from
  {
    match NextMatch(s, from)
    case None => [Literal(s[from..])]
    case Some((st, en)) =>
      [Literal(s[from..st]), Placeholder(s[st + 1..en - 1])] + Tokenize(s, en)
  }

  /** The text a piece was cut from. */
  function PieceText(p: Piece): string {
    match p
    case Literal(t) => t
    case Placeholder(key) => "%" + key + "%"
  }

  /** The text a sequence of pieces was cut from. */
  function Join(ps: seq<Piece>): string {
    if ps == [] then "" else PieceText(ps[0]) + Join(ps[1..])
  }

  lemma JoinTwo(a: Piece, b: Piece, rest: seq<Piece>)
    ensures Join([a, b] + rest) == PieceText(a) + PieceText(b) + Join(rest)
  {
    var ps := [a, b] + rest;
    assert ps[1..] == [b] + rest;
    assert ps[1..][1..] == rest;
  }

  /** One step of the `find()` loop: the text before the match, the match, the rest. */
  lemma TokenizeStep(s: string, from: nat)
    requires from <= |s| && NextMatch(s, from).Some?
    ensures var (st, en) := NextMatch(s, from).value;
            Tokenize(s, from)
            == [Literal(s[from..st]), Placeholder(s[st + 1..en - 1])] + Tokenize(s, en)
  {
  }

  lemma JoinStep(s: string, from: nat)
    requires from <= |s| && NextMatch(s, from).Some?
    ensures var (st, en) := NextMatch(s, from).value;
            Join(Tokenize(s, from)) == s[from..st] + s[st..en] + Join(Tokenize(s, en))
  {
    var (st, en) := NextMatch(s, from).value;
    TokenizeStep(s, from);
    var rest := Tokenize(s, en);
    var key := s[st + 1..en - 1];
    var ps := [Literal(s[from..st]), Placeholder(key)] + rest;
    assert Tokenize(s, from) == ps;
    JoinTwo(Literal(s[from..st]), Placeholder(key), rest);
    assert PieceText(Placeholder(key)) == "%" + key + "%";
    assert Join(ps) == s[from..st] + ("%" + key + "%") + Join(rest);
    MatchParts(s, from, st, en);
  }

  lemma SliceSplit(s: string, a: nat, b: nat, c: nat)
    requires a <= b <= c <= |s|
    ensures s[a..] == s[a..b] + s[b..c] + s[c..]
  {
  }

  /** Tokenizing loses nothing: the pieces join back to the original text. */
  lemma {:induction false} TokenizeJoin(s: string, from: nat)
    requires from <= |s|
    ensures Join(Tokenize(s, from)) == s[from..]
    decreases |s| - from
  {
    var m := NextMatch(s, from);
    if m.None? {
      assert Join([Literal(s[from..])]) == s[from..] + Join([]);
    } else {
      var (st, en) := m.value;
      JoinStep(s, from);
      TokenizeJoin(s, en);
      SliceSplit(s, from, st, en);
    }
  }

  /** Every placeholder piece carries a well-formed key. */
  lemma {:induction false} TokenizeKeys(s: string, from: nat)
    requires from <= |s|
    ensures forall p :: p in Tokenize(s, from) && p.Placeholder? ==> IsKey(p.key)
    decreases |s| - from
  {
    match NextMatch(s, from)
    case None =>
    case Some((st, en)) =>
      MatchParts(s, from, st, en);
      TokenizeKeys(s, en);
  }

  /** A string without tokens is one literal piece. */
  lemma NoTokenOneLiteral(s: string)
    requires !HasToken(s)
    ensures Tokenize(s, 0) == [Literal(s)]
  {
    NoMatchIffNoToken(s);
  }

  /** No token lies within s[a..b] when the pattern matches at no position of it. */
  lemma NoTokenBetween(s: string, a: nat, b: nat)
    requires a <= b <= |s| && forall i :: a <= i < b ==> MatchAt(s, i).None?
    ensures !HasToken(s[a..b])
  {
    forall i, e | 0 <= i < e <= b - a
      ensures !IsToken(s[a..b][i..e])
    {
      assert forall k :: 0 <= k < e - i ==> s[a..b][i..e][k] == s[a + i + k];
      assert s[a..b][i..e] == s[a + i..a + e];
      assert MatchAt(s, a + i).None?;
    }
  }

  /**
   * `find()` misses nothing: the literal text between matches, and the tail
   * after the last one, holds no placeholder.
   */
  lemma {:induction false} TokenizeLiteralsTokenFree(s: string, from: nat)
    requires from <= |s|
    ensures forall p :: p in Tokenize(s, from) && p.Literal? ==> !HasToken(p.text)
    decreases |s| - from
  {
    match NextMatch(s, from)
    case None =>
      NoTokenBetween(s, from, |s|);
      assert s[from..|s|] == s[from..];
    case Some((st, en)) =>
      NoTokenBetween(s, from, st);
      TokenizeLiteralsTokenFree(s, en);
  }
}

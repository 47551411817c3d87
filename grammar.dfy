/**
 * The `c4lang` PEG grammar of src/parse.rs.
 *
 * Each rule is a function from the remaining input to `None` (the rule does
 * not match) or to the parsed value together with the input left over.
 * Ordered choice tries its first alternative and falls back to the second
 * only when the first fails; repetition (`[..]*`, `[..]+`) is greedy and never
 * gives characters back. A public rule called from Rust additionally demands
 * that the whole input is consumed (`Complete`).
 */
module Grammar {
  import opened Wrappers

  /** A successful match: the value and the unconsumed input. */
  datatype Parsed<T> = Parsed(value: T, rest: string)

  /** `CBox`: a named box. */
  datatype CBox = CBox(name: string)

  /** `CArrow`: an arrow from one box to another, with an optional label. */
  datatype CArrow = CArrow(name: Option<string>, from: CBox, to: CBox)

  predicate IsDigit(c: char) { '0' <= c <= '9' }

  /** The characters allowed after the first one of an identifier. */
  predicate IsIdChar(c: char) { IsDigit(c) || 'a' <= c <= 'z' || 'A' <= c <= 'Z' || c == '_' }

  predicate IsSpace(c: char) { c == ' ' }

  /** The characters of `all_ws`. */
  predicate IsBlank(c: char) { c == ' ' || c == '\n' || c == '\t' }

  predicate IsDash(c: char) { c == '-' }

  predicate NotQuote(c: char) { c != '"' }

  predicate NotSpace(c: char) { c != ' ' }

  /** Greedy repetition `[p]*`: the length of the longest prefix of `s` whose characters satisfy `p`. */
  function Span(p: char -> bool, s: string): (k: nat)
    ensures k <= |s|
    ensures forall i :: 0 <= i < k ==> p(s[i])
    ensures k == |s| || !p(s[k])
  {
    if s != [] && p(s[0]) then 1 + Span(p, s[1..]) else 0
  }

  /** What the `identifier` rule accepts: a non-digit, then one or more of `[0-9a-zA-Z_]`. */
  ghost predicate IsIdentifierText(t: string) {
    |t| >= 2 && !IsDigit(t[0]) && forall i :: 1 <= i < |t| ==> IsIdChar(t[i])
  }

  /** An identifier that also starts with a letter, digit-free first character or `_`. */
  ghost predicate IsName(t: string) {
    IsIdentifierText(t) && IsIdChar(t[0])
  }

  /** All characters of `s` are spaces, newlines or tabs. */
  ghost predicate AllBlank(s: string) {
    forall i :: 0 <= i < |s| ==> IsBlank(s[i])
  }

  /** Rule `identifier`. */
  function Identifier(s: string): (r: Option<Parsed<string>>)
    ensures r.Some? <==> |s| >= 2 && !IsDigit(s[0]) && IsIdChar(s[1])
    ensures r.Some? ==> IsIdentifierText(r.value.value) && s == r.value.value + r.value.rest
    ensures r.Some? ==> r.value.rest == [] || !IsIdChar(r.value.rest[0])
  {
    if |s| >= 1 && !IsDigit(s[0]) then
      var k := Span(IsIdChar, s[1..]);
      if k >= 1 then
        assert s == s[..1 + k] + s[1 + k..];
        Some(Parsed(s[..1 + k], s[1 + k..]))
      else None
    else None
  }

  /** Rule `whitespaces`: zero or more spaces; it never fails. */
  function Whitespaces(s: string): (r: Parsed<string>)
    ensures s == r.value + r.rest
    ensures forall i :: 0 <= i < |r.value| ==> r.value[i] == ' '
    ensures r.rest == [] || r.rest[0] != ' '
  {
    var k := Span(IsSpace, s);
    assert s == s[..k] + s[k..];
    Parsed(s[..k], s[k..])
  }

  /** Rule `all_ws`: zero or more spaces, newlines and tabs; it never fails. */
  function AllWs(s: string): (r: Parsed<string>)
    ensures s == r.value + r.rest
    ensures AllBlank(r.value)
    ensures r.rest == [] || !IsBlank(r.rest[0])
  {
    var k := Span(IsBlank, s);
    assert s == s[..k] + s[k..];
    Parsed(s[..k], s[k..])
  }

  /**
   * Rule `string`: a double-quoted run of one or more non-quote characters
   * (the quotes are dropped), or else a run of one or more non-space characters.
   */
  function StringLiteral(s: string): (r: Option<Parsed<string>>)
    ensures r.None? <==> s == [] || s[0] == ' '
    ensures r.Some? ==> |r.value.rest| < |s|
  {
    var q := if |s| >= 1 && s[0] == '"' then Span(NotQuote, s[1..]) else 0;
    if q >= 1 && 1 + q < |s| then
      Some(Parsed(s[1..1 + q], s[2 + q..]))
    else
      var k := Span(NotSpace, s);
      if k >= 1 then Some(Parsed(s[..k], s[k..])) else None
  }

  /** Rule `name_assignment`: `identifier ".name" whitespaces "=" whitespaces string`. */
  function NameAssignment(s: string): (r: Option<Parsed<(string, string)>>)
    ensures r.Some? ==> IsIdentifierText(r.value.value.0)
    ensures r.Some? ==> |r.value.rest| < |s|
  {
    var i :- Identifier(s);
    var t := i.rest;
    if |t| >= 5 && t[..5] == ".name" then
      var u := Whitespaces(t[5..]).rest;
      if |u| >= 1 && u[0] == '=' then
        var w := Whitespaces(u[1..]).rest;
        var v :- StringLiteral(w);
        Some(Parsed((i.value, v.value), v.rest))
      else None
    else None
  }

  /**
   * Rule `point_to`: `['-']+ identifier ['-']+ ">"` giving the label, or else
   * `['-']+ ">"` giving no label.
   */
  function PointTo(s: string): (r: Option<Parsed<Option<string>>>)
    ensures r.Some? ==> |r.value.rest| < |s| && s[0] == '-'
    ensures r.Some? && r.value.value.Some? ==> IsIdentifierText(r.value.value.value)
  {
    var d := Span(IsDash, s);
    if d == 0 then None
    else
      var labelled :=
        match Identifier(s[d..])
        case Some(p) =>
          var e := Span(IsDash, p.rest);
          if e >= 1 && e < |p.rest| && p.rest[e] == '>' then Some(Parsed(Some(p.value), p.rest[e + 1..]))
          else None
        case None => None;
      if labelled.Some? then labelled
      else if d < |s| && s[d] == '>' then Some(Parsed(None, s[d + 1..]))
      else None
  }

  /** Rule `relationship`: `identifier point_to identifier`, each part optionally preceded and followed by spaces. */
  function Relationship(s: string): (r: Option<Parsed<CArrow>>)
    ensures r.Some? ==> |r.value.rest| < |s|
    ensures r.Some? ==> IsIdentifierText(r.value.value.from.name) && IsIdentifierText(r.value.value.to.name)
  {
    var s1 := Whitespaces(s).rest;
    var a :- Identifier(s1);
    var s2 := Whitespaces(a.rest).rest;
    var p :- PointTo(s2);
    var s3 := Whitespaces(p.rest).rest;
    var b :- Identifier(s3);
    var s4 := Whitespaces(b.rest).rest;
    Some(Parsed(CArrow(p.value, CBox(a.value), CBox(b.value)), s4))
  }

  /**
   * The repetition part of `relationship() ++ "\n"`: as many `"\n" relationship`
   * as match; a newline not followed by a relationship is left unconsumed.
   */
  function RelationsTail(s: string): (r: Parsed<seq<CArrow>>)
    ensures |r.rest| <= |s|
    decreases |s|
  {
    if |s| >= 1 && s[0] == '\n' then
      match Relationship(s[1..])
      case Some(p) =>
        var t := RelationsTail(p.rest);
        Parsed([p.value] + t.value, t.rest)
      case None => Parsed([], s)
    else Parsed([], s)
  }

  /** `relationship() ++ "\n"`: one or more relationships separated by single newlines. */
  function Relations(s: string): (r: Option<Parsed<seq<CArrow>>>)
    ensures r.Some? ==> |r.value.value| >= 1
  {
    var p :- Relationship(s);
    var t := RelationsTail(p.rest);
    Some(Parsed([p.value] + t.value, t.rest))
  }

  /**
   * Rule `all_relations`: `all_ws (relationship ++ "\n") all_ws ![_]?`. The
   * trailing `![_]?` is an optional lookahead and so always succeeds; the
   * end-of-input demand comes from the entry point (`ParseAllRelations`).
   */
  function AllRelations(s: string): (r: Option<Parsed<seq<CArrow>>>)
    ensures r.Some? ==> |r.value.value| >= 1
  {
    var rs :- Relations(AllWs(s).rest);
    Some(Parsed(rs.value, AllWs(rs.rest).rest))
  }

  /** What a generated entry point returns: the value when the rule matched the whole input. */
  function Complete<T>(r: Option<Parsed<T>>): (v: Option<T>)
    ensures v.Some? <==> r.Some? && r.value.rest == []
    ensures v.Some? ==> v.value == r.value.value
  {
    if r.Some? && r.value.rest == [] then Some(r.value.value) else None
  }

  /** `c4lang::all_relations(text)`. */
  function ParseAllRelations(text: string): Option<seq<CArrow>> {
    Complete(AllRelations(text))
  }
}

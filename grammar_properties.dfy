/**
 * What the `c4lang` rules accept and return: each rule on canonical input,
 * a printer for relationship documents that the grammar reads back exactly,
 * and the unit-test examples of src/parse.rs.
 */
module GrammarProperties {
  import opened Wrappers
  import opened Grammar

  function Dashes(n: nat): string {
    seq(n, _ => '-')
  }

  /** Arrow text with `m` leading and `n` trailing dashes (`n` unused without a label). */
  function ArrowText(name: Option<string>, m: nat, n: nat): string {
    match name
    case None => Dashes(m) + ">"
    case Some(lbl) => Dashes(m) + lbl + Dashes(n) + ">"
  }

  /** `from --> to` or `from -label-> to`. */
  function RenderArrow(a: CArrow): string {
    a.from.name + " " + ArrowText(a.name, 1, 1) + " " + a.to.name
  }

  /** The relationships after the first one, each on a new line. */
  function Join(arrows: seq<CArrow>): string {
    if arrows == [] then [] else "\n" + RenderArrow(arrows[0]) + Join(arrows[1..])
  }

  /** A document holding the given relationships, one per line. */
  function Render(arrows: seq<CArrow>): string
    requires |arrows| >= 1
  {
    RenderArrow(arrows[0]) + Join(arrows[1..])
  }

  /** Names the printer can write so that the grammar reads them back. */
  ghost predicate Printable(a: CArrow) {
    IsName(a.from.name) && IsName(a.to.name) && (a.name.Some? ==> IsName(a.name.value))
  }

  lemma Assoc<T>(a: seq<T>, b: seq<T>, c: seq<T>)
    ensures a + b + c == a + (b + c)
  {
  }

  lemma FirstRest<T>(xs: seq<T>, ys: seq<T>)
    requires |xs| >= 1
    ensures [xs[0]] + (xs[1..] + ys) == xs + ys
    ensures |xs| == 1 ==> [xs[0]] + ys == xs + ys
  {
    assert xs == [xs[0]] + xs[1..];
  }

  lemma SpanOf(p: char -> bool, a: string, b: string)
    requires forall i :: 0 <= i < |a| ==> p(a[i])
    requires b == [] || !p(b[0])
    ensures Span(p, a + b) == |a|
  {
    assert forall i :: 0 <= i < |a| ==> (a + b)[i] == a[i];
    assert b != [] ==> (a + b)[|a|] == b[0];
  }

  lemma WhitespacesNone(s: string)
    requires s == [] || s[0] != ' '
    ensures Whitespaces(s).rest == s
  {
    SpanOf(IsSpace, [], s);
    assert [] + s == s;
  }

  lemma WhitespacesOne(s: string)
    requires s == [] || s[0] != ' '
    ensures Whitespaces(" " + s).rest == s
  {
    SpanOf(IsSpace, " ", s);
    assert (" " + s)[1..] == s;
  }

  /** `identifier` reads a whole identifier and stops at the first character that cannot continue it. */
  lemma IdentifierOf(id: string, rest: string)
    requires IsIdentifierText(id)
    requires rest == [] || !IsIdChar(rest[0])
    ensures Identifier(id + rest) == Some(Parsed(id, rest))
  {
    var s := id + rest;
    assert s[1..] == id[1..] + rest;
    SpanOf(IsIdChar, id[1..], rest);
    assert s[..|id|] == id && s[|id|..] == rest;
  }

  /** `identifier` rejects a leading digit, whatever follows it. */
  lemma IdentifierRejectsLeadingDigit(s: string)
    requires s != [] && IsDigit(s[0])
    ensures Identifier(s) == None
  {
  }

  /** The quoted alternative of `string` returns the text between the quotes. */
  lemma StringQuoted(inner: string, rest: string)
    requires |inner| >= 1 && forall i :: 0 <= i < |inner| ==> inner[i] != '"'
    ensures StringLiteral("\"" + inner + "\"" + rest) == Some(Parsed(inner, rest))
  {
    var s := "\"" + inner + "\"" + rest;
    assert s[1..] == inner + ("\"" + rest);
    SpanOf(NotQuote, inner, "\"" + rest);
    assert s[1..1 + |inner|] == inner;
    assert s[2 + |inner|..] == rest;
  }

  /**
   * Where the quoted alternative of `string` applies: an opening quote, at
   * least one non-quote character, and a closing quote somewhere after them.
   */
  ghost predicate QuotedForm(s: string) {
    |s| >= 2 && s[0] == '"' && s[1] != '"' && '"' in s[2..]
  }

  /**
   * Where the quoted form does not apply (no opening quote, or no closing
   * one), `string` falls back to the maximal run of non-space characters,
   * quotes included, as it stands.
   */
  lemma StringBare(word: string, rest: string)
    requires |word| >= 1 && !QuotedForm(word + rest)
    requires forall i :: 0 <= i < |word| ==> word[i] != ' '
    requires rest == [] || rest[0] == ' '
    ensures StringLiteral(word + rest) == Some(Parsed(word, rest))
  {
    var s := word + rest;
    if s[0] == '"' {
      var q := Span(NotQuote, s[1..]);
      if q >= 1 && 1 + q < |s| {
        assert false;
      }
    }
    SpanOf(NotSpace, word, rest);
    assert s[..|word|] == word && s[|word|..] == rest;
  }

  /** `name_assignment` on `id.name = "text"` yields the identifier and the unquoted text. */
  lemma NameAssignmentOf(id: string, text: string, rest: string)
    requires IsIdentifierText(id)
    requires |text| >= 1 && forall i :: 0 <= i < |text| ==> text[i] != '"'
    ensures NameAssignment(id + ".name = \"" + text + "\"" + rest) == Some(Parsed((id, text), rest))
  {
    var q := "\"" + text + "\"" + rest;
    var u := "=" + (" " + q);
    var t := ".name" + (" " + u);
    assert ".name = \"" == ".name" + " " + "=" + " " + "\"";
    assert id + ".name = \"" + text + "\"" + rest == id + t;
    IdentifierOf(id, t);
    assert t[..5] == ".name" && t[5..] == " " + u;
    WhitespacesOne(u);
    assert u[0] == '=' && u[1..] == " " + q;
    WhitespacesOne(q);
    StringQuoted(text, rest);
  }

  /** A labelled arrow yields its label, whatever the number of dashes on either side. */
  lemma PointToLabelled(m: nat, lbl: string, n: nat, rest: string)
    requires m >= 1 && n >= 1
    requires IsIdentifierText(lbl) && lbl[0] != '-'
    ensures PointTo(Dashes(m) + lbl + Dashes(n) + ">" + rest) == Some(Parsed(Some(lbl), rest))
  {
    var after := Dashes(n) + (">" + rest);
    var s := Dashes(m) + (lbl + after);
    assert Dashes(m) + lbl + Dashes(n) + ">" + rest == s;
    SpanOf(IsDash, Dashes(m), lbl + after);
    assert s[m..] == lbl + after;
    IdentifierOf(lbl, after);
    SpanOf(IsDash, Dashes(n), ">" + rest);
    assert after[n] == '>' && after[n + 1..] == rest;
    PointToLabelledSteps(s, m, lbl, after, n);
  }

  /** The labelled alternative of `point_to`, given where its dashes, label and dashes end. */
  lemma PointToLabelledSteps(s: string, m: nat, lbl: string, after: string, n: nat)
    requires m >= 1 && Span(IsDash, s) == m
    requires Identifier(s[m..]) == Some(Parsed(lbl, after))
    requires n >= 1 && Span(IsDash, after) == n && n < |after| && after[n] == '>'
    ensures PointTo(s) == Some(Parsed(Some(lbl), after[n + 1..]))
  {
  }

  /** The identifier characters at the head of `s` are not followed by a dash. */
  ghost predicate NoLabelAhead(s: string) {
    var k := Span(IsIdChar, s);
    k == 0 || k == |s| || s[k] != '-'
  }

  /**
   * An arrow without a label yields `None`, whatever the number of dashes,
   * provided what follows the `>` cannot be read as the rest of a label.
   */
  lemma PointToUnlabelled(m: nat, rest: string)
    requires m >= 1
    requires NoLabelAhead(rest)
    ensures PointTo(Dashes(m) + ">" + rest) == Some(Parsed(None, rest))
  {
    var s := Dashes(m) + (">" + rest);
    assert Dashes(m) + ">" + rest == s;
    SpanOf(IsDash, Dashes(m), ">" + rest);
    assert s[m..] == ">" + rest;
    NoLabelAfterArrow(rest);
    assert s[m + 1..] == rest;
    PointToUnlabelledSteps(s, m);
  }

  /** The labelled alternative of `point_to` does not match `t`. */
  ghost predicate LabelFails(t: string) {
    match Identifier(t)
    case None => true
    case Some(p) =>
      var e := Span(IsDash, p.rest);
      !(e >= 1 && e < |p.rest| && p.rest[e] == '>')
  }

  /** An identifier read from `>` and what follows is not followed by dashes and `>`. */
  lemma NoLabelAfterArrow(rest: string)
    requires NoLabelAhead(rest)
    ensures LabelFails(">" + rest)
  {
    var t := ">" + rest;
    assert t[1..] == rest;
    match Identifier(t)
    case None =>
    case Some(p) =>
      var k := Span(IsIdChar, rest);
      assert Span(IsIdChar, t[1..]) == k;
      assert p.rest == rest[k..];
      if k < |rest| {
        assert Span(IsDash, p.rest) == 0;
      }
  }

  /** The unlabelled alternative of `point_to`, once the labelled one has failed. */
  lemma PointToUnlabelledSteps(s: string, m: nat)
    requires m >= 1 && Span(IsDash, s) == m && m < |s| && s[m] == '>'
    requires LabelFails(s[m..])
    ensures PointTo(s) == Some(Parsed(None, s[m + 1..]))
  {
  }

  /** `point_to` reads back printed arrow text followed by a space. */
  lemma ArrowOf(name: Option<string>, m: nat, n: nat, tail: string)
    requires m >= 1 && n >= 1
    requires name.Some? ==> IsName(name.value)
    requires tail != [] && tail[0] == ' '
    ensures PointTo(ArrowText(name, m, n) + tail) == Some(Parsed(name, tail))
  {
    match name
    case None =>
      assert Span(IsIdChar, tail) == 0;
      PointToUnlabelled(m, tail);
    case Some(lbl) =>
      assert ArrowText(name, m, n) + tail == Dashes(m) + lbl + Dashes(n) + ">" + tail;
      PointToLabelled(m, lbl, n, tail);
  }

  lemma RelationshipSteps(s: string, a: Parsed<string>, p: Parsed<Option<string>>, b: Parsed<string>)
    requires Identifier(Whitespaces(s).rest) == Some(a)
    requires PointTo(Whitespaces(a.rest).rest) == Some(p)
    requires Identifier(Whitespaces(p.rest).rest) == Some(b)
    ensures Relationship(s) == Some(Parsed(CArrow(p.value, CBox(a.value), CBox(b.value)), Whitespaces(b.rest).rest))
  {
  }

  /** `relationship` reads back a printed relationship and the spaces after it. */
  lemma RelationshipOf(a: CArrow, m: nat, n: nat, rest: string)
    requires Printable(a) && m >= 1 && n >= 1
    requires rest == [] || !IsIdChar(rest[0])
    ensures Relationship(a.from.name + " " + ArrowText(a.name, m, n) + " " + a.to.name + rest)
         == Some(Parsed(a, Whitespaces(rest).rest))
  {
    var f, arrow, t := a.from.name, ArrowText(a.name, m, n), a.to.name;
    var tail := " " + (t + rest);
    var afterFrom := " " + (arrow + tail);
    var s := f + afterFrom;
    Regroup(f, arrow, t, rest);
    SourcePart(f, afterFrom);
    ArrowPart(a.name, m, n, tail);
    TargetPart(t, rest);
    RelationshipSteps(s, Parsed(f, afterFrom), Parsed(a.name, tail), Parsed(t, rest));
  }

  /** The relationship's text, grouped from the right as the parser consumes it. */
  lemma Regroup(f: string, arrow: string, t: string, rest: string)
    ensures f + " " + arrow + " " + t + rest == f + (" " + (arrow + (" " + (t + rest))))
  {
  }

  lemma SourcePart(f: string, afterFrom: string)
    requires IsName(f) && afterFrom != [] && afterFrom[0] == ' '
    ensures Identifier(Whitespaces(f + afterFrom).rest) == Some(Parsed(f, afterFrom))
  {
    IdentifierOf(f, afterFrom);
    WhitespacesNone(f + afterFrom);
  }

  lemma ArrowPart(name: Option<string>, m: nat, n: nat, tail: string)
    requires m >= 1 && n >= 1
    requires name.Some? ==> IsName(name.value)
    requires tail != [] && tail[0] == ' '
    ensures PointTo(Whitespaces(" " + (ArrowText(name, m, n) + tail)).rest) == Some(Parsed(name, tail))
  {
    assert ArrowText(name, m, n)[0] == '-';
    WhitespacesOne(ArrowText(name, m, n) + tail);
    ArrowOf(name, m, n, tail);
  }

  lemma TargetPart(t: string, rest: string)
    requires IsName(t)
    requires rest == [] || !IsIdChar(rest[0])
    ensures Identifier(Whitespaces(" " + (t + rest)).rest) == Some(Parsed(t, rest))
  {
    WhitespacesOne(t + rest);
    IdentifierOf(t, rest);
  }

  /** A relationship cannot start in a run of blanks: its identifier needs an identifier character second. */
  lemma RelationshipRejectsBlank(s: string)
    requires AllBlank(s)
    ensures Relationship(s) == None
  {
    var w := Whitespaces(s);
    if |w.rest| >= 2 {
      assert w.rest[1] == s[|w.value| + 1];
    }
  }

  /** What follows a printed line: nothing, a newline, or the text after the document. */
  lemma JoinStart(bs: seq<CArrow>, post: string)
    requires post == [] || !IsIdChar(post[0])
    ensures Join(bs) + post == [] || !IsIdChar((Join(bs) + post)[0])
    ensures bs != [] ==> (Join(bs) + post)[0] == '\n'
    ensures bs == [] ==> Join(bs) + post == post
  {
  }

  lemma TailStep(s: string, p: Parsed<CArrow>)
    requires |s| >= 1 && s[0] == '\n' && Relationship(s[1..]) == Some(p)
    ensures RelationsTail(s) == Parsed([p.value] + RelationsTail(p.rest).value, RelationsTail(p.rest).rest)
  {
  }

  /** A printed relationship followed by `x`: what the parser leaves of `x` is `x` minus its leading spaces. */
  lemma LineOf(a: CArrow, x: string)
    requires Printable(a)
    requires x == [] || !IsIdChar(x[0])
    ensures Relationship(RenderArrow(a) + x) == Some(Parsed(a, Whitespaces(x).rest))
  {
    RelationshipOf(a, 1, 1, x);
    assert RenderArrow(a) + x == a.from.name + " " + ArrowText(a.name, 1, 1) + " " + a.to.name + x;
  }

  /** A printed document after its first newline: the first relationship, then the rest. */
  lemma JoinSplit(arrows: seq<CArrow>, post: string)
    requires |arrows| >= 1
    ensures |Join(arrows) + post| >= 1 && (Join(arrows) + post)[0] == '\n'
    ensures (Join(arrows) + post)[1..] == RenderArrow(arrows[0]) + (Join(arrows[1..]) + post)
  {
    var a, bs := arrows[0], arrows[1..];
    assert Join(arrows) == "\n" + RenderArrow(a) + Join(bs);
    Assoc("\n" + RenderArrow(a), Join(bs), post);
    Assoc("\n", RenderArrow(a), Join(bs) + post);
  }

  /**
   * After printed relationships, the `"\n" relationship` repetition goes on
   * with whatever follows the last one (minus the spaces that relationship ate).
   */
  lemma {:induction false} TailOf(arrows: seq<CArrow>, post: string)
    requires |arrows| >= 1 && forall i :: 0 <= i < |arrows| ==> Printable(arrows[i])
    requires post == [] || !IsIdChar(post[0])
    ensures
      var t := RelationsTail(Whitespaces(post).rest);
      RelationsTail(Join(arrows) + post) == Parsed(arrows + t.value, t.rest)
  {
    if |arrows| == 1 {
      LastLine(arrows, post);
    } else {
      var t := RelationsTail(Whitespaces(post).rest);
      TailOf(arrows[1..], post);
      NextLine(arrows, post);
      TailCons(Join(arrows) + post, Join(arrows[1..]) + post, arrows, t.value, t.rest);
    }
  }

  /** Gluing the first relationship onto what the repetition reads after it. */
  lemma TailCons(s: string, s': string, arrows: seq<CArrow>, tv: seq<CArrow>, tr: string)
    requires |arrows| >= 1
    requires RelationsTail(s) == Parsed([arrows[0]] + RelationsTail(s').value, RelationsTail(s').rest)
    requires RelationsTail(s') == Parsed(arrows[1..] + tv, tr)
    ensures RelationsTail(s) == Parsed(arrows + tv, tr)
  {
    FirstRest(arrows, tv);
  }

  /** The repetition on the last printed line goes on with what follows the document. */
  lemma LastLine(arrows: seq<CArrow>, post: string)
    requires |arrows| == 1 && Printable(arrows[0])
    requires post == [] || !IsIdChar(post[0])
    ensures var t := RelationsTail(Whitespaces(post).rest);
      RelationsTail(Join(arrows) + post) == Parsed(arrows + t.value, t.rest)
  {
    FirstLine(arrows, post);
    JoinStart(arrows[1..], post);
    var t := RelationsTail(Whitespaces(post).rest);
    FirstRest(arrows, t.value);
  }

  /** The repetition on a printed line followed by another goes on at that next line. */
  lemma NextLine(arrows: seq<CArrow>, post: string)
    requires |arrows| >= 2 && forall i :: 0 <= i < |arrows| ==> Printable(arrows[i])
    requires post == [] || !IsIdChar(post[0])
    ensures var t := RelationsTail(Join(arrows[1..]) + post);
      RelationsTail(Join(arrows) + post) == Parsed([arrows[0]] + t.value, t.rest)
  {
    FirstLine(arrows, post);
    JoinStart(arrows[1..], post);
    WhitespacesNone(Join(arrows[1..]) + post);
  }

  /** The `"\n" relationship` repetition reads the first printed line, then goes on after it. */
  lemma FirstLine(arrows: seq<CArrow>, post: string)
    requires |arrows| >= 1 && forall i :: 0 <= i < |arrows| ==> Printable(arrows[i])
    requires post == [] || !IsIdChar(post[0])
    ensures var t := RelationsTail(Whitespaces(Join(arrows[1..]) + post).rest);
      RelationsTail(Join(arrows) + post) == Parsed([arrows[0]] + t.value, t.rest)
  {
    var a, bs := arrows[0], arrows[1..];
    var x := Join(bs) + post;
    var s := Join(arrows) + post;
    var after := Whitespaces(x).rest;
    JoinSplit(arrows, post);
    JoinStart(bs, post);
    LineOf(a, x);
    TailStep(s, Parsed(a, after));
  }

  /** `relationship ++ "\n"` is one relationship followed by the `"\n" relationship` repetition. */
  lemma RelationsViaTail(s: string)
    requires RelationsTail("\n" + s).value != []
    ensures Relations(s) == Some(RelationsTail("\n" + s))
  {
    assert ("\n" + s)[1..] == s;
  }

  /** `relationship ++ "\n"` on a printed document followed by `post`. */
  lemma RelationsOf(arrows: seq<CArrow>, post: string)
    requires |arrows| >= 1 && forall i :: 0 <= i < |arrows| ==> Printable(arrows[i])
    requires post == [] || !IsIdChar(post[0])
    ensures
      var t := RelationsTail(Whitespaces(post).rest);
      Relations(Render(arrows) + post) == Some(Parsed(arrows + t.value, t.rest))
  {
    assert Join(arrows) + post == "\n" + (Render(arrows) + post);
    TailOf(arrows, post);
    RelationsViaTail(Render(arrows) + post);
  }

  /** The `"\n" relationship` repetition stops at a newline not followed by a relationship. */
  lemma TailStops(s: string)
    requires s == [] || s[0] != '\n' || Relationship(s[1..]).None?
    ensures RelationsTail(s) == Parsed([], s)
  {
  }

  /** A run of blanks after the document is neither a relationship nor left over by `all_ws`. */
  lemma BlankAfter(post: string)
    requires AllBlank(post)
    ensures RelationsTail(Whitespaces(post).rest) == Parsed([], Whitespaces(post).rest)
    ensures AllWs(Whitespaces(post).rest).rest == []
  {
    var w := Whitespaces(post);
    var post' := w.rest;
    assert AllBlank(post') by {
      forall i | 0 <= i < |post'| ensures IsBlank(post'[i]) {
        assert post'[i] == post[|w.value| + i];
      }
    }
    if |post'| >= 1 {
      assert AllBlank(post'[1..]) by {
        forall i | 0 <= i < |post'| - 1 ensures IsBlank(post'[1..][i]) {
          assert post'[1..][i] == post'[i + 1];
        }
      }
      RelationshipRejectsBlank(post'[1..]);
    }
    TailStops(post');
  }

  /** `all_ws` skips a blank prefix and stops where a printed document starts. */
  lemma LeadingBlanks(pre: string, doc: string)
    requires AllBlank(pre) && doc != [] && IsIdChar(doc[0])
    ensures AllWs(pre + doc).rest == doc
  {
    SpanOf(IsBlank, pre, doc);
    assert (pre + doc)[|pre|..] == doc;
  }

  /**
   * `all_relations` reads a printed document back, in source order, whatever
   * runs of spaces, newlines and tabs surround it.
   */
  lemma AllRelationsRoundTrip(pre: string, arrows: seq<CArrow>, post: string)
    requires |arrows| >= 1 && forall i :: 0 <= i < |arrows| ==> Printable(arrows[i])
    requires AllBlank(pre) && AllBlank(post)
    ensures ParseAllRelations(pre + Render(arrows) + post) == Some(arrows)
  {
    var doc := Render(arrows) + post;
    assert pre + Render(arrows) + post == pre + doc;
    assert arrows + [] == arrows;
    assert doc[0] == arrows[0].from.name[0];
    LeadingBlanks(pre, doc);
    BlankAfter(post);
    RelationsOf(arrows, post);
  }

  /**
   * `all_relations` fails when a line after the relationships is neither a
   * relationship nor blank: the repetition stops before it, and the closing
   * `all_ws` cannot consume it.
   */
  lemma AllRelationsRejectsTrailing(arrows: seq<CArrow>, garbage: string)
    requires |arrows| >= 1 && forall i :: 0 <= i < |arrows| ==> Printable(arrows[i])
    requires Relationship(garbage).None? && AllWs(garbage).rest != []
    ensures ParseAllRelations(Render(arrows) + "\n" + garbage) == None
  {
    var doc := Render(arrows) + ("\n" + garbage);
    assert Render(arrows) + "\n" + garbage == doc;
    TrailingRelations(arrows, garbage);
    TrailingLine(garbage);
    AllRelationsLeaves(doc, arrows, "\n" + garbage);
  }

  /** `all_relations` leaves what the final `all_ws` leaves after the relationships. */
  lemma AllRelationsLeaves(s: string, rs: seq<CArrow>, rest: string)
    requires Relations(AllWs(s).rest) == Some(Parsed(rs, rest))
    ensures AllRelations(s) == Some(Parsed(rs, AllWs(rest).rest))
  {
  }

  /** The relationships of a printed document stop at a newline not followed by a relationship. */
  lemma TrailingRelations(arrows: seq<CArrow>, garbage: string)
    requires |arrows| >= 1 && forall i :: 0 <= i < |arrows| ==> Printable(arrows[i])
    requires Relationship(garbage).None?
    ensures AllWs(Render(arrows) + ("\n" + garbage)).rest == Render(arrows) + ("\n" + garbage)
    ensures Relations(Render(arrows) + ("\n" + garbage)) == Some(Parsed(arrows, "\n" + garbage))
  {
    var post := "\n" + garbage;
    DocumentStart(arrows, post);
    TrailingTail(garbage);
    RelationsOf(arrows, post);
    WhitespacesNone(post);
    assert arrows + [] == arrows;
  }

  /** `all_ws` stops at the first character of a printed document. */
  lemma DocumentStart(arrows: seq<CArrow>, post: string)
    requires |arrows| >= 1 && forall i :: 0 <= i < |arrows| ==> Printable(arrows[i])
    ensures AllWs(Render(arrows) + post).rest == Render(arrows) + post
  {
    var doc := Render(arrows) + post;
    assert doc[0] == arrows[0].from.name[0];
    LeadingBlanks([], doc);
    assert [] + doc == doc;
  }

  /** A newline followed by something that is not a relationship does not continue the relationships. */
  lemma TrailingTail(garbage: string)
    requires Relationship(garbage).None?
    ensures RelationsTail("\n" + garbage) == Parsed([], "\n" + garbage)
  {
    var post := "\n" + garbage;
    assert post[1..] == garbage;
    TailStops(post);
  }

  /** `all_ws` skips the newline and whatever blanks follow it. */
  lemma TrailingLine(garbage: string)
    ensures AllWs("\n" + garbage).rest == AllWs(garbage).rest
  {
    assert ("\n" + garbage)[1..] == garbage;
  }

  /** `relationship` skips the spaces in front of it. */
  lemma RelationshipIndented(indent: string, x: string)
    requires forall i :: 0 <= i < |indent| ==> indent[i] == ' '
    requires x == [] || x[0] != ' '
    ensures Relationship(indent + x) == Relationship(x)
  {
    WhitespacesAfter(indent, x);
    WhitespacesNone(x);
    SameAfterSpaces(indent + x, x);
  }

  lemma WhitespacesAfter(indent: string, x: string)
    requires forall i :: 0 <= i < |indent| ==> indent[i] == ' '
    requires x == [] || x[0] != ' '
    ensures Whitespaces(indent + x).rest == x
  {
    SpanOf(IsSpace, indent, x);
    assert (indent + x)[|indent|..] == x;
  }

  /** `relationship` depends only on what is left once its leading spaces are skipped. */
  lemma SameAfterSpaces(s: string, t: string)
    requires Whitespaces(s).rest == Whitespaces(t).rest
    ensures Relationship(s) == Relationship(t)
  {
  }

  /** One relationship written with `m` dashes before and `n` dashes after its label. */
  function Line(a: CArrow, m: nat, n: nat): string {
    a.from.name + " " + ArrowText(a.name, m, n) + " " + a.to.name
  }

  /**
   * Two relationships, each on its own line behind the same indentation,
   * between a leading newline and a trailing indented line: the shape of the
   * `all_relations` document of `test_parser`.
   */
  lemma IndentedPair(indent: string, a: CArrow, b: CArrow, m: nat, n: nat)
    requires forall i :: 0 <= i < |indent| ==> indent[i] == ' '
    requires Printable(a) && Printable(b) && m >= 1 && n >= 1
    ensures
      var ind := "\n" + indent;
      ParseAllRelations(ind + Line(a, m, n) + ind + Line(b, m, n) + ind) == Some([a, b])
  {
    var la, lb := Line(a, m, n), Line(b, m, n);
    var tailB := "\n" + indent;
    var first := la + ("\n" + indent + (lb + tailB));
    assert tailB + la + tailB + lb + tailB == "\n" + indent + first;
    PairRelations(indent, a, b, m, n);
    assert first[0] == a.from.name[0];
    IndentedStart(indent, first);
    LastBlanks(indent);
    WholeDocument("\n" + indent + first, first, [a, b], tailB);
  }

  /** The two indented lines give exactly `a` then `b`, leaving the trailing indentation. */
  lemma PairRelations(indent: string, a: CArrow, b: CArrow, m: nat, n: nat)
    requires forall i :: 0 <= i < |indent| ==> indent[i] == ' '
    requires Printable(a) && Printable(b) && m >= 1 && n >= 1
    ensures Relations(Line(a, m, n) + ("\n" + indent + (Line(b, m, n) + ("\n" + indent)))) == Some(Parsed([a, b], "\n" + indent))
  {
    var restA := "\n" + indent + (Line(b, m, n) + ("\n" + indent));
    PairTail(indent, b, m, n);
    LineOfText(a, m, n, restA);
    TwoRelations(Line(a, m, n) + restA, a, restA, b, "\n" + indent);
  }

  /** The indented second line and the trailing indentation: exactly one more relationship. */
  lemma PairTail(indent: string, b: CArrow, m: nat, n: nat)
    requires forall i :: 0 <= i < |indent| ==> indent[i] == ' '
    requires Printable(b) && m >= 1 && n >= 1
    ensures RelationsTail("\n" + indent + (Line(b, m, n) + ("\n" + indent))) == Parsed([b], "\n" + indent)
  {
    SecondLine(indent, b, m, n);
    LastIndent(indent);
    LastTail("\n" + indent + (Line(b, m, n) + ("\n" + indent)), b, "\n" + indent);
  }

  /** A newline, then `b`, then the end of the repetition. */
  lemma LastTail(restA: string, b: CArrow, tailB: string)
    requires |restA| >= 1 && restA[0] == '\n' && Relationship(restA[1..]) == Some(Parsed(b, tailB))
    requires RelationsTail(tailB) == Parsed([], tailB)
    ensures RelationsTail(restA) == Parsed([b], tailB)
  {
    TailStep(restA, Parsed(b, tailB));
    NoMore(b);
  }

  lemma TwoRelations(s: string, a: CArrow, rest: string, b: CArrow, left: string)
    requires Relationship(s) == Some(Parsed(a, rest))
    requires RelationsTail(rest) == Parsed([b], left)
    ensures Relations(s) == Some(Parsed([a, b], left))
  {
    Pair(a, b);
  }

  lemma NoMore<T>(b: T)
    ensures [b] + [] == [b]
  {
  }

  lemma Pair<T>(a: T, b: T)
    ensures [a] + [b] == [a, b]
  {
  }

  /** Relationships surrounded by blanks only: the whole document is read. */
  lemma WholeDocument(doc: string, first: string, rs: seq<CArrow>, left: string)
    requires AllWs(doc).rest == first
    requires Relations(first) == Some(Parsed(rs, left)) && AllWs(left).rest == []
    ensures ParseAllRelations(doc) == Some(rs)
  {
    AllRelationsLeaves(doc, rs, left);
  }

  /** `all_ws` skips a newline and an indentation up to the first name. */
  lemma IndentedStart(indent: string, d: string)
    requires forall i :: 0 <= i < |indent| ==> indent[i] == ' '
    requires d != [] && IsIdChar(d[0])
    ensures AllWs("\n" + indent + d).rest == d
  {
    assert AllBlank("\n" + indent);
    LeadingBlanks("\n" + indent, d);
  }

  /** A line with `m` and `n` dashes followed by a newline: `relationship` reads it and leaves the newline. */
  lemma LineOfText(a: CArrow, m: nat, n: nat, rest: string)
    requires Printable(a) && m >= 1 && n >= 1
    requires rest != [] && rest[0] == '\n'
    ensures Relationship(Line(a, m, n) + rest) == Some(Parsed(a, rest))
  {
    RelationshipOf(a, m, n, rest);
    WhitespacesNone(rest);
  }

  /** An indented line after a newline is read as the next relationship, up to the next newline. */
  lemma SecondLine(indent: string, b: CArrow, m: nat, n: nat)
    requires forall i :: 0 <= i < |indent| ==> indent[i] == ' '
    requires Printable(b) && m >= 1 && n >= 1
    ensures
      var s := "\n" + indent + (Line(b, m, n) + ("\n" + indent));
      |s| >= 1 && s[0] == '\n' && Relationship(s[1..]) == Some(Parsed(b, "\n" + indent))
  {
    var lb := Line(b, m, n);
    var tailB := "\n" + indent;
    var s := "\n" + indent + (lb + tailB);
    assert s[1..] == indent + (lb + tailB);
    assert (lb + tailB)[0] == b.from.name[0];
    RelationshipIndented(indent, lb + tailB);
    LineOfText(b, m, n, tailB);
  }

  /** A final newline and indentation: no further relationship, and `all_ws` consumes it all. */
  lemma LastIndent(indent: string)
    requires forall i :: 0 <= i < |indent| ==> indent[i] == ' '
    ensures RelationsTail("\n" + indent) == Parsed([], "\n" + indent)
  {
    var t := "\n" + indent;
    assert t[1..] == indent;
    assert AllBlank(indent);
    RelationshipRejectsBlank(indent);
    TailStops(t);
  }

  lemma LastBlanks(indent: string)
    requires forall i :: 0 <= i < |indent| ==> indent[i] == ' '
    ensures AllWs("\n" + indent).rest == []
  {
    var t := "\n" + indent;
    assert AllBlank(t);
    SpanOf(IsBlank, t, []);
    assert t + [] == t;
  }

  /** Test `test_parser`: `"11aa2"` is not an identifier. */
  lemma ExampleIdentifierRejected()
    ensures Identifier("11aa2") == None
  {
    IdentifierRejectsLeadingDigit("11aa2");
  }

  /** Test `test_parser`: the unlabelled arrow `-------> ` between two names. */
  lemma ExamplePlainRelationship(from: string, to: string)
    requires IsName(from) && IsName(to)
    ensures Complete(Relationship(from + " -------> " + to)) == Some(CArrow(None, CBox(from), CBox(to)))
  {
    var a := CArrow(None, CBox(from), CBox(to));
    assert from + " -------> " + to == from + " " + ArrowText(a.name, 7, 1) + " " + to + "" by {
      assert ArrowText(None, 7, 1) == "------->" by {
        assert Dashes(7) == "-------";
      }
    }
    WhitespacesNone("");
    RelationshipOf(a, 7, 1, "");
  }

  /** Test `test_parser`: the labelled arrow `---hoho----> ` between two names. */
  lemma ExampleLabelledRelationship(from: string, to: string)
    requires IsName(from) && IsName(to)
    ensures Complete(Relationship(from + " ---hoho----> " + to)) == Some(CArrow(Some("hoho"), CBox(from), CBox(to)))
  {
    var a := CArrow(Some("hoho"), CBox(from), CBox(to));
    assert from + " ---hoho----> " + to == from + " " + ArrowText(a.name, 3, 4) + " " + to + "" by {
      assert ArrowText(Some("hoho"), 3, 4) == "---hoho---->" by {
        assert Dashes(3) == "---";
        assert Dashes(4) == "----";
      }
    }
    assert IsName("hoho");
    WhitespacesNone("");
    RelationshipOf(a, 3, 4, "");
  }

  /** Test `test_parser`: a quoted string yields the text between the quotes, spaces included. */
  lemma ExampleQuotedString()
    ensures Complete(StringLiteral("\"mamamia is a 1002.jjd££4\"")) == Some("mamamia is a 1002.jjd££4")
  {
    var inner := "mamamia is a 1002.jjd££4";
    assert "\"mamamia is a 1002.jjd££4\"" == "\"" + inner + "\"" + "";
    StringQuoted(inner, "");
  }

  /** Test `test_parser`: an unquoted string is the run of characters up to a space. */
  lemma ExampleBareString()
    ensures Complete(StringLiteral("mamamia££4")) == Some("mamamia££4")
  {
    assert "mamamia££4" == "mamamia££4" + "";
    StringBare("mamamia££4", "");
  }

  /** An opening quote without a closing one: `string` keeps the quote as part of a bare word. */
  lemma ExampleUnclosedQuote()
    ensures Complete(StringLiteral("\"abc")) == Some("\"abc")
  {
    assert "\"abc" == "\"abc" + "";
    assert !QuotedForm("\"abc") by {
      assert "\"abc"[2..] == "bc";
    }
    StringBare("\"abc", "");
  }

  /** Test `test_parser`: the indented two-line document given to `all_relations`. */
  lemma ExampleAllRelations()
    ensures
      var o := CArrow(Some("hoho"), CBox("cow"), CBox("fresh"));
      var o2 := CArrow(Some("hoho"), CBox("cow2"), CBox("fresh2"));
      ParseAllRelations("\n    cow ---hoho----> fresh\n    cow2 ---hoho----> fresh2\n    ") == Some([o, o2])
  {
    var o := CArrow(Some("hoho"), CBox("cow"), CBox("fresh"));
    var o2 := CArrow(Some("hoho"), CBox("cow2"), CBox("fresh2"));
    var ind, la, lb := "\n    ", "cow ---hoho----> fresh", "cow2 ---hoho----> fresh2";
    ExampleText(ind, la, lb);
    ExampleLines(o, o2);
    IndentedText("\n    cow ---hoho----> fresh\n    cow2 ---hoho----> fresh2\n    ", ind, "    ", o, o2, la, lb);
  }

  lemma ExampleText(ind: string, la: string, lb: string)
    requires ind == "\n    " && la == "cow ---hoho----> fresh" && lb == "cow2 ---hoho----> fresh2"
    ensures "\n    cow ---hoho----> fresh\n    cow2 ---hoho----> fresh2\n    " == ind + la + ind + lb + ind
  {
    ExampleText1(ind, la);
    ExampleText2(ind + la, ind);
    ExampleText3(ind + la + ind, lb);
    ExampleText4(ind + la + ind + lb, ind);
  }

  lemma ExampleText1(ind: string, la: string)
    requires ind == "\n    " && la == "cow ---hoho----> fresh"
    ensures ind + la == "\n    cow ---hoho----> fresh"
  {
  }

  lemma ExampleText2(x: string, ind: string)
    requires x == "\n    cow ---hoho----> fresh" && ind == "\n    "
    ensures x + ind == "\n    cow ---hoho----> fresh\n    "
  {
  }

  lemma ExampleText3(x: string, lb: string)
    requires x == "\n    cow ---hoho----> fresh\n    " && lb == "cow2 ---hoho----> fresh2"
    ensures x + lb == "\n    cow ---hoho----> fresh\n    cow2 ---hoho----> fresh2"
  {
  }

  lemma ExampleText4(x: string, ind: string)
    requires x == "\n    cow ---hoho----> fresh\n    cow2 ---hoho----> fresh2" && ind == "\n    "
    ensures x + ind == "\n    cow ---hoho----> fresh\n    cow2 ---hoho----> fresh2\n    "
  {
  }

  lemma ExampleLines(o: CArrow, o2: CArrow)
    requires o == CArrow(Some("hoho"), CBox("cow"), CBox("fresh"))
    requires o2 == CArrow(Some("hoho"), CBox("cow2"), CBox("fresh2"))
    ensures Line(o, 3, 4) == "cow ---hoho----> fresh" && Line(o2, 3, 4) == "cow2 ---hoho----> fresh2"
    ensures Printable(o) && Printable(o2)
  {
    HohoArrow();
    assert "cow" + " " + "---hoho---->" + " " + "fresh" == "cow ---hoho----> fresh";
    assert "cow2" + " " + "---hoho---->" + " " + "fresh2" == "cow2 ---hoho----> fresh2";
    ExampleNames();
  }

  lemma HohoArrow()
    ensures ArrowText(Some("hoho"), 3, 4) == "---hoho---->"
  {
    assert Dashes(3) == "---";
    assert Dashes(4) == "----";
  }

  lemma ExampleNames()
    ensures IsName("hoho") && IsName("cow") && IsName("fresh") && IsName("cow2") && IsName("fresh2")
  {
  }

  lemma IndentedText(doc: string, ind: string, indent: string, a: CArrow, b: CArrow, la: string, lb: string)
    requires forall i :: 0 <= i < |indent| ==> indent[i] == ' '
    requires Printable(a) && Printable(b) && la == Line(a, 3, 4) && lb == Line(b, 3, 4)
    requires ind == "\n" + indent && doc == ind + la + ind + lb + ind
    ensures ParseAllRelations(doc) == Some([a, b])
  {
    IndentedPair(indent, a, b, 3, 4);
  }

  /**
   * An identifier has at least two characters, so a document whose boxes
   * have one-letter names, such as `a --> b`, is rejected.
   */
  lemma OneLetterNamesRejected()
    ensures ParseAllRelations("a --> b") == None
  {
    var doc := "a --> b";
    assert Span(IsBlank, doc) == 0 && Span(IsSpace, doc) == 0;
    assert AllWs(doc).rest == doc && Whitespaces(doc).rest == doc;
    assert Identifier(doc) == None;
    assert Relationship(doc) == None;
  }
}

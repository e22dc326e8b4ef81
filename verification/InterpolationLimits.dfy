/**
 Where the interpolation of compose files differs from what a reader of the Compose
 Specification, or of its own comments, may expect, and exactly when it does not.
 */
module InterpolationLimits {
  import opened Interpolation

  // ------------------------------------------------------------------
  // Empty variables
  // ------------------------------------------------------------------

  /** The operators with a colon; the Compose Specification lets them treat an empty variable as unset. */
  predicate HasColon(op: Op) {
    op == ColonDash || op == ColonQuestion
  }

  /** Is the variable set, in the reading of the Compose Specification? */
  predicate IsSet(name: string, op: Op, vars: Vars) {
    name in vars && (HasColon(op) ==> vars[name] != "")
  }

  /** `Eval` with that reading of set. */
  function StrictEval(t: Template, vars: Vars): (text: string) {
    match t
    case End => ""
    case Literal(c, tail) => [c] + StrictEval(tail, vars)
    case Braced(inner, tail) => "${" + inner + "}" + StrictEval(tail, vars)
    case Reference(name, op, message, tail) =>
      (if IsSet(name, op, vars) then vars[name] else "${" + (name + OpText(op) + message) + "}")
          + StrictEval(tail, vars)
    case Default(name, op, body, tail) =>
      (if IsSet(name, op, vars) then vars[name] else StrictEval(body, vars)) + StrictEval(tail, vars)
  }

  /** `Demands` with that reading of set. */
  function StrictDemands(t: Template, vars: Vars): (names: set<string>) {
    match t
    case End => {}
    case Literal(_, tail) => StrictDemands(tail, vars)
    case Braced(_, tail) => StrictDemands(tail, vars)
    case Reference(name, op, _, tail) => (if IsSet(name, op, vars) then {} else {name}) + StrictDemands(tail, vars)
    case Default(name, op, body, tail) =>
      (if IsSet(name, op, vars) then {} else StrictDemands(body, vars)) + StrictDemands(tail, vars)
  }

  /** Only references to empty variables and defaults that produce nothing. */
  predicate Blank(t: Template, vars: Vars) {
    match t
    case End => true
    case Literal(_, _) => false
    case Braced(_, _) => false
    case Reference(name, op, _, tail) => IsSet(name, op, vars) && vars[name] == "" && Blank(tail, vars)
    case Default(name, op, body, tail) =>
      (if IsSet(name, op, vars) then vars[name] == "" else Blank(body, vars)) && Blank(tail, vars)
  }

  /** No empty variable is used with a colon, unless the default it should give way to produces nothing either. */
  predicate NoEmptyColon(t: Template, vars: Vars) {
    match t
    case End => true
    case Literal(_, tail) => NoEmptyColon(tail, vars)
    case Braced(_, tail) => NoEmptyColon(tail, vars)
    case Reference(name, op, _, tail) => (name in vars ==> IsSet(name, op, vars)) && NoEmptyColon(tail, vars)
    case Default(name, op, body, tail) =>
      && (if name !in vars then NoEmptyColon(body, vars) else IsSet(name, op, vars) || Blank(body, vars))
      && NoEmptyColon(tail, vars)
  }

  /** A blank template, and no other, produces nothing; and it asks for nothing. */
  lemma {:induction false} BlankProducesNothing(t: Template, vars: Vars)
    ensures StrictEval(t, vars) == "" <==> Blank(t, vars)
    ensures Blank(t, vars) ==> StrictDemands(t, vars) == {}
  {
    match t
    case End =>
    case Literal(_, tail) =>
    case Braced(_, tail) =>
    case Reference(_, _, _, tail) => BlankProducesNothing(tail, vars);
    case Default(_, _, body, tail) =>
      BlankProducesNothing(body, vars);
      BlankProducesNothing(tail, vars);
  }

  lemma PieceByPiece(a: string, b: string, c: string, d: string)
    requires |a| >= |c| && |b| >= |d|
    ensures a + b == c + d <==> a == c && b == d
  {
    if a + b == c + d {
      assert |a| == |c|;
      assert a == (a + b)[..|a|] && c == (c + d)[..|a|];
      assert b == (a + b)[|a|..] && d == (c + d)[|a|..];
    }
  }

  /** Reading empty as unset never shortens the output. */
  lemma {:induction false} StrictIsLonger(t: Template, vars: Vars)
    ensures |StrictEval(t, vars)| >= |Eval(t, vars)|
  {
    match t
    case End =>
    case Literal(_, tail) => StrictIsLonger(tail, vars);
    case Braced(_, tail) => StrictIsLonger(tail, vars);
    case Reference(_, _, _, tail) => StrictIsLonger(tail, vars);
    case Default(_, _, body, tail) =>
      StrictIsLonger(body, vars);
      StrictIsLonger(tail, vars);
  }

  /** The program and the stricter reading give the same text exactly when no empty variable matters. */
  lemma {:induction false} EmptyMattersExactly(t: Template, vars: Vars)
    ensures StrictEval(t, vars) == Eval(t, vars) <==> NoEmptyColon(t, vars)
  {
    match t
    case End =>
    case Literal(c, tail) =>
      StrictIsLonger(tail, vars);
      EmptyMattersExactly(tail, vars);
      PieceByPiece([c], StrictEval(tail, vars), [c], Eval(tail, vars));
    case Braced(inner, tail) =>
      StrictIsLonger(tail, vars);
      EmptyMattersExactly(tail, vars);
      PieceByPiece("${" + inner + "}", StrictEval(tail, vars), "${" + inner + "}", Eval(tail, vars));
    case Reference(name, op, message, tail) =>
      StrictIsLonger(tail, vars);
      EmptyMattersExactly(tail, vars);
      var kept := "${" + (name + OpText(op) + message) + "}";
      PieceByPiece(if IsSet(name, op, vars) then vars[name] else kept, StrictEval(tail, vars),
                   if name in vars then vars[name] else kept, Eval(tail, vars));
    case Default(name, op, body, tail) =>
      StrictIsLonger(tail, vars);
      EmptyMattersExactly(tail, vars);
      StrictIsLonger(body, vars);
      EmptyMattersExactly(body, vars);
      BlankProducesNothing(body, vars);
      PieceByPiece(if IsSet(name, op, vars) then vars[name] else StrictEval(body, vars), StrictEval(tail, vars),
                   if name in vars then vars[name] else Eval(body, vars), Eval(tail, vars));
  }

  /** And then they miss the same names. */
  lemma {:induction false} EmptyMattersForDemands(t: Template, vars: Vars)
    requires NoEmptyColon(t, vars)
    ensures StrictDemands(t, vars) == Demands(t, vars)
  {
    match t
    case End =>
    case Literal(_, tail) => EmptyMattersForDemands(tail, vars);
    case Braced(_, tail) => EmptyMattersForDemands(tail, vars);
    case Reference(_, _, _, tail) => EmptyMattersForDemands(tail, vars);
    case Default(name, op, body, tail) =>
      EmptyMattersForDemands(tail, vars);
      BlankProducesNothing(body, vars);
      if name !in vars { EmptyMattersForDemands(body, vars); }
  }

  /** The names the stricter reading asks for in addition, in place of empty variables. */
  function Extra(t: Template, vars: Vars): (names: set<string>) {
    match t
    case End => {}
    case Literal(_, tail) => Extra(tail, vars)
    case Braced(_, tail) => Extra(tail, vars)
    case Reference(name, op, _, tail) =>
      (if name in vars && !IsSet(name, op, vars) then {name} else {}) + Extra(tail, vars)
    case Default(name, op, body, tail) =>
      (if name !in vars then Extra(body, vars) else if IsSet(name, op, vars) then {} else StrictDemands(body, vars))
      + Extra(tail, vars)
  }

  lemma {:induction false} StrictDemandsMore(t: Template, vars: Vars)
    ensures StrictDemands(t, vars) == Demands(t, vars) + Extra(t, vars)
  {
    match t
    case End =>
    case Literal(_, tail) => StrictDemandsMore(tail, vars);
    case Braced(_, tail) => StrictDemandsMore(tail, vars);
    case Reference(_, _, _, tail) => StrictDemandsMore(tail, vars);
    case Default(_, _, body, tail) =>
      StrictDemandsMore(body, vars);
      StrictDemandsMore(tail, vars);
  }

  /** Both readings miss the same names exactly when those are missing anyway. */
  lemma DemandsDifferExactly(t: Template, vars: Vars)
    ensures StrictDemands(t, vars) == Demands(t, vars) <==> Extra(t, vars) <= Demands(t, vars)
  {
    StrictDemandsMore(t, vars);
  }

  // ------------------------------------------------------------------
  // A single reference, as text
  // ------------------------------------------------------------------

  /** A reference written out, with nothing around it. */
  function Written(name: string, op: Op, rest: string): (text: string) {
    "${" + (name + OpText(op) + rest) + "}"
  }

  lemma {:induction false} NoBraceNoLevel(s: string)
    requires '{' !in s && '}' !in s
    ensures Level(s) == 0
  {
    if s != "" { NoBraceNoLevel(s[..|s| - 1]); }
  }

  lemma NoBraceIsBalanced(s: string)
    requires '{' !in s && '}' !in s
    ensures Balanced(s)
  {
    NoBraceNoLevel(s);
    forall k | 0 <= k <= |s|
      ensures Level(s[..k]) >= 0
    {
      NoBraceNoLevel(s[..k]);
    }
  }

  lemma WrittenIsRead(name: string, op: Op, rest: string)
    requires IsName(name) && Balanced(name + OpText(op) + rest) && (op == Plain ==> rest == "")
    ensures Parse(Written(name, op, rest))
            == if HasDefault(op) then Default(name, op, Parse(rest), End) else Reference(name, op, rest, End)
  {
    var inner := name + OpText(op) + rest;
    ClassifyIsExact(inner, name, op, rest);
    ParseNode(inner, "");
    assert "${" + inner + "}" + "" == Written(name, op, rest);
  }

  /** A required variable that is empty passes for set: `:?` does not ask for it, the stricter reading does. */
  lemma RequiredMayBeEmpty(name: string, message: string, vars: Vars)
    requires IsName(name) && Balanced(name + ":?" + message) && name in vars
    ensures var t := Parse(Written(name, ColonQuestion, message));
            && Missing(t, vars, []) == [] && Eval(t, vars) == vars[name]
            && (StrictDemands(t, vars) == {name} <==> vars[name] == "")
            && (StrictDemands(t, vars) == {} <==> vars[name] != "")
  {
    WrittenIsRead(name, ColonQuestion, message);
  }

  /** An empty variable keeps its default from being used. */
  lemma {:induction false} DefaultNeedsUnset(name: string, rest: string, vars: Vars)
    requires IsName(name) && Balanced(name + ":-" + rest) && name in vars && vars[name] == ""
    ensures var t := Parse(Written(name, ColonDash, rest));
            Eval(t, vars) == "" && StrictEval(t, vars) == StrictEval(Parse(rest), vars)
  {
    WrittenIsRead(name, ColonDash, rest);
  }

  lemma WrittenOut()
    ensures Written("NAME", ColonQuestion, "msg") == "${NAME:?msg}"
  {
    assert "NAME" + ":?" + "msg" == "NAME:?msg";
  }

  /** `:?` at a concrete text. */
  lemma {:induction false} EmptyPassesForSet(text: string, vars: Vars)
    requires text == "${NAME:?msg}" && "NAME" in vars && vars["NAME"] == ""
    ensures Eval(Parse(text), vars) == "" && Missing(Parse(text), vars, []) == []
    ensures StrictDemands(Parse(text), vars) == {"NAME"}
  {
    var name, message :| name == "NAME" && message == "msg";
    WrittenOut();
    EmptyRequired(name, message, vars);
  }

  lemma EmptyRequired(name: string, message: string, vars: Vars)
    requires IsName(name) && '{' !in message && '}' !in message && name in vars && vars[name] == ""
    ensures var t := Parse(Written(name, ColonQuestion, message));
            Eval(t, vars) == "" && Missing(t, vars, []) == [] && StrictDemands(t, vars) == {name}
  {
    NameIsBalanced(name, ":?");
    NoBraceIsBalanced(message);
    BalancedConcat(name + ":?", message);
    RequiredMayBeEmpty(name, message, vars);
  }

  // ------------------------------------------------------------------
  // References in the output
  // ------------------------------------------------------------------

  /** No dollar is produced: none is literal, none comes from braced text, nothing is missing, no used value has one. */
  predicate DollarFree(t: Template, vars: Vars) {
    match t
    case End => true
    case Literal(c, tail) => c != '$' && DollarFree(tail, vars)
    case Braced(_, _) => false
    case Reference(name, _, _, tail) => name in vars && '$' !in vars[name] && DollarFree(tail, vars)
    case Default(name, _, body, tail) =>
      (if name in vars then '$' !in vars[name] else DollarFree(body, vars)) && DollarFree(tail, vars)
  }

  lemma {:induction false} DollarExactly(t: Template, vars: Vars)
    ensures '$' !in Eval(t, vars) <==> DollarFree(t, vars)
  {
    match t
    case End =>
    case Literal(_, tail) => DollarExactly(tail, vars);
    case Braced(inner, tail) => assert ("${" + inner + "}" + Eval(tail, vars))[0] == '$';
    case Reference(name, op, message, tail) =>
      DollarExactly(tail, vars);
      assert ("${" + (name + OpText(op) + message) + "}")[0] == '$';
    case Default(_, _, body, tail) =>
      DollarExactly(body, vars);
      DollarExactly(tail, vars);
  }

  /** Then nothing in the output looks like a reference: interpolating again changes nothing. */
  lemma {:induction false} DollarFreeIsFinal(text: string, vars: Vars, later: Vars)
    requires DollarFree(Parse(text), vars)
    ensures var output := Eval(Parse(text), vars);
            '$' !in output && Eval(Parse(output), later) == output && Demands(Parse(output), later) == {}
  {
    DollarExactly(Parse(text), vars);
    PlainTextIsKept(Eval(Parse(text), vars), later);
  }

  // ------------------------------------------------------------------
  // Exactly when a reference comes out
  // ------------------------------------------------------------------

  /** The output in pieces: characters, braced text, references left as they are, and values. */
  function Pieces(t: Template, vars: Vars): (pieces: seq<string>) {
    match t
    case End => []
    case Literal(c, tail) => [[c]] + Pieces(tail, vars)
    case Braced(inner, tail) => ["${" + inner + "}"] + Pieces(tail, vars)
    case Reference(name, op, message, tail) =>
      [if name in vars then vars[name] else "${" + (name + OpText(op) + message) + "}"] + Pieces(tail, vars)
    case Default(name, op, body, tail) =>
      (if name in vars then [vars[name]] else Pieces(body, vars)) + Pieces(tail, vars)
  }

  function Together(pieces: seq<string>): (text: string) {
    if pieces == [] then "" else pieces[0] + Together(pieces[1..])
  }

  lemma {:induction false} TogetherConcat(a: seq<string>, b: seq<string>)
    ensures Together(a + b) == Together(a) + Together(b)
  {
    if a == [] {
      assert a + b == b;
    } else {
      assert (a + b)[1..] == a[1..] + b;
      TogetherConcat(a[1..], b);
    }
  }

  lemma {:induction false} PiecesMakeOutput(t: Template, vars: Vars)
    ensures Together(Pieces(t, vars)) == Eval(t, vars)
  {
    match t
    case End =>
    case Literal(_, tail) => PiecesMakeOutput(tail, vars);
    case Braced(_, tail) => PiecesMakeOutput(tail, vars);
    case Reference(_, _, _, tail) => PiecesMakeOutput(tail, vars);
    case Default(_, _, body, tail) =>
      PiecesMakeOutput(tail, vars);
      PiecesMakeOutput(body, vars);
      TogetherConcat(Pieces(body, vars), Pieces(tail, vars));
  }

  predicate ReferenceAt(text: string, i: int) {
    0 <= i < |text| - 1 && text[i] == '$' && text[i + 1] == '{'
  }

  /** Does "${" occur in the text? */
  predicate HasReference(text: string) {
    exists i | 0 <= i < |text| :: ReferenceAt(text, i)
  }

  predicate EndsInDollar(text: string) {
    text != "" && text[|text| - 1] == '$'
  }

  /** The first piece that is not empty begins with a brace. */
  predicate BeginWithBrace(pieces: seq<string>) {
    pieces != [] && if pieces[0] == "" then BeginWithBrace(pieces[1..]) else pieces[0][0] == '{'
  }

  /** Some piece holds "${", or one ends in a dollar and the next one that is not empty begins with a brace. */
  predicate Spell(pieces: seq<string>) {
    && pieces != []
    && (HasReference(pieces[0]) || Spell(pieces[1..]) || (EndsInDollar(pieces[0]) && BeginWithBrace(pieces[1..])))
  }

  lemma {:induction false} BeginsTogether(pieces: seq<string>)
    ensures BeginWithBrace(pieces) <==> Together(pieces) != "" && Together(pieces)[0] == '{'
  {
    if pieces != [] { BeginsTogether(pieces[1..]); }
  }

  lemma ReferenceInTwo(a: string, b: string)
    ensures HasReference(a + b)
            <==> HasReference(a) || HasReference(b) || (EndsInDollar(a) && b != "" && b[0] == '{')
  {
    if HasReference(a + b) {
      var i :| 0 <= i < |a + b| && ReferenceAt(a + b, i);
      assert ReferenceAt(a, i) || ReferenceAt(b, i - |a|) || i == |a| - 1;
    }
    if HasReference(a) {
      var i :| 0 <= i < |a| && ReferenceAt(a, i);
      assert ReferenceAt(a + b, i);
    }
    if HasReference(b) {
      var i :| 0 <= i < |b| && ReferenceAt(b, i);
      assert ReferenceAt(a + b, |a| + i);
    }
    if EndsInDollar(a) && b != "" && b[0] == '{' { assert ReferenceAt(a + b, |a| - 1); }
  }

  lemma {:induction false} ReferenceInPieces(pieces: seq<string>)
    ensures HasReference(Together(pieces)) <==> Spell(pieces)
  {
    if pieces != [] {
      ReferenceInPieces(pieces[1..]);
      BeginsTogether(pieces[1..]);
      ReferenceInTwo(pieces[0], Together(pieces[1..]));
    }
  }

  /** "${" comes out exactly when the pieces spell it. */
  lemma ReferenceExactly(t: Template, vars: Vars)
    ensures HasReference(Eval(t, vars)) <==> Spell(Pieces(t, vars))
  {
    PiecesMakeOutput(t, vars);
    ReferenceInPieces(Pieces(t, vars));
  }

  /** And when they do not, interpolating again changes nothing and asks for nothing. */
  lemma {:induction false} NoReferenceIsFinal(text: string, vars: Vars, later: Vars)
    requires !Spell(Pieces(Parse(text), vars))
    ensures var output := Eval(Parse(text), vars);
            Eval(Parse(output), later) == output && Demands(Parse(output), later) == {}
  {
    ReferenceExactly(Parse(text), vars);
    UnreferencedIsKept(Eval(Parse(text), vars), later);
  }

  lemma {:induction false} UnreferencedIsKept(text: string, vars: Vars)
    requires !HasReference(text)
    ensures Eval(Parse(text), vars) == text && Demands(Parse(text), vars) == {}
  {
    forall i | 0 <= i < |text| - 1
      ensures !(text[i] == '$' && text[i + 1] == '{')
    {
      assert !ReferenceAt(text, i);
    }
    PlainTextIsKept(text, vars);
  }

  lemma LevelOfPrefix(a: string, b: string, k: nat)
    requires k <= |a + b|
    ensures Level((a + b)[..k]) == if k <= |a| then Level(a[..k]) else Level(a) + Level(b[..k - |a|])
  {
    if k <= |a| {
      assert (a + b)[..k] == a[..k];
    } else {
      assert (a + b)[..k] == a + b[..k - |a|];
      LevelConcat(a, b[..k - |a|]);
    }
  }

  lemma BalancedConcat(a: string, b: string)
    requires Balanced(a) && Balanced(b)
    ensures Balanced(a + b)
  {
    LevelConcat(a, b);
    forall k | 0 <= k <= |a + b|
      ensures Level((a + b)[..k]) >= 0
    {
      LevelOfPrefix(a, b, k);
    }
  }

  lemma BalancedInBraces(s: string)
    requires Balanced(s)
    ensures Balanced("{" + s + "}")
  {
    LevelConcat("{", s);
    LevelConcat("{" + s, "}");
    forall k | 0 <= k <= |s| + 2
      ensures Level(("{" + s + "}")[..k]) >= 0
    {
      LevelOfPrefix("{" + s, "}", k);
      if k <= |s| + 1 {
        LevelOfPrefix("{", s, k);
        assert k == 0 ==> "{"[..k] == "";
        assert k == 1 ==> "{"[..k] == "{";
      } else {
        assert "}"[..k - |s| - 1] == "}";
      }
    }
  }

  function InBraces(word: string): string {
    "{" + word + "}"
  }

  lemma DollarThenDefault(name: string, word: string)
    requires IsName(name) && '{' !in word && '}' !in word
    ensures Parse("$" + Written(name, ColonDash, InBraces(word)))
            == Literal('$', Default(name, ColonDash, Parse(InBraces(word)), End))
  {
    NoBraceIsBalanced(word);
    BalancedInBraces(word);
    NameIsBalanced(name, ":-");
    BalancedConcat(name + ":-", InBraces(word));
    WrittenIsRead(name, ColonDash, InBraces(word));
  }

  lemma BracesAreKept(word: string, vars: Vars)
    requires '$' !in word
    ensures Eval(Parse(InBraces(word)), vars) == InBraces(word) && Missing(Parse(InBraces(word)), vars, []) == []
  {
    PlainTextIsKept(InBraces(word), vars);
    MissingAreDemands(Parse(InBraces(word)), vars, []);
    NothingMissing(Missing(Parse(InBraces(word)), vars, []));
  }

  /**
   A reference can come out of text without any missing: a dollar in front of a default in braces
   puts the dollar and the braces together.
   */
  lemma ReferenceComesOut(name: string, word: string, vars: Vars)
    requires IsName(name) && name !in vars && '{' !in word && '}' !in word && '$' !in word
    ensures var t := Parse("$" + Written(name, ColonDash, InBraces(word)));
            Eval(t, vars) == "$" + InBraces(word) && Missing(t, vars, []) == [] && !DollarFree(t, vars)
  {
    DollarThenDefault(name, word);
    BracesAreKept(word, vars);
    DollarThenBody(name, Parse(InBraces(word)), vars);
  }

  lemma DollarThenBody(name: string, body: Template, vars: Vars)
    requires name !in vars
    ensures var t := Literal('$', Default(name, ColonDash, body, End));
            && Eval(t, vars) == "$" + Eval(body, vars) && !DollarFree(t, vars)
            && Missing(t, vars, []) == Missing(body, vars, [])
  {
    var d := Default(name, ColonDash, body, End);
    assert Eval(End, vars) == "" && Missing(End, vars, Missing(body, vars, [])) == Missing(body, vars, []);
    assert Eval(d, vars) == Eval(body, vars) + "" == Eval(body, vars);
    assert Missing(d, vars, []) == Missing(body, vars, []);
  }

  lemma NameIsBalanced(name: string, op: string)
    requires IsName(name) && '{' !in op && '}' !in op
    ensures Balanced(name + op)
  {
    forall c <- name ensures c != '{' && c != '}' { assert IsNameChar(c); }
    NoBraceIsBalanced(name + op);
  }

  lemma NothingMissing(names: seq<string>)
    requires Elements(names) == {}
    ensures names == []
  {
    if names != [] { SomeElement(names); }
  }

  lemma DollarWrittenOut()
    ensures "$" + Written("X", ColonDash, InBraces("FOO")) == "$${X:-{FOO}}"
    ensures "$" + InBraces("FOO") == "${FOO}"
  {
    assert InBraces("FOO") == "{FOO}";
    assert "X" + ":-" + "{FOO}" == "X:-{FOO}";
  }

  /** The same at a concrete text. */
  lemma {:induction false} ReferenceComesOutOf(text: string)
    requires text == "$${X:-{FOO}}"
    ensures Eval(Parse(text), map[]) == "${FOO}" && Missing(Parse(text), map[], []) == []
  {
    var name, word :| name == "X" && word == "FOO";
    DollarWrittenOut();
    ReferenceComesOut(name, word, map[]);
  }
}

/**
 Compose variable interpolation (`interpolateComposeVariables`).

 The program is a character scanner with brace matching.  Its meaning is given here
 by a grammar: every text has exactly one reading as a template, printing the
 reading gives the text back, and what the scanner returns is the value of that
 reading.
 */
module Interpolation {

  type Vars = map<string, string>

  // ------------------------------------------------------------------
  // Brace matching
  // ------------------------------------------------------------------

  /** Opening minus closing braces. */
  function Level(s: string): (level: int) {
    if s == "" then 0
    else Level(s[..|s| - 1]) + Weight(s[|s| - 1])
  }

  function Weight(c: char): int {
    if c == '{' then 1 else if c == '}' then -1 else 0
  }

  lemma LevelSnoc(s: string, k: nat)
    requires k < |s|
    ensures Level(s[..k + 1]) == Level(s[..k]) + Weight(s[k])
  {
    assert s[..k + 1][..k] == s[..k];
  }

  lemma {:induction false} LevelConcat(a: string, b: string)
    ensures Level(a + b) == Level(a) + Level(b)
  {
    if b == "" {
      assert a + b == a;
    } else {
      var front := b[..|b| - 1];
      assert (a + b)[..|a + b| - 1] == a + front;
      LevelConcat(a, front);
    }
  }

  /** Every brace in `s` is paired inside `s`. */
  ghost predicate Balanced(s: string) {
    Level(s) == 0 && forall k | 0 <= k <= |s| :: Level(s[..k]) >= 0
  }

  /** A brace opened just before `s` is closed by the character at `k`. */
  predicate ClosedAt(s: string, k: nat) {
    k < |s| && Level(s[..k + 1]) == -1
  }

  /** Where the brace opened just before `s` is closed: the least index where the level drops below zero, or -1. */
  function Closer(s: string, from: nat := 0): (end: int)
    requires from <= |s|
    ensures end == -1 ==> forall k | from <= k :: !ClosedAt(s, k)
    ensures end != -1 ==> from <= end && ClosedAt(s, end) && forall k | from <= k < end :: !ClosedAt(s, k)
    decreases |s| - from
  {
    if from == |s| then -1
    else if ClosedAt(s, from) then from
    else Closer(s, from + 1)
  }

  /** Until the closer is reached the level never goes below zero. */
  lemma {:induction false} LevelBeforeCloser(s: string, k: nat)
    requires k <= |s| && (Closer(s) == -1 || k <= Closer(s))
    ensures Level(s[..k]) >= 0
  {
    if k > 0 {
      LevelBeforeCloser(s, k - 1);
      LevelSnoc(s, k - 1);
      assert !ClosedAt(s, k - 1);
    } else {
      assert s[..0] == "";
    }
  }

  /** What is closed is a balanced body followed by a closing brace. */
  lemma CloserSplits(s: string)
    requires Closer(s) != -1
    ensures s[Closer(s)] == '}' && Balanced(s[..Closer(s)])
  {
    var end := Closer(s);
    LevelSnoc(s, end);
    LevelBeforeCloser(s, end);
    forall k | 0 <= k <= end
      ensures Level(s[..end][..k]) >= 0
    {
      LevelBeforeCloser(s, k);
      assert s[..end][..k] == s[..k];
    }
  }

  /** A balanced body followed by a closing brace is closed exactly there. */
  lemma CloserOfBalanced(body: string, tail: string)
    requires Balanced(body)
    ensures Closer(body + "}" + tail) == |body|
  {
    var s := body + "}" + tail;
    forall k | 0 <= k <= |body|
      ensures Level(s[..k]) >= 0
    {
      assert s[..k] == body[..k];
    }
    assert s[..|body|] == body;
    LevelSnoc(s, |body|);
    assert ClosedAt(s, |body|);
    forall k | 0 <= k < |body|
      ensures !ClosedAt(s, k)
    {
      assert s[..k + 1] == body[..k + 1];
    }
  }

  /** The program's depth counter finds the closer. */
  method FindMatchingBrace(text: string, open: nat) returns (end: int)
    requires open < |text|
    ensures var closer := Closer(text[open + 1..]); end == if closer == -1 then -1 else open + 1 + closer
  {
    ghost var s := text[open + 1..];
    var depth := 1;
    assert s[..0] == "";
    for j := open + 1 to |text|
      invariant depth == 1 + Level(s[..j - open - 1]) && depth > 0
      invariant forall k | 0 <= k < j - open - 1 :: !ClosedAt(s, k)
    {
      LevelSnoc(s, j - open - 1);
      if text[j] == '{' {
        depth := depth + 1;
      } else if text[j] == '}' {
        depth := depth - 1;
        if depth == 0 {
          assert ClosedAt(s, j - open - 1);
          return j;
        }
      }
    }
    return -1;
  }

  // ------------------------------------------------------------------
  // Variable expressions
  // ------------------------------------------------------------------

  datatype Op = Plain | ColonDash | Dash | ColonQuestion | Question

  function OpText(op: Op): (text: string) {
    match op
    case Plain => ""
    case ColonDash => ":-"
    case Dash => "-"
    case ColonQuestion => ":?"
    case Question => "?"
  }

  predicate HasDefault(op: Op) {
    op == ColonDash || op == Dash
  }

  predicate IsNameStart(c: char) {
    'A' <= c <= 'Z' || 'a' <= c <= 'z' || c == '_'
  }

  predicate IsNameChar(c: char) {
    IsNameStart(c) || '0' <= c <= '9'
  }

  predicate IsName(name: string) {
    name != "" && IsNameStart(name[0]) && forall c <- name :: IsNameChar(c)
  }

  datatype Expression = NoExpression | Expression(name: string, op: Op, rest: string)

  /** The language of the regular expression VARIABLE_EXPRESSION, with its capture groups. */
  ghost predicate Captures(inner: string, name: string, op: Op, rest: string) {
    IsName(name) && inner == name + OpText(op) + rest && (op == Plain ==> rest == "")
  }

  function NameLength(s: string): (n: nat)
    ensures n <= |s|
    ensures forall i | 0 <= i < n :: IsNameChar(s[i])
    ensures n < |s| ==> !IsNameChar(s[n])
  {
    if s == "" || !IsNameChar(s[0]) then 0 else 1 + NameLength(s[1..])
  }

  function Operator(s: string): (op: Op)
    ensures op != Plain ==> OpText(op) <= s
  {
    if |s| >= 2 && s[0] == ':' && s[1] == '-' then ColonDash
    else if |s| >= 1 && s[0] == '-' then Dash
    else if |s| >= 2 && s[0] == ':' && s[1] == '?' then ColonQuestion
    else if |s| >= 1 && s[0] == '?' then Question
    else Plain
  }

  function Classify(inner: string): (e: Expression)
    ensures e.Expression? ==> |e.rest| < |inner|
  {
    var n := NameLength(inner);
    if n == 0 || !IsNameStart(inner[0]) then NoExpression
    else
      var op := Operator(inner[n..]);
      if op != Plain then Expression(inner[..n], op, inner[n + |OpText(op)|..])
      else if n == |inner| then Expression(inner, Plain, "")
      else NoExpression
  }

  /** Whatever is captured is in the language of the regular expression. */
  lemma ClassifyCaptures(inner: string)
    requires Classify(inner).Expression?
    ensures var e := Classify(inner); Captures(inner, e.name, e.op, e.rest)
  {
    var n, op := NameLength(inner), Operator(inner[NameLength(inner)..]);
    assert inner == inner[..n] + inner[n..];
    if op != Plain {
      assert inner[n..] == OpText(op) + inner[n + |OpText(op)|..];
    }
  }

  /** The capture groups are unambiguous, and an expression without captures is really outside the language. */
  lemma ClassifyIsExact(inner: string, name: string, op: Op, rest: string)
    requires Captures(inner, name, op, rest)
    ensures Classify(inner) == Expression(name, op, rest)
  {
    NameIsMeasured(name, OpText(op) + rest);
    var n := NameLength(inner);
    assert inner == name + (OpText(op) + rest);
    assert inner[n..] == OpText(op) + rest;
    OperatorIsRead(op, rest);
    assert inner[n + |OpText(op)|..] == rest;
  }

  lemma OperatorIsRead(op: Op, rest: string)
    requires op == Plain ==> rest == ""
    ensures Operator(OpText(op) + rest) == op
  {
    if op != Plain { assert (OpText(op) + rest)[0] == OpText(op)[0]; }
  }

  lemma {:induction false} NameIsMeasured(name: string, after: string)
    requires forall c <- name :: IsNameChar(c)
    requires after == "" || !IsNameChar(after[0])
    ensures NameLength(name + after) == |name|
  {
    var inner := name + after;
    forall i | 0 <= i < |name|
      ensures IsNameChar(inner[i])
    {
      assert inner[i] == name[i];
    }
    if after != "" { assert inner[|name|] == after[0]; }
  }

  // ------------------------------------------------------------------
  // Templates
  // ------------------------------------------------------------------

  /**
   The reading of a text: literal characters, braced text that is no variable
   expression, references without a default, and references with a default that is
   itself a template.
   */
  datatype Template =
    | End
    | Literal(c: char, tail: Template)
    | Braced(inner: string, tail: Template)
    | Reference(name: string, op: Op, message: string, tail: Template)
    | Default(name: string, op: Op, body: Template, tail: Template)

  function Print(t: Template): (text: string) {
    match t
    case End => ""
    case Literal(c, tail) => [c] + Print(tail)
    case Braced(inner, tail) => "${" + inner + "}" + Print(tail)
    case Reference(name, op, message, tail) => "${" + (name + OpText(op) + message) + "}" + Print(tail)
    case Default(name, op, body, tail) => "${" + (name + OpText(op) + Print(body)) + "}" + Print(tail)
  }

  /** `text` begins with a reference: "${" whose brace is closed somewhere. */
  predicate Opens(text: string) {
    "${" <= text && Closer(text[2..]) != -1
  }

  ghost predicate WellFormed(t: Template) {
    match t
    case End => true
    case Literal(c, tail) => WellFormed(tail) && !Opens([c] + Print(tail))
    case Braced(inner, tail) => WellFormed(tail) && Balanced(inner) && Classify(inner) == NoExpression
    case Reference(name, op, message, tail) =>
      WellFormed(tail) && !HasDefault(op) && Captures(name + OpText(op) + message, name, op, message)
      && Balanced(name + OpText(op) + message)
    case Default(name, op, body, tail) =>
      WellFormed(tail) && WellFormed(body) && HasDefault(op) && IsName(name)
      && Balanced(name + OpText(op) + Print(body))
  }

  function Parse(text: string): (t: Template)
    decreases |text|
  {
    if text == "" then End
    else if Opens(text) then
      var end := Closer(text[2..]);
      var inner, tail := text[2..][..end], Parse(text[2..][end + 1..]);
      match Classify(inner)
      case NoExpression => Braced(inner, tail)
      case Expression(name, op, rest) =>
        if HasDefault(op) then Default(name, op, Parse(rest), tail) else Reference(name, op, rest, tail)
    else Literal(text[0], Parse(text[1..]))
  }

  lemma SplitAtCloser(text: string)
    requires Opens(text)
    ensures var end := Closer(text[2..]); text == "${" + text[2..][..end] + "}" + text[2..][end + 1..]
  {
    CloserSplits(text[2..]);
    var s, end := text[2..], Closer(text[2..]);
    assert s == s[..end] + [s[end]] + s[end + 1..];
    assert text == text[..2] + s;
  }

  /** Printing the reading of a text gives the text back. */
  lemma {:induction false} PrintParse(text: string)
    ensures Print(Parse(text)) == text
    decreases |text|
  {
    if text == "" {
    } else if Opens(text) {
      SplitAtCloser(text);
      var end := Closer(text[2..]);
      PrintParse(text[2..][end + 1..]);
      var e := Classify(text[2..][..end]);
      if e.Expression? {
        ClassifyCaptures(text[2..][..end]);
        PrintParse(e.rest);
      }
    } else {
      PrintParse(text[1..]);
    }
  }

  /** The reference whose braces hold `inner`, followed by `tail`. */
  function Node(inner: string, tail: Template): (t: Template) {
    match Classify(inner)
    case NoExpression => Braced(inner, tail)
    case Expression(name, op, rest) =>
      if HasDefault(op) then Default(name, op, Parse(rest), tail) else Reference(name, op, rest, tail)
  }

  lemma NodeIsWellFormed(inner: string, tail: Template)
    requires Balanced(inner) && WellFormed(tail)
    requires var e := Classify(inner); e.Expression? ==> WellFormed(Parse(e.rest))
    ensures WellFormed(Node(inner, tail))
  {
    var e := Classify(inner);
    if e.Expression? {
      ClassifyCaptures(inner);
      PrintParse(e.rest);
    }
  }

  lemma {:induction false} ParseIsWellFormed(text: string)
    ensures WellFormed(Parse(text))
    decreases |text|
  {
    if text == "" {
    } else if Opens(text) {
      CloserSplits(text[2..]);
      var end := Closer(text[2..]);
      var inner, tail := text[2..][..end], text[2..][end + 1..];
      ParseIsWellFormed(tail);
      if Classify(inner).Expression? {
        ParseIsWellFormed(Classify(inner).rest);
      }
      NodeIsWellFormed(inner, Parse(tail));
    } else {
      ParseIsWellFormed(text[1..]);
      PrintParse(text[1..]);
      assert text == [text[0]] + text[1..];
    }
  }

  lemma ParseBraced(inner: string, tail: string)
    requires Balanced(inner)
    ensures var text := "${" + inner + "}" + tail;
            Opens(text) && Closer(text[2..]) == |inner|
            && text[2..][..|inner|] == inner && text[2..][|inner| + 1..] == tail
  {
    var text := "${" + inner + "}" + tail;
    assert text[2..] == inner + "}" + tail;
    CloserOfBalanced(inner, tail);
  }

  lemma ParseNode(inner: string, tail: string)
    requires Balanced(inner)
    ensures Parse("${" + inner + "}" + tail) == Node(inner, Parse(tail))
  {
    ParseBraced(inner, tail);
  }

  /** The grammar is unambiguous: a well-formed template is the only reading of its text. */
  lemma {:induction false} ParsePrint(t: Template)
    requires WellFormed(t)
    ensures Parse(Print(t)) == t
  {
    match t
    case End =>
    case Literal(c, tail) =>
      ParsePrint(tail);
      assert Print(t)[1..] == Print(tail);
    case Braced(inner, tail) =>
      ParsePrint(tail);
      ParseNode(inner, Print(tail));
    case Reference(name, op, message, tail) =>
      ParsePrint(tail);
      ParseNode(name + OpText(op) + message, Print(tail));
      ClassifyIsExact(name + OpText(op) + message, name, op, message);
    case Default(name, op, body, tail) =>
      ParsePrint(tail);
      ParsePrint(body);
      ParseNode(name + OpText(op) + Print(body), Print(tail));
      ClassifyIsExact(name + OpText(op) + Print(body), name, op, Print(body));
  }

  // ------------------------------------------------------------------
  // Meaning
  // ------------------------------------------------------------------

  /** The text a template stands for under `vars`; a reference without a value stays as it is written. */
  function Eval(t: Template, vars: Vars): (text: string) {
    match t
    case End => ""
    case Literal(c, tail) => [c] + Eval(tail, vars)
    case Braced(inner, tail) => "${" + inner + "}" + Eval(tail, vars)
    case Reference(name, op, message, tail) =>
      (if name in vars then vars[name] else "${" + (name + OpText(op) + message) + "}") + Eval(tail, vars)
    case Default(name, op, body, tail) =>
      (if name in vars then vars[name] else Eval(body, vars)) + Eval(tail, vars)
  }

  /** The names a template needs a value for and does not get one. */
  function Demands(t: Template, vars: Vars): (names: set<string>) {
    match t
    case End => {}
    case Literal(_, tail) => Demands(tail, vars)
    case Braced(_, tail) => Demands(tail, vars)
    case Reference(name, _, _, tail) => (if name in vars then {} else {name}) + Demands(tail, vars)
    case Default(name, _, body, tail) => (if name in vars then {} else Demands(body, vars)) + Demands(tail, vars)
  }

  /** Insertion into a JavaScript `Set`: insertion order, no duplicates. */
  function Add(names: seq<string>, name: string): (more: seq<string>) {
    if name in names then names else names + [name]
  }

  /** The missing names in the order the scan meets them, added to those met before. */
  function Missing(t: Template, vars: Vars, before: seq<string>): (names: seq<string>) {
    match t
    case End => before
    case Literal(_, tail) => Missing(tail, vars, before)
    case Braced(_, tail) => Missing(tail, vars, before)
    case Reference(name, _, _, tail) => Missing(tail, vars, if name in vars then before else Add(before, name))
    case Default(name, _, body, tail) =>
      Missing(tail, vars, if name in vars then before else Missing(body, vars, before))
  }

  ghost predicate NoDuplicates(names: seq<string>) {
    forall i, j | 0 <= i < j < |names| :: names[i] != names[j]
  }

  function Elements(names: seq<string>): set<string> {
    set name | name in names
  }

  /** The reported list is exactly the demanded names, each once. */
  lemma {:induction false} MissingAreDemands(t: Template, vars: Vars, before: seq<string>)
    requires NoDuplicates(before)
    ensures NoDuplicates(Missing(t, vars, before))
    ensures Elements(Missing(t, vars, before)) == Elements(before) + Demands(t, vars)
  {
    match t
    case End =>
    case Literal(_, tail) => MissingAreDemands(tail, vars, before);
    case Braced(_, tail) => MissingAreDemands(tail, vars, before);
    case Reference(name, _, _, tail) =>
      assert Elements(Add(before, name)) == Elements(before) + {name};
      MissingAreDemands(tail, vars, if name in vars then before else Add(before, name));
    case Default(name, _, body, tail) =>
      if name in vars {
        MissingAreDemands(tail, vars, before);
      } else {
        MissingAreDemands(body, vars, before);
        MissingAreDemands(tail, vars, Missing(body, vars, before));
      }
  }

  /** Only undefined names are ever reported. */
  lemma {:induction false} DemandsAreUndefined(t: Template, vars: Vars)
    ensures Demands(t, vars) !! vars.Keys
  {
    match t
    case End =>
    case Literal(_, tail) => DemandsAreUndefined(tail, vars);
    case Braced(_, tail) => DemandsAreUndefined(tail, vars);
    case Reference(_, _, _, tail) => DemandsAreUndefined(tail, vars);
    case Default(_, _, body, tail) =>
      DemandsAreUndefined(body, vars);
      DemandsAreUndefined(tail, vars);
  }

  /** Defining more variables, with whatever values, never adds a missing name. */
  lemma {:induction false} DemandsShrink(t: Template, vars: Vars, more: Vars)
    requires vars.Keys <= more.Keys
    ensures Demands(t, more) <= Demands(t, vars)
  {
    match t
    case End =>
    case Literal(_, tail) => DemandsShrink(tail, vars, more);
    case Braced(_, tail) => DemandsShrink(tail, vars, more);
    case Reference(_, _, _, tail) => DemandsShrink(tail, vars, more);
    case Default(_, _, body, tail) =>
      DemandsShrink(body, vars, more);
      DemandsShrink(tail, vars, more);
  }

  lemma SomeElement(names: seq<string>)
    requires names != []
    ensures Elements(names) != {}
  {
    assert names[0] in Elements(names);
  }

  /** Following the error message once is enough: defining every reported name leaves nothing missing. */
  lemma {:induction false} OneRoundSuffices(text: string, vars: Vars, more: Vars)
    requires vars.Keys + Elements(Missing(Parse(text), vars, [])) <= more.Keys
    ensures Missing(Parse(text), more, []) == []
  {
    var t := Parse(text);
    MissingAreDemands(t, vars, []);
    MissingAreDemands(t, more, []);
    DemandsShrink(t, vars, more);
    DemandsAreUndefined(t, more);
    if Missing(t, more, []) != [] {
      SomeElement(Missing(t, more, []));
    }
  }

  /** Text without "${" passes through untouched and asks for nothing. */
  lemma {:induction false} PlainTextIsKept(text: string, vars: Vars)
    requires forall i | 0 <= i < |text| - 1 :: !(text[i] == '$' && text[i + 1] == '{')
    ensures Eval(Parse(text), vars) == text && Demands(Parse(text), vars) == {}
    decreases |text|
  {
    if text != "" {
      PlainTextIsKept(text[1..], vars);
    }
  }

  // ------------------------------------------------------------------
  // The order of the missing names
  // ------------------------------------------------------------------

  /** Every place, in scan order, where a name has no value: a name is listed as often as it is met. */
  function Occurrences(t: Template, vars: Vars): (names: seq<string>) {
    match t
    case End => []
    case Literal(_, tail) => Occurrences(tail, vars)
    case Braced(_, tail) => Occurrences(tail, vars)
    case Reference(name, _, _, tail) => (if name in vars then [] else [name]) + Occurrences(tail, vars)
    case Default(name, _, body, tail) =>
      (if name in vars then [] else Occurrences(body, vars)) + Occurrences(tail, vars)
  }

  /** `a` is met before `b` is met for the first time. */
  ghost predicate MetBefore(met: seq<string>, a: string, b: string) {
    exists k | 0 <= k < |met| :: FirstAt(met, b, k) && a in met[..k]
  }

  predicate FirstAt(met: seq<string>, b: string, k: nat) {
    k < |met| && met[k] == b && b !in met[..k]
  }

  /** The names met, each once, in the order in which they are met first. */
  ghost predicate InOrderMet(names: seq<string>, met: seq<string>) {
    && NoDuplicates(names)
    && Elements(names) == Elements(met)
    && forall i, j | 0 <= i < j < |names| :: MetBefore(met, names[i], names[j])
  }

  lemma OneMoreMet(names: seq<string>, met: seq<string>, name: string)
    requires InOrderMet(names, met)
    ensures InOrderMet(Add(names, name), met + [name])
  {
    var more, all := Add(names, name), met + [name];
    assert name in names <==> name in Elements(names);
    assert name in met <==> name in Elements(met);
    assert Elements(all) == Elements(met) + {name};
    assert Elements(more) == Elements(names) + {name};
    forall i, j | 0 <= i < j < |more|
      ensures MetBefore(all, more[i], more[j])
    {
      if j < |names| {
        StillMetBefore(met, name, names[i], names[j]);
      } else {
        assert names[i] in Elements(met);
        assert all[..|met|] == met && FirstAt(all, name, |met|);
      }
    }
  }

  lemma StillMetBefore(met: seq<string>, name: string, a: string, b: string)
    requires MetBefore(met, a, b)
    ensures MetBefore(met + [name], a, b)
  {
    var k :| 0 <= k < |met| && FirstAt(met, b, k) && a in met[..k];
    assert (met + [name])[..k] == met[..k];
    assert FirstAt(met + [name], b, k);
  }

  /** One insertion after the other. */
  function AddAll(before: seq<string>, names: seq<string>): (more: seq<string>)
    decreases |names|
  {
    if names == [] then before else AddAll(Add(before, names[0]), names[1..])
  }

  lemma {:induction false} AddAllConcat(before: seq<string>, a: seq<string>, b: seq<string>)
    ensures AddAll(before, a + b) == AddAll(AddAll(before, a), b)
    decreases |a|
  {
    if a == [] {
      assert a + b == b;
    } else {
      assert (a + b)[1..] == a[1..] + b;
      AddAllConcat(Add(before, a[0]), a[1..], b);
    }
  }

  lemma {:induction false} MissingIsAdded(t: Template, vars: Vars, before: seq<string>)
    ensures Missing(t, vars, before) == AddAll(before, Occurrences(t, vars))
  {
    match t
    case End =>
    case Literal(_, tail) => MissingIsAdded(tail, vars, before);
    case Braced(_, tail) => MissingIsAdded(tail, vars, before);
    case Reference(name, _, _, tail) =>
      var first := if name in vars then [] else [name];
      AddAllConcat(before, first, Occurrences(tail, vars));
      assert AddAll(before, [name]) == Add(before, name);
      MissingIsAdded(tail, vars, AddAll(before, first));
    case Default(name, _, body, tail) =>
      var first := if name in vars then [] else Occurrences(body, vars);
      AddAllConcat(before, first, Occurrences(tail, vars));
      MissingIsAdded(body, vars, before);
      MissingIsAdded(tail, vars, AddAll(before, first));
  }

  lemma {:induction false} AddedInOrder(before: seq<string>, met: seq<string>, names: seq<string>)
    requires InOrderMet(before, met)
    ensures InOrderMet(AddAll(before, names), met + names)
    decreases |names|
  {
    if names == [] {
      assert met + names == met;
    } else {
      OneMoreMet(before, met, names[0]);
      AddedInOrder(Add(before, names[0]), met + [names[0]], names[1..]);
      assert met + [names[0]] + names[1..] == met + names;
    }
  }

  /** The reported list: every name met without a value, once, in the order of the scan. */
  lemma {:induction false} MissingInScanOrder(t: Template, vars: Vars)
    ensures InOrderMet(Missing(t, vars, []), Occurrences(t, vars))
  {
    MissingIsAdded(t, vars, []);
    AddedInOrder([], [], Occurrences(t, vars));
    assert [] + Occurrences(t, vars) == Occurrences(t, vars);
  }

  /** What an earlier part of the scan has reported stays at the front of the list. */
  lemma {:induction false} MissingOnlyGrows(t: Template, vars: Vars, before: seq<string>)
    ensures before <= Missing(t, vars, before)
  {
    match t
    case End =>
    case Literal(_, tail) => MissingOnlyGrows(tail, vars, before);
    case Braced(_, tail) => MissingOnlyGrows(tail, vars, before);
    case Reference(name, _, _, tail) =>
      MissingOnlyGrows(tail, vars, if name in vars then before else Add(before, name));
    case Default(name, _, body, tail) =>
      MissingOnlyGrows(body, vars, before);
      MissingOnlyGrows(tail, vars, if name in vars then before else Missing(body, vars, before));
  }

  /** There is only one such list. */
  lemma {:induction false} OneOrderMet(a: seq<string>, b: seq<string>, met: seq<string>)
    requires InOrderMet(a, met) && InOrderMet(b, met)
    ensures a == b
  {
    SameOrder(a, b, met);
  }

  ghost predicate Ordered(names: seq<string>, met: seq<string>) {
    && NoDuplicates(names)
    && forall i, j | 0 <= i < j < |names| :: MetBefore(met, names[i], names[j])
  }

  lemma {:induction false} SameOrder(a: seq<string>, b: seq<string>, met: seq<string>)
    requires Ordered(a, met) && Ordered(b, met) && Elements(a) == Elements(b)
    ensures a == b
  {
    if a == [] {
      if b != [] { SomeElement(b); }
    } else {
      assert a[|a| - 1] in Elements(b);
      LastIsMetLast(a, b, met);
      FrontHasOthers(a);
      FrontHasOthers(b);
      SameOrder(a[..|a| - 1], b[..|b| - 1], met);
      assert a == a[..|a| - 1] + [a[|a| - 1]] && b == b[..|b| - 1] + [b[|b| - 1]];
    }
  }

  lemma NotBothBefore(met: seq<string>, a: string, b: string)
    ensures !(MetBefore(met, a, b) && MetBefore(met, b, a))
  {
    if MetBefore(met, a, b) {
      var k :| 0 <= k < |met| && FirstAt(met, b, k) && a in met[..k];
      forall j | 0 <= j < |met| && FirstAt(met, a, j)
        ensures b !in met[..j]
      {
      }
    }
  }

  lemma LastIsMetLast(a: seq<string>, b: seq<string>, met: seq<string>)
    requires a != [] && b != [] && Ordered(a, met) && Ordered(b, met) && Elements(a) == Elements(b)
    ensures a[|a| - 1] == b[|b| - 1]
  {
    var x, y := a[|a| - 1], b[|b| - 1];
    assert x in Elements(b) && y in Elements(a);
    var i :| 0 <= i < |b| && b[i] == x;
    var j :| 0 <= j < |a| && a[j] == y;
    NotBothBefore(met, x, y);
  }

  lemma FrontHasOthers(a: seq<string>)
    requires a != [] && NoDuplicates(a)
    ensures Elements(a[..|a| - 1]) == Elements(a) - {a[|a| - 1]}
  {
    var last := a[|a| - 1];
    assert a == a[..|a| - 1] + [last];
  }

  // ------------------------------------------------------------------
  // The scanner
  // ------------------------------------------------------------------

  /** What the reference "${inner}" stands for. */
  function Resolved(inner: string, vars: Vars): (text: string) {
    match Classify(inner)
    case NoExpression => "${" + inner + "}"
    case Expression(name, op, rest) =>
      if name in vars then vars[name]
      else if HasDefault(op) then Eval(Parse(rest), vars)
      else "${" + inner + "}"
  }

  function MissingIn(inner: string, vars: Vars, before: seq<string>): (names: seq<string>) {
    match Classify(inner)
    case NoExpression => before
    case Expression(name, op, rest) =>
      if name in vars then before
      else if HasDefault(op) then Missing(Parse(rest), vars, before)
      else Add(before, name)
  }

  lemma NodeThenTail(inner: string, tail: Template, vars: Vars, before: seq<string>)
    ensures Eval(Node(inner, tail), vars) == Resolved(inner, vars) + Eval(tail, vars)
    ensures Missing(Node(inner, tail), vars, before) == Missing(tail, vars, MissingIn(inner, vars, before))
  {
    if Classify(inner).Expression? {
      ClassifyCaptures(inner);
    }
  }

  /** The scan has reached `i` with `result` written and `missing` collected, having started with `before`. */
  ghost predicate Scanned(text: string, vars: Vars, before: seq<string>, i: nat, result: string, missing: seq<string>) {
    && i <= |text|
    && result + Eval(Parse(text[i..]), vars) == Eval(Parse(text), vars)
    && Missing(Parse(text[i..]), vars, missing) == Missing(Parse(text), vars, before)
  }

  /** "${" with a closed brace is at `i`. */
  predicate OpensAt(text: string, i: nat) {
    i + 2 <= |text| && text[i] == '$' && text[i + 1] == '{' && Closer(text[i + 2..]) != -1
  }

  lemma SliceNode(text: string, i: nat, next: nat)
    requires OpensAt(text, i) && next == i + 3 + Closer(text[i + 2..])
    ensures i + 2 < next <= |text| && text[i..next] == "${" + text[i + 2..next - 1] + "}"
    ensures text[i + 2..][..next - i - 3] == text[i + 2..next - 1] && text[i + 2..][next - i - 2..] == text[next..]
  {
    CloserSplits(text[i + 2..]);
  }

  /** A closed reference is one node of the reading, and the scan goes on behind its brace. */
  lemma ScanNode(text: string, i: nat, next: nat)
    requires OpensAt(text, i) && next == i + 3 + Closer(text[i + 2..])
    ensures i + 2 < next <= |text|
    ensures Parse(text[i..]) == Node(text[i + 2..next - 1], Parse(text[next..]))
  {
    SliceNode(text, i, next);
    ReadNode(text[i..], text[i + 2..], next - i - 3);
  }

  lemma ReadNode(text: string, s: string, end: nat)
    requires |text| >= 2 && "${" <= text && s == text[2..] && end == Closer(s)
    ensures end < |s| && Parse(text) == Node(s[..end], Parse(s[end + 1..]))
  {
  }

  /** One round of the scan: a closed reference is resolved as a whole, anything else is copied character by
      character. */
  ghost predicate Advances(text: string, vars: Vars, i: nat, next: nat, piece: string, missing: seq<string>,
                           after: seq<string>) {
    if OpensAt(text, i) then
      && i + 2 < next <= |text| && next == i + 3 + Closer(text[i + 2..])
      && piece == Resolved(text[i + 2..next - 1], vars)
      && after == MissingIn(text[i + 2..next - 1], vars, missing)
    else
      i < |text| && next == i + 1 && piece == [text[i]] && after == missing
  }

  lemma {:induction false} ReadingNode(text: string, vars: Vars, i: nat, next: nat, missing: seq<string>)
    requires OpensAt(text, i) && next == i + 3 + Closer(text[i + 2..])
    ensures i + 2 < next <= |text|
    ensures var inner := text[i + 2..next - 1];
            && Eval(Parse(text[i..]), vars) == Resolved(inner, vars) + Eval(Parse(text[next..]), vars)
            && Missing(Parse(text[i..]), vars, missing)
                == Missing(Parse(text[next..]), vars, MissingIn(inner, vars, missing))
  {
    ScanNode(text, i, next);
    NodeThenTail(text[i + 2..next - 1], Parse(text[next..]), vars, missing);
  }

  lemma ScannedStep(text: string, vars: Vars, before: seq<string>, i: nat, result: string, missing: seq<string>,
                    next: nat, piece: string, after: seq<string>)
    requires Scanned(text, vars, before, i, result, missing) && i < |text|
    requires Advances(text, vars, i, next, piece, missing, after)
    ensures Scanned(text, vars, before, next, result + piece, after)
  {
    if OpensAt(text, i) {
      ReadingNode(text, vars, i, next, missing);
    }
    Associative(result, piece, Eval(Parse(text[next..]), vars));
  }

  lemma Associative(a: string, b: string, c: string)
    ensures a + (b + c) == a + b + c
  {
  }

  class Interpolator {
    const vars: Vars
    /** The shared `missingVariables` set, in insertion order. */
    var missing: seq<string>

    constructor (vars: Vars)
      ensures this.vars == vars && missing == []
    {
      this.vars := vars;
      missing := [];
    }

    method Interpolate(text: string) returns (result: string)
      modifies this
      ensures result == Eval(Parse(text), vars)
      ensures missing == Missing(Parse(text), vars, old(missing))
      decreases |text|, 1
    {
      result := "";
      var i := 0;
      assert text[0..] == text;
      while i < |text|
        invariant Scanned(text, vars, old(missing), i, result, missing)
        decreases |text| - i
      {
        ghost var at, collected := i, missing;
        var piece;
        piece, i := Step(text, i);
        ScannedStep(text, vars, old(missing), at, result, collected, i, piece, missing);
        result := result + piece;
      }
      assert text[i..] == "";
    }

    /** One round of the scan loop: the text to append and where to go on. */
    method Step(text: string, i: nat) returns (piece: string, next: nat)
      requires i < |text|
      modifies this
      ensures i < next <= |text| && Advances(text, vars, i, next, piece, old(missing), missing)
      decreases |text|, 0
    {
      if text[i] == '$' && i + 1 < |text| && text[i + 1] == '{' {
        var end := FindMatchingBrace(text, i + 1);
        if end != -1 {
          next := end + 1;
          SliceNode(text, i, next);
          piece := ResolveExpression(text[i..next], text[i + 2..next - 1]);
          return;
        }
      }
      return [text[i]], i + 1;
    }

    method ResolveExpression(original: string, inner: string) returns (result: string)
      requires original == "${" + inner + "}"
      modifies this
      ensures result == Resolved(inner, vars) && missing == MissingIn(inner, vars, old(missing))
      decreases |inner|, 2
    {
      match Classify(inner) {
        case NoExpression => return original;
        case Expression(name, op, rest) =>
          if name in vars { return vars[name]; }
          if HasDefault(op) {
            result := Interpolate(rest);
            return;
          }
          missing := Add(missing, name);
          return original;
      }
    }
  }

  datatype InterpolationResult = InterpolationResult(yaml: string, missingVariables: seq<string>)

  method InterpolateComposeVariables(rawYaml: string, vars: Vars) returns (result: InterpolationResult)
    ensures result.yaml == Eval(Parse(rawYaml), vars)
    ensures result.missingVariables == Missing(Parse(rawYaml), vars, [])
    ensures InOrderMet(result.missingVariables, Occurrences(Parse(rawYaml), vars))
  {
    MissingInScanOrder(Parse(rawYaml), vars);
    var interpolator := new Interpolator(vars);
    var yaml := interpolator.Interpolate(rawYaml);
    return InterpolationResult(yaml, interpolator.missing);
  }
}

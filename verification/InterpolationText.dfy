/**
 What the interpolation does, said of the text itself: what happens to a character, to
 braces and to each kind of reference.  Together these equations leave nothing open.
 */
module InterpolationText {
  import opened Interpolation

  /** The interpolated text. */
  function Value(text: string, vars: Vars): (value: string) {
    Eval(Parse(text), vars)
  }

  /** The names it lacks, as often as they are met. */
  function Lacks(text: string, vars: Vars): (names: seq<string>) {
    Occurrences(Parse(text), vars)
  }

  /** A character that begins no closed reference is copied, and there is nothing behind the last one. */
  lemma CharacterIsKept(c: char, tail: string, vars: Vars)
    requires !Opens([c] + tail)
    ensures Value("", vars) == "" && Lacks("", vars) == []
    ensures Value([c] + tail, vars) == [c] + Value(tail, vars)
    ensures Lacks([c] + tail, vars) == Lacks(tail, vars)
  {
    assert ([c] + tail)[1..] == tail;
  }

  /** Braces that hold no variable expression are copied, whatever they hold. */
  lemma OtherBracesAreKept(inner: string, tail: string, vars: Vars)
    requires Balanced(inner) && forall name, op, rest :: !Captures(inner, name, op, rest)
    ensures Value("${" + inner + "}" + tail, vars) == "${" + inner + "}" + Value(tail, vars)
    ensures Lacks("${" + inner + "}" + tail, vars) == Lacks(tail, vars)
  {
    if Classify(inner).Expression? { ClassifyCaptures(inner); }
    ParseNode(inner, tail);
  }

  /** The operators, as they are written. */
  function OpOf(op: string): Op {
    if op == ":-" then ColonDash
    else if op == "-" then Dash
    else if op == ":?" then ColonQuestion
    else if op == "?" then Question
    else Plain
  }

  /** A reference with one of the operators `:-`, `-`, `:?`, `?`, or with none. */
  predicate IsReference(name: string, op: string, rest: string) {
    IsName(name) && op in {"", ":-", "-", ":?", "?"} && (op == "" ==> rest == "")
  }

  lemma ReferenceIsRead(name: string, op: string, rest: string, tail: string)
    requires IsReference(name, op, rest) && Balanced(name + op + rest)
    ensures Parse("${" + (name + op + rest) + "}" + tail)
            == if op == ":-" || op == "-" then Default(name, OpOf(op), Parse(rest), Parse(tail))
               else Reference(name, OpOf(op), rest, Parse(tail))
  {
    assert OpText(OpOf(op)) == op;
    ClassifyIsExact(name + op + rest, name, OpOf(op), rest);
    ParseNode(name + op + rest, tail);
  }

  /**
   The meaning of a reference: a defined variable's value, whatever the operator; otherwise the
   default, itself interpolated, if there is one; otherwise the reference as it stands, and its
   name is missing.
   */
  lemma ReferenceIsReplaced(name: string, op: string, rest: string, tail: string, vars: Vars)
    requires IsReference(name, op, rest) && Balanced(name + op + rest)
    ensures var text := "${" + (name + op + rest) + "}";
            if name in vars then
              && Value(text + tail, vars) == vars[name] + Value(tail, vars)
              && Lacks(text + tail, vars) == Lacks(tail, vars)
            else if op == ":-" || op == "-" then
              && Value(text + tail, vars) == Value(rest, vars) + Value(tail, vars)
              && Lacks(text + tail, vars) == Lacks(rest, vars) + Lacks(tail, vars)
            else
              && Value(text + tail, vars) == text + Value(tail, vars)
              && Lacks(text + tail, vars) == [name] + Lacks(tail, vars)
  {
    ReferenceIsRead(name, op, rest, tail);
    if name in vars { assert [] + Lacks(tail, vars) == Lacks(tail, vars); }
    assert OpText(OpOf(op)) == op;
  }
}

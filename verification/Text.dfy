/** Splitting and joining text at a separator character, as `split` and `join` do in JavaScript. */
module Text {
  import opened Optional
  import opened Selection

  function Split(s: string, sep: char): (parts: seq<string>)
    ensures |parts| >= 1
  {
    if s == "" then [""]
    else
      var rest := Split(s[1..], sep);
      if s[0] == sep then [""] + rest else [[s[0]] + rest[0]] + rest[1..]
  }

  function Join(parts: seq<string>, sep: char): (s: string) {
    if parts == [] then ""
    else if |parts| == 1 then parts[0]
    else parts[0] + [sep] + Join(parts[1..], sep)
  }

  /** No part holds a separator, and joining the parts gives the text back: this pins `Split` down. */
  lemma SplitParts(s: string, sep: char)
    ensures forall part <- Split(s, sep) :: sep !in part
    ensures Join(Split(s, sep), sep) == s
  {
    PartsHaveNoSeparator(s, sep);
    PartsJoinAgain(s, sep);
  }

  lemma {:induction false} PartsHaveNoSeparator(s: string, sep: char)
    ensures forall part <- Split(s, sep) :: sep !in part
  {
    if s != "" {
      PartsHaveNoSeparator(s[1..], sep);
      var rest := Split(s[1..], sep);
      assert rest[0] in rest;
      assert forall part <- rest[1..] :: part in rest;
    }
  }

  lemma {:induction false} PartsJoinAgain(s: string, sep: char)
    ensures Join(Split(s, sep), sep) == s
  {
    if s != "" {
      PartsJoinAgain(s[1..], sep);
      var rest := Split(s[1..], sep);
      if s[0] == sep {
        assert ([""] + rest)[1..] == rest;
      } else {
        assert ([[s[0]] + rest[0]] + rest[1..])[1..] == rest[1..];
      }
      assert s == [s[0]] + s[1..];
    }
  }

  /** Splitting a joined list of separator-free parts gives the list back. */
  lemma {:induction false} SplitJoin(parts: seq<string>, sep: char)
    requires parts != [] && forall part <- parts :: sep !in part
    ensures Split(Join(parts, sep), sep) == parts
  {
    if |parts| == 1 {
      SplitWhole(parts[0], sep);
    } else {
      SplitJoin(parts[1..], sep);
      SplitFirst(parts[0], Join(parts[1..], sep), sep);
      assert parts == [parts[0]] + parts[1..];
    }
  }

  lemma {:induction false} SplitWhole(s: string, sep: char)
    requires sep !in s
    ensures Split(s, sep) == [s]
  {
    if s != "" {
      SplitWhole(s[1..], sep);
      assert s == [s[0]] + s[1..];
    }
  }

  lemma {:induction false} SplitFirst(first: string, rest: string, sep: char)
    requires sep !in first
    ensures Split(first + [sep] + rest, sep) == [first] + Split(rest, sep)
  {
    var s := first + [sep] + rest;
    if first == "" {
      assert s[1..] == rest;
    } else {
      SplitFirst(first[1..], rest, sep);
      assert s[1..] == first[1..] + [sep] + rest;
      assert first == [first[0]] + first[1..];
    }
  }

  /** Two lists of parts whose inner ends are pieces of one part. */
  function Glue(a: seq<string>, b: seq<string>): (parts: seq<string>)
    requires |a| >= 1 && |b| >= 1
    ensures |parts| == |a| + |b| - 1
  {
    a[..|a| - 1] + [a[|a| - 1] + b[0]] + b[1..]
  }

  lemma GlueNewPart(first: string, a: seq<string>, b: seq<string>)
    requires |a| >= 1 && |b| >= 1
    ensures Glue([first] + a, b) == [first] + Glue(a, b)
  {
    var longer := [first] + a;
    assert longer[..|a|] == [first] + a[..|a| - 1];
  }

  function PutBefore(c: char, parts: seq<string>): seq<string>
    requires |parts| >= 1
  {
    [[c] + parts[0]] + parts[1..]
  }

  lemma GluePutBefore(c: char, a: seq<string>, b: seq<string>)
    requires |a| >= 1 && |b| >= 1
    ensures Glue(PutBefore(c, a), b) == PutBefore(c, Glue(a, b))
  {
    if |a| == 1 {
      assert [c] + (a[0] + b[0]) == [c] + a[0] + b[0];
    } else {
      GlueNewPart([c] + a[0], a[1..], b);
      GlueNewPart(a[0], a[1..], b);
      assert a == [a[0]] + a[1..];
    }
  }

  /** Cutting a text in two only cuts one part: the last of the first half continues in the first of the second. */
  lemma {:induction false} SplitConcat(a: string, b: string, sep: char)
    ensures Split(a + b, sep) == Glue(Split(a, sep), Split(b, sep))
  {
    if a == "" {
      assert a + b == b;
      assert "" + Split(b, sep)[0] == Split(b, sep)[0];
    } else {
      SplitConcat(a[1..], b, sep);
      assert (a + b)[1..] == a[1..] + b;
      GlueNewPart("", Split(a[1..], sep), Split(b, sep));
      GluePutBefore(a[0], Split(a[1..], sep), Split(b, sep));
    }
  }

  /** A separator between two texts keeps their parts apart. */
  lemma SplitAt(a: string, b: string, sep: char)
    ensures Split(a + [sep] + b, sep) == Split(a, sep) + Split(b, sep)
  {
    var tail := [sep] + b;
    assert tail[1..] == b && a + [sep] + b == a + tail;
    SplitConcat(a, tail, sep);
    GlueEmpty(Split(a, sep), Split(b, sep));
  }

  lemma SplitAround(a: string, middle: string, b: string, sep: char)
    requires sep !in middle
    ensures Split(a + [sep] + middle + [sep] + b, sep) == Split(a, sep) + [middle] + Split(b, sep)
  {
    SplitAt(a, middle + [sep] + b, sep);
    SplitFirst(middle, b, sep);
    assert a + [sep] + middle + [sep] + b == a + [sep] + (middle + [sep] + b);
  }

  lemma {:induction false} SplitThree(a: string, b: string, c: string, sep: char)
    requires sep !in a && sep !in b && sep !in c
    ensures Split(a + [sep] + b + [sep] + c, sep) == [a, b, c]
  {
    SplitWhole(a, sep);
    SplitWhole(c, sep);
    SplitAround(a, b, c, sep);
  }

  lemma GlueEmpty(a: seq<string>, b: seq<string>)
    requires |a| >= 1
    ensures Glue(a, [""] + b) == a + b
  {
    var last := a[|a| - 1];
    assert last + "" == last;
    assert a == a[..|a| - 1] + [last];
    assert ([""] + b)[1..] == b;
  }

  // ------------------------------------------------------------------
  // Parts that are not empty
  // ------------------------------------------------------------------

  function NonEmpty(lines: seq<string>): (kept: seq<string>) {
    if lines == [] then []
    else if |lines[0]| > 0 then [lines[0]] + NonEmpty(lines[1..])
    else NonEmpty(lines[1..])
  }

  function UnlessEmpty(part: string): Option<string> {
    if part == "" then None else Some(part)
  }

  /** The parts that are not empty, every one of them, in their order. */
  lemma {:induction false} NonEmptySelects(parts: seq<string>)
    ensures Selects(parts, UnlessEmpty, NonEmpty(parts))
  {
    if parts == [] {
      SelectsNone<string, string>(UnlessEmpty);
    } else {
      NonEmptySelects(parts[1..]);
      SelectsFirst(parts, UnlessEmpty, NonEmpty(parts), NonEmpty(parts[1..]));
    }
  }

  lemma {:induction false} NonEmptyConcat(a: seq<string>, b: seq<string>)
    ensures NonEmpty(a + b) == NonEmpty(a) + NonEmpty(b)
  {
    if a == [] {
      assert a + b == b;
    } else {
      assert (a + b)[1..] == a[1..] + b;
      NonEmptyConcat(a[1..], b);
    }
  }

  // ------------------------------------------------------------------
  // Trimming and searching
  // ------------------------------------------------------------------

  /** The white space and line terminators that `trim` removes. */
  predicate IsSpace(c: char) {
    || '\t' <= c <= '\r' || c == ' '
    || c == '\U{00A0}' || c == '\U{1680}' || '\U{2000}' <= c <= '\U{200A}'
    || c == '\U{2028}' || c == '\U{2029}' || c == '\U{202F}' || c == '\U{205F}' || c == '\U{3000}' || c == '\U{FEFF}'
  }

  function TrimStart(s: string): (t: string) {
    if s != "" && IsSpace(s[0]) then TrimStart(s[1..]) else s
  }

  function TrimEnd(s: string): (t: string) {
    if s != "" && IsSpace(s[|s| - 1]) then TrimEnd(s[..|s| - 1]) else s
  }

  function Trim(s: string): (t: string) {
    TrimEnd(TrimStart(s))
  }

  predicate Trimmed(s: string) {
    s == "" || (!IsSpace(s[0]) && !IsSpace(s[|s| - 1]))
  }

  lemma {:induction false} TrimStartSuffix(s: string)
    ensures var t := TrimStart(s);
            |t| <= |s| && t == s[|s| - |t|..] && (t == "" || !IsSpace(t[0]))
  {
    if s != "" && IsSpace(s[0]) {
      TrimStartSuffix(s[1..]);
    }
  }

  lemma {:induction false} TrimEndPrefix(s: string)
    ensures var t := TrimEnd(s);
            |t| <= |s| && t == s[..|t|] && (t == "" || !IsSpace(t[|t| - 1]))
  {
    if s != "" && IsSpace(s[|s| - 1]) {
      TrimEndPrefix(s[..|s| - 1]);
    }
  }

  /** Trimming gives a trimmed piece of the text. */
  lemma TrimIsTrimmed(s: string)
    ensures Trimmed(Trim(s)) && |Trim(s)| <= |s|
    ensures forall c <- Trim(s) :: c in s
  {
    TrimStartSuffix(s);
    TrimEndPrefix(TrimStart(s));
  }

  lemma {:induction false} TrimEndConcat(a: string, b: string)
    requires a != "" && !IsSpace(a[|a| - 1])
    ensures TrimEnd(a + b) == a + TrimEnd(b)
  {
    if b == "" {
      assert a + b == a;
    } else if IsSpace(b[|b| - 1]) {
      assert (a + b)[..|a + b| - 1] == a + b[..|b| - 1];
      TrimEndConcat(a, b[..|b| - 1]);
    }
  }

  lemma {:induction false} TrimConcat(a: string, b: string)
    requires a != "" && !IsSpace(a[0]) && !IsSpace(a[|a| - 1])
    ensures Trim(a + b) == a + TrimEnd(b)
  {
    assert (a + b)[0] == a[0];
    TrimEndConcat(a, b);
  }

  lemma TrimStartShortens(s: string)
    ensures |TrimStart(s)| <= |s| && (|TrimStart(s)| == |s| ==> TrimStart(s) == s)
  {
    TrimStartSuffix(s);
  }

  lemma TrimEndShortens(s: string)
    ensures |TrimEnd(s)| <= |s| && (|TrimEnd(s)| == |s| ==> TrimEnd(s) == s)
  {
    TrimEndPrefix(s);
  }

  /** Trimming either changes nothing or makes the text shorter. */
  lemma {:induction false} TrimShortens(s: string)
    ensures |Trim(TrimEnd(s))| <= |s|
    ensures |Trim(TrimEnd(s))| == |s| ==> TrimEnd(s) == s && Trim(s) == s
  {
    TrimEndShortens(s);
    TrimStartShortens(TrimEnd(s));
    TrimEndShortens(TrimStart(TrimEnd(s)));
  }

  function IndexOf(s: string, c: char): (k: int)
    ensures -1 <= k < |s|
    ensures k == -1 <==> c !in s
    ensures k != -1 ==> s[k] == c && c !in s[..k]
  {
    if s == "" then -1
    else if s[0] == c then 0
    else
      var k := IndexOf(s[1..], c);
      if k == -1 then -1 else
        assert s[..k + 1] == [s[0]] + s[1..][..k];
        k + 1
  }

  lemma {:induction false} IndexOfAt(before: string, c: char, after: string)
    requires c !in before
    ensures IndexOf(before + [c] + after, c) == |before|
  {
    var s := before + [c] + after;
    if before != "" {
      IndexOfAt(before[1..], c, after);
      assert s[1..] == before[1..] + [c] + after;
      assert s[0] == before[0];
    }
  }
}

/**
 Redaction of log lines (`buildRedactor`): every known secret is replaced by "***",
 one secret after the other, then the generic patterns are.

 A later replacement puts stars into the line, so the question is whether it can
 spell an earlier secret again.  It can, for exactly the secrets that begin or end
 with a star or contain the mask itself.
 */
module Redactor {
  import opened Optional
  import opened Selection

  const MASK := "***"

  /** `s` stands in `t` at position `i`. */
  predicate OccursAt(s: string, t: string, i: nat) {
    i + |s| <= |t| && t[i..i + |s|] == s
  }

  ghost predicate Occurs(s: string, t: string) {
    exists i: nat :: OccursAt(s, t, i)
  }

  // ------------------------------------------------------------------
  // Maskings
  // ------------------------------------------------------------------

  /** A replacement pass cuts a line into characters kept and stretches hidden. */
  datatype Piece = Keep(c: char) | Hide(secret: string)

  function SourcePiece(piece: Piece): string {
    match piece
    case Keep(c) => [c]
    case Hide(secret) => secret
  }

  function Source(pieces: seq<Piece>): (before: string) {
    if pieces == [] then "" else SourcePiece(pieces[0]) + Source(pieces[1..])
  }

  function ShownPiece(piece: Piece): string {
    match piece
    case Keep(c) => [c]
    case Hide(_) => MASK
  }

  function Shown(pieces: seq<Piece>): (after: string) {
    if pieces == [] then "" else ShownPiece(pieces[0]) + Shown(pieces[1..])
  }

  /** `s` is spelled by kept characters alone, the first of them piece `i`. */
  ghost predicate KeptAt(s: string, pieces: seq<Piece>, i: nat) {
    i + |s| <= |pieces| && forall k | i <= k < i + |s| :: pieces[k] == Keep(s[k - i])
  }

  lemma KeptShift(s: string, pieces: seq<Piece>, k: nat)
    requires 0 < k && 0 < |pieces|
    ensures KeptAt(s, pieces, k) <==> KeptAt(s, pieces[1..], k - 1)
  {
    if KeptAt(s, pieces[1..], k - 1) {
      forall j | k <= j < k + |s|
        ensures pieces[j] == Keep(s[j - k])
      {
        assert pieces[1..][j - 1] == Keep(s[j - 1 - (k - 1)]);
      }
    }
  }

  /** A secret no star of a mask can help to spell. */
  ghost predicate Safe(s: string) {
    s != "" && s[0] != '*' && s[|s| - 1] != '*' && !Occurs(MASK, s)
  }

  lemma AbsentFromTail(s: string, t: string)
    requires t != "" && !Occurs(s, t)
    ensures !Occurs(s, t[1..])
  {
    if Occurs(s, t[1..]) {
      var i: nat :| OccursAt(s, t[1..], i);
      OneLater(s, t, i);
    }
  }

  lemma OneLater(s: string, t: string, i: nat)
    requires t != "" && OccursAt(s, t[1..], i)
    ensures OccursAt(s, t, i + 1)
  {
    assert t[i + 1..i + 1 + |s|] == t[1..][i..i + |s|];
  }

  /** What stands at the front of the shown line and can neither end in a mask nor hold one is spelled by kept
      characters. */
  lemma {:induction false} PrefixIsKept(s: string, pieces: seq<Piece>)
    requires s <= Shown(pieces)
    requires s != "" ==> s[|s| - 1] != '*'
    requires !Occurs(MASK, s)
    ensures KeptAt(s, pieces, 0)
  {
    if s != "" {
      if pieces[0].Hide? {
        MaskAtFront(s, Shown(pieces[1..]));
      } else {
        AbsentFromTail(MASK, s);
        assert Shown(pieces) == [pieces[0].c] + Shown(pieces[1..]);
        PrefixIsKept(s[1..], pieces[1..]);
      }
    }
  }

  lemma MaskAtFront(s: string, rest: string)
    requires s != "" && s <= MASK + rest
    ensures s[|s| - 1] == '*' || Occurs(MASK, s)
  {
    if |s| >= 3 {
      assert OccursAt(MASK, s, 0);
    } else {
      assert s[|s| - 1] == (MASK + rest)[|s| - 1];
    }
  }

  /** A safe secret seen in the shown line is spelled by kept characters. */
  lemma {:induction false} SafeIsKept(s: string, pieces: seq<Piece>, i: nat) returns (k: nat)
    requires Safe(s) && OccursAt(s, Shown(pieces), i)
    ensures KeptAt(s, pieces, k)
    decreases |pieces|
  {
    if i == 0 {
      PrefixIsKept(s, pieces);
      return 0;
    }
    var first := ShownPiece(pieces[0]);
    k := SafeIsKept(s, pieces[1..], i - |first|);
    KeptShift(s, pieces, k + 1);
    return k + 1;
  }

  /** Kept characters stand next to each other in the original line too. */
  lemma {:induction false} KeptOccurs(s: string, pieces: seq<Piece>, k: nat)
    requires KeptAt(s, pieces, k)
    ensures Occurs(s, Source(pieces))
    decreases k
  {
    if k > 0 {
      KeptShift(s, pieces, k);
      KeptOccurs(s, pieces[1..], k - 1);
      var i: nat :| OccursAt(s, Source(pieces[1..]), i);
      OccursAfter(s, Source(pieces), Source(pieces[1..]), i);
    } else {
      KeptIsPrefix(s, pieces);
      assert OccursAt(s, Source(pieces), 0);
    }
  }

  lemma OccursAfter(s: string, t: string, tail: string, i: nat)
    requires OccursAt(s, tail, i) && |tail| <= |t| && t[|t| - |tail|..] == tail
    ensures Occurs(s, t)
  {
    assert OccursAt(s, t, i + |t| - |tail|);
  }

  lemma {:induction false} KeptIsPrefix(s: string, pieces: seq<Piece>)
    requires KeptAt(s, pieces, 0)
    ensures s <= Source(pieces)
  {
    if s != "" {
      KeptIsPrefix(s[1..], pieces[1..]);
      PrefixGrows(s[0], s[1..], Source(pieces[1..]));
      assert s == [s[0]] + s[1..];
    }
  }

  lemma PrefixGrows(c: char, s: string, t: string)
    requires s <= t
    ensures [c] + s <= [c] + t
  {
  }

  /** No replacement pass, whatever it hides, makes a safe secret appear. */
  lemma MaskingCreatesNothing(s: string, pieces: seq<Piece>)
    requires Safe(s) && !Occurs(s, Source(pieces))
    ensures !Occurs(s, Shown(pieces))
  {
    if Occurs(s, Shown(pieces)) {
      var i: nat :| OccursAt(s, Shown(pieces), i);
      var k := SafeIsKept(s, pieces, i);
      KeptOccurs(s, pieces, k);
    }
  }

  // ------------------------------------------------------------------
  // Replacing one secret
  // ------------------------------------------------------------------

  /** The pieces of the line around and at the occurrences of the secret, which are taken from the left and do
      not overlap. */
  function Cut(line: string, secret: string): (pieces: seq<Piece>)
    requires secret != ""
    decreases |line|
  {
    if line == "" then []
    else if secret <= line then [Hide(secret)] + Cut(line[|secret|..], secret)
    else [Keep(line[0])] + Cut(line[1..], secret)
  }

  /** Every such occurrence replaced by the mask. */
  function Replace(line: string, secret: string): (masked: string)
    requires secret != ""
  {
    Shown(Cut(line, secret))
  }

  lemma {:induction false} CutSource(line: string, secret: string)
    requires secret != ""
    ensures Source(Cut(line, secret)) == line
    decreases |line|
  {
    if line == "" {
    } else if secret <= line {
      var rest := line[|secret|..];
      assert line == secret + rest;
      CutSource(rest, secret);
    } else {
      var rest := line[1..];
      assert line == [line[0]] + rest;
      CutSource(rest, secret);
    }
  }

  /** What is kept never spells the secret. */
  lemma {:induction false} CutKeepsNoSecret(line: string, secret: string, k: nat)
    requires secret != ""
    ensures !KeptAt(secret, Cut(line, secret), k)
    decreases |line|
  {
    var pieces := Cut(line, secret);
    if KeptAt(secret, pieces, k) {
      assert pieces[k] == Keep(secret[0]);
      if k > 0 {
        var rest := if secret <= line then line[|secret|..] else line[1..];
        KeptShift(secret, pieces, k);
        CutKeepsNoSecret(rest, secret, k - 1);
      } else {
        KeptIsPrefix(secret, pieces);
        CutSource(line, secret);
      }
    }
  }

  /** A replaced safe secret is gone. */
  lemma ReplaceRemoves(line: string, secret: string)
    requires Safe(secret)
    ensures !Occurs(secret, Replace(line, secret))
  {
    if Occurs(secret, Replace(line, secret)) {
      var i: nat :| OccursAt(secret, Replace(line, secret), i);
      var k := SafeIsKept(secret, Cut(line, secret), i);
      CutKeepsNoSecret(line, secret, k);
    }
  }

  /** A line without the secret is left alone. */
  lemma {:induction false} ReplaceKeepsCleanLine(line: string, secret: string)
    requires secret != "" && !Occurs(secret, line)
    ensures Replace(line, secret) == line
    decreases |line|
  {
    if line != "" {
      assert !OccursAt(secret, line, 0);
      AbsentFromTail(secret, line);
      ReplaceKeepsCleanLine(line[1..], secret);
    }
  }

  /** The first occurrence becomes the mask, what stands before it stays, and what comes behind it is redacted too. */
  lemma {:induction false} ReplacesFirst(before: string, secret: string, behind: string)
    requires secret != "" && NotIn(secret, before + secret + behind, |before|)
    ensures Replace(before + secret + behind, secret) == before + MASK + Replace(behind, secret)
    decreases |before|
  {
    var line := before + secret + behind;
    if before == "" {
      MaskFront(secret, behind);
      assert line == secret + behind;
    } else {
      var c, rest := before[0], before[1..] + secret + behind;
      assert line == [c] + rest;
      NotInRest(c, rest, secret, |before|);
      ReplacesFirst(before[1..], secret, behind);
      ReplaceKeepsHead(c, rest, secret);
      PutBack(c, before, MASK + Replace(behind, secret));
      assert before[1..] + MASK + Replace(behind, secret) == before[1..] + (MASK + Replace(behind, secret));
      assert before + MASK + Replace(behind, secret) == before + (MASK + Replace(behind, secret));
    }
  }

  /** The secret stands at none of the first `n` places of the line. */
  predicate NotIn(secret: string, line: string, n: nat) {
    forall j | 0 <= j < n :: !OccursAt(secret, line, j)
  }

  lemma NotInRest(c: char, rest: string, secret: string, n: nat)
    requires n > 0 && NotIn(secret, [c] + rest, n)
    ensures NotIn(secret, rest, n - 1) && !(secret <= [c] + rest)
  {
    forall j | 0 <= j < n - 1
      ensures !OccursAt(secret, rest, j)
    {
      assert !OccursAt(secret, [c] + rest, j + 1);
    }
    assert !OccursAt(secret, [c] + rest, 0);
  }

  lemma ReplaceKeepsHead(c: char, rest: string, secret: string)
    requires secret != "" && !(secret <= [c] + rest)
    ensures Replace([c] + rest, secret) == [c] + Replace(rest, secret)
  {
    assert ([c] + rest)[1..] == rest;
  }

  lemma PutBack(c: char, s: string, t: string)
    requires s != "" && s[0] == c
    ensures [c] + (s[1..] + t) == s + t
  {
  }

  lemma MaskFront(s: string, b: string)
    requires s != ""
    ensures Replace(s + b, s) == MASK + Replace(b, s)
  {
    assert (s + b)[|s|..] == b;
  }

  // ------------------------------------------------------------------
  // The redactor
  // ------------------------------------------------------------------

  /** A generic pattern: any way of hiding disjoint stretches of a line. */
  type Pattern = string -> seq<Piece>

  ghost predicate IsPattern(pattern: Pattern) {
    forall line :: Source(pattern(line)) == line
  }

  /** The known values long enough to be redacted: 8 characters or more. */
  function Meaningful(values: seq<string>): (secrets: seq<string>)
    ensures forall s :: s in secrets <==> s in values && |s| >= 8
  {
    if values == [] then []
    else if |values[0]| >= 8 then [values[0]] + Meaningful(values[1..])
    else Meaningful(values[1..])
  }

  function IfMeaningful(value: string): Option<string> {
    if |value| >= 8 then Some(value) else None
  }

  /** In the order in which they are given, repetitions included. */
  lemma {:induction false} MeaningfulSelects(values: seq<string>)
    ensures Selects(values, IfMeaningful, Meaningful(values))
  {
    if values == [] {
      SelectsNone<string, string>(IfMeaningful);
    } else {
      MeaningfulSelects(values[1..]);
      SelectsFirst(values, IfMeaningful, Meaningful(values), Meaningful(values[1..]));
    }
  }

  /** The line after the loop over the known secrets. */
  function MaskAll(line: string, secrets: seq<string>): (masked: string)
    requires forall k | 0 <= k < |secrets| :: secrets[k] != ""
  {
    if secrets == [] then line
    else Replace(MaskAll(line, secrets[..|secrets| - 1]), secrets[|secrets| - 1])
  }

  /** The secrets are replaced one after the other, each in what the ones before it have left. */
  lemma {:induction false} MaskAllInOrder(line: string, first: seq<string>, later: seq<string>)
    requires forall k | 0 <= k < |first| :: first[k] != ""
    requires forall k | 0 <= k < |later| :: later[k] != ""
    ensures MaskAll(line, first + later) == MaskAll(MaskAll(line, first), later)
    ensures |later| == 1 ==> MaskAll(line, later) == Replace(line, later[0])
  {
    assert |later| == 1 ==> later[..0] == [];
    if later == [] {
      assert first + later == first;
    } else {
      var last := |later| - 1;
      MaskAllInOrder(line, first, later[..last]);
      assert (first + later)[..|first + later| - 1] == first + later[..last];
    }
  }

  /** The line after the loop over the patterns. */
  function HideAll(line: string, patterns: seq<Pattern>): (masked: string) {
    if patterns == [] then line else Shown(patterns[|patterns| - 1](HideAll(line, patterns[..|patterns| - 1])))
  }

  /** So are the patterns applied. */
  lemma {:induction false} PatternsInOrder(line: string, first: seq<Pattern>, later: seq<Pattern>)
    ensures HideAll(line, first + later) == HideAll(HideAll(line, first), later)
    ensures |later| == 1 ==> HideAll(line, later) == Shown(later[0](line))
  {
    assert |later| == 1 ==> later[..0] == [];
    if later == [] {
      assert first + later == first;
    } else {
      var last := |later| - 1;
      PatternsInOrder(line, first, later[..last]);
      assert (first + later)[..|first + later| - 1] == first + later[..last];
    }
  }

  method Redact(values: seq<string>, patterns: seq<Pattern>, line: string) returns (redacted: string)
    requires forall pattern <- patterns :: IsPattern(pattern)
    ensures redacted == HideAll(MaskAll(line, Meaningful(values)), patterns)
    ensures forall s <- values | |s| >= 8 && Safe(s) :: !Occurs(s, redacted)
  {
    var secrets := Meaningful(values);
    redacted := MaskKnown(secrets, line);
    redacted := ApplyPatterns(secrets, patterns, redacted);
  }

  /** The loop over the known secrets. */
  method MaskKnown(secrets: seq<string>, line: string) returns (redacted: string)
    requires forall k | 0 <= k < |secrets| :: secrets[k] != ""
    ensures redacted == MaskAll(line, secrets) && AllGone(secrets, redacted)
  {
    redacted := line;
    for k := 0 to |secrets|
      invariant redacted == MaskAll(line, secrets[..k])
      invariant AllGone(secrets[..k], redacted)
    {
      assert secrets[..k + 1][..k] == secrets[..k];
      ReplaceKeepsAllGone(redacted, secrets, k);
      redacted := Replace(redacted, secrets[k]);
    }
    assert secrets[..|secrets|] == secrets;
  }

  /** The loop over the generic patterns. */
  method ApplyPatterns(ghost secrets: seq<string>, patterns: seq<Pattern>, line: string) returns (redacted: string)
    requires AllGone(secrets, line) && forall pattern <- patterns :: IsPattern(pattern)
    ensures redacted == HideAll(line, patterns)
    ensures AllGone(secrets, redacted)
  {
    redacted := line;
    for k := 0 to |patterns|
      invariant redacted == HideAll(line, patterns[..k])
      invariant AllGone(secrets, redacted)
    {
      assert patterns[..k + 1][..k] == patterns[..k];
      var pieces := patterns[k](redacted);
      assert IsPattern(patterns[k]);
      PatternKeepsAllGone(redacted, secrets, pieces);
      redacted := Shown(pieces);
    }
    assert patterns[..|patterns|] == patterns;
  }

  /** No safe secret is left. */
  ghost predicate AllGone(secrets: seq<string>, line: string) {
    forall s <- secrets | Safe(s) :: !Occurs(s, line)
  }

  lemma ReplaceKeepsAllGone(line: string, secrets: seq<string>, k: nat)
    requires k < |secrets| && secrets[k] != "" && AllGone(secrets[..k], line)
    ensures AllGone(secrets[..k + 1], Replace(line, secrets[k]))
  {
    forall s <- secrets[..k + 1] | Safe(s)
      ensures !Occurs(s, Replace(line, secrets[k]))
    {
      assert s == secrets[k] || s in secrets[..k];
      ReplaceKeepsGone(line, secrets[k], s);
    }
  }

  lemma PatternKeepsAllGone(line: string, secrets: seq<string>, pieces: seq<Piece>)
    requires Source(pieces) == line && AllGone(secrets, line)
    ensures AllGone(secrets, Shown(pieces))
  {
    forall s <- secrets | Safe(s)
      ensures !Occurs(s, Shown(pieces))
    {
      MaskingCreatesNothing(s, pieces);
    }
  }

  /** After replacing `secret`, it and every safe secret gone before are gone. */
  lemma ReplaceKeepsGone(line: string, secret: string, s: string)
    requires secret != "" && Safe(s)
    requires s == secret || !Occurs(s, line)
    ensures !Occurs(s, Replace(line, secret))
  {
    if s == secret {
      ReplaceRemoves(line, secret);
    } else {
      CutSource(line, secret);
      MaskingCreatesNothing(s, Cut(line, secret));
    }
  }

  // ------------------------------------------------------------------
  // Exactly the safe secrets never survive
  // ------------------------------------------------------------------

  function Fill(c: char, n: nat): (s: string) {
    seq(n, _ => c)
  }

  /** An unsafe secret is a + stars + b, where the stars are all a later mask next to a and b needs to provide. */
  ghost predicate Unsafe(s: string, a: string, stars: string, b: string) {
    && s == a + stars + b
    && (stars == MASK || (stars == "*" && (a == "" || b == "")))
  }

  lemma UnsafeParts(s: string) returns (a: string, stars: string, b: string)
    requires s != "" && !Safe(s)
    ensures Unsafe(s, a, stars, b)
  {
    if s[0] == '*' {
      return "", "*", s[1..];
    } else if s[|s| - 1] == '*' {
      return s[..|s| - 1], "*", "";
    } else {
      var i: nat :| OccursAt(MASK, s, i);
      return s[..i], MASK, s[i + 3..];
    }
  }

  /** A filler different from the character before it. */
  function Filler(a: string): (c: char)
    ensures c != '*' && (a != "" ==> c != a[|a| - 1])
  {
    if a != "" && a[|a| - 1] == 'x' then 'y' else 'x'
  }

  /** The unsafe secret is not in the line that betrays it: its stars would have to lie in the filler. */
  lemma NotThereYet(s: string, a: string, stars: string, b: string, c: char, n: nat, i: nat)
    requires Unsafe(s, a, stars, b) && c != '*' && n > |s|
    ensures !OccursAt(s, a + Fill(c, n) + b, i)
  {
    assert s[|a|] == '*' && s[|a| + |stars| - 1] == '*';
  }

  lemma AbsentAtFirst(s: string, a: string, stars: string, b: string, c: char, n: nat)
    requires Unsafe(s, a, stars, b) && c != '*' && n > |s|
    ensures !Occurs(s, a + Fill(c, n) + b)
  {
    forall i: nat
      ensures !OccursAt(s, a + Fill(c, n) + b, i)
    {
      NotThereYet(s, a, stars, b, c, n, i);
    }
  }

  lemma MaskTwo(line: string, s: string, u: string)
    requires s != "" && u != ""
    ensures MaskAll(line, [s, u]) == Replace(Replace(line, s), u)
  {
    assert [s, u][..1] == [s] && [s][..0] == [];
    assert MaskAll(line, [s]) == Replace(line, s);
  }

  lemma TooLongToOccur(u: string, b: string)
    requires |b| < |u|
    ensures !Occurs(u, b)
  {
  }

  /** The filler is replaced where it was put, and nowhere else. */
  lemma {:induction false} ReplaceFiller(a: string, c: char, n: nat, b: string)
    requires |a| < n && |b| < n && (a != "" ==> c != a[|a| - 1])
    ensures Replace(a + Fill(c, n) + b, Fill(c, n)) == a + MASK + b
    decreases |a|
  {
    if a == "" {
      FillerAtFront(Fill(c, n), b);
      assert a + Fill(c, n) + b == Fill(c, n) + b;
    } else {
      assert a == [a[0]] + a[1..];
      ReplaceFiller(a[1..], c, n, b);
      FillerLater(a, c, n, b);
    }
  }

  lemma FillerAtFront(u: string, b: string)
    requires |b| < |u|
    ensures Replace(u + b, u) == MASK + b
  {
    assert (u + b)[|u|..] == b;
    TooLongToOccur(u, b);
    ReplaceKeepsCleanLine(b, u);
  }

  lemma FillerLater(a: string, c: char, n: nat, b: string)
    requires 0 < |a| < n && c != a[|a| - 1]
    ensures Replace(a + Fill(c, n) + b, Fill(c, n)) == [a[0]] + Replace(a[1..] + Fill(c, n) + b, Fill(c, n))
  {
    var u := Fill(c, n);
    var line := a + u + b;
    assert line[|a| - 1] == a[|a| - 1] && u[|a| - 1] == c;
    assert line[1..] == a[1..] + u + b;
  }

  /** Two secrets that overlap in the line: the one replaced first leaves a part of the other in it. */
  lemma OverlapLeavesRest(a: string, m: string, b: string, s: string, t: string, line: string)
    requires s == a + m && t == m + b && line == a + m + b && |m| > 3 && |b| < |s|
    requires NotIn(t, line, |a|)
    ensures MaskAll(line, [s, t]) == MASK + b
    ensures MaskAll(line, [t, s]) == a + MASK
  {
    LeavesEnd(s, t, b);
    LeavesFront(a, s, t, line);
  }

  lemma LeavesEnd(s: string, t: string, b: string)
    requires |b| < |s| && |b| + 3 < |t|
    ensures MaskAll(s + b, [s, t]) == MASK + b
  {
    MaskTwo(s + b, s, t);
    MaskFront(s, b);
    ShortLineStays(b, s);
    ShortLineStays(MASK + b, t);
  }

  lemma LeavesFront(a: string, s: string, t: string, line: string)
    requires t != "" && |a| + 3 < |s| && line == a + t && NotIn(t, line, |a|)
    ensures MaskAll(line, [t, s]) == a + MASK
  {
    MaskTwo(line, t, s);
    MaskEnd(a, t, line);
    ShortLineStays(a + MASK, s);
  }

  lemma MaskEnd(a: string, t: string, line: string)
    requires t != "" && line == a + t && NotIn(t, line, |a|)
    ensures Replace(line, t) == a + MASK
  {
    assert a + t + "" == line;
    ReplacesFirst(a, t, "");
  }

  lemma ShortLineStays(line: string, secret: string)
    requires |line| < |secret|
    ensures Replace(line, secret) == line
  {
    TooLongToOccur(secret, line);
    ReplaceKeepsCleanLine(line, secret);
  }

  /** So the order of the secrets matters. */
  lemma OrderMatters() returns (line: string, s: string, t: string)
    ensures |s| >= 8 && |t| >= 8 && MaskAll(line, [s, t]) != MaskAll(line, [t, s])
  {
    var a, m, b := "abcd", "efghi", "jklm";
    assert (m + b)[0] == 'e';
    line, s, t := a + m + b, a + m, m + b;
    OverlapLeavesRest(a, m, b, s, t, line);
    assert (MASK + b)[0] == '*' && (a + MASK)[0] == 'a';
  }

  /** An unsafe secret of the list can be in the line after the loop over the secrets: a later secret's mask
      spells it. */
  lemma UnsafeSurvives(s: string) returns (secrets: seq<string>, line: string)
    requires |s| >= 8 && !Safe(s)
    ensures s in secrets && forall k | 0 <= k < |secrets| :: |secrets[k]| >= 8
    ensures Occurs(s, MaskAll(line, secrets))
  {
    var a, stars, b := UnsafeParts(s);
    var c, n := Filler(a), |s| + 1;
    var u := Fill(c, n);
    secrets, line := [s, u], a + u + b;
    AbsentAtFirst(s, a, stars, b, c, n);
    ReplaceKeepsCleanLine(line, s);
    ReplaceFiller(a, c, n, b);
    MaskTwo(line, s, u);
    MaskSpells(s, a, stars, b);
  }

  lemma MaskSpells(s: string, a: string, stars: string, b: string)
    requires Unsafe(s, a, stars, b)
    ensures Occurs(s, a + MASK + b)
  {
    assert OccursAt(s, a + MASK + b, if stars == "*" && a == "" then 2 else 0);
  }

  lemma {:induction false} SafeNeverSurvives(s: string, secrets: seq<string>, line: string)
    requires Safe(s) && s in secrets && forall k | 0 <= k < |secrets| :: secrets[k] != ""
    ensures !Occurs(s, MaskAll(line, secrets))
  {
    var last := |secrets| - 1;
    if secrets[last] != s {
      SafeNeverSurvives(s, secrets[..last], line);
    }
    ReplaceKeepsGone(MaskAll(line, secrets[..last]), secrets[last], s);
  }

  ghost predicate Gone(s: string, secrets: seq<string>, line: string) {
    (forall k | 0 <= k < |secrets| :: |secrets[k]| >= 8) && s in secrets ==> !Occurs(s, MaskAll(line, secrets))
  }

  /**
   A known secret never survives the loop over the secrets, whatever the others and the line, if and only if it is safe.
   The generic patterns come after that loop: they bring no safe secret back (`Redact`), and may hide an unsafe one.
   */
  lemma NeverSurvivesExactly(s: string)
    requires |s| >= 8
    ensures Safe(s) <==> forall secrets, line :: Gone(s, secrets, line)
  {
    if Safe(s) {
      forall secrets, line
        ensures Gone(s, secrets, line)
      {
        if (forall k | 0 <= k < |secrets| :: |secrets[k]| >= 8) && s in secrets {
          SafeNeverSurvives(s, secrets, line);
        }
      }
    } else {
      var secrets, line := UnsafeSurvives(s);
      assert !Gone(s, secrets, line);
    }
  }
}

/** Parsing and printing .env style text (`parseEnvFileText`, `formatEnvFileText`). */
module EnvFile {
  import opened Text

  datatype Entry = Entry(key: string, value: string)

  datatype Parsed = Skipped | Parsed(entry: Entry)

  predicate Wrapped(value: string) {
    |value| >= 2 && value[0] == value[|value| - 1] && (value[0] == '"' || value[0] == '\'')
  }

  function Unquote(value: string): (bare: string) {
    if Wrapped(value) then value[1..|value| - 1] else value
  }

  function ParseLine(rawLine: string): (p: Parsed) {
    ParseTrimmed(Trim(rawLine))
  }

  function ParseTrimmed(line: string): (p: Parsed) {
    if line == "" || line[0] == '#' then Skipped
    else
      var eq := IndexOf(line, '=');
      if eq == -1 then Skipped
      else ParsePair(line[..eq], line[eq + 1..])
  }

  function ParsePair(left: string, right: string): (p: Parsed) {
    var key := Trim(left);
    if key == "" then Skipped else Parsed(Entry(key, Unquote(Trim(right))))
  }

  /** What each line holds. */
  function ParseEach(lines: seq<string>): (each: seq<Parsed>)
    ensures |each| == |lines|
  {
    seq(|lines|, k requires 0 <= k < |lines| => ParseLine(lines[k]))
  }

  /** The entries found, in order. */
  function Found(each: seq<Parsed>): (entries: seq<Entry>) {
    if each == [] then []
    else
      var front, last := Found(each[..|each| - 1]), each[|each| - 1];
      if last.Parsed? then front + [last.entry] else front
  }

  function Parse(text: string): (entries: seq<Entry>) {
    Found(ParseEach(Split(text, '\n')))
  }

  method ParseEnvFileText(text: string) returns (entries: seq<Entry>)
    ensures entries == Parse(text)
  {
    entries := [];
    var lines := Split(text, '\n');
    ghost var each := ParseEach(lines);
    for k := 0 to |lines|
      invariant entries == Found(each[..k])
    {
      assert each[..k + 1][..k] == each[..k];
      entries := PushLine(lines[k], entries);
    }
    assert each[..|lines|] == each;
  }

  /** The body of the loop over the lines. */
  method PushLine(rawLine: string, entries: seq<Entry>) returns (more: seq<Entry>)
    ensures var p := ParseLine(rawLine); more == if p.Parsed? then entries + [p.entry] else entries
  {
    var line := Trim(rawLine);
    if line == "" || line[0] == '#' { return entries; }
    var eqIndex := IndexOf(line, '=');
    if eqIndex == -1 { return entries; }
    more := PushPair(line[..eqIndex], line[eqIndex + 1..], entries);
  }

  /** The rest of the body: what stands left and right of the first equals sign. */
  method PushPair(left: string, right: string, entries: seq<Entry>) returns (more: seq<Entry>)
    ensures var p := ParsePair(left, right); more == if p.Parsed? then entries + [p.entry] else entries
  {
    var key := Trim(left);
    var value := Trim(right);
    if Wrapped(value) {
      value := value[1..|value| - 1];
    }
    return if key != "" then entries + [Entry(key, value)] else entries;
  }

  function Line(e: Entry): (line: string) {
    e.key + "=" + e.value
  }

  function Lines(entries: seq<Entry>): (lines: seq<string>)
    ensures |lines| == |entries|
    ensures forall k | 0 <= k < |lines| :: lines[k] == Line(entries[k])
  {
    if entries == [] then [] else [Line(entries[0])] + Lines(entries[1..])
  }

  function Format(entries: seq<Entry>): (text: string) {
    Join(Lines(entries), '\n')
  }

  // ------------------------------------------------------------------
  // Exactly the canonical entries survive the round trip
  // ------------------------------------------------------------------

  /** A key that a line can begin with. */
  predicate ProperKey(key: string) {
    key != "" && Trimmed(key) && key[0] != '#' && '=' !in key && '\n' !in key
  }

  /** An entry that can be written on a line of its own. */
  predicate Canonical(e: Entry) {
    ProperKey(e.key) && Trimmed(e.value) && !Wrapped(e.value) && '\n' !in e.value
  }

  /** Everything the parser produces comes from one line. */
  lemma ParsedFromLine(rawLine: string)
    requires '\n' !in rawLine && ParseLine(rawLine).Parsed?
    ensures var e := ParseLine(rawLine).entry; '\n' !in e.key && '\n' !in e.value
  {
    var line := Trim(rawLine);
    TrimIsTrimmed(rawLine);
    var eq := IndexOf(line, '=');
    TrimIsTrimmed(line[..eq]);
    TrimIsTrimmed(line[eq + 1..]);
  }

  lemma {:induction false} FoundIn(each: seq<Parsed>, e: Entry)
    requires e in Found(each)
    ensures Parsed(e) in each
  {
    if !each[|each| - 1].Parsed? || each[|each| - 1].entry != e {
      FoundIn(each[..|each| - 1], e);
    }
  }

  /** A line gives at most one entry, so as many entries as lines means one from each. */
  lemma {:induction false} OnePerLine(each: seq<Parsed>)
    ensures |Found(each)| <= |each|
    ensures |Found(each)| == |each| ==> forall k | 0 <= k < |each| :: each[k] == Parsed(Found(each)[k])
  {
    if each != [] {
      OnePerLine(each[..|each| - 1]);
    }
  }

  /** If every line holds an entry, the entries found are those, in order. */
  lemma {:induction false} AllFound(each: seq<Parsed>, entries: seq<Entry>)
    requires |each| == |entries| && forall k | 0 <= k < |each| :: each[k] == Parsed(entries[k])
    ensures Found(each) == entries
  {
    if each != [] {
      var last := |each| - 1;
      AllFound(each[..last], entries[..last]);
      assert entries == entries[..last] + [entries[last]];
    }
  }

  lemma TrimLine(e: Entry)
    requires e.key != "" && Trimmed(e.key)
    ensures Trim(Line(e)) == e.key + "=" + TrimEnd(e.value)
  {
    var a := e.key + "=";
    assert a[0] == e.key[0] && a[|a| - 1] == '=';
    TrimConcat(a, e.value);
  }

  lemma FirstEquals(key: string, rest: string)
    requires '=' !in key
    ensures IndexOf(key + "=" + rest, '=') == |key|
    ensures (key + "=" + rest)[..|key|] == key && (key + "=" + rest)[|key| + 1..] == rest
  {
    IndexOfAt(key, '=', rest);
    assert key + ['='] + rest == key + "=" + rest;
  }

  /** What a line with a proper key and a trimmed value is read as. */
  lemma {:induction false} TrimmedLine(key: string, value: string)
    requires ProperKey(key) && Trimmed(value)
    ensures ParseLine(Line(Entry(key, value))) == Parsed(Entry(key, Unquote(value)))
  {
    TrimLine(Entry(key, value));
    TrimShortens(value);
    FirstEquals(key, value);
  }

  /** A canonical entry is read back from its own line. */
  lemma {:induction false} CanonicalLine(e: Entry)
    requires Canonical(e)
    ensures ParseLine(Line(e)) == Parsed(e)
  {
    TrimmedLine(e.key, e.value);
  }

  /** Only a proper key is read back from the line it is written on. */
  lemma {:induction false} KeyIsProper(written: Entry, e: Entry)
    requires ParseLine(Line(written)) == Parsed(e) && written.key == e.key && '\n' !in e.key
    ensures ProperKey(e.key)
  {
    var line := Trim(Line(written));
    TrimIsTrimmed(line[..IndexOf(line, '=')]);
    assert '=' !in e.key;
    TrimLine(written);
  }

  /** Only a canonical entry is read back from its own line. */
  lemma {:induction false} LineIsCanonical(e: Entry)
    requires ParseLine(Line(e)) == Parsed(e) && '\n' !in e.key && '\n' !in e.value
    ensures Canonical(e)
  {
    KeyIsProper(e, e);
    TrimLine(e);
    FirstEquals(e.key, TrimEnd(e.value));
    TrimShortens(e.value);
    TrimIsTrimmed(e.value);
  }

  /** If every line is free of newlines and read as an entry, the text is read as those entries. */
  lemma ReadLineByLine(written: seq<Entry>, entries: seq<Entry>)
    requires |written| == |entries|
    requires forall k | 0 <= k < |entries| ::
             ParseLine(Line(written[k])) == Parsed(entries[k]) && '\n' !in Line(written[k])
    ensures Parse(Format(written)) == entries
  {
    if entries != [] {
      SplitJoin(Lines(written), '\n');
      AllFound(ParseEach(Lines(written)), entries);
    }
  }

  /** And the other way round: as many entries as lines means one from each. */
  lemma ReadFromLines(written: seq<Entry>, k: nat)
    requires k < |written| && |Parse(Format(written))| == |written|
    requires forall i | 0 <= i < |written| :: '\n' !in Line(written[i])
    ensures ParseLine(Line(written[k])) == Parsed(Parse(Format(written))[k])
  {
    var lines := Lines(written);
    SplitJoin(lines, '\n');
    OnePerLine(ParseEach(lines));
    assert ParseEach(lines)[k] == ParseLine(lines[k]);
  }

  lemma RoundTripOfCanonical(entries: seq<Entry>)
    requires forall e <- entries :: Canonical(e)
    ensures Parse(Format(entries)) == entries
  {
    forall k | 0 <= k < |entries|
      ensures ParseLine(Line(entries[k])) == Parsed(entries[k]) && '\n' !in Line(entries[k])
    {
      CanonicalLine(entries[k]);
    }
    ReadLineByLine(entries, entries);
  }

  /** An entry read from a text has no newline in it. */
  lemma ParsedHasNoNewline(text: string, e: Entry)
    requires e in Parse(text)
    ensures '\n' !in e.key && '\n' !in e.value
  {
    var parts := Split(text, '\n');
    SplitParts(text, '\n');
    FoundIn(ParseEach(parts), e);
    var k :| 0 <= k < |parts| && ParseEach(parts)[k] == Parsed(e);
    assert parts[k] in parts;
    ParsedFromLine(parts[k]);
  }

  lemma CanonicalByRoundTrip(entries: seq<Entry>, e: Entry)
    requires Parse(Format(entries)) == entries && e in entries
    ensures Canonical(e)
  {
    forall k | 0 <= k < |entries|
      ensures '\n' !in Line(entries[k])
    {
      ParsedHasNoNewline(Format(entries), entries[k]);
    }
    var k :| 0 <= k < |entries| && entries[k] == e;
    ReadFromLines(entries, k);
    ParsedHasNoNewline(Format(entries), e);
    LineIsCanonical(e);
  }

  /** Parsing undoes formatting, order and duplicates included, for exactly the lists of canonical entries. */
  lemma RoundTripExactly(entries: seq<Entry>)
    ensures Parse(Format(entries)) == entries <==> forall e <- entries :: Canonical(e)
  {
    if forall e <- entries :: Canonical(e) {
      RoundTripOfCanonical(entries);
    } else {
      var e :| e in entries && !Canonical(e);
      if Parse(Format(entries)) == entries {
        CanonicalByRoundTrip(entries, e);
      }
    }
  }

  // ------------------------------------------------------------------
  // Quoting
  // ------------------------------------------------------------------

  function InQuotes(value: string, quote: char): string {
    [quote] + value + [quote]
  }

  function QuotedEntry(e: Entry, quote: char): Entry {
    Entry(e.key, InQuotes(e.value, quote))
  }

  /** The same entries with every value between quotes. */
  function Quoted(entries: seq<Entry>, quote: char): (written: seq<Entry>)
    ensures |written| == |entries|
    ensures forall k | 0 <= k < |entries| :: written[k] == QuotedEntry(entries[k], quote)
  {
    if entries == [] then [] else [QuotedEntry(entries[0], quote)] + Quoted(entries[1..], quote)
  }

  predicate IsQuote(c: char) {
    c == '"' || c == '\''
  }

  predicate Quotable(e: Entry) {
    ProperKey(e.key) && '\n' !in e.value
  }

  lemma QuotedIsOneLine(e: Entry, quote: char)
    requires IsQuote(quote) && '\n' !in e.key && '\n' !in e.value
    ensures '\n' !in Line(QuotedEntry(e, quote))
  {
  }

  lemma {:induction false} QuotedLine(e: Entry, quote: char)
    requires IsQuote(quote) && Quotable(e)
    ensures ParseLine(Line(QuotedEntry(e, quote))) == Parsed(e)
  {
    TrimmedLine(e.key, InQuotes(e.value, quote));
  }

  /** Between quotes any value without a newline is read back, spaces and quotes included. */
  lemma QuotedIsReadBack(entries: seq<Entry>, quote: char)
    requires IsQuote(quote) && forall e <- entries :: Quotable(e)
    ensures Parse(Format(Quoted(entries, quote))) == entries
  {
    var written := Quoted(entries, quote);
    forall k | 0 <= k < |entries|
      ensures ParseLine(Line(written[k])) == Parsed(entries[k]) && '\n' !in Line(written[k])
    {
      QuotedLine(entries[k], quote);
      QuotedIsOneLine(entries[k], quote);
    }
    ReadLineByLine(written, entries);
  }

  lemma {:induction false} QuotedLines(entries: seq<Entry>, quote: char)
    requires IsQuote(quote) && Parse(Format(Quoted(entries, quote))) == entries
    ensures forall k | 0 <= k < |entries| :: '\n' !in Line(Quoted(entries, quote)[k])
  {
    forall k | 0 <= k < |entries|
      ensures '\n' !in Line(Quoted(entries, quote)[k])
    {
      ParsedHasNoNewline(Format(Quoted(entries, quote)), entries[k]);
      QuotedIsOneLine(entries[k], quote);
    }
  }

  lemma {:induction false} QuotableByReadingBack(entries: seq<Entry>, quote: char, k: nat)
    requires IsQuote(quote) && Parse(Format(Quoted(entries, quote))) == entries && k < |entries|
    ensures Quotable(entries[k])
  {
    QuotedLines(entries, quote);
    ReadFromLines(Quoted(entries, quote), k);
    ParsedHasNoNewline(Format(Quoted(entries, quote)), entries[k]);
    KeyIsProper(QuotedEntry(entries[k], quote), entries[k]);
  }

  /** Quoting makes exactly the lists of entries with proper keys and values without newlines survive. */
  lemma QuotedIsReadBackExactly(entries: seq<Entry>, quote: char)
    requires IsQuote(quote)
    ensures Parse(Format(Quoted(entries, quote))) == entries <==> forall e <- entries :: Quotable(e)
  {
    if forall e <- entries :: Quotable(e) {
      QuotedIsReadBack(entries, quote);
    } else {
      var k :| 0 <= k < |entries| && !Quotable(entries[k]);
      if Parse(Format(Quoted(entries, quote))) == entries {
        QuotableByReadingBack(entries, quote, k);
      }
    }
  }

  // ------------------------------------------------------------------
  // What any text is read as
  // ------------------------------------------------------------------

  lemma {:induction false} FoundConcat(a: seq<Parsed>, b: seq<Parsed>)
    ensures Found(a + b) == Found(a) + Found(b)
  {
    if b == [] {
      assert a + b == a;
    } else {
      assert (a + b)[..|a + b| - 1] == a + b[..|b| - 1];
      FoundConcat(a, b[..|b| - 1]);
    }
  }

  /** Lines are read independently of each other. */
  lemma TextIsReadByLines(first: string, rest: string)
    ensures Parse(first + ['\n'] + rest) == Parse(first) + Parse(rest)
  {
    SplitAt(first, rest, '\n');
    FoundInBoth(Split(first, '\n'), Split(rest, '\n'));
  }

  lemma FoundInBoth(a: seq<string>, b: seq<string>)
    ensures Found(ParseEach(a + b)) == Found(ParseEach(a)) + Found(ParseEach(b))
  {
    FoundConcat(ParseEach(a), ParseEach(b));
    EachOfBoth(a, b);
  }

  lemma EachOfBoth(a: seq<string>, b: seq<string>)
    ensures ParseEach(a + b) == ParseEach(a) + ParseEach(b)
  {
  }

  /** A line is an assignment when something that is no comment stands before its first equals sign. */
  ghost predicate IsAssignment(line: string, left: string, right: string) {
    Trim(line) == left + "=" + right && '=' !in left && Trim(left) != "" && Trim(line)[0] != '#'
  }

  /** One line gives an entry if and only if it is an assignment, and nothing otherwise. */
  lemma LineIsReadExactly(line: string)
    requires '\n' !in line
    ensures forall left, right | IsAssignment(line, left, right) ::
              Parse(line) == [Entry(Trim(left), Unquote(Trim(right)))]
    ensures (forall left, right :: !IsAssignment(line, left, right)) ==> Parse(line) == []
  {
    LineAlone(line);
    forall left, right | IsAssignment(line, left, right)
      ensures Parse(line) == [Entry(Trim(left), Unquote(Trim(right)))]
    {
      AssignmentIsRead(line, left, right);
    }
    if ParseLine(line).Parsed? {
      var left, right := ReadFromAssignment(line);
    }
  }

  lemma AssignmentIsRead(line: string, left: string, right: string)
    requires IsAssignment(line, left, right)
    ensures ParseLine(line) == Parsed(Entry(Trim(left), Unquote(Trim(right))))
  {
    FirstEquals(left, right);
  }

  lemma ReadFromAssignment(line: string) returns (left: string, right: string)
    requires ParseLine(line).Parsed?
    ensures IsAssignment(line, left, right)
  {
    var trimmed := Trim(line);
    var eq := IndexOf(trimmed, '=');
    left, right := trimmed[..eq], trimmed[eq + 1..];
    assert trimmed == left + "=" + right;
  }

  lemma LineAlone(line: string)
    requires '\n' !in line
    ensures Parse(line) == if ParseLine(line).Parsed? then [ParseLine(line).entry] else []
  {
    SplitWhole(line, '\n');
    assert ParseEach([line]) == [ParseLine(line)];
    assert Found([ParseLine(line)][..0]) == [];
  }

  /** Quotes are taken off exactly when the same one stands at both ends. */
  lemma UnquoteExactly(value: string)
    ensures forall quote, inner | IsQuote(quote) && value == InQuotes(inner, quote) :: Unquote(value) == inner
    ensures (forall quote, inner | IsQuote(quote) :: value != InQuotes(inner, quote)) ==> Unquote(value) == value
  {
    forall quote, inner | IsQuote(quote) && value == InQuotes(inner, quote)
      ensures Unquote(value) == inner
    {
      assert value[1..|value| - 1] == inner;
    }
    if Wrapped(value) {
      assert value == InQuotes(value[1..|value| - 1], value[0]);
    }
  }

  /** Formatting writes one `KEY=VALUE` per line. */
  lemma FormatWritesLines(e: Entry, rest: seq<Entry>)
    ensures Format([e]) == e.key + "=" + e.value
    ensures rest != [] ==> Format([e] + rest) == e.key + "=" + e.value + "\n" + Format(rest)
  {
    assert [e][1..] == [];
    assert ([e] + rest)[1..] == rest;
    assert Lines([e] + rest)[1..] == Lines(rest);
  }
}

/** Cutting a stream of chunks into lines (`lineBuffer`). */
module LineBuffer {
  import opened Text

  /** The complete lines of a stream; what follows the last newline is unfinished. */
  function CompleteLines(stream: string): (lines: seq<string>) {
    var parts := Split(stream, '\n');
    parts[..|parts| - 1]
  }

  function Unfinished(stream: string): (tail: string) {
    var parts := Split(stream, '\n');
    parts[|parts| - 1]
  }

  class LineBuffer {
    var buffered: string
    /** The lines handed to `onLine` so far. */
    var emitted: seq<string>
    /** Everything received so far. */
    ghost var stream: string

    /** The emitted lines are the non-empty complete lines of the whole stream, whatever the chunks were. */
    ghost predicate Valid()
      reads this
    {
      emitted == NonEmpty(CompleteLines(stream)) && buffered == Unfinished(stream)
    }

    constructor ()
      ensures Valid() && stream == ""
    {
      buffered, emitted, stream := "", [], "";
    }

    method OnData(chunk: string)
      requires Valid()
      modifies this
      ensures Valid() && stream == old(stream) + chunk
      ensures old(emitted) <= emitted
    {
      ChunkContinues(stream, chunk);
      buffered := buffered + chunk;
      var lines := Split(buffered, '\n');
      buffered := lines[|lines| - 1];
      Emit(lines[..|lines| - 1]);
      stream := stream + chunk;
    }

    /** The loop over the complete lines. */
    method Emit(lines: seq<string>)
      modifies `emitted
      ensures emitted == old(emitted) + NonEmpty(lines)
    {
      for k := 0 to |lines|
        invariant emitted == old(emitted) + NonEmpty(lines[..k])
      {
        assert lines[..k + 1] == lines[..k] + [lines[k]];
        NonEmptyConcat(lines[..k], [lines[k]]);
        if |lines[k]| > 0 {
          emitted := emitted + [lines[k]];
        }
      }
      assert lines[..|lines|] == lines;
    }
  }

  /** The next chunk only continues the unfinished tail. */
  lemma ChunkContinues(stream: string, chunk: string)
    ensures NonEmpty(CompleteLines(stream + chunk))
            == NonEmpty(CompleteLines(stream)) + NonEmpty(CompleteLines(Unfinished(stream) + chunk))
    ensures Unfinished(stream + chunk) == Unfinished(Unfinished(stream) + chunk)
  {
    var tail := Unfinished(stream);
    TailIsWhole(stream);
    SplitConcat(stream, chunk, '\n');
    SplitConcat(tail, chunk, '\n');
    GlueAfter(CompleteLines(stream), tail, Split(chunk, '\n'));
    NonEmptyConcat(CompleteLines(stream), CompleteLines(tail + chunk));
  }

  lemma TailIsWhole(stream: string)
    ensures Split(Unfinished(stream), '\n') == [Unfinished(stream)]
    ensures Split(stream, '\n') == CompleteLines(stream) + [Unfinished(stream)]
  {
    SplitParts(stream, '\n');
    LastPart(Split(stream, '\n'));
  }

  lemma LastPart(parts: seq<string>)
    requires |parts| >= 1 && forall part <- parts :: '\n' !in part
    ensures Split(parts[|parts| - 1], '\n') == [parts[|parts| - 1]]
    ensures parts == parts[..|parts| - 1] + [parts[|parts| - 1]]
  {
    SplitWhole(parts[|parts| - 1], '\n');
  }

  lemma GlueAfter(lines: seq<string>, tail: string, more: seq<string>)
    requires |more| >= 1
    ensures Glue(lines + [tail], more) == lines + Glue([tail], more)
    ensures var g, h := Glue(lines + [tail], more), Glue([tail], more);
            g[..|g| - 1] == lines + h[..|h| - 1] && g[|g| - 1] == h[|h| - 1]
  {
    var g, h := Glue(lines + [tail], more), Glue([tail], more);
    assert (lines + [tail])[..|lines|] == lines;
    assert g == lines + h;
  }

  function Concat(chunks: seq<string>): (stream: string) {
    if chunks == [] then "" else Concat(chunks[..|chunks| - 1]) + chunks[|chunks| - 1]
  }

  /** Chunking is invisible: the lines and the tail depend on the concatenation of the chunks only. */
  method Feed(chunks: seq<string>) returns (emitted: seq<string>, buffered: string)
    ensures emitted == NonEmpty(CompleteLines(Concat(chunks)))
    ensures buffered == Unfinished(Concat(chunks))
  {
    var buffer := new LineBuffer();
    for k := 0 to |chunks|
      invariant buffer.Valid() && buffer.stream == Concat(chunks[..k])
    {
      assert chunks[..k + 1][..k] == chunks[..k];
      buffer.OnData(chunks[k]);
    }
    assert chunks[..|chunks|] == chunks;
    return buffer.emitted, buffer.buffered;
  }
}

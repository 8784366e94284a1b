/**
 The pure part of `parse_raw_env_vars`: the file's text, once read, is cut into raw lines at
 every `'\n'`. Reading the file is outside the model: `content` is the text that was read, or
 `None` when no path was given at all.
 */
module EnvFile {
  import opened Wrappers
  import opened Text

  /** `parse_raw_env_vars`, with the read already done. */
  function RawLines(content: Option<string>): (lines: seq<string>)
    ensures content.None? ==> lines == []
    ensures content.Some? ==> |lines| == Count(content.value, '\n') + 1
    ensures content.Some? ==> Join(lines, '\n') == content.value
    ensures forall i :: 0 <= i < |lines| ==> '\n' !in lines[i]
  {
    match content
    case None => []
    case Some(text) => Split(text, '\n')
  }

  /** Splitting undoes joining: lines without newlines come back from their joined text. */
  lemma RawLinesOfJoin(lines: seq<string>)
    requires |lines| > 0
    requires forall i :: 0 <= i < |lines| ==> '\n' !in lines[i]
    ensures RawLines(Some(Join(lines, '\n'))) == lines
  {
    SplitJoin(lines, '\n');
  }

  /** Text without a newline is one raw line, equal to the text. */
  lemma SingleLine(text: string)
    requires '\n' !in text
    ensures RawLines(Some(text)) == [text]
  {
    SplitWithoutSeparator(text, '\n');
  }

  /** A trailing newline adds exactly one empty raw line at the end. */
  lemma TrailingNewline(text: string)
    ensures RawLines(Some(text + "\n")) == RawLines(Some(text)) + [""]
  {
    SplitTrailingSeparator(text, '\n');
  }

  /** A file holding exactly `DATABASE_URL=postgres` is one raw line. */
  lemma SingleLineExample()
    ensures RawLines(Some("DATABASE_URL=postgres")) == ["DATABASE_URL=postgres"]
  {
    SingleLine("DATABASE_URL=postgres");
  }
}

/**
 The two subcommands' data paths, from the file's text to what leaves the core:
 `run` builds the environment map handed to the child process, `list` builds the table text.
 */
module Commands {
  import opened Wrappers
  import opened Text
  import opened Entry
  import opened Collect
  import opened EnvFile
  import opened ListTable

  /** The variables `run` adds to the child's environment. */
  function RunEnvironment(content: Option<string>): map<string, string>
  {
    ToMap(RawLines(content), Parse)
  }

  /** The entries `list` shows, in file order. */
  function ListEntries(content: Option<string>): seq<Collect.Entry>
  {
    ToTuples(RawLines(content), Parse)
  }

  /** The text `list` passes to the column aligner. */
  function ListText(content: Option<string>): string
  {
    Table(ListEntries(content))
  }

  /** Every listed entry is the entry of one raw line of the file. */
  lemma ListedEntriesComeFromLines(content: Option<string>, entry: Collect.Entry)
    requires entry in ListEntries(content)
    ensures exists i :: 0 <= i < |RawLines(content)| && IsEntryOf(RawLines(content)[i], entry.0, entry.1)
  {
    TuplesMembership(RawLines(content), Parse, entry);
  }

  /** Every variable of the run environment is bound to the value of some line's entry. */
  lemma RunBindingsComeFromLines(content: Option<string>, key: string)
    requires key in RunEnvironment(content)
    ensures exists i :: 0 <= i < |RawLines(content)| && IsEntryOf(RawLines(content)[i], key, RunEnvironment(content)[key])
  {
    var lines := RawLines(content);
    MapIsCollapsedTuples(lines, Parse);
    CollapsedBindingIsEntry(ToTuples(lines, Parse), key);
    TuplesMembership(lines, Parse, (key, RunEnvironment(content)[key]));
  }

  /** The `list` text, read back line by line, is the header and one row per listed entry. */
  lemma ListTextLines(content: Option<string>)
    ensures Split(ListText(content), '\n') == [Header] + Rows(ListEntries(content))
  {
    var entries := ListEntries(content);
    var lines := RawLines(content);
    forall t | 0 <= t < |entries| ensures '\n' !in entries[t].0 && '\n' !in entries[t].1 {
      assert entries[t] in entries;
      TuplesMembership(lines, Parse, entries[t]);
      var i :| 0 <= i < |lines| && Parse(lines[i]) == Some(entries[t]);
      assert lines[i] == entries[t].0 + "=" + entries[t].1;
      assert '\n' !in lines[i];
    }
    TableLines(entries);
  }

  /** The empty line left by a trailing newline changes neither subcommand's result. */
  lemma TrailingNewlineHarmless(text: string)
    ensures RunEnvironment(Some(text + "\n")) == RunEnvironment(Some(text))
    ensures ListText(Some(text + "\n")) == ListText(Some(text))
  {
    var lines := RawLines(Some(text));
    TrailingNewline(text);
    EmptyLineRejected();
    RejectedLineIgnored(lines, "", [], Parse);
    assert lines + [""] + [] == lines + [""];
    assert lines + [] == lines;
  }

  /** Well-formed `NAME=VALUE` lines hold no newline. */
  lemma WellFormedLineHasNoNewline(key: string, value: string)
    requires IsIdentifier(key) && IsValueWord(value)
    ensures '\n' !in key + "=" + value
  {
    var line := key + "=" + value;
    assert !IsValueChar('\n');
    forall x | 0 <= x < |line| ensures line[x] != '\n' {
      if x < |key| { assert IsNameChar(key[x]); }
      else if x > |key| { assert IsValueChar(value[x - |key| - 1]); }
    }
  }

  /** Two well-formed lines followed by a newline are three raw lines, the last one empty. */
  lemma RawLinesOfTwo(line1: string, line2: string)
    requires '\n' !in line1 && '\n' !in line2
    ensures RawLines(Some(line1 + "\n" + line2 + "\n")) == [line1, line2, ""]
  {
    var lines := [line1, line2, ""];
    assert lines[1..] == [line2, ""];
    assert lines[1..][1..] == [""];
    assert Join(lines[1..], '\n') == line2 + "\n" + "";
    assert Join(lines, '\n') == line1 + "\n" + line2 + "\n";
    RawLinesOfJoin(lines);
  }

  /**
   A file of two well-formed lines ending in a newline (such as `FOO=bar\nBAZ=qux\n`) lists
   both entries in file order, under the header; the empty last line adds nothing.
   */
  lemma ListTwoEntries(content: string, key1: string, value1: string, key2: string, value2: string)
    requires IsIdentifier(key1) && IsValueWord(value1)
    requires IsIdentifier(key2) && IsValueWord(value2)
    requires content == key1 + "=" + value1 + "\n" + key2 + "=" + value2 + "\n"
    ensures ListEntries(Some(content)) == [(key1, value1), (key2, value2)]
    ensures ListText(Some(content)) == Header + "\n" + key1 + "\t" + value1 + "\n" + key2 + "\t" + value2
  {
    var line1, line2 := key1 + "=" + value1, key2 + "=" + value2;
    assert ListEntries(Some(content)) == [(key1, value1), (key2, value2)] by {
      WellFormedLineHasNoNewline(key1, value1);
      WellFormedLineHasNoNewline(key2, value2);
      assert content == line1 + "\n" + line2 + "\n";
      RawLinesOfTwo(line1, line2);
      EntriesOfTwo(key1, value1, key2, value2);
    }
    TableOfTwo((key1, value1), (key2, value2));
  }

  /** Two well-formed lines and an empty one yield the two entries, in order. */
  lemma EntriesOfTwo(key1: string, value1: string, key2: string, value2: string)
    requires IsIdentifier(key1) && IsValueWord(value1)
    requires IsIdentifier(key2) && IsValueWord(value2)
    ensures ToTuples([key1 + "=" + value1, key2 + "=" + value2, ""], Parse) == [(key1, value1), (key2, value2)]
  {
    var line1, line2 := key1 + "=" + value1, key2 + "=" + value2;
    WellFormedLineAccepted(key1, value1);
    WellFormedLineAccepted(key2, value2);
    EmptyLineRejected();
    TuplesOfThree(line1, line2, "", Parse);
    TuplesOfOne(line1, Parse);
    TuplesOfOne(line2, Parse);
    TuplesOfOne("", Parse);
  }

  /** A file holding one well-formed `NAME=VALUE` line gives `run` exactly that variable. */
  lemma RunSingleEntry(key: string, value: string)
    requires IsIdentifier(key) && IsValueWord(value)
    ensures RunEnvironment(Some(key + "=" + value)) == map[key := value]
  {
    var line := key + "=" + value;
    WellFormedLineHasNoNewline(key, value);
    SingleLine(line);
    WellFormedLineAccepted(key, value);
    assert [line][..0] == [];
    assert FoldMap(map[], [line], Parse) == Insert(FoldMap(map[], [], Parse), Parse(line));
  }

  /** `run` with a file holding `GREETING=hi` adds exactly GREETING=hi. */
  lemma RunExample()
    ensures RunEnvironment(Some("GREETING=hi")) == map["GREETING" := "hi"]
  {
    assert "GREETING" + "=" + "hi" == "GREETING=hi";
    RunSingleEntry("GREETING", "hi");
  }
}

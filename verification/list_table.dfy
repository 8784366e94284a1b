/**
 The text the `list` subcommand hands to the column aligner: the header followed by one
 `"\n" + key + "\t" + value` per entry, built by a left fold over the entries.
 */
module ListTable {
  import opened Text
  import opened Collect

  const Header: string := "VARIABLE NAME\tVARIABLE VALUE"

  /** The text of one table row, without its leading newline. */
  function Row(entry: Entry): string
  {
    entry.0 + "\t" + entry.1
  }

  /** The rows of `entries`, in order. */
  function Rows(entries: seq<Entry>): (rows: seq<string>)
    ensures |rows| == |entries|
    ensures forall i :: 0 <= i < |entries| ==> rows[i] == Row(entries[i])
  {
    seq(|entries|, i requires 0 <= i < |entries| => Row(entries[i]))
  }

  /** The fold of the `list` arm, started from the header: each entry appends a newline and its row. */
  function Table(entries: seq<Entry>): (text: string)
    ensures |Header| <= |text| && text[..|Header|] == Header
  {
    if |entries| == 0 then Header
    else
      var entry := entries[|entries| - 1];
      var before := Table(entries[..|entries| - 1]);
      assert (before + "\n" + Row(entry))[..|Header|] == before[..|Header|];
      before + "\n" + Row(entry)
  }

  /** The table is the header and the rows joined by newlines. */
  lemma {:induction false} TableIsJoinedRows(entries: seq<Entry>)
    ensures Table(entries) == Join([Header] + Rows(entries), '\n')
  {
    if |entries| == 0 {
      assert [Header] + Rows(entries) == [Header];
    } else {
      var n := |entries| - 1;
      var init, last := entries[..n], entries[n];
      TableIsJoinedRows(init);
      assert Rows(entries) == Rows(init) + [Row(last)];
      assert [Header] + Rows(entries) == ([Header] + Rows(init)) + [Row(last)];
      JoinSnoc([Header] + Rows(init), Row(last), '\n');
    }
  }

  /** No key or value of `entries` contains `c`. */
  ghost predicate FreeOf(entries: seq<Entry>, c: char)
  {
    forall i :: 0 <= i < |entries| ==> c !in entries[i].0 && c !in entries[i].1
  }

  /** Read back line by line, the table is the header and then one row per entry, in order. */
  lemma TableLines(entries: seq<Entry>)
    requires FreeOf(entries, '\n')
    ensures Split(Table(entries), '\n') == [Header] + Rows(entries)
  {
    TableIsJoinedRows(entries);
    var lines := [Header] + Rows(entries);
    assert '\n' !in Header;
    forall i | 1 <= i < |lines| ensures '\n' !in lines[i] {
      var entry := entries[i - 1];
      assert lines[i] == Row(entry);
      assert '\n' !in entry.0 && '\n' !in entry.1;
    }
    SplitJoin(lines, '\n');
  }

  /** A row whose key and value hold no tab splits back into that key and value. */
  lemma RowColumns(entry: Entry)
    requires '\t' !in entry.0 && '\t' !in entry.1
    ensures Split(Row(entry), '\t') == [entry.0, entry.1]
  {
    assert Row(entry) == Join([entry.0, entry.1], '\t');
    SplitJoin([entry.0, entry.1], '\t');
  }

  /** Two entries give the header and then their two rows, in entry order. */
  lemma TableOfTwo(first: Entry, second: Entry)
    ensures Table([first, second]) == Header + "\n" + first.0 + "\t" + first.1 + "\n" + second.0 + "\t" + second.1
  {
    var entries := [first, second];
    assert entries[..1] == [first];
    assert entries[..1][..0] == [];
    assert Table([first]) == Header + "\n" + Row(first);
  }

  /** Two entries give the header and two rows, in entry order. */
  lemma TableExample()
    ensures Table([("FOO", "bar"), ("BAZ", "qux")]) == "VARIABLE NAME\tVARIABLE VALUE\nFOO\tbar\nBAZ\tqux"
  {
    var entries := [("FOO", "bar"), ("BAZ", "qux")];
    assert entries[..1] == [("FOO", "bar")];
    assert entries[..1][..0] == [];
  }
}

/**
 The two collectors over parsed lines. Both are left folds (`f(fold(init, xs[..n-1]), xs[n-1])`)
 and take the line parser as a parameter:
 - `raw_env_vars_to_tuples` pushes every accepted entry, keeping duplicates in input order;
 - `raw_env_vars_to_map` inserts every accepted entry, so the last line for a key wins.
 */
module Collect {
  import opened Wrappers

  type Entry = (string, string)

  type Parser = string -> Option<Entry>

  /** `raw_env_vars_to_tuples(lines, parse)`. */
  function ToTuples(lines: seq<string>, parse: Parser): (entries: seq<Entry>)
    ensures |entries| <= |lines|
  {
    if |lines| == 0 then []
    else
      var before := ToTuples(lines[..|lines| - 1], parse);
      match parse(lines[|lines| - 1])
      case Some(entry) => before + [entry]
      case None => before
  }

  /** One step of `raw_env_vars_to_map`: an accepted entry is inserted, overwriting its key. */
  function Insert(acc: map<string, string>, parsed: Option<Entry>): map<string, string>
  {
    match parsed
    case Some((key, value)) => acc[key := value]
    case None => acc
  }

  /** The fold of `raw_env_vars_to_map`, started from `acc`. */
  function FoldMap(acc: map<string, string>, lines: seq<string>, parse: Parser): (m: map<string, string>)
    ensures acc.Keys <= m.Keys
  {
    if |lines| == 0 then acc
    else Insert(FoldMap(acc, lines[..|lines| - 1], parse), parse(lines[|lines| - 1]))
  }

  /** `raw_env_vars_to_map(lines, parse)`: the fold started from an empty map. */
  function ToMap(lines: seq<string>, parse: Parser): map<string, string>
  {
    FoldMap(map[], lines, parse)
  }

  /** Line `i` is accepted with key `key`. */
  ghost predicate ParsesToKey(lines: seq<string>, parse: Parser, i: int, key: string)
    requires 0 <= i < |lines|
  {
    parse(lines[i]).Some? && parse(lines[i]).value.0 == key
  }

  /** The keys of all accepted lines. */
  ghost function ParsedKeys(lines: seq<string>, parse: Parser): set<string>
  {
    set i | 0 <= i < |lines| && parse(lines[i]).Some? :: parse(lines[i]).value.0
  }

  /** Line `i` is the last accepted line with key `key`. */
  ghost predicate IsLastFor(lines: seq<string>, parse: Parser, i: int, key: string)
    requires 0 <= i < |lines|
  {
    ParsesToKey(lines, parse, i, key)
    && forall j :: i < j < |lines| ==> !ParsesToKey(lines, parse, j, key)
  }

  /** Collecting the two halves of a line sequence concatenates their entries. */
  lemma {:induction false} TuplesAppend(a: seq<string>, b: seq<string>, parse: Parser)
    ensures ToTuples(a + b, parse) == ToTuples(a, parse) + ToTuples(b, parse)
    decreases |b|
  {
    if |b| == 0 {
      assert a + b == a;
    } else {
      var ab := a + b;
      assert ab[..|ab| - 1] == a + b[..|b| - 1];
      assert ab[|ab| - 1] == b[|b| - 1];
      TuplesAppend(a, b[..|b| - 1], parse);
    }
  }

  /**
   The collected entries are the accepted lines' entries in input order: position `t` of the
   result comes from line `idx[t]`, the positions increase strictly, and every accepted line has one.
   */
  lemma {:induction false} TuplesInOrder(lines: seq<string>, parse: Parser) returns (idx: seq<int>)
    ensures |idx| == |ToTuples(lines, parse)|
    ensures forall t :: 0 <= t < |idx| ==> 0 <= idx[t] < |lines| && parse(lines[idx[t]]) == Some(ToTuples(lines, parse)[t])
    ensures forall t, u :: 0 <= t < u < |idx| ==> idx[t] < idx[u]
    ensures forall i :: 0 <= i < |lines| && parse(lines[i]).Some? ==> i in idx
  {
    if |lines| == 0 {
      idx := [];
    } else {
      var n := |lines| - 1;
      var init := lines[..n];
      var before := TuplesInOrder(init, parse);
      var collected := ToTuples(init, parse);
      assert forall t :: 0 <= t < |before| ==> lines[before[t]] == init[before[t]];
      assert forall i :: 0 <= i < n ==> lines[i] == init[i];
      match parse(lines[n])
      case Some(entry) =>
        idx := before + [n];
        assert ToTuples(lines, parse) == collected + [entry];
        assert forall t :: 0 <= t < |before| ==> idx[t] == before[t] && ToTuples(lines, parse)[t] == collected[t];
      case None =>
        idx := before;
    }
  }

  /** An entry is collected exactly when some line is accepted with it. */
  lemma TuplesMembership(lines: seq<string>, parse: Parser, entry: Entry)
    ensures entry in ToTuples(lines, parse) <==> exists i :: 0 <= i < |lines| && parse(lines[i]) == Some(entry)
  {
    var idx := TuplesInOrder(lines, parse);
    var entries := ToTuples(lines, parse);
    if entry in entries {
      var t :| 0 <= t < |entries| && entries[t] == entry;
      assert parse(lines[idx[t]]) == Some(entry);
    }
    if i :| 0 <= i < |lines| && parse(lines[i]) == Some(entry) {
      var t :| 0 <= t < |idx| && idx[t] == i;
      assert entries[t] == entry;
    }
  }

  /** A key is bound exactly when some line is accepted with it (or it was already bound). */
  lemma {:induction false} FoldMapKeys(acc: map<string, string>, lines: seq<string>, parse: Parser)
    ensures FoldMap(acc, lines, parse).Keys == acc.Keys + ParsedKeys(lines, parse)
  {
    if |lines| != 0 {
      var n := |lines| - 1;
      var init := lines[..n];
      FoldMapKeys(acc, init, parse);
      assert forall i :: 0 <= i < n ==> lines[i] == init[i];
      assert ParsedKeys(lines, parse) == ParsedKeys(init, parse) + ParsedKeys([lines[n]], parse) by {
        forall key | key in ParsedKeys(lines, parse)
          ensures key in ParsedKeys(init, parse) + ParsedKeys([lines[n]], parse)
        {
          var i :| 0 <= i < |lines| && parse(lines[i]).Some? && parse(lines[i]).value.0 == key;
          if i == n {
            assert [lines[n]][0] == lines[n];
          }
        }
        forall key | key in ParsedKeys([lines[n]], parse) ensures key in ParsedKeys(lines, parse) {
          assert [lines[n]][0] == lines[n];
        }
      }
    }
  }

  /** The keys of the map are the keys of the accepted lines. */
  lemma MapKeys(lines: seq<string>, parse: Parser)
    ensures ToMap(lines, parse).Keys == ParsedKeys(lines, parse)
  {
    FoldMapKeys(map[], lines, parse);
  }

  /** Last writer wins: a key maps to the value of the last line accepted with that key. */
  lemma {:induction false} MapLastWriterWins(lines: seq<string>, parse: Parser, i: int, key: string)
    requires 0 <= i < |lines| && IsLastFor(lines, parse, i, key)
    ensures key in ToMap(lines, parse) && ToMap(lines, parse)[key] == parse(lines[i]).value.1
  {
    var n := |lines| - 1;
    var init := lines[..n];
    if i < n {
      assert IsLastFor(init, parse, i, key) by {
        forall j | i < j < n ensures !ParsesToKey(init, parse, j, key) {
          assert lines[j] == init[j];
          assert !ParsesToKey(lines, parse, j, key);
        }
        assert lines[i] == init[i];
      }
      MapLastWriterWins(init, parse, i, key);
      assert !ParsesToKey(lines, parse, n, key);
    }
  }

  /** Folding a concatenation folds the second part from the result of the first. */
  lemma {:induction false} FoldMapAppend(acc: map<string, string>, a: seq<string>, b: seq<string>, parse: Parser)
    ensures FoldMap(acc, a + b, parse) == FoldMap(FoldMap(acc, a, parse), b, parse)
    decreases |b|
  {
    if |b| == 0 {
      assert a + b == a;
    } else {
      var ab := a + b;
      assert ab[..|ab| - 1] == a + b[..|b| - 1];
      assert ab[|ab| - 1] == b[|b| - 1];
      FoldMapAppend(acc, a, b[..|b| - 1], parse);
    }
  }

  /** A line the parser rejects changes nothing, wherever it stands. */
  lemma RejectedLineIgnored(a: seq<string>, line: string, b: seq<string>, parse: Parser)
    requires parse(line).None?
    ensures ToMap(a + [line] + b, parse) == ToMap(a + b, parse)
    ensures ToTuples(a + [line] + b, parse) == ToTuples(a + b, parse)
  {
    FoldMapAppend(map[], a + [line], b, parse);
    FoldMapAppend(map[], a, [line], parse);
    assert ([line])[..0] == [];
    FoldMapAppend(map[], a, b, parse);
    TuplesAppend(a + [line], b, parse);
    TuplesAppend(a, [line], parse);
    TuplesAppend(a, b, parse);
  }

  /** The entries collapsed into a map, later entries overwriting earlier ones. */
  function EntriesToMap(entries: seq<Entry>): map<string, string>
  {
    if |entries| == 0 then map[]
    else Insert(EntriesToMap(entries[..|entries| - 1]), Some(entries[|entries| - 1]))
  }

  /** Every binding of a collapsed map is one of the entries. */
  lemma {:induction false} CollapsedBindingIsEntry(entries: seq<Entry>, key: string)
    requires key in EntriesToMap(entries)
    ensures (key, EntriesToMap(entries)[key]) in entries
  {
    var n := |entries| - 1;
    var init := entries[..n];
    if entries[n].0 != key {
      CollapsedBindingIsEntry(init, key);
      assert forall e :: e in init ==> e in entries;
    }
  }

  /** The map of the run mode is the list mode's sequence collapsed, last entry winning. */
  lemma {:induction false} MapIsCollapsedTuples(lines: seq<string>, parse: Parser)
    ensures ToMap(lines, parse) == EntriesToMap(ToTuples(lines, parse))
  {
    if |lines| != 0 {
      var n := |lines| - 1;
      MapIsCollapsedTuples(lines[..n], parse);
      var before := ToTuples(lines[..n], parse);
      match parse(lines[n])
      case Some(entry) =>
        assert (before + [entry])[..|before|] == before;
      case None =>
    }
  }

  /** Collecting one line gives its entry, if it has one. */
  lemma TuplesOfOne(line: string, parse: Parser)
    ensures ToTuples([line], parse) == if parse(line).Some? then [parse(line).value] else []
  {
    assert [line][..0] == [];
  }

  /** Collecting three lines, unfolded. */
  lemma TuplesOfThree(a: string, b: string, c: string, parse: Parser)
    ensures ToTuples([a, b, c], parse) == ToTuples([a], parse) + ToTuples([b], parse) + ToTuples([c], parse)
  {
    TuplesAppend([a], [b], parse);
    TuplesAppend([a, b], [c], parse);
    assert [a] + [b] == [a, b];
    assert [a, b] + [c] == [a, b, c];
  }

  /** Parser accepting the lines "a" and "c" only, each as an entry with key and value equal to the line. */
  function AcceptAOrC(line: string): Option<Entry>
  {
    if line == "a" || line == "c" then Some((line, line)) else None
  }

  /** Parser accepting the line "c" only. */
  function AcceptC(line: string): Option<Entry>
  {
    if line == "c" then Some((line, line)) else None
  }

  /** Collecting in order keeps the accepted lines in order. */
  lemma TuplesExample()
    ensures ToTuples(["a", "b", "c", "d"], AcceptAOrC) == [("a", "a"), ("c", "c")]
  {
    assert ToTuples(["a"], AcceptAOrC) == [("a", "a")] by { assert ["a"][..0] == []; }
    assert ToTuples(["a", "b"], AcceptAOrC) == [("a", "a")] by { assert ["a", "b"][..1] == ["a"]; }
    assert ToTuples(["a", "b", "c"], AcceptAOrC) == [("a", "a"), ("c", "c")] by {
      assert ["a", "b", "c"][..2] == ["a", "b"];
    }
    assert ["a", "b", "c", "d"][..3] == ["a", "b", "c"];
  }

  /** Collecting into a map keeps only the accepted line. */
  lemma MapExample()
    ensures ToMap(["a", "b", "c", "d"], AcceptC) == map["c" := "c"]
  {
    assert ToMap(["a"], AcceptC) == map[] by { assert ["a"][..0] == []; }
    assert ToMap(["a", "b"], AcceptC) == map[] by { assert ["a", "b"][..1] == ["a"]; }
    assert ToMap(["a", "b", "c"], AcceptC) == map["c" := "c"] by {
      assert ["a", "b", "c"][..2] == ["a", "b"];
    }
    assert ["a", "b", "c", "d"][..3] == ["a", "b", "c"];
  }

  /** Duplicate keys stay as separate entries in the sequence but collapse to the last in the map. */
  lemma DuplicatesExample()
    ensures ToTuples(["a", "a"], AcceptAOrC) == [("a", "a"), ("a", "a")]
    ensures ToMap(["a", "a"], AcceptAOrC) == map["a" := "a"]
  {
    assert ["a", "a"][..1] == ["a"];
    assert ["a"][..0] == [];
  }
}

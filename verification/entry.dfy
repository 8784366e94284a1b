/**
 The env-file line parser `string_to_env_entry`. A line yields an entry when
   (1) the pattern `[a-zA-Z_]+[a-zA-Z0-9_]*=[a-zA-Z0-9_-]+` occurs somewhere in it (a search,
       not an anchored match),
   (2) splitting the whole line on `=` gives exactly two pieces, and
   (3) neither piece is empty;
 the pieces are then returned verbatim, so the key is not necessarily an identifier.
 */
module Entry {
  import opened Wrappers
  import opened Text

  /** `[a-zA-Z_]` */
  predicate IsNameStart(ch: char) {
    'a' <= ch <= 'z' || 'A' <= ch <= 'Z' || ch == '_'
  }

  /** `[a-zA-Z0-9_]` */
  predicate IsNameChar(ch: char) {
    IsNameStart(ch) || '0' <= ch <= '9'
  }

  /** `[a-zA-Z0-9_-]` */
  predicate IsValueChar(ch: char) {
    IsNameChar(ch) || ch == '-'
  }

  /** `s[j..p]` is a name-start character followed by name characters. */
  ghost predicate NameRun(s: string, j: int, p: int)
    requires 0 <= j <= p <= |s|
  {
    j < p && IsNameStart(s[j]) && forall m :: j <= m < p ==> IsNameChar(s[m])
  }

  /** Some name run ends at position `p` of `s`. */
  ghost predicate NameRunEnds(s: string, p: int)
    requires 0 <= p <= |s|
  {
    exists j :: 0 <= j < p && NameRun(s, j, p)
  }

  /** The name part of the pattern can end at position `p` of `s`: a right-to-left scan. */
  function EndsInNameRun(s: string, p: nat): (b: bool)
    requires p <= |s|
    ensures b <==> NameRunEnds(s, p)
  {
    if p == 0 then false
    else if IsNameStart(s[p - 1]) then
      assert NameRun(s, p - 1, p);
      true
    else if IsNameChar(s[p - 1]) then
      NameRunThroughDigit(s, p);
      EndsInNameRun(s, p - 1)
    else
      assert !NameRunEnds(s, p) by {
        forall j | 0 <= j < p ensures !NameRun(s, j, p) {
          assert !IsNameChar(s[p - 1]);
        }
      }
      false
  }

  /** A name run ending just before a digit is one ending just after it, and vice versa. */
  lemma NameRunThroughDigit(s: string, p: nat)
    requires 0 < p <= |s| && IsNameChar(s[p - 1]) && !IsNameStart(s[p - 1])
    ensures NameRunEnds(s, p) <==> NameRunEnds(s, p - 1)
  {
    if j :| 0 <= j < p && NameRun(s, j, p) {
      assert j < p - 1 && NameRun(s, j, p - 1);
    }
    var q := p - 1;
    if j :| 0 <= j < q && NameRun(s, j, q) {
      assert NameRun(s, j, p);
    }
  }

  /** A match of the pattern has its `=` at position `i` of `s`. */
  predicate MatchesAt(s: string, i: nat)
    requires i < |s|
  {
    s[i] == '=' && i + 1 < |s| && IsValueChar(s[i + 1]) && EndsInNameRun(s, i)
  }

  /** `rgx.is_match(s)` for the pattern above. */
  predicate IsMatch(s: string) {
    exists i | 0 <= i < |s| :: MatchesAt(s, i)
  }

  /**
   The pattern read literally: `s[b..e]` is one or more name starts (up to `m`), then name
   characters (up to `i`), then `=` at `i`, then one or more value characters (up to `e`).
   */
  ghost predicate PatternAt(s: string, b: int, m: int, i: int, e: int) {
    && 0 <= b < m <= i && i + 1 < e <= |s|
    && (forall x :: b <= x < m ==> IsNameStart(s[x]))
    && (forall x :: m <= x < i ==> IsNameChar(s[x]))
    && s[i] == '='
    && (forall x :: i + 1 <= x < e ==> IsValueChar(s[x]))
  }

  /** Some substring of `s` matches the pattern. */
  ghost predicate PatternOccurs(s: string) {
    exists b, m, i, e :: PatternAt(s, b, m, i, e)
  }

  /** The scan `IsMatch` finds the pattern exactly when some substring matches it. */
  lemma IsMatchIsPatternSearch(s: string)
    ensures IsMatch(s) <==> PatternOccurs(s)
  {
    if IsMatch(s) {
      var i :| 0 <= i < |s| && MatchesAt(s, i);
      var j :| 0 <= j < i && NameRun(s, j, i);
      assert PatternAt(s, j, j + 1, i, i + 2);
    }
    if PatternOccurs(s) {
      var b, m, i, e :| PatternAt(s, b, m, i, e);
      assert NameRun(s, b, i);
      assert MatchesAt(s, i);
    }
  }

  /** `key` ends in a run of name characters that contains a name start. */
  ghost predicate HasNameTail(key: string) {
    NameRunEnds(key, |key|)
  }

  /**
   What the parser guarantees of an entry `(key, value)` taken from `line`: the line is
   `key=value` with `=` only between them, both sides non-empty, the name part of the pattern
   ends the key and the value starts with a value character.
   */
  ghost predicate IsEntryOf(line: string, key: string, value: string) {
    && line == key + "=" + value
    && '=' !in key && '=' !in value
    && HasNameTail(key)
    && |value| > 0 && IsValueChar(value[0])
  }

  /** `string_to_env_entry(line)`. */
  function Parse(line: string): (r: Option<(string, string)>)
    ensures r.Some? ==> IsEntryOf(line, r.value.0, r.value.1)
  {
    if IsMatch(line) then
      var pieces := Split(line, '=');
      if |pieces| != 2 then None
      else if pieces[0] == "" || pieces[1] == "" then None
      else
        ParsedPiecesAreEntry(line, pieces[0], pieces[1]);
        Some((pieces[0], pieces[1]))
    else None
  }

  /** The pieces of a matching line with one `=` form an entry of it. */
  lemma ParsedPiecesAreEntry(line: string, key: string, value: string)
    requires IsMatch(line)
    requires Split(line, '=') == [key, value]
    requires key != "" && value != ""
    ensures IsEntryOf(line, key, value)
  {
    var pieces := Split(line, '=');
    assert pieces[1..] == [value];
    assert Join(pieces, '=') == pieces[0] + ['='] + Join(pieces[1..], '=');
    assert line == key + "=" + value;
    assert '=' !in key && '=' !in value by {
      assert pieces[0] == key && pieces[1] == value;
    }
    var i :| 0 <= i < |line| && MatchesAt(line, i);
    SoleSeparator(key, value, i);
    assert line[i + 1] == value[0];
    var j :| 0 <= j < i && NameRun(line, j, i);
    assert NameRun(key, j, |key|) by {
      forall x | j <= x < i ensures key[x] == line[x] { }
    }
  }

  /** In `key=value` with no other `=`, the only `=` is at position `|key|`. */
  lemma SoleSeparator(key: string, value: string, i: int)
    requires '=' !in key && '=' !in value
    requires 0 <= i < |key + "=" + value| && (key + "=" + value)[i] == '='
    ensures i == |key|
  {
  }

  /** Every entry of a line is what the parser returns for it. */
  lemma ParseComplete(line: string, key: string, value: string)
    requires IsEntryOf(line, key, value)
    ensures Parse(line) == Some((key, value))
  {
    SplitWithoutSeparator(value, '=');
    SplitAtFirstSeparator(key, value, '=');
    assert Split(line, '=') == [key, value];
    var j :| 0 <= j < |key| && NameRun(key, j, |key|);
    assert NameRun(line, j, |key|) by {
      forall x | j <= x < |key| ensures line[x] == key[x] { }
    }
    assert line[|key| + 1] == value[0];
    assert MatchesAt(line, |key|);
  }

  /** The parser returns exactly the entries of a line. */
  lemma ParseExactly(line: string, key: string, value: string)
    ensures Parse(line) == Some((key, value)) <==> IsEntryOf(line, key, value)
  {
    if IsEntryOf(line, key, value) {
      ParseComplete(line, key, value);
    }
  }

  /** An accepted line contains exactly one `=`. */
  lemma ParseNeedsOneSeparator(line: string)
    ensures Count(line, '=') != 1 ==> Parse(line).None?
  {
    if Parse(line).Some? {
      var (key, value) := Parse(line).value;
      CountAppend(key, "=", '=');
      CountAppend(key + "=", value, '=');
    }
  }

  /** A line with two `=` is rejected, even when the pattern occurs in it. */
  lemma TwoSeparatorsRejected(line: string, i: int, k: int)
    requires 0 <= i < k < |line| && line[i] == '=' && line[k] == '='
    ensures Parse(line).None?
  {
    if Parse(line).Some? {
      var (key, value) := Parse(line).value;
      SoleSeparator(key, value, i);
      SoleSeparator(key, value, k);
    }
  }

  /** If `key=value` has an entry, that entry is `(key, value)`: the split falls at the first `=`. */
  lemma EntryOfJoinedLine(key: string, value: string, key': string, value': string)
    requires IsEntryOf(key + "=" + value, key', value')
    ensures key == key' && value == value'
  {
    var line := key + "=" + value;
    assert line[|key|] == '=';
    SoleSeparator(key', value', |key|);
    assert key == line[..|key|] && key' == line[..|key'|];
    assert value == line[|key| + 1..] && value' == line[|key'| + 1..];
  }

  /** A key whose trailing run of name characters holds no name start (e.g. all digits) is rejected. */
  lemma KeyWithoutNameTailRejected(key: string, value: string)
    requires !HasNameTail(key)
    ensures Parse(key + "=" + value).None?
  {
    if Parse(key + "=" + value).Some? {
      var (key', value') := Parse(key + "=" + value).value;
      EntryOfJoinedLine(key, value, key', value');
    }
  }

  /** A value that is empty or starts outside `[a-zA-Z0-9_-]` is rejected. */
  lemma BadValueStartRejected(key: string, value: string)
    requires value == "" || !IsValueChar(value[0])
    ensures Parse(key + "=" + value).None?
  {
    if Parse(key + "=" + value).Some? {
      var (key', value') := Parse(key + "=" + value).value;
      EntryOfJoinedLine(key, value, key', value');
    }
  }

  /** `[A-Za-z_][A-Za-z0-9_]*` */
  predicate IsIdentifier(s: string) {
    |s| > 0 && IsNameStart(s[0]) && forall x :: 0 <= x < |s| ==> IsNameChar(s[x])
  }

  /** `[A-Za-z0-9_-]+` */
  predicate IsValueWord(s: string) {
    |s| > 0 && forall x :: 0 <= x < |s| ==> IsValueChar(s[x])
  }

  /** A well-formed `NAME=VALUE` line parses to exactly its name and value. */
  lemma WellFormedLineAccepted(key: string, value: string)
    requires IsIdentifier(key) && IsValueWord(value)
    ensures Parse(key + "=" + value) == Some((key, value))
  {
    assert NameRun(key, 0, |key|);
    assert '=' !in key by {
      forall x | 0 <= x < |key| ensures key[x] != '=' { assert IsNameChar(key[x]); }
    }
    assert '=' !in value by {
      forall x | 0 <= x < |value| ensures value[x] != '=' { assert IsValueChar(value[x]); }
    }
    ParseComplete(key + "=" + value, key, value);
  }

  /** The empty line (left, for one, by a file's trailing newline) is rejected. */
  lemma EmptyLineRejected()
    ensures Parse("").None?
  {
    assert !IsMatch("");
  }

  /** Lines the parser rejects: no `=`, a lone `=`, an empty side, two `=`, a digit key, a bad value start. */
  lemma RejectedExamples()
    ensures Parse("").None?
    ensures Parse("=").None?
    ensures Parse("===").None?
    ensures Parse("=value").None?
    ensures Parse("key=").None?
    ensures Parse("1=abc").None?
    ensures Parse("FOO= bar").None?
    ensures Parse("DA=TABASE_URL=x").None?
  {
    assert !HasNameTail("");
    KeyWithoutNameTailRejected("", "");
    assert "" + "=" + "" == "=";
    TwoSeparatorsRejected("===", 0, 1);
    KeyWithoutNameTailRejected("", "value");
    assert "" + "=" + "value" == "=value";
    BadValueStartRejected("key", "");
    assert "key" + "=" + "" == "key=";
    assert !HasNameTail("1") by {
      assert !NameRun("1", 0, 1);
    }
    KeyWithoutNameTailRejected("1", "abc");
    assert "1" + "=" + "abc" == "1=abc";
    BadValueStartRejected("FOO", " bar");
    assert "FOO" + "=" + " bar" == "FOO= bar";
    TwoSeparatorsRejected("DA=TABASE_URL=x", 2, 13);
  }

  /** Keys and values are kept verbatim: leading spaces survive in the key. */
  lemma LeadingSpaceKept()
    ensures Parse(" FOO=bar") == Some((" FOO", "bar"))
  {
    assert NameRun(" FOO", 1, 4);
    assert " FOO" + "=" + "bar" == " FOO=bar";
    ParseComplete(" FOO=bar", " FOO", "bar");
  }

  /** Keys and values are kept verbatim: a carriage return survives in the value. */
  lemma CarriageReturnKept()
    ensures Parse("FOO=bar\r") == Some(("FOO", "bar\r"))
  {
    assert NameRun("FOO", 0, 3);
    assert "FOO" + "=" + "bar\r" == "FOO=bar\r";
    ParseComplete("FOO=bar\r", "FOO", "bar\r");
  }
}

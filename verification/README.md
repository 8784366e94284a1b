# enver: the env-file line pipeline, in Dafny

enver reads a `KEY=VALUE` file and either runs a command with those variables added to its
environment (`run`) or prints them as a two-column table (`list`). This project models the
pure pipeline behind both subcommands, in `src/main.rs`:

- the file's text is cut into raw lines at every `'\n'` (`parse_raw_env_vars`);
- each raw line goes through the line parser `string_to_env_entry`. The parser first searches
  the line for the pattern `[a-zA-Z_]+[a-zA-Z0-9_]*=[a-zA-Z0-9_-]+`. It then splits the whole
  line on `=`, requires exactly two pieces, requires both to be non-empty, and returns them
  verbatim;
- `run` folds the parsed lines into a map in which the last line for a key wins
  (`raw_env_vars_to_map`);
- `list` folds them into a sequence that keeps every entry in file order
  (`raw_env_vars_to_tuples`), then folds that sequence into the table text: the header
  `VARIABLE NAME\tVARIABLE VALUE` followed by one `"\n" + key + "\t" + value` per entry.

Modules, one file each:

- `Wrappers`: `Option`.
- `Text`: `Split`, `Join` and `Count` for one-character separators. `Split` follows Rust's
  `str::split`, so `""` gives `[""]` and a trailing separator gives a trailing empty piece.
- `Entry`: the line parser. The regex search is written out by hand as `IsMatch`. The lemma
  `IsMatchIsPatternSearch` proves it equal to a literal reading of the pattern (`PatternOccurs`).
- `Collect`: the two collectors. Each takes the parser as a function-typed parameter, as the
  source does.
- `EnvFile`: the split into raw lines. `content` is the text already read from the file, or
  `None` when no path was given.
- `ListTable`: the header-and-rows fold of the `list` arm.
- `Commands`: the two subcommands' data paths put together (`RunEnvironment`, `ListEntries`,
  `ListText`).

The parser guarantees only what the code checks. A key need not be an identifier (`" FOO=bar"`
gives the key `" FOO"`), and nothing is trimmed (`"FOO=bar\r"` gives the value `"bar\r"`).
`IsEntryOf` states exactly what does hold:

- the line is `key=value` with no other `=`;
- the key ends in a run of `[A-Za-z0-9_]` that contains a letter or `_`;
- the value is non-empty and starts with a character in `[A-Za-z0-9_-]`.

## Model

| member | source | states |
|---|---|---|
| Text.Split | src/main.rs:110-113 | splitting on a character gives one more piece than there are separators; no piece contains the separator; joining the pieces with it gives back the text |
| Text.SplitJoin | src/main.rs:110-113 | for a non-empty list of separator-free pieces, splitting their join gives the pieces back (the other half of the round trip) |
| Text.SplitTrailingSeparator | src/main.rs:68-71 | a trailing separator adds exactly one empty piece at the end |
| Entry.EndsInNameRun | src/main.rs:108 | the right-to-left scan is true exactly when some `[a-zA-Z_]` followed only by `[a-zA-Z0-9_]` ends at the given position, i.e. when the name part of the pattern can end there |
| Entry.IsMatchIsPatternSearch | src/main.rs:108-109 | the hand-written search finds a match exactly when some substring is one or more `[a-zA-Z_]`, then `[a-zA-Z0-9_]*`, then `=`, then one or more `[a-zA-Z0-9_-]` (an unanchored search of the regex) |
| Entry.Parse | src/main.rs:107-125 | an accepted line is `key + "=" + value`, neither side contains `=`, the key ends in a name run containing a letter or `_`, and the value is non-empty and starts with `[a-zA-Z0-9_-]` |
| Entry.ParseComplete | src/main.rs:107-122 | every line and pair meeting those conditions is accepted with exactly that key and value |
| Entry.ParseExactly | src/main.rs:107-125 | the parser returns `Some((k, v))` if and only if `(k, v)` is an entry of the line in the above sense |
| Entry.ParseNeedsOneSeparator | src/main.rs:110-116 | a line whose number of `=` is not one is rejected |
| Entry.TwoSeparatorsRejected | src/main.rs:110-116 | a line with two `=` at any positions is rejected, even if the pattern occurs in it |
| Entry.KeyWithoutNameTailRejected | src/main.rs:108-109 | `k=v` is rejected when the run of name characters ending `k` holds no letter or `_` (an all-digit key, for one) |
| Entry.BadValueStartRejected | src/main.rs:108-109 | `k=v` is rejected when `v` is empty or starts outside `[a-zA-Z0-9_-]` |
| Entry.WellFormedLineAccepted | src/main.rs:107-122 | for `k` matching `[A-Za-z_][A-Za-z0-9_]*` and `v` matching `[A-Za-z0-9_-]+`, the line `k=v` gives exactly `Some((k, v))` |
| Entry.EmptyLineRejected | src/main.rs:107-124 | the empty line is rejected |
| Entry.RejectedExamples | src/main.rs:108-124 | `""`, `"="`, `"==="`, `"=value"`, `"key="`, `"1=abc"`, `"FOO= bar"` and `"DA=TABASE_URL=x"` are all rejected |
| Entry.LeadingSpaceKept | src/main.rs:117-122 | `" FOO=bar"` gives the key `" FOO"`, untrimmed |
| Entry.CarriageReturnKept | src/main.rs:117-122 | `"FOO=bar\r"` gives the value `"bar\r"`, untrimmed |
| Collect.ToTuples | src/main.rs:92-105 | the collected sequence is no longer than the line sequence |
| Collect.TuplesInOrder | src/main.rs:92-105 | entry `t` of the sequence comes from line `idx[t]`; the positions strictly increase; every accepted line has a position. So the sequence is exactly the accepted entries in input order, duplicates kept |
| Collect.TuplesMembership | src/main.rs:92-105 | an entry is in the sequence if and only if some line is accepted with it |
| Collect.TuplesAppend | src/main.rs:96-104 | collecting a concatenation of lines concatenates the collected sequences |
| Collect.FoldMap | src/main.rs:81-89 | the fold never drops a key of its starting map |
| Collect.MapKeys | src/main.rs:77-90 | the map's keys are exactly the keys of the accepted lines |
| Collect.MapLastWriterWins | src/main.rs:83-87 | a key maps to the value of the last line accepted with that key |
| Collect.FoldMapAppend | src/main.rs:81-89 | folding a concatenation folds the second part starting from the first part's result |
| Collect.RejectedLineIgnored | src/main.rs:83-104 | inserting a rejected line anywhere changes neither the map nor the sequence |
| Collect.MapIsCollapsedTuples | src/main.rs:77-105 | the map equals the sequence of entries collapsed into a map with later entries overwriting earlier ones |
| Collect.CollapsedBindingIsEntry | src/main.rs:83-87 | every binding of a collapsed map is one of the entries |
| Collect.TuplesExample | src/main.rs:92-105 | with a parser accepting `"a"` and `"c"`, the lines `["a","b","c","d"]` give `[("a","a"),("c","c")]` |
| Collect.MapExample | src/main.rs:77-90 | with a parser accepting only `"c"`, the lines `["a","b","c","d"]` give the map `{c: c}` |
| Collect.DuplicatesExample | src/main.rs:77-105 | two lines with the same key stay two entries in the sequence and collapse to one binding in the map |
| EnvFile.RawLines | src/main.rs:63-74 | no path gives no lines; otherwise there is one line more than there are newlines, no line contains a newline, and joining the lines with newlines gives back the text |
| EnvFile.RawLinesOfJoin | src/main.rs:68-71 | newline-free lines joined by newlines split back into the same lines |
| EnvFile.SingleLine | src/main.rs:68-71 | text without a newline is one raw line equal to the text |
| EnvFile.TrailingNewline | src/main.rs:68-71 | a trailing newline adds exactly one empty raw line |
| EnvFile.SingleLineExample | src/main.rs:68-71 | the text `DATABASE_URL=postgres` is the single raw line `DATABASE_URL=postgres` |
| ListTable.Table | src/main.rs:50-53 | the table text starts with the header `VARIABLE NAME\tVARIABLE VALUE` |
| ListTable.TableIsJoinedRows | src/main.rs:50-53 | the table text is the header and the rows `key + "\t" + value`, in entry order, joined by newlines |
| ListTable.TableLines | src/main.rs:50-53 | when no key or value holds a newline, splitting the table on newlines gives the header and then one row per entry, in order |
| ListTable.RowColumns | src/main.rs:52 | a row whose key and value hold no tab splits on the tab back into the key and the value |
| ListTable.TableOfTwo | src/main.rs:50-53 | two entries give the header, then the first row, then the second |
| ListTable.TableExample | src/main.rs:50-53 | the entries FOO/bar and BAZ/qux give `VARIABLE NAME\tVARIABLE VALUE\nFOO\tbar\nBAZ\tqux` |
| Commands.ListedEntriesComeFromLines | src/main.rs:48-49 | every entry `list` shows is an entry of some raw line of the file |
| Commands.RunBindingsComeFromLines | src/main.rs:28-34 | every variable `run` adds is bound to the value of an entry of some raw line of the file |
| Commands.ListTextLines | src/main.rs:48-53 | the `list` text, split on newlines, is the header and then one row per listed entry, in file order |
| Commands.TrailingNewlineHarmless | src/main.rs:68-71 | a trailing newline changes neither the `run` map nor the `list` text |
| Commands.ListTwoEntries | src/main.rs:48-53 | a file of two well-formed lines and a trailing newline (such as `FOO=bar\nBAZ=qux\n`) lists both entries in file order, and its text is the header and the two rows |
| Commands.RunSingleEntry | src/main.rs:28-34 | a file holding one well-formed `NAME=VALUE` line gives `run` exactly that one variable |
| Commands.RunExample | src/main.rs:28-34 | a file holding `GREETING=hi` gives `run` exactly `GREETING=hi` |

## Left out

- Command-line parsing and help text (`clap`, src/main.rs:11-25, 59): library glue with no logic of the program's own.
- Spawning the child, merging the map into the inherited environment, the stdio inheritance and the `wait` (src/main.rs:35-45): operating-system I/O. `RunEnvironment` is the map handed to `envs`.
- Reading the file and the `expect` panic when it cannot be read (src/main.rs:66-67): file-system I/O. `RawLines` receives the text that was read.
- The TabWriter column alignment and the final print (src/main.rs:54-57): an external library. `ListText` is the text handed to it.
- The `regex` crate: replaced by the hand-written search `IsMatch`, which is proved equal to a literal reading of the pattern.
- `HashMap` iteration order: the map is a Dafny `map<string, string>`, which has no order.
- Rust strings are UTF-8 and Dafny strings are sequences of `char`. The pattern's character classes are ASCII ranges, and splitting works on whole characters, so the difference does not matter here.
- The `list` scenario on the literal text `FOO=bar\nBAZ=qux\n` is proved by `Commands.ListTwoEntries` for every such pair of well-formed lines, not for that literal text alone. Evaluating the whole pipeline on a literal text is too costly for the verifier. `ListTable.TableExample` gives the literal table text for those two entries.

# hmm2parquet in Dafny

A model of the reader in `hmm2parquet.py`. `ProfilesFile.read_file` reads a
HMMER3 profile-HMM text file line by line and fills a dictionary of profiles.
Each `ProfileHMM` keeps:

- a header dictionary, filled from the `KEY value` lines up to the `HMM` line;
- a table with one 30-column row for every line of the score table after the `HMM` line.

The rows go round a cycle of three kinds:

- A **match** row starts with its state index. Twenty emission scores come next, then annotation tokens that are joined into `rest`.
- An **insert** row has twenty scores and takes its state from the match row before it.
- A **delete** row has seven transition scores. A missing or non-numeric score becomes `-1`.

A `//` line registers the open profile under its `name`.

The project has these modules:

- `Wrappers`: the `Option` type.
- `PyText`: the Python string operations the reader relies on. These are `str.split()` and `str.strip()` with Python's whitespace set, plus `startswith`, `endswith`, `join` and `lower`.
- `PyFloat`: which strings `float()` accepts. An automaton over the literal grammar covers sign, digits, `_` grouping, the decimal point, the exponent, and `inf`/`infinity`/`nan` in any case.
- `FloatGrammar`: the grammar of `float()`'s argument as the Python Library Reference gives it, with `digit` narrowed to the ASCII digits, and the proof that the automaton of `PyFloat` accepts exactly the strings of that grammar.
- `Records`: the row record.
  - `NormalRecord` and `DeleteRecord` describe the row layout declaratively.
  - `IsRecordOf` and `TableWF` state the table schema.
  - `Inserted` is what `insert_row` does to a profile.
- `Parser`: the loop of `read_file` as a state machine on values.
  - `Step` handles one line and `Run` handles a whole file.
  - The lemmas cover each kind of line, the reachable-state invariant and what a whole run can register.
- `Hmm2Parquet`: the three classes with the state they update in place.
  - `SharedHeader` is the dict that is the default argument of `ProfileHMM`.
  - `ProfileHMM` has `InsertRow`, `ParseNormalRow` and `ParseDeleteRow`.
  - `ProfilesFile` has `ReadFile` and the loop-body methods it is built from.

  Every method is proved against the functions of `Records` and `Parser`.

The model follows the code as written, including these behaviours:

- `header_mode` is never set back to true after `//`. After the first profile of a file is registered, the only lines that do not raise are `m->m` lines. The opening line of a second profile reaches the table branch with no open profile, and that raises (`Parser.ClosedStep`).
- `row_mode` is not reset on the `HMM` line. It starts at match once per call of `read_file`.
- `ProfileHMM()` uses one dictionary, evaluated once, as the default header for every profile. So every profile built by `read_file` shares a single header. A `NAME` line rebinds `"name"` in it for all of them.
- A key-value line before any `NAME` line raises, because there is no profile yet.
- A `//` with no open profile also raises.
- A profile still open when the file ends is dropped without an error.

The file system does not enter the model. `ReadFile` takes the path, to check the `.hmm` suffix, together with the file's lines, which it strips itself. In the code the default header is one dict shared by the whole module. In the model it is a `SharedHeader` object that the caller passes to `ReadFile`. An exception of any kind is one outcome, `RaisedAtLine(i)`. With that outcome, the profiles and the shared header are left as they were just before line `i`.

## Model

| member | source | states |
|---|---|---|
| Hmm2Parquet.ProfilesFile.ReadFile | hmm2parquet.py:8-51 | A path without the `.hmm` suffix is rejected and nothing changes. Otherwise the outcome comes from `Run` over the lines: completed, or raised at a given line index. The profiles dict and the shared header end in `Run`'s final state. Every registered table stays well formed. Every profile in the dict afterwards was already in it before the call, or holds the shared header object. |
| Hmm2Parquet.ProfilesFile.ReadLine | hmm2parquet.py:17-51 | One loop pass routes on `header_mode`. It succeeds exactly when `Step` does, and the locals and objects then stand for `Step`'s new state. On failure the profiles and the header are unchanged. |
| Hmm2Parquet.ProfilesFile.ReadHeaderLine | hmm2parquet.py:18-31 | A header-mode pass agrees with `Step`. The profiles are unchanged, and the open profile is the old one or a fresh one on the shared header. |
| Hmm2Parquet.ProfilesFile.OpenProfile | hmm2parquet.py:21-25 | A `NAME` line makes a fresh, empty profile on the shared header and binds `"name"` in that header. |
| Hmm2Parquet.ProfilesFile.SetHeaderEntry | hmm2parquet.py:29-31 | The pass succeeds exactly when the line has a token and a profile is open. The lower-cased first token is then bound to the other tokens joined by single spaces. Otherwise the header is unchanged. |
| Hmm2Parquet.ProfilesFile.ReadTableLine | hmm2parquet.py:32-51 | A table-mode pass agrees with `Step`: it handles `//`, `m->m` and the next row of the cycle. If it raises, the profiles are unchanged. |
| Hmm2Parquet.ProfilesFile.constructor | hmm2parquet.py:5-6 | A new collection has no profiles and is valid. |
| Hmm2Parquet.SharedHeader.constructor | hmm2parquet.py:69 | The default header dict starts empty. |
| Hmm2Parquet.ProfileHMM.constructor | hmm2parquet.py:67-73 | A profile keeps the header object it is given. Its table is empty and its `curr_state` is None. |
| Hmm2Parquet.ProfileHMM.InsertRow | hmm2parquet.py:75-88 | The result and the new table and `curr_state` are those of `Inserted`: the row of the given mode is parsed, then appended or raised on. |
| Hmm2Parquet.ProfileHMM.ParseNormalRow | hmm2parquet.py:90-110 | A match or insert line gives `NormalRecord`, or None where the code raises. `curr_state` becomes the match line's first token before any float is parsed. |
| Hmm2Parquet.ProfileHMM.ParseDeleteRow | hmm2parquet.py:112-126 | The appends and the seven guarded inserts build `DeleteRecord` of the line's tokens and the inherited state. |
| Hmm2Parquet.ConvertEmissions | hmm2parquet.py:97-99 | The float loop succeeds exactly when slots 2..21 exist and are float literals. Those slots become floats and every other slot is unchanged. |
| Hmm2Parquet.PadTransitions | hmm2parquet.py:100-107 | The result is the first 22 slots, then seven Nones, then the tokens from slot 22 on joined with no separator. |
| Hmm2Parquet.SplitLine | hmm2parquet.py:91 | The stripped tokens of `line.split()` are the tokens of `split()` themselves. |
| Parser.Start | hmm2parquet.py:13-15 | The definition of the locals before the loop: header mode, `row_mode` match and no open profile. `StartInv` states that they meet the invariant. |
| Parser.ParseKeyValue | hmm2parquet.py:60-61 | The definition of `_parse_key_value`: None where the code raises, else the key and the value. `ParseKeyValueParts` states what they are. |
| Parser.Step | hmm2parquet.py:17-51 | The definition of one loop pass on the parser's locals: None where the pass raises. The lemmas `HeaderLine` to `TableRowLine` state each kind of line, and `StepKeepsInv` gives the invariant. |
| Parser.Run | hmm2parquet.py:16-51 | The definition of the loop over all lines, which stops at the first line that raises. `RunSnoc`, `RunStoppedPrefix`, `RunKeepsInv` and `RunRegistersAtMostOne` state its properties. |
| Parser.ParseKeyValueParts | hmm2parquet.py:60-61 | `_parse_key_value` raises exactly on a line with no token. Otherwise the key is the first token and the value is the other tokens joined by spaces; the strips change nothing. Splitting the value gives those tokens back. |
| Parser.HeaderLine | hmm2parquet.py:18-28 | In header mode a `HMMER3` line changes nothing. A `NAME` line needs a second token and opens an empty profile named by it. An `HMM` line leaves header mode. None of these touches the profiles or `row_mode`. |
| Parser.KeyValueLine | hmm2parquet.py:29-31 | Any other header line succeeds exactly when it has a token and a profile is open. It then binds the lower-cased key to the joined value. |
| Parser.TerminatorLine | hmm2parquet.py:34-37 | `//` succeeds exactly when a profile is open and the header has a name. It registers the profile under that name (replacing any earlier entry), clears the open profile and stays in table mode. |
| Parser.TransitionHeaderLine | hmm2parquet.py:38-39 | In table mode an `m->m` line changes nothing. |
| Parser.TableRowLine | hmm2parquet.py:40-49 | Any other table line succeeds exactly when a profile is open and its row parses. The row is then appended as a record of the current mode and `row_mode` advances round the cycle. |
| Parser.ClosedStep | hmm2parquet.py:34-49 | Once a profile is registered, only `m->m` lines succeed, because header mode is never restored. |
| Parser.StepKeepsInv | hmm2parquet.py:40-49 | Every successful step keeps the invariant. The open profile's table follows the row cycle from match, and `curr_state` is its triple's state. Registered tables stay well formed. |
| Parser.RunSnoc | hmm2parquet.py:16-17 | Running one more line either keeps the earlier stop or applies `Step` to the stripped line. |
| Parser.RunStoppedPrefix | hmm2parquet.py:16-51 | Once a line raises, the rest of the file is not read: the run of the whole file stops at that line. |
| Parser.RunKeepsInv | hmm2parquet.py:16-51 | The invariant holds wherever a run stops or ends. |
| Parser.StartInv | hmm2parquet.py:13-15 | The initial locals satisfy the invariant when the profiles registered earlier are well formed. |
| Parser.RunKeepsTablesWF | hmm2parquet.py:8-51 | Every table that a run registers follows the schema and the row cycle. |
| Parser.StepProfiles | hmm2parquet.py:34-37 | Only a successful `//` changes the profiles, and it rebinds exactly the open profile's name. |
| Parser.RunRegistersAtMostOne | hmm2parquet.py:16-51 | One call of `read_file` leaves the profiles as they were, or rebinds exactly one name and leaves the parser closed. |
| Parser.RunWithoutTerminator | hmm2parquet.py:34-37 | A file with no `//` line registers nothing. |
| Records.ColumnLayout | hmm2parquet.py:72 | The column list has 30 names: state and mode, then twenty one-letter emission columns, then seven `x->y` transition columns, then rest. |
| Records.ListInsert | hmm2parquet.py:95-96 | `list.insert(i, x)` puts `x` at `i`, or at the end when `i` is past it, and keeps every other element in order. |
| Records.Prefixed | hmm2parquet.py:91-96 | After the insertions, the list holds the state (a match line's first token, otherwise the inherited one), then the mode, then the tokens after a match line's state. |
| Records.PrefixedByInsertion | hmm2parquet.py:92-96 | On an insert line the inherited state goes in at index 0, and the mode then goes in at index 1. The result is `Prefixed`. |
| Records.ModeName | hmm2parquet.py:42-48 | The definition of the mode strings `"match"`, `"insert"` and `"delete"` that go into slot 1. |
| Records.ModeNamesDistinct | hmm2parquet.py:41-47 | The three mode strings are distinct, so the comparisons on `row_mode` tell the modes apart. |
| Records.NextMode | hmm2parquet.py:41-49 | The definition of the `row_mode` update in each branch of the cycle. |
| Records.NextModeCycle | hmm2parquet.py:41-49 | The update moves row k's mode to row k+1's mode in the cycle `ModeAt`, and three updates come back to the start. |
| Records.NormalState | hmm2parquet.py:92-95 | The definition of `curr_state` after `_parse_normal_row`: a match line's first token, otherwise the inherited state. `NormalRecordOk` and `AppendKeepsStates` use it. |
| Records.NormalRecord | hmm2parquet.py:90-110 | The definition of the row `_parse_normal_row` returns: None where it raises. `NormalRecordOk`, `NormalRecordSlots`, `NormalRecordParses` and `NormalRecordBySlots` state its properties. |
| Records.TransitionField | hmm2parquet.py:120-124 | The definition of one transition slot of a delete row: the float of token i, or -1. `DeleteRecordSlots` states it slot by slot. |
| Records.DeleteRecord | hmm2parquet.py:112-126 | The definition of the row `_parse_delete_row` returns. `DeleteRecordSlots` and `NullPattern` state its properties. |
| Records.Inserted | hmm2parquet.py:75-88 | The definition of `insert_row` on profile values: success or raise, and the new profile. `InsertedAppends` and `InsertedKeepsInv` state its properties. |
| Records.NormalRecordOk | hmm2parquet.py:90-110 | A normal line parses exactly when it has twenty emission tokens and all are floats. The record then meets the schema for its mode and carries the state the profile keeps. |
| Records.NormalRecordSlots | hmm2parquet.py:90-110 | Slot by slot, the record holds the state, the twenty emissions in line order, and the remaining tokens joined in slot 29. |
| Records.NormalRecordParses | hmm2parquet.py:97-99 | The float loop gets through exactly when slots 2..21 of the prefixed list exist and are float literals. |
| Records.NormalRecordBySlots | hmm2parquet.py:100-107 | Converting slots 2..21 and then padding the tail gives exactly `NormalRecord`. |
| Records.DeleteRecordSlots | hmm2parquet.py:112-126 | A delete record meets the schema and inherits the current state. Slot 22+i holds `float(parsed[i])`, or -1 where the token is missing or is not a float. |
| Records.NullPattern | hmm2parquet.py:104-107 | Emission slots are all None exactly on delete rows. Transition slots are all None exactly on match and insert rows. |
| Records.InsertedAppends | hmm2parquet.py:75-88 | `insert_row` appends exactly one record of its mode when it returns, and leaves the table unchanged when it raises. Delete rows never raise. |
| Records.AppendKeepsRecords | hmm2parquet.py:41-49 | Appending a record of the cycle's next mode keeps every row a record of its position's mode. |
| Records.AppendKeepsStates | hmm2parquet.py:93-95 | Appending a row that carries its triple's state keeps insert and delete rows on their match row's state. |
| Records.AppendKeepsInv | hmm2parquet.py:41-49 | Appending the next row of the cycle, with `curr_state` kept up to date, keeps the profile in the cycle. |
| Records.InsertedKeepsInv | hmm2parquet.py:41-49 | A successful `insert_row` on a profile in the cycle leaves it in the cycle, one mode on. |
| PyText.IsSpace | hmm2parquet.py:17 | The definition of the characters Python's `split()` and `strip()` treat as whitespace. `Strip`, `Split` and the lemmas about them use it. |
| PyText.StartsWith | hmm2parquet.py:19-38 | The definition of `str.startswith`, which routes the lines in `Step`. |
| PyText.EndsWith | hmm2parquet.py:9 | The definition of `str.endswith`, which `ReadFile` uses for its suffix check. |
| PyText.Join | hmm2parquet.py:61 | The definition of `sep.join(ss)`. `SplitJoin` and `StripJoin` state its properties. |
| PyText.StripEach | hmm2parquet.py:91 | The definition of `[el.strip() for el in ts]`: it keeps the length. `StripEachTokens` states that on `split()` tokens it changes nothing. |
| PyText.Strip | hmm2parquet.py:17 | `str.strip()` returns a slice of its argument. Everything cut off at either end is whitespace, and no whitespace is left at either end of the result. |
| PyText.Split | hmm2parquet.py:91 | `str.split()` yields only non-empty tokens with no whitespace in them. |
| PyText.SplitLayout | hmm2parquet.py:91 | Every string is its `split()` tokens laid out between whitespace gaps, with a non-empty gap between neighbouring tokens. |
| PyText.SplitOfLayout | hmm2parquet.py:91 | Conversely, whitespace-free tokens laid out between whitespace gaps, non-empty between neighbours, are exactly what `split()` returns. With `SplitLayout`, this says the tokens are the maximal runs of non-whitespace, in order. |
| PyText.SplitAfterSpace | hmm2parquet.py:91 | Leading whitespace does not change `split()`. |
| PyText.Lower | hmm2parquet.py:31 | The ASCII lower-casing keeps the length. |
| PyText.StripUnpadded | hmm2parquet.py:61 | Stripping a string with no whitespace at either end changes nothing. |
| PyText.StripEachTokens | hmm2parquet.py:91 | Stripping each token of `split()` changes nothing. |
| PyText.SplitJoin | hmm2parquet.py:61 | Splitting the single-space join of tokens gives back the same tokens. |
| PyText.StripJoin | hmm2parquet.py:61 | Stripping the single-space join of tokens changes nothing. |
| PyFloat.IsFloatLiteral | hmm2parquet.py:99 | The definition of the strings `float()` accepts: the automaton ends in an accepting state. `FloatGrammar.IsFloatLiteralIffGrammar` ties it to the grammar of the Python Library Reference, with ASCII digits. |
| PyFloat.LettersSpellWords | hmm2parquet.py:99 | The letters the automaton checks after a sign spell `infinity` and `nan`. |
| PyFloat.RejectIsFinal | hmm2parquet.py:99 | Once the automaton is in its Reject state, no continuation leads out of it. |
| PyFloat.ScoreIsFloat | hmm2parquet.py:99 | Scores as they appear in the table, such as `2.36553` and `-1`, are accepted by `float()`. |
| PyFloat.ExponentAndGroupingAreFloat | hmm2parquet.py:99 | `float()` accepts exponents and `_` digit grouping. |
| PyFloat.BarePointIsFloat | hmm2parquet.py:99 | `float()` accepts a point with digits on only one side. |
| PyFloat.InfinityIsFloat | hmm2parquet.py:99 | `float()` accepts a signed `inf`. |
| PyFloat.NanIsFloat | hmm2parquet.py:99 | `float()` accepts `nan` in any case. |
| PyFloat.StarIsNotFloat | hmm2parquet.py:122 | `*`, which the format writes for a zero probability, and the empty string make `float()` raise. A delete row gets -1 for them. |
| PyFloat.MalformedDecimalsAreNotFloat | hmm2parquet.py:99 | A lone point, two points, or an exponent with no mantissa is rejected. |
| PyFloat.MalformedGroupsAreNotFloat | hmm2parquet.py:99 | A doubled or leading `_` is rejected. |
| PyFloat.MalformedSignsAndWordsAreNotFloat | hmm2parquet.py:99 | A doubled sign or a truncated word is rejected. |
| FloatGrammar.IsFloatLiteralIffGrammar | hmm2parquet.py:99 | `IsFloatLiteral` holds exactly on the strings of the `float()` grammar with ASCII digits: an optional sign, then a number with optional point, `_` grouping and exponent, or `inf`, `infinity` or `nan` in any case. |
| FloatGrammar.AbsFloatValueAccepted | hmm2parquet.py:99 | After the sign, the automaton accepts exactly the unsigned values of the grammar. |
| FloatGrammar.ReachedSound | hmm2parquet.py:99 | Every state other than Reject that the automaton reaches from Signed on a word is one whose grammar fragment the word matches. |
| FloatGrammar.ReachedComplete | hmm2parquet.py:99 | Every word that matches a state's grammar fragment leads the automaton to that state. |
| FloatGrammar.WordReached | hmm2parquet.py:99 | A word lower-cases to `inf`, `infinity` or `nan` exactly when it matches the fragment of the corresponding word state. |
| FloatGrammar.Forward | hmm2parquet.py:99 | A move of the automaton extends a word of the source state's fragment to a word of the target state's fragment. |
| FloatGrammar.Backward | hmm2parquet.py:99 | A word of a state's fragment minus its last character matches the fragment of a state that moves to it on that character. |

## Left out

- File access: `open()` and iteration over the file are replaced by the sequence of lines given to `ReadFile`. The stream's lifetime is not modelled.
- pandas: the DataFrame stays a sequence of 30-slot rows. `DataFrame.append` is taken to append one row, as it does in pandas before version 2. pandas' dtype coercion of the appended rows is not modelled, because it changes how pandas stores the values and not which values the rows hold. `to_parquet` (both `ProfilesFile.to_parquet` and `ProfileHMM.to_parquet`) is not modelled, because it only writes the table out.
- Float values: a converted slot keeps the literal `float()` accepted and not its binary value. Only the syntax of the literal is modelled, not the rounding.
- PyFloat.IsFloatLiteral: accepts ASCII digits only; the Library Reference's `digit` is any Unicode Nd character. Python's `float()` also accepts surrounding whitespace. The tokens of `split()` never have surrounding whitespace.
- PyText.Lower: lower-cases ASCII letters only. Python lower-cases every cased character.
- Exceptions: IndexError, ValueError, AttributeError and KeyError are not told apart; each is the one outcome `RaisedAtLine(i)`. The extension check is the separate outcome `BadExtension`.
- The `else: raise ValueError("Invalid row mode")` branches are unreachable, because the row mode is an enumeration of the three modes.
- `print` calls do not affect state and are not modelled.
- The unused `from ast import parse` import is not modelled.

# miRNAconsTargets (plants): a Dafny model of the pipeline core

`exec/miRNAconsTargets_plants.py` predicts plant microRNA targets by running up
to four external prediction programs over one microRNA file and one target
file. It then reads each program's output into one six-column record format
(`microRNA, target, energy, start, end, score`) and builds a consensus table.
That table counts, for every (microRNA, target) pair, how many distinct
programs predicted it.

This project models the deterministic text handling and aggregation of that
script as pure Dafny functions over strings (`seq<char>`) and sequences of
lines. Each part is paired with lemmas about it.

| file | module | what it models |
|---|---|---|
| `wrappers.dfy` | `Wrappers` | `Option` and `Result` |
| `text.dfy` | `Text` | the Python string operations the script relies on (see below) |
| `number_words.dfy` | `NumberWords` | `numToWords`, the English wording of parameter counts |
| `programs.dfy` | `Programs` | the `programs` table, the validation and reconciliation in `args_check`, the positional-consensus threshold and file list |
| `flags.dfy` | `Flags` | the reserved-flag clean-up of psRobot and tapir parameters in `execute_programs` |
| `fasta.dfy` | `Fasta` | `wd`, the header rewrite of `inputfiles`, the output basename, `oneMiRfile` and the per-record file names |
| `records.dfy` | `Records` | the normalised record and its tab-separated line in `<TOOL>.txt` |
| `parsers.dfy` | `Parsers` | the psRNATarget and psRobot readers of `make_consensus` |
| `tapir.dfy` | `Tapir` | the line-prefix state machine shared by tapir_fasta and tapir_hybrid, and the joining of per-record outputs |
| `consensus.dfy` | `Consensus` | the insertion-ordered consensus fold and its rows |
| `postprocess.dfy` | `Postprocess` | `make_consensus` end to end, including the script's `"@"`-joined dictionary key |

Python's crashes become `Err` values:
- an `IndexError` on a missing column, line or token is `MissingField`;
- a `ValueError` from `int()` is `NotAnInteger`;
- the `TypeError` of `numToWords` above 999 is `FloatIndex`;
- the `AttributeError` of the psRobot flag clean-up is `NoPMatch`;
- each fatal `sys.exit` of `args_check` is its own `ConfigError`.

The file system is reduced to boolean inputs and file contents. "Does this
file exist?" is a boolean parameter. A file is the text it holds, and reading
it line by line is `Text.Lines`.

`Text` models these Python operations:
- `re.split(r'\s+| +|\t+', s)` as `SplitWs`, with Python's whitespace set and the empty leading and trailing tokens;
- `str.split(sep)` as `SplitOn`, and `sep.join` as `JoinWith`;
- `str.replace` as `ReplaceAll`;
- `str.strip()` as `Strip`, and `str.upper()` as `Upper`;
- `int(str)` as `ParseInt`, and `str(int)` as `IntToString`.

Facts about the script that the model keeps:
- The script has four program keys: `PSRT`, `PSROBOT`, `TAPIR_FASTA` and `TAPIR_HYBRID`.
- psRobot blocks are cut at exactly `"\n\n\n"`.
- start and end stay text. Only tapir's end is computed as a number.
- A count mismatch produces exactly two warning lines.
- The rendered tool list is `list(set(...))`, whose order is unspecified. The model keeps it as a set.
- The consensus key is the `"@"`-joined string (see Findings).

Other behaviour the model reproduces:
- A psRobot header line with trailing whitespace ends in an empty token, and that empty token becomes the target (`new[-1]`).
- A psRNATarget row needs at least eight tab-separated columns after stripping.

## Model

| member | source | states |
|---|---|---|
| Fasta.WorkDir | exec/miRNAconsTargets_plants.py:16-20 | an empty directory becomes `.`; a non-empty one is kept exactly when it does not end in `/`, and otherwise loses that one slash, so the result ends in `/` only when the argument ended in `//` |
| Fasta.WorkDirDropsAppendedSlash | exec/miRNAconsTargets_plants.py:16-20 | appending one slash to any directory is undone by the normalisation |
| Programs.ToolOfName | exec/miRNAconsTargets_plants.py:21 | a name is a key of the programs table exactly when some tool carries it, and the tool found carries that name |
| Programs.ToolNamesDistinct | exec/miRNAconsTargets_plants.py:21 | no two tools share a table key |
| Fasta.NormaliseLine | exec/miRNAconsTargets_plants.py:29-34 | a `>` line becomes its longest whitespace-free prefix plus a newline; every other line is copied unchanged |
| Fasta.NormaliseLineIdempotent | exec/miRNAconsTargets_plants.py:29-34 | rewriting an already rewritten line changes nothing |
| Fasta.NormaliseKeepsLines | exec/miRNAconsTargets_plants.py:27-34 | the rewritten lines are still a file's lines: only the last may lack its newline |
| Fasta.NormaliseFasta | exec/miRNAconsTargets_plants.py:24-43 | the rewritten file has as many lines as the input, and line i is the rewrite of input line i |
| Fasta.NormaliseFastaIdempotent | exec/miRNAconsTargets_plants.py:24-43 | normalising a normalised file gives the same text |
| Text.SplitWsTokens | exec/miRNAconsTargets_plants.py:31 | `re.split` on whitespace gives whitespace-free tokens; only the first and the last may be empty; there is one token exactly when the text has no whitespace |
| Text.SplitWsFirst | exec/miRNAconsTargets_plants.py:31 | the first token is the longest whitespace-free prefix of the text |
| Text.SplitWsOfJoin | exec/miRNAconsTargets_plants.py:310 | splitting non-empty words joined by single spaces gives the words back |
| NumberWords.NumToWords | exec/miRNAconsTargets_plants.py:60-96 | the wording succeeds exactly below 1000; zero is `zero`; any result is non-empty and starts with a non-space |
| NumberWords.NumToWordsRoundTrip | exec/miRNAconsTargets_plants.py:60-96 | for every n below 1000, reading the words of `numToWords(n)` back gives n |
| NumberWords.NumToWordsInjective | exec/miRNAconsTargets_plants.py:60-96 | different counts below 1000 are worded differently |
| NumberWords.NumToWordsExamples | exec/miRNAconsTargets_plants.py:60-96 | 10 is `ten`, 15 is `fifteen`, and 1000 raises |
| NumberWords.WordsExamples | exec/miRNAconsTargets_plants.py:80-93 | 21 is `twenty one` and 100 is `one hundred` |
| NumberWords.WordsRoundTrip | exec/miRNAconsTargets_plants.py:80-93 | the word list of every n below 1000 reads back as n |
| Text.SplitOnTokens | exec/miRNAconsTargets_plants.py:116 | `str.split` gives tokens free of the separator, and one token exactly when the separator does not occur |
| Text.SplitOnJoin | exec/miRNAconsTargets_plants.py:116 | splitting a join on a character absent from every token gives the tokens back |
| Programs.ValidateTokens | exec/miRNAconsTargets_plants.py:116-140 | the program list is accepted exactly when every token is accepted; it then keeps the tokens' order and duplicates, each tool named by its token in upper case; otherwise the error is the one for the first rejected token |
| Programs.FirstRejected | exec/miRNAconsTargets_plants.py:116-140 | every token before the returned index is accepted, and the token at it is not |
| Programs.EmptyProgramStringAborts | exec/miRNAconsTargets_plants.py:116-140 | an empty program string is one empty token and aborts as an unknown program |
| Programs.ValidatedPrograms | exec/miRNAconsTargets_plants.py:115-140 | an accepted program string yields one tool per colon token, in order, and names psRNATarget only when its output file exists |
| Programs.StripQuotes | exec/miRNAconsTargets_plants.py:173 | the result has no quote characters and keeps every other character with its multiplicity |
| Text.DeleteChar | exec/miRNAconsTargets_plants.py:173 | deleting a character with `replace` removes every copy and keeps every other character's count |
| Programs.CountWarning | exec/miRNAconsTargets_plants.py:144-170 | wording the mismatch fails only when the counts differ and one is 1000 or more; there are no warning lines when the counts agree and exactly two when they differ |
| Programs.Reconcile | exec/miRNAconsTargets_plants.py:141-175 | there are exactly n parameters; entry i is parameter token i without quotes while tokens last, and `""` after; there are no warnings when the counts agree and exactly two when they differ; the only failure is an unwordable count |
| Programs.ReconcilePadsExample | exec/miRNAconsTargets_plants.py:141-157 | `"x"` for three programs gives `["x", "", ""]` and two warning lines |
| Programs.ArgsCheck | exec/miRNAconsTargets_plants.py:98-176 | a missing microRNA file, then a missing target file, then a non-integer thread count abort with their own errors; after those, the arguments are accepted exactly when validation and reconciliation both succeed, and otherwise the error is validation's or, failing that, reconciliation's; a success carries the parsed thread count, the validated programs, and the parameters and warnings of the reconciliation |
| Programs.ArgsCheckAccepts | exec/miRNAconsTargets_plants.py:98-176 | the arguments are accepted exactly when both files exist, the thread count is an integer, every colon token names a usable program, and the program and parameter counts agree or are both below 1000 |
| Text.IntToStringRoundTrip | exec/miRNAconsTargets_plants.py:358 | `int(str(i)) == i` for every integer |
| Programs.PositionalThreshold | exec/miRNAconsTargets_plants.py:445-448 | for one or more programs the threshold is at least 1 and at most the count, lets at most one program miss, and asks for every program only when there is one |
| Programs.ThresholdOfConfig | exec/miRNAconsTargets_plants.py:445-448 | for an accepted configuration the threshold is the only value with those properties, that is `max(1, n - 1)` for its n programs |
| Programs.PositionalFiles | exec/miRNAconsTargets_plants.py:433-443 | the comma-separated list names `<TOOL>.txt` for each program, in program order |
| Flags.SearchIndex | exec/miRNAconsTargets_plants.py:218 | the index found is where `flag\s+[class]+` first matches; no match starts earlier, and none at all when nothing is found |
| Flags.Search | exec/miRNAconsTargets_plants.py:218-224 | the matched text starts with the flag, occurs at the match index, and has at least one separator and one argument character |
| Flags.RemoveMatch | exec/miRNAconsTargets_plants.py:219-223 | without a match the parameters are unchanged; with one they shrink by at least the match's length |
| Flags.StripPsRobotParamsAsWritten | exec/miRNAconsTargets_plants.py:217-226 | the clean-up crashes exactly when no `-p` match was found but a `-t` match is |
| Flags.PsRobotTKeptAsWritten | exec/miRNAconsTargets_plants.py:224-226 | as written, a found `-t` match survives the clean-up |
| Flags.PsRobotTWithoutP | exec/miRNAconsTargets_plants.py:224-226 | `-t x` crashes the script's clean-up and is removed by the corrected one |
| Flags.StripPsRobotParams | exec/miRNAconsTargets_plants.py:217-226 | the corrected clean-up never lengthens the parameters and leaves them unchanged when no reserved flag matches |
| Flags.PsRobotTRemoved | exec/miRNAconsTargets_plants.py:224-226 | corrected, a found `-t` match shortens the parameters by at least its own length |
| Flags.PsRobotVersionsAgreeWithoutT | exec/miRNAconsTargets_plants.py:217-226 | without a `-t` match the script and the corrected clean-up give the same parameters |
| Flags.StripTapirParams | exec/miRNAconsTargets_plants.py:235-241 | the tapir clean-up never lengthens the parameters, removes at least a found `--mir_file` match, and changes nothing when neither flag matches |
| Fasta.Basename | exec/miRNAconsTargets_plants.py:228 | the basename has neither `/` nor `.` |
| Fasta.BasenameOfPath | exec/miRNAconsTargets_plants.py:228 | the basename of `dir/name.ext` is `name` when the name has no `/` or `.` |
| Fasta.SplitFileNamesDistinct | exec/miRNAconsTargets_plants.py:187 | different record numbers give different split file names |
| Fasta.PairLines | exec/miRNAconsTargets_plants.py:182-192 | there is one file per complete line pair, and file i holds lines 2i and 2i+1 |
| Fasta.SplitMicroRnaFile | exec/miRNAconsTargets_plants.py:178-193 | the split gives one file per complete (header, sequence) pair, file i is lines 2i and 2i+1 of the input and is named by its number |
| Fasta.SplitFileHoldsOneRecord | exec/miRNAconsTargets_plants.py:187-190 | each split file reads back as exactly its two lines |
| Fasta.SplitThenConcat | exec/miRNAconsTargets_plants.py:178-193 | the split files concatenated in order, followed by a trailing lone header, are the input text |
| Fasta.ContentsArePairs | exec/miRNAconsTargets_plants.py:178-193 | the split files are the consecutive line pairs of the input |
| Fasta.RecordOutputNameAsWritten | exec/miRNAconsTargets_plants.py:245 | without a `.fa` in the directory the script's name is the corrected name; with one, the script's name keeps the directory only up to its first `.fa`, and the new extension follows there |
| Fasta.FaInDirectoryRewritten | exec/miRNAconsTargets_plants.py:245 | with output directory `x.fa`, the script's name rewrites the directory too, and the corrected name keeps it |
| Fasta.RecordOutputName | exec/miRNAconsTargets_plants.py:245 | the corrected output name is the split file's path with its `.fa` extension swapped, and it starts with the whole directory |
| Fasta.RecordOutputNamesDistinct | exec/miRNAconsTargets_plants.py:268 | different records write to different outputs |
| Text.ReplaceTrailing | exec/miRNAconsTargets_plants.py:245 | replacing a pattern that occurs only as a suffix swaps just that suffix |
| Text.ReplaceAtFirst | exec/miRNAconsTargets_plants.py:245 | `replace` copies the text up to the leftmost occurrence and writes the replacement there |
| Records.ReadRecordLine | exec/miRNAconsTargets_plants.py:291 | a record without tabs or newlines in its fields reads back from its output line |
| Records.OutputRoundTrip | exec/miRNAconsTargets_plants.py:319-320 | a `<TOOL>.txt` file of such records reads back as the same records |
| Parsers.PsrtRow | exec/miRNAconsTargets_plants.py:290-291 | a table row is read exactly when the stripped line has at least eight tab-separated columns; otherwise it is a missing field |
| Parsers.PsrtRowsPointwise | exec/miRNAconsTargets_plants.py:289-291 | the body reads exactly when every row reads, and record i comes from line i |
| Parsers.PsrtRowOfColumns | exec/miRNAconsTargets_plants.py:291 | a row's record is columns 0, 1, minus column 3, 6, 7 and 2 |
| Parsers.PsrtRoundTrip | exec/miRNAconsTargets_plants.py:285-292 | after two header lines, a table of rows reads back as the records of its rows in order |
| Parsers.PsRobotBlock | exec/miRNAconsTargets_plants.py:308-319 | a block reads exactly when it has five lines, two header tokens and four position tokens; otherwise it is a missing field |
| Parsers.PsRobotBlockShaped | exec/miRNAconsTargets_plants.py:310-318 | a psRobot record has energy `n/a`, a microRNA without `>`, a whitespace-free target and a stripped score |
| Parsers.EmptyBlock | exec/miRNAconsTargets_plants.py:309 | a block is skipped exactly when it is empty |
| Parsers.PsRobotBlocks | exec/miRNAconsTargets_plants.py:307-320 | a read gives one record per non-empty block |
| Parsers.PsRobotBlocksPointwise | exec/miRNAconsTargets_plants.py:307-320 | the blocks read exactly when every non-empty block reads, and record j comes from the j-th non-empty block |
| Parsers.ParsePsRobotRecords | exec/miRNAconsTargets_plants.py:304-320 | a psRobot output gives one record per non-empty `\n\n\n` block, each psRobot-shaped |
| Parsers.PsRobotBlockRoundTrip | exec/miRNAconsTargets_plants.py:308-319 | the block psRobot writes for a hit reads back as that hit's record |
| Parsers.PsRobotRoundTrip | exec/miRNAconsTargets_plants.py:304-320 | a report of hits joined by `\n\n\n` reads back as the hits' records in order |
| Tapir.Flush | exec/miRNAconsTargets_plants.py:334-336 | closing a block emits its record exactly when microRNA and target are both set |
| Tapir.TapirFieldEffect | exec/miRNAconsTargets_plants.py:343-358 | a labelled line never touches the energy; only `score`, `start` and `miRNA_3'` lines can fail; unlabelled lines change nothing |
| Tapir.TapirRunSplit | exec/miRNAconsTargets_plants.py:331-342 | a `#` or `//` line cuts the input into two independent reads: the lines before it, with their open block emitted, then the lines after it from the reset fields; the first error of the two is the error |
| Tapir.StartLine | exec/miRNAconsTargets_plants.py:352-354 | a `start` line sets the start |
| Tapir.SiteLine | exec/miRNAconsTargets_plants.py:355-358 | a `miRNA_3'` line sets the end to the earlier start plus the site length minus one |
| Tapir.ParseTapirRecords | exec/miRNAconsTargets_plants.py:331-366 | every record has its microRNA and target and energy `n/a`, and there is at most one more record than delimiters |
| Tapir.TapirBlock | exec/miRNAconsTargets_plants.py:332-358 | one hit's block is read as that hit's record followed by whatever the rest reads as |
| Tapir.TapirRoundTrip | exec/miRNAconsTargets_plants.py:326-366 | a tapir output of hits reads back as the hits' records in order |
| Tapir.JoinedRunsRoundTrip | exec/miRNAconsTargets_plants.py:201-204 | the per-record outputs concatenated in split order read back as all hits' records in that order |
| Consensus.Add | exec/miRNAconsTargets_plants.py:293-297 | a new key is appended to the order, a known key keeps it; the key's list gains the tool at its end; every other key's list is unchanged |
| Consensus.AddWellFormed | exec/miRNAconsTargets_plants.py:294-297 | one step keeps every key listed once with a non-empty tool list |
| Consensus.CollectWellFormed | exec/miRNAconsTargets_plants.py:281-409 | the fold lists every key once, each with a non-empty tool list |
| Consensus.CollectContents | exec/miRNAconsTargets_plants.py:293-297 | the dictionary holds exactly the emitted keys, and each key's list is the tools of its hits in emission order |
| Consensus.CollectOrder | exec/miRNAconsTargets_plants.py:294-295 | a key listed earlier was first emitted earlier |
| Consensus.OrderAppendOnly | exec/miRNAconsTargets_plants.py:294-295 | the key order after any prefix of the hits is a prefix of the final order |
| Consensus.RowsCoverKeys | exec/miRNAconsTargets_plants.py:412-420 | every emitted key has a row, every row's key was emitted, and no key has two rows |
| Consensus.RowSupport | exec/miRNAconsTargets_plants.py:416-417 | a row's tools are exactly the tools that emitted its key, and its support is their number, between 1 and 4 |
| Consensus.RowsInFirstSeenOrder | exec/miRNAconsTargets_plants.py:412 | rows follow the order in which their keys were first emitted |
| Consensus.RepeatedHitChangesNothing | exec/miRNAconsTargets_plants.py:296-297 | a hit repeating an earlier tool and key changes no row |
| Postprocess.ParseOutputShaped | exec/miRNAconsTargets_plants.py:282-408 | every record a program's reader returns has that program's shape |
| Postprocess.ParseAll | exec/miRNAconsTargets_plants.py:282-409 | all outputs are read exactly when every reader succeeds, each in program order; otherwise the error is that of the first program, in program order, whose output does not read |
| Postprocess.AllHitsMembers | exec/miRNAconsTargets_plants.py:282-409 | a (tool, key) hit is folded exactly when that program emitted a record with that key |
| Postprocess.MakeConsensus | exec/miRNAconsTargets_plants.py:280-420 | the report exists exactly when every output reads, and it carries each program's records in program order; otherwise the error is the first failing program's |
| Postprocess.ConsensusSupport | exec/miRNAconsTargets_plants.py:410-420 | a consensus row's tools are exactly the programs that emitted its pair, and its support, between 1 and 4, is their number |
| Postprocess.ConsensusCoversRecords | exec/miRNAconsTargets_plants.py:412-420 | every emitted record's pair has a consensus row |
| Postprocess.SplitKeyString | exec/miRNAconsTargets_plants.py:413-415 | a joined key without `@` in its identifiers splits back into its two identifiers |
| Postprocess.KeyStringInjective | exec/miRNAconsTargets_plants.py:293 | without `@` in identifiers, different pairs give different joined keys |
| Postprocess.RowAsWritten | exec/miRNAconsTargets_plants.py:413-419 | a row reads from a joined key exactly when it has at least two `@` parts; the support is the number of distinct tools |
| Postprocess.AtInIdsMergeRows | exec/miRNAconsTargets_plants.py:293 | pairs `(a@b, c)` and `(a, b@c)` merge into one row `(a, b)` of support 2 as written, and stay two rows of support 1 keyed by the pair |
| Postprocess.AsWrittenAgrees | exec/miRNAconsTargets_plants.py:410-420 | when no identifier contains `@`, the script's rows are the pair-keyed rows |

## Left out

- Every external process is left out: the prediction programs, `cat`, `rm`, `mkdir` and the `java -jar` positional-consensus call. The model covers the strings handed to them only where they decide file names.
- The thread pool and queue are left out. Per-record outputs are modelled as concatenated in split order, which is what `joinTmpFiles` produces once every job has finished.
- The log file, ANSI colour codes on stderr, `sys.exit` and `argparse` are left out. Fatal paths are `Err` results.
- File existence is a boolean input. File reads are the file's text.
- A missing file and a crash partway through are left out. After such a crash the output files are partly written; the model only says which error ends the run.
- Newline translation in text mode is left out. Files are seen after it.
- `int()` accepts non-ASCII Unicode digits. `Text.ParseInt` accepts ASCII digits, underscores between digits, a sign and surrounding whitespace only.
- `str.upper()` is modelled for ASCII and the characters whose upper case is ASCII. Other case mappings are left out.
- The rendering of the tool list in `consensus.txt` is left out. Its order comes from Python's set hashing.
- The text of `consensus.txt` is left out. Rows are modelled as values.
- The `cmd.replace("  ", " ")` collapse is left out, because it only tidies shell command strings.
- The closing `BACKVALUE` log lines are left out.
- Programs.CountWarning: the message text of the count warnings is not stated. The contract says there are none when the counts agree, exactly two when they differ, and when wording them fails.
- Flags.InClass: the `\d` of the `-p` pattern matches every Unicode decimal digit in a Python 3 string pattern, such as `'٣'`. The model's `Digits` class takes ASCII digits only.
- Flags.StripTapirParams: the bound on how much a found `--target_file` match shortens the parameters is not stated. Only the `--mir_file` bound and the no-match case are.
- Tapir.TapirFieldEffect: does not say which field each labelled line sets in general. Those effects are stated per label by `Tapir.StartLine`, `Tapir.SiteLine` and the round-trip lemmas.

## Findings

| source | as written | input that shows it | evidently intended | confidence | as-written member | corrected member |
|---|---|---|---|---|---|---|
| exec/miRNAconsTargets_plants.py:224-226 | after finding a `-t` match, psRobot's clean-up deletes `p.group(0)` again | parameters `-t x`: no `-p` match, so `p.group(0)` raises `AttributeError`; with a `-p` match the `-t` flag stays in the command | delete the `-t` match `t.group(0)` | high (not executed) | Flags.PsRobotTWithoutP | Flags.PsRobotTRemoved |
| exec/miRNAconsTargets_plants.py:293, :413-415 | the consensus key is `"@".join([mR, T])`, split back with `split("@")` | psRNATarget hit `(a@b, c)` and psRobot hit `(a, b@c)` share key `a@b@c` and become one row `a, b` with support 2 | key by the (microRNA, target) pair | high (not executed) | Postprocess.AtInIdsMergeRows | Consensus.RowsCoverKeys |
| exec/miRNAconsTargets_plants.py:245, :268 | the per-record output name is `tfile.replace(".fa", ext)`, which rewrites every `.fa` in the path | output directory `x.fa`: record 0's output becomes `x.tapir_fasta/tmp/0.tapir_fasta`, under a directory the script never created | swap only the trailing `.fa` extension | high (not executed) | Fasta.FaInDirectoryRewritten | Fasta.RecordOutputNamesDistinct |

The as-written halves are `Flags.StripPsRobotParamsAsWritten`,
`Postprocess.ConsensusRowsAsWritten` and `Fasta.RecordOutputNameAsWritten`.
The corrected halves are `Flags.StripPsRobotParams`,
`Consensus.ConsensusRows` and `Fasta.RecordOutputName`, and the rest of the
model uses these. `Flags.PsRobotVersionsAgreeWithoutT`,
`Postprocess.AsWrittenAgrees` and the contract of
`Fasta.RecordOutputNameAsWritten` prove that each pair agrees on the inputs
the bug does not reach.

# ToolX in Dafny

A model of the parts of ToolX that are hardest to get right, with proofs of what those parts are
for. `dafny verify dfyconfig.toml` checks everything.

| modules | component | main results |
|---|---|---|
| `FsxNames` `FsxStore` `FsxUndo` `FsxSound` `FsxReplay` `FsxRestart` `FsxLog` `FsxRollback` `FsxPlan` `FsxPolicy` `FsxEngine` `FsxRollbackCrash` | fsx batch engine with its write-ahead undo journal | `FsxEngine.Engine.Run`, `FsxEngine.CrashOutcome`, `FsxEngine.Engine.RecoverFromJournal`, `FsxEngine.Engine.Rollback`, `FsxRestart.RestartIff`, `FsxRestart.BroughtBackIsLost`, `FsxEngine.FormedOutcome`, `FsxPolicy.ExistingFilesKept`, `FsxPolicy.ConflictFailsPlan` |
| `FsxJournal` `FsxJournalGrammar` | the FSXJ text format | `FsxJournal.JournalReads`, `FsxJournal.AcceptedText`, `FsxJournalGrammar.TextIff` |
| `FsxTar` `FsxTarFormat` | ustar writer and reader | `FsxTar.TarRoundTrip`, `FsxTarFormat.ReadsIff`, `FsxTarFormat.HeaderLayout` |
| `CfgPath` `CfgPathGrammar` `CfgNode` | cfgx path grammar, `GetNode` and `SetNode` | `CfgPath.FormatParses`, `CfgPathGrammar.ParseIff`, `CfgPath.AtOrBelowIsTokenPrefix`, `CfgNode.WriteFailsIff`, `CfgNode.DivergingPathKept`, `CfgNode.NothingElseAppears` |
| `CfgMerge` `CfgCompose` `CfgPrecedence` `CfgDiff` | deep merge with source attribution, snapshot diff | `CfgMerge.MergeInternal`, `CfgCompose.ComposeLayers`, `CfgPrecedence.Precedence`, `CfgDiff.BuildDiffEntries`, `CfgDiff.DiffMisleadsIff` |
| `CfgJson` `CfgJsonRoundTrip` `CfgJsonStrings` `CfgJsonNumbers` `CfgJsonGrammar` | JSON printer and parser | `CfgJsonRoundTrip.JsonRoundTrip`, `CfgJsonGrammar.DocumentIff` |
| `AsyncDispatch` `AsyncPool` `AsyncGroup` | asyncx thread pool and task groups | `AsyncPool.ThreadPool.JoinEnd`, `AsyncDispatch.WeightedService`, `AsyncDispatch.TakenInTime` |
| `HttpUrl` `HttpChunked` `HttpRedirect` `HttpHops` `HttpPool` | httpx dot segments, chunked bodies, redirects, socket pool | `HttpUrl.NormalizedIsNormal`, `HttpUrl.ParentRemoved`, `HttpChunked.Decoder.ReadBody`, `HttpChunked.DecodeIff`, `HttpRedirect.NoCredentialsAfterCrossing`, `HttpHops.EachHop`, `HttpPool.ConnectionPool.Release` |

Code that works by changing things is modelled as methods and classes over mutable fields, each
tied by its `ensures` to a specification function; what the code promises is then proved about
those functions and about the class invariants. Where such a function is an algorithm itself (a
parser, a merge, a plan, a redirect), a separate module says what it computes without naming it:
the `Iff` lemmas give the accepted texts as grammars, and the laws in `FsxPolicy`, `CfgPrecedence`
and `HttpHops` tell the outcome from what there was before.

## How to read the fsx model

The namespace is a flat map from path to entry (content, kind, stamp). `Engine` is the state of a
run. Every step that changes the disk or the journal before a rollback starts is followed by a
ghost observation that adds the current (disk, journal) to `snapshots`; the rollback returns its
own states as `midway`. So "every state a crash can leave behind" is a list that the contracts
quantify over. The operating system may refuse any operation; each refusal counts in `faults`. A
refused journal append may or may not have reached the disk.

`Temps(origin)` are the names `make_temp_path` can give out in this run; "visible" files are all
others. A staging file that is written before its removal record exists may stay behind after a
crash, which is why states are compared on visible files.

The intended effect of a plan is `FsxPlan.PlanEffect`, a few lines on a map of visible files that
know nothing of staging names or journals. `Run` is proved against it, and `FsxPolicy` says what it
means under each conflict policy.

What a crash does depends on where it strikes.

- Up to the start of a rollback, and after the journal is gone: for every plan the first recovery
  succeeds and restores the initial visible files, or there is nothing to recover and the files are
  all old or all new (`CrashOutcome`).
- Inside a rollback or a recovery this is false in general. `FsxRollbackCrash` has two inputs. A
  copy over an existing file is followed by a failing step, the rollback is complete, the process
  dies before the journal is deleted: the next recovery reports success and the restored file is
  gone. A replacement record is durable although its append was reported as failed, the rollback
  deletes its witnesses, the process dies: the next recovery reports a conflict.
- The exact condition, for every plan and every such state, is `FilesReturn`
  (`FsxRestart.RestartIff`, `FsxRestart.CutShortIff`, `FsxEngine.FormedOutcome`): follow each file
  by itself through the records, newest first; recovery restores exactly if no file meets another
  where the code tests for one, and each ends where the initial disk has it. It takes the journal
  and the names on the disk. `BroughtBackIsLost` is the main way to violate it: an undo has brought
  back a path that a later record takes away. Not every such clash is fatal:
  `ThereAndBackReturns` (restores), `RenameOverConflicts` (refused, nothing lost) and
  `ExchangeReplayed` (succeeds with two files exchanged) show the range.
- For an orderly plan no clash arises and any number of crashes converges (`EachRestartable` in the
  contracts of `RecoverFromJournal`, `Rollback` and `Run`). `FsxPlan.Orderly` is a condition on the
  plan, the policy and the visible names before the run: no action puts a file where an earlier one
  has taken one from, and, if existing files may be overwritten, replaces, renames and copies go to
  names that are free at first and that no earlier action uses. Plans of atomic writes are orderly
  (`WritesAreOrderly`), and so are removals, renames, copies and replaces onto fresh names
  (`FreshTargetsAreOrderly`). For such a plan recovery restores from every state of a rollback, up
  to an operation the system refuses, unless a failed append was durable.

## How to read the other models

cfgx: the merged values and the source trace are computed independently and meet only through
printed path strings. The trace is cleaned up by textual prefix erasure; `AtOrBelowIsTokenPrefix`
is what makes this sound. `ComposeLayers` ends with both in agreement. Trees must not repeat keys
in an object, because the JSON parser admits repeated keys (src/cfgx.cpp:1218) and lookups then
see only the first. A leaf root is filed under the key `value` in a diff; `DiffMisleadsIff` says
exactly which pairs of roots this confuses.

asyncx: each region under the pool lock is one method of `ThreadPool`, so a run is any sequence of
method calls, and `Valid()` holds in every reachable state. It contains the conservation laws:
accepted = finished + executing + queued + discarded as multisets with the counters in step;
scheduled created = pending + taken out + cancelled; queue within capacity and in order of its
sequence numbers; every worker accounted for. A ledger of ghost history is kept in a single ghost
value.

httpx: the chunked decoder is compared with a recursive one-shot decoder on the whole stream. The
redirect loop is compared with a chain of requests in which each follows from the reply before it.
Each pooled handle is in exactly one of pooled, in use, closed.


## Model

| member | source | states |
|---|---|---|
| CfgPath.EscapePathSegment | src/cfgx.cpp:3546-3561 | the loop prints exactly the escaped segment of the grammar: each of `\ . [ ]` gets a backslash, the empty key becomes `[]` |
| CfgPath.FormatPathTokens | src/cfgx.cpp:3563-3575 | the accumulating loop prints exactly the path of the grammar that the round-trip lemmas below are about |
| CfgPath.ReadIndex | src/cfgx.cpp:1898-1945 | the index loop reads the longest digit run, refuses values above SIZE_MAX before they wrap, and reports each malformed form as its own error |
| CfgPath.ParsePath | src/cfgx.cpp:1849-1971 | the one-pass loop over (position, current key, pending state) returns exactly what the recursive path grammar says, every error case included |
| CfgPath.PrintedTokensParse | src/cfgx.cpp:1849-1971 | at any boundary, the parser consumes a printed token list to precisely the state that list stands for, whatever text follows |
| CfgPath.FormatParses | src/cfgx.cpp:3546-3575 | parsing a printed path gives the tokens back, for every non-empty token list with indices within SIZE_MAX: empty keys and keys made of `\ . [ ]` included |
| CfgPath.FormatInjective | src/cfgx.cpp:3546-3575 | two token lists with the same printed path are the same list, with no bound on indices |
| CfgPath.AtOrBelowIsTokenPrefix | src/cfgx.cpp:1440-1458 | a printed path equals `path` or continues it with `.` or `[` exactly if its token list extends the token list of `path`; no sibling qualifies |
| CfgPath.FormatExtends | src/cfgx.cpp:265-272 | printing a longer token list continues the printed shorter one at a boundary |
| CfgPathGrammar.ParseIff | src/cfgx.cpp:1849-1971 | a text is accepted, and read as these tokens, exactly if it is names and brackets that spell them with dots in the places where they may be; a name escapes `\`, `.` and `[`, empty brackets are the empty key |
| CfgPathGrammar.NameFound | src/cfgx.cpp:1862-1893 | the characters up to the next unescaped dot or bracket are one name |
| CfgPathGrammar.BracketParses | src/cfgx.cpp:1898-1945 | digits in brackets are an index if they fit, no digits the empty key, whatever legal text follows |
| CfgNode.FindObjectIndex | src/cfgx.cpp:786-796 | finds the first entry of a key, and says so only if there is one |
| CfgNode.GetNode | src/cfgx.cpp:1973-2015 | walks to exactly the node at the parsed path, with the first missing key, range error or kind mismatch on the way as its error |
| CfgNode.OpenContainer | src/cfgx.cpp:2050-2092 | null becomes a container, a missing key or index is filled with null, and any other kind is refused; by how much the container grows is stated by `PathContainersGrow` |
| CfgNode.Document.SetNode | src/cfgx.cpp:2027-2104 | the in-place walk leaves exactly the tree of the recursive write, about which the lemmas below say what is read, kept and added; on any error (bad path, oversized index, kind mismatch on the way) the root is unchanged |
| CfgNode.ReadBackWritten | src/cfgx.cpp:2027-2104 | after a successful write the same path reads back the written value |
| CfgNode.DivergingPathKept | src/cfgx.cpp:2027-2104 | every path that leaves the written one at some token and was readable before still reads the same node, array expansion included |
| CfgNode.WriteFailsIff | src/cfgx.cpp:2050-2087 | a write fails exactly if some node already on the path is of a kind that cannot hold the next token |
| CfgNode.NullNeverBlocks | src/cfgx.cpp:2052-2082 | below a null nothing can fail: once the walk has created a node no kind mismatch can follow |
| CfgNode.AtPutAt | src/cfgx.cpp:1973-2104 | replacing the node at a path and reading that path gives the new node |
| CfgNode.PutAtTwice | src/cfgx.cpp:1973-2104 | a second replacement at a path makes the first one irrelevant |
| CfgNode.PutAtSame | src/cfgx.cpp:1973-2104 | replacing a node by itself changes nothing |
| CfgNode.ReadsIff | src/cfgx.cpp:1973-2015 | a path reads a node exactly if there is a walk from the root along its tokens that ends there, first entry of each key, each index in range |
| CfgNode.NothingElseAppears | src/cfgx.cpp:2027-2104 | what is readable beside the written path after a write was there before, or is a null element below an array index the write names |
| CfgNode.PathContainersGrow | src/cfgx.cpp:2050-2092 | each array on the path ends up as long as it was or just long enough for the index, with nulls in between; each object keeps its entries in order and gains at most the one key, at the end |
| CfgMerge.CollectSourceTrace | src/cfgx.cpp:1418-1438 | adds an entry for exactly the leaves (scalars and empty containers) at and below the path, under their printed paths, and touches no other key |
| CfgMerge.LowerBound | src/cfgx.cpp:1440-1458 | finds the smallest key not below the bound |
| CfgMerge.ErasePrefix | src/cfgx.cpp:1444-1457 | the loop that stops at the first key without the prefix has removed every key with it |
| CfgMerge.PrefixBlockContiguous | src/cfgx.cpp:1444-1457 | between a prefix and any key with that prefix all keys in lexicographic order have the prefix, which is why that loop may stop early |
| CfgMerge.EraseSourceTraceSubtree | src/cfgx.cpp:1440-1458 | removes exactly the key itself and its textual continuations by `.` or `[`; at the root it removes everything |
| CfgMerge.ErasedSubtree | src/cfgx.cpp:1440-1458 | the textual erasure removes exactly the entries whose token path extends the given one and keeps the owner of every other entry |
| CfgMerge.ReplacedSubtree | src/cfgx.cpp:1537-1542 | erasing a subtree and collecting another in its place leaves a trace with exactly the new leaves there, owned by the layer, and everything else as it was |
| CfgMerge.AttributeAppended | src/cfgx.cpp:1510-1523 | appended array elements are attributed to the layer under their new indices, the elements before them keep their owners |
| CfgMerge.MergeInternal | src/cfgx.cpp:1460-1544 | the in-place merge gives the deep-merged tree, and the trace it maintains by strings has exactly that tree's leaves: those the overlay put there owned by the layer, the others by their previous owner |
| CfgMerge.MergeOneKey | src/cfgx.cpp:1477-1497 | merging one more key extends the attribution of the keys before it to that key without disturbing them |
| CfgMerge.AppendOneItem | src/cfgx.cpp:1510-1523 | an appended array element is attributed under its new index without disturbing the elements before it |
| CfgCompose.LeafComesFrom | src/cfgx.cpp:1460-1544 | each leaf of a merged tree holds the overlay's value if the overlay put it there, and otherwise the lower tree's value with the overlay silent about that path |
| CfgCompose.MergedUnique | src/cfgx.cpp:1460-1544 | merging trees without repeated keys gives a tree without repeated keys |
| CfgCompose.ExplainsOneMore | src/cfgx.cpp:2347-2389 | if the trace explains a stack of layers, merging one more layer gives a trace that explains the taller stack |
| CfgCompose.MergeLayer | src/cfgx.cpp:2347-2389 | a missing layer changes nothing; a present one is merged and the trace keeps explaining the result |
| CfgCompose.ComposeLayers | src/cfgx.cpp:2334-2402 | the result is base, env, remote, local and runtime merged in that order; the reported sources are exactly its leaf paths; without array appending each names the topmost layer that has anything to say there, and that layer holds the composed value; it fails only if the runtime overrides do |
| CfgCompose.ReportSources | src/cfgx.cpp:2391-2399 | the report lists each traced leaf exactly once, in ascending order of its printed path (a leaf root under `value`) |
| CfgPrecedence.UpperDecides | src/cfgx.cpp:1460-1544 | what the overlay has at a path other than an object (and, where arrays are appended, other than an array) is what the merged tree has there |
| CfgPrecedence.SilenceKeeps | src/cfgx.cpp:1460-1544 | where the overlay comes to an object without the next key, the merged tree has what the lower one has |
| CfgPrecedence.OtherKindReplaced | src/cfgx.cpp:1460-1544 | a node is replaced as a whole unless both trees have an object there, or two arrays to append |
| CfgPrecedence.ArraysAppended | src/cfgx.cpp:1510-1523 | appended arrays hold the lower elements, then those of the overlay |
| CfgPrecedence.MergedOrder | src/cfgx.cpp:1468-1503 | a merged object has the lower keys in their order, then the overlay's new ones in theirs |
| CfgPrecedence.TopmostDecides | src/cfgx.cpp:2347-2389 | in any stack of layers the topmost one that says anything at a path decides what is there |
| CfgPrecedence.Precedence | src/cfgx.cpp:2334-2402 | runtime overrides come before the local layer, this before remote, this before the environment, this before the base |
| CfgDiff.NodeEquals | src/cfgx.cpp:548-618 | the loop with early exits decides structural equality that ignores the order of object entries; on leaves this is equality of kind and value (`LeavesEqualIff`) |
| CfgDiff.FlattenLeafNodes | src/cfgx.cpp:620-664 | files exactly the leaves below a path under their printed paths and touches no other key |
| CfgDiff.BuildDiffEntries | src/cfgx.cpp:666-715 | lists exactly the leaf paths that only the new tree has, only the old one has, or that hold different values in the two, with their layers, once each and in ascending order, and lists nothing exactly if the two trees, as they are filed, are equal |
| CfgDiff.EqualSameLeaves | src/cfgx.cpp:548-664 | equal trees have the same leaf paths with the same values |
| CfgDiff.SameLeavesEqual | src/cfgx.cpp:548-664 | trees with the same leaf paths and the same values there are equal: leaves determine the whole tree |
| CfgDiff.EmptyDiffIsEquality | src/cfgx.cpp:666-715 | for trees without repeated keys the diff of their flattened forms is empty exactly if they are equal |
| CfgDiff.SortByPath | src/cfgx.cpp:713-713 | the final sort keeps exactly the entries and puts them in ascending order of their paths |
| CfgDiff.FlatOfFiled | src/cfgx.cpp:620-664 | flattening files exactly the leaves of the tree, a leaf root as the object that holds it under `value` |
| CfgDiff.DiffMisleadsIff | src/cfgx.cpp:620-664 | an empty diff and equality disagree on two roots exactly if one is a leaf and the other an object holding just that leaf under `value` |
| CfgDiff.LeavesEqualIff | src/cfgx.cpp:548-618 | two nodes of which one is a leaf are equal exactly if they are the same kind and value |
| CfgJson.EscapeJsonString | src/cfgx.cpp:798-843 | the loop escapes quote, backslash and every control character and keeps all other bytes |
| CfgJson.AppendArray | src/cfgx.cpp:1342-1374 | the loop with its comma and newline conditions prints exactly the specified array text at any depth and indent |
| CfgJson.AppendObject | src/cfgx.cpp:1375-1412 | the same for objects, keys escaped and separators by indent |
| CfgJson.AppendJson | src/cfgx.cpp:1304-1414 | prints exactly the specified text of the node behind what was there |
| CfgJson.ToJson | src/cfgx.cpp:3396-3403 | a negative indent prints like indent 0 |
| CfgJson.JsonParser.ReadUnicodeQuad | src/cfgx.cpp:929-948 | reads four hex digits or refuses, and never runs past the text |
| CfgJson.JsonParser.ReadUnicodeEscape | src/cfgx.cpp:1007-1052 | combines surrogate pairs, refuses lone ones and emits UTF-8; that the bytes decode to the code points of the escapes is stated by `LiteralReadsIff` |
| CfgJson.JsonParser.ReadEscape | src/cfgx.cpp:974-1055 | each escape letter gives its character; others are errors |
| CfgJson.JsonParser.ParseStringLiteral | src/cfgx.cpp:950-1059 | the loop reads exactly the string literal of the grammar and stops right behind it; control characters and missing quotes are errors |
| CfgJson.JsonParser.ParseNumber | src/cfgx.cpp:1061-1134 | takes the maximal run of number characters, checks it against the JSON number syntax and yields the integer it denotes, or an opaque token for other numbers |
| CfgJson.CheckNumber | src/cfgx.cpp:1081-1111 | the cursor checks accept exactly the JSON number syntax: no leading zeros, no bare point, no bare exponent |
| CfgJson.JsonParser.ParseArray | src/cfgx.cpp:1136-1177 | the loop reads exactly the array grammar, each malformed end as its own error; the position strictly increases |
| CfgJson.JsonParser.ParseEntry | src/cfgx.cpp:1197-1218 | reads exactly one key, colon and value |
| CfgJson.JsonParser.ParseObject | src/cfgx.cpp:1179-1235 | the loop reads exactly the object grammar, repeated keys admitted; the position strictly increases |
| CfgJson.JsonParser.ParseValue | src/cfgx.cpp:1237-1301 | dispatches on the first character exactly as the grammar does; terminates on every text |
| CfgJson.JsonParser.Parse | src/cfgx.cpp:857-872 | accepts exactly one value with blank text around it |
| CfgJson.ParseJson | src/cfgx.cpp:3390-3394 | the class-based parser computes the text grammar on every input; which texts it accepts for which trees is stated by `DocumentIff` |
| CfgJsonRoundTrip.EscapedStringReads | src/cfgx.cpp:798-843 | reading an escaped byte string gives it back for every byte, control and high bytes included, whatever follows |
| CfgJsonRoundTrip.SignedIsNumber | src/cfgx.cpp:1061-1134 | every int64, both extremes included, prints as a JSON number that is read as an integer of that value |
| CfgJsonRoundTrip.ScalarReads | src/cfgx.cpp:1304-1341 | a printed scalar followed by any delimiter reads back as itself |
| CfgJsonRoundTrip.ItemsRead | src/cfgx.cpp:1342-1374 | the printed rest of an array reads back the items still to come, at every depth and indent |
| CfgJsonRoundTrip.EntriesRead | src/cfgx.cpp:1375-1412 | the printed rest of an object reads back the entries still to come, in order, at every depth and indent |
| CfgJsonRoundTrip.ValueReads | src/cfgx.cpp:1304-1414 | a printed node followed by any delimiter reads back as exactly that node and leaves exactly the rest |
| CfgJsonRoundTrip.JsonRoundTrip | src/cfgx.cpp:3390-3403 | ParseJson of ToJson is the node itself, for every node without doubles and every indent |
| CfgJsonRoundTrip.JsonInjective | src/cfgx.cpp:3390-3403 | two nodes without doubles that print alike are the same node |
| CfgJsonStrings.DecodedIff | src/cfgx.cpp:1026-1051 | a UTF-8 decoder (section 3 of RFC 3629) finds a code point at the front of a text exactly if the text starts with the bytes the parser emits for it; the code point is a scalar value |
| CfgJsonStrings.QuadIff | src/cfgx.cpp:929-948 | four characters are read as a number exactly if they are hexadecimal digits of either case that make it up |
| CfgJsonStrings.PieceReads | src/cfgx.cpp:974-1051 | a plain character, a short escape, a `\u` escape and a surrogate pair are each read as bytes that decode to what they stand for |
| CfgJsonStrings.LiteralReadsIff | src/cfgx.cpp:950-1059 | a string literal is read as these bytes exactly if it is plain characters and escapes between quotation marks that stand for them; lone surrogates, other escapes and control characters are refused |
| CfgJsonStrings.PrintedPlainly | src/cfgx.cpp:798-843 | a printed string has no control characters, and what needs no escape is printed as itself |
| CfgJsonNumbers.NumeralIff | src/cfgx.cpp:1076-1118 | a number token is accepted exactly if it is sign, whole part without leading zeros, fraction and exponent (section 6 of RFC 8259) |
| CfgJsonNumbers.NumberNodeIff | src/cfgx.cpp:1061-1134 | a token is read as an integer exactly if it is what prints for that int64, or a negative zero; as a double exactly if it has a fraction or an exponent |
| CfgJsonNumbers.DecimalOfNumeral | src/cfgx.cpp:1112-1123 | a numeral without leading zeros is the one printed for its value |
| CfgJsonGrammar.TextReads | src/cfgx.cpp:1136-1301 | every text of a node, whatever blanks it has inside, is read as that node in front of anything that does not continue a number |
| CfgJsonGrammar.ValueFound | src/cfgx.cpp:1136-1301 | whatever is read as a value is blanks and a text of that value |
| CfgJsonGrammar.DocumentIff | src/cfgx.cpp:857-872 | a document is accepted, and read as this tree, exactly if it is a text of the tree (RFC 8259, vertical tab and form feed counted as blanks, bytes above 0x7F taken as they are) with nothing but blanks around it |
| FsxNames.CarriesStagingInfix | src/fsx.cpp:2178-2178 | the recovery guard finds the staging infix exactly where a path has it |
| FsxNames.TempNameIsStaging | src/fsx.cpp:99-107 | every name `make_temp_path` builds carries the staging infix, so recovery will remove it |
| FsxNames.SerialUnique | src/fsx.cpp:99-107 | a name ends in one serial only |
| FsxNames.NextNameFresh | src/fsx.cpp:99-107 | names built from a serial that is not yet used differ from every name built before |
| FsxNames.TempIsStaging | src/fsx.cpp:99-107 | every name of a run's staging family carries the staging infix |
| FsxNames.AtOrWithinIff | src/fsx.cpp:138-154 | a path other than the root is at or within another exactly if its components begin with those of the other |
| FsxStore.CloseUndoOne | src/fsx.cpp:2125-2250 | undoing one record on two disks that agree on everything but stamps of unpinned files and on loose paths succeeds on both or neither and keeps them in agreement |
| FsxStore.CloseUndoAll | src/fsx.cpp:2125-2250 | the same for a whole log, undone newest first |
| FsxUndo.RestoresTransfers | src/fsx.cpp:800-838 | if undoing a log restores the initial files on one disk it does so on every disk that agrees with it where the log looks |
| FsxUndo.StagingWriteKeeps | src/fsx.cpp:875-908 | writing or deleting a staging file that the log only removes does not change what undoing restores |
| FsxUndo.RecordRemovalKeeps | src/fsx.cpp:910-913 | recording the removal of a staging file does not change what undoing restores |
| FsxUndo.MoveKeeps | src/fsx.cpp:848-873 | performing a recorded move does not change what undoing restores |
| FsxUndo.ReplaceKeeps | src/fsx.cpp:915-975 | performing a recorded replacement does not change what undoing restores: the old and new witnesses are kept |
| FsxSound.StampAtValid | src/fsx.cpp:977-1017 | a stamp taken from a file passes the journal parser's syntax check of seven numeric fields |
| FsxLog.GoodWrite | src/fsx.cpp:875-908 | writing or deleting a staging file keeps the invariant of a run's logs: undoing restores, witnesses and restore staging names are left alone, only staging names are removed, the parser accepts, and in an orderly plan the log stays re-entrant |
| FsxLog.GoodRemoval | src/fsx.cpp:910-913 | recording a staging removal keeps it |
| FsxLog.GoodMoveRecord | src/fsx.cpp:800-838 | recording a move before performing it keeps it |
| FsxLog.GoodReplaceRecord | src/fsx.cpp:1122-1131 | recording a replacement before performing it keeps it and pins its witnesses; the record meets the parser's demands |
| FsxLog.GoodMove | src/fsx.cpp:848-873 | performing the move just recorded keeps it |
| FsxLog.GoodReplace | src/fsx.cpp:1130-1133 | performing the replacement just recorded keeps it |
| FsxReplay.RecoverIsUndo | src/fsx.cpp:2125-2274 | recovery, with its guards and early return, does exactly what undoing the log does whenever the log removes staging names only |
| FsxReplay.HalfwayRestores | src/fsx.cpp:2125-2274 | a recovery that was cut short after any number of records still restores the initial files when it is started again from the newest record |
| FsxReplay.HalfwayStep | src/fsx.cpp:2168-2250 | undoing the next move or removal keeps that true |
| FsxReplay.HalfwayStaging | src/fsx.cpp:1043-1050 | writing the restore staging file keeps that true, complete or not |
| FsxReplay.HalfwayReplaced | src/fsx.cpp:1019-1058 | restoring a replaced file keeps that true, and restoring it again changes nothing |
| FsxReplay.QuietTail | src/fsx.cpp:2216-2220 | records whose source is gone, or that are marked, are skipped on the next pass |
| FsxReplay.RecoveringIsRecoverable | src/fsx.cpp:2125-2274 | every state in the middle of a recovery is one from which recovery can be started |
| FsxReplay.MarkerFindsItsRecord | src/fsx.cpp:460-472 | a RESTORED marker marks exactly the replacement it was written for: no other record has the same old witness |
| FsxReplay.NewFilesAreTaken | src/fsx.cpp:848-873 | a visible file that was not there at first lies where some recorded move can take it from |
| FsxReplay.ReplayHarmlessIff | src/fsx.cpp:2125-2250 | once all replacements are marked, replaying a log on a disk does nothing at all exactly if none of its moves and removals finds its source there (when it restores is `FsxRestart.RestartIff`) |
| FsxReplay.CopyReplayRestores | src/fsx.cpp:1338-1397 | one recovery of an interrupted copy over an existing file gives that file back |
| FsxReplay.CopyReplayLosesFile | src/fsx.cpp:1338-1397 | a second replay of the same finished recovery removes the restored file: destination, backup and staging file are all gone |
| FsxReplay.CopyLogNotReentrant | src/fsx.cpp:1338-1397 | the log of a copy over an existing file does not meet the re-entrancy condition |
| FsxRestart.ReplayFollows | src/fsx.cpp:2125-2274 | a replay from any disk is refused nowhere exactly if no file, followed by itself through the records, is met where a guard of the code stops (source and destination of a move both present, a filled directory at a removal, a missing or changed witness or target at a replacement), and it leaves exactly the files where following them leads |
| FsxRestart.RestartIff | src/fsx.cpp:2125-2274 | from any disk, whatever has been undone before, replaying the log of a run restores the initial files exactly if every file, followed by itself, gets past every guard and ends where the initial disk has it |
| FsxRestart.CutShortIff | src/fsx.cpp:2125-2274 | the same for every k: records from k on undone, their replacements marked but for possibly the last one, and recovery started again from the newest record |
| FsxRestart.BroughtBackIsLost | src/fsx.cpp:2210-2249 | the converse of `HalfwayStep`: if undoing a move has brought back a path that a later record takes away, and nothing else brings it back, the next replay fails or loses that path |
| FsxRestart.ThereAndBackReturns | src/fsx.cpp:1253-1298 | renaming there and back clashes, and yet its finished recovery may be replayed |
| FsxRestart.RenameOverConflicts | src/fsx.cpp:1253-1298 | replaying the finished recovery of a rename over an existing file is refused, and nothing is lost |
| FsxRestart.ExchangeReplayed | src/fsx.cpp:1253-1298 | two files exchanged through a free name: replaying the finished recovery reports success and exchanges them once more |
| FsxRollback.MoveNeverOverwrites | src/fsx.cpp:1525-1535 | whatever others did to the disk, undoing a move overwrites no path, creates only its destination and moves the content unchanged |
| FsxRollback.ReplaceOnlyOverwritesOwnWork | src/fsx.cpp:1019-1058 | undoing a replacement touches only its target and staging file, never deletes the target, and changes its content only if that content was what the run had written |
| FsxRollback.RemovalTakesOnlyItsPath | src/fsx.cpp:1521-1524 | undoing a removal takes at most the one path it names |
| FsxRollback.FailureShieldsItsPaths | src/fsx.cpp:1502-1506 | after a failed undo no later undo changes any path that is, contains or lies within a path of the failed record |
| FsxRollback.OtherPathsUntouched | src/fsx.cpp:1494-1559 | an undo changes nothing outside the paths of its record |
| FsxRollback.OverlapsBlocked | src/fsx.cpp:1481-1506 | the nested search finds a blocked path exactly if some path of the record overlaps one |
| FsxRollback.CountRecords | src/fsx.cpp:1477-1479 | counts the undo records of each step |
| FsxRollback.RolledBackIff | src/fsx.cpp:1560-1568 | a step is rolled back exactly if something of it was undone, nothing of it failed, and none of its records is left |
| FsxRollback.Verdicts | src/fsx.cpp:1560-1568 | the reported verdict of each step is the one its attempts deserve, under both rollback modes |
| FsxPlan.SameViewIff | src/fsx.cpp:99-107 | two disks show the same visible files exactly if they agree on all paths but the run's staging names |
| FsxPlan.VacateThenMove | src/fsx.cpp:1238-1250 | setting the destination aside first and then moving over it has the effect of overwriting it with the backup kept |
| FsxPlan.VacateOverOld | src/fsx.cpp:1156-1173 | the same when an older backup is set aside before |
| FsxPlan.WritesAreOrderly | src/fsx.cpp:1062-1151 | every plan of atomic writes is orderly, whether or not its targets exist or repeat |
| FsxPlan.FreshTargetsAreOrderly | src/fsx.cpp:1179-1423 | so is every plan of any actions whose targets are free names that no earlier action has used; orderly plans have re-entrant logs |
| FsxPolicy.PlanInParts | src/fsx.cpp:1987-2073 | a plan in two parts has the effect of the second part on what the first one leaves |
| FsxPolicy.WriteAlone | src/fsx.cpp:1062-1151 | when a single write fails, when it is skipped, and that otherwise its target holds the payload and nothing else differs |
| FsxPolicy.MoveAlone | src/fsx.cpp:1179-1298 | when a single replace or rename fails, when it is skipped, and that otherwise the source's file is at the destination and nowhere else, what was there under the backup name if one is kept, and nothing else differs |
| FsxPolicy.CopyAlone | src/fsx.cpp:1338-1397 | when a single copy fails, when it is skipped, and that otherwise the destination holds what the source holds and nothing else differs |
| FsxPolicy.RemoveAlone | src/fsx.cpp:1399-1423 | a removal never fails; it is skipped under that policy and otherwise takes away its path and nothing else |
| FsxPolicy.UnnamedPathsKept | src/fsx.cpp:1987-2073 | whatever the policy, a plan changes only the paths its actions name |
| FsxPolicy.ExistingFilesKept | src/fsx.cpp:1062-1423 | unless it may overwrite, a plan leaves every existing file as it was, except those it is told to remove or to move away |
| FsxPolicy.ConflictFailsPlan | src/fsx.cpp:1094-1098 | where conflicts fail, a plan with a write, replace, rename or copy onto an existing file not moved away before fails |
| FsxPolicy.ConflictIsSkipped | src/fsx.cpp:1086-1093 | where existing files are skipped, such an action changes nothing |
| FsxPolicy.LastWriteStands | src/fsx.cpp:1062-1151 | where files may be overwritten, a payload written to a path is there in the end unless a later action names the path |
| FsxPolicy.LastMoveStands | src/fsx.cpp:1179-1397 | where files may be overwritten, what is moved or copied to a path is there in the end unless a later action names the path |
| FsxPolicy.PoliciesOnDisk | src/fsx.cpp:1935-2096 | the same for the disk before and after a run: existing files are kept, and a run that meets one where it may not does not succeed |
| FsxRollbackCrash.RollbackOfCopyCutShort | src/fsx.cpp:2050-2062 | a copy over an existing file followed by a failing step: the rollback restores everything, and a crash before the journal is deleted makes the next recovery report success with the restored file gone |
| FsxRollbackCrash.UnacknowledgedReplacement | src/fsx.cpp:800-838 | a replacement record that became durable although its append was reported as failed: the rollback restores everything and deletes the witnesses, and after a crash the next recovery reports a conflict |
| FsxEngine.CrashOutcome | src/fsx.cpp:1935-2096 | crash atomicity of one state in `snapshots`: an open journal recovers without failure to the initial visible files; a committed one means the plan is fully applied; without a journal the files are all old or all new |
| FsxEngine.FormedOutcome | src/fsx.cpp:2098-2290 | exact outcome for every state with the open journal of a run, those inside a rollback or a recovery included: recovery succeeds and restores exactly if every file, followed by itself, returns |
| FsxEngine.GoodIsFormed | src/fsx.cpp:800-838 | the invariant kept between any two steps of a run implies that recovery can start there, and for an orderly plan that the log is re-entrant |
| FsxEngine.RecoverableReplays | src/fsx.cpp:2098-2290 | from such a state the first recovery succeeds and restores the initial files outside the staging names |
| FsxEngine.RestoreIsRestartable | src/fsx.cpp:1019-1058 | every intermediate state of restoring one replaced file is one from which recovery can be started again |
| FsxEngine.Engine.MakeTempPath | src/fsx.cpp:99-107 | returns a staging name that no file and no record uses and keeps all invariants |
| FsxEngine.Engine.WriteTemporaryFile | src/fsx.cpp:875-894 | creates the file in steps, each a possible crash point, and deletes it on failure; touches no other path |
| FsxEngine.Engine.CopyToTemporaryFile | src/fsx.cpp:896-908 | the same for a copy; fails without a regular source |
| FsxEngine.Engine.RecordUndo | src/fsx.cpp:800-838 | appends to journal and stack, or fails with at most a durable but unacknowledged record, keeping every crash state safe |
| FsxEngine.Engine.RecordRemoval | src/fsx.cpp:910-913 | records a staging removal with all crash states safe |
| FsxEngine.Engine.RecordMove | src/fsx.cpp:800-838 | records a move not yet performed with all crash states safe |
| FsxEngine.Engine.RecordReplace | src/fsx.cpp:1122-1131 | records a replacement not yet performed, pins its witnesses, all crash states safe |
| FsxEngine.Engine.MoveWithoutOverwrite | src/fsx.cpp:848-873 | performs the recorded move exactly if the source exists and the destination does not, else changes nothing |
| FsxEngine.Engine.ReplaceExistingFile | src/fsx.cpp:915-975 | atomically puts the staged content over the target, else changes nothing |
| FsxEngine.Engine.CopyWitnesses | src/fsx.cpp:1117-1121 | old and new content are copied to witness files, each recorded before it is written |
| FsxEngine.Engine.StageData | src/fsx.cpp:1100-1110 | the new contents get a staging file of their own, recorded for removal; no visible file changes |
| FsxEngine.Engine.StageCopy | src/fsx.cpp:1371-1381 | the same for a copy of a regular source |
| FsxEngine.Engine.PrepareReplacement | src/fsx.cpp:1112-1129 | leaves visible files unchanged and all demands of the journal parser on the replacement record met |
| FsxEngine.Engine.ReplaceTarget | src/fsx.cpp:1112-1144 | the target shows the staged content, all crash states safe, witnesses registered for deletion |
| FsxEngine.Engine.PublishReplacement | src/fsx.cpp:1130-1143 | the staged content shows at the target and both witnesses are registered for deletion |
| FsxEngine.Engine.WriteFileAtomic | src/fsx.cpp:1062-1151 | reports ok, skipped and failed exactly as the intended effect of the write says (kind check, conflict policy, both branches; `FsxPolicy.WriteAlone` says what that is) and has that effect, with every crash state safe |
| FsxEngine.Engine.MovePriorAway | src/fsx.cpp:1156-1165 | an older backup goes to a staging name and is deleted only after COMMIT |
| FsxEngine.Engine.MoveToKeptBackup | src/fsx.cpp:1153-1177 | the destination ends up under its backup name and nothing else visible changes |
| FsxEngine.Engine.MoveToStagedBackup | src/fsx.cpp:1153-1177 | the destination ends up under a staging name and is deleted only after COMMIT |
| FsxEngine.Engine.SafeReplaceFile | src/fsx.cpp:1179-1251 | reports and has exactly the intended effect: backup kept or staged, overlap of the backup refused, policy obeyed |
| FsxEngine.Engine.RenameTo | src/fsx.cpp:1253-1298 | reports and has exactly the intended effect of a rename under the policy |
| FsxEngine.Engine.PublishStaged | src/fsx.cpp:1383-1396 | the staged copy shows at the destination whether or not it existed |
| FsxEngine.Engine.CopyFileTracked | src/fsx.cpp:1338-1397 | reports and has exactly the intended effect of a copy under the policy; the source stays |
| FsxEngine.Engine.RemovePathTracked | src/fsx.cpp:1399-1423 | reports and has exactly the intended effect of a removal |
| FsxEngine.Engine.RestoreReplaced | src/fsx.cpp:1019-1058 | restores the old content if and only if witnesses and target stamps allow it; every state on the way differs only in the staging file |
| FsxEngine.Engine.UndoReplacement | src/fsx.cpp:2135-2167 | restores, then marks; the disk states on the way, with and without the marker, can be recovered from as their log allows |
| FsxEngine.Engine.UndoPathChange | src/fsx.cpp:2168-2250 | undoes a move or removal exactly as specified, else changes nothing |
| FsxEngine.Engine.AppendRestored | src/fsx.cpp:760-772 | appends the marker to the journal, or fails with or without it |
| FsxEngine.Engine.RecoverRecord | src/fsx.cpp:2125-2274 | one turn of the recovery loop with its exact effect, verdict and count |
| FsxEngine.Engine.RecoverFromJournal | src/fsx.cpp:2098-2290 | refuses missing, malformed and committed journals without a change; otherwise complete means exactly the guarded undo of the whole log, newest first, with exact counters; from a crash state before a rollback it restores the initial files and, unless the system refuses an operation, always completes; an ok recovery has deleted the journal exactly if asked to; every state inside it has the outcome of `FormedOutcome`, and for re-entrant logs can be restarted, any number of times |
| FsxEngine.Engine.Rollback | src/fsx.cpp:1472-1571 | attempts go from the newest record down, each lawful whatever others did to the disk; strict stops at the first failure; completeness and step verdicts are exact; unless the system refuses an operation nothing fails but what cannot be undone or overlaps an earlier failure; without interference the initial files are back, and without refused operations it completes |
| FsxEngine.Engine.JournalIsSeparate | src/fsx.cpp:210-267 | accepts exactly if the journal overlaps no path the plan names, retained backups included |
| FsxEngine.Engine.Advance | src/fsx.cpp:1991-2003 | an orderly plan fits at each of its actions: what it puts a file at is not brought back by an earlier undo and, if existing files may be overwritten, is still free |
| FsxEngine.Engine.Execute | src/fsx.cpp:2005-2043 | dispatches each action with its intended effect and report, all crash states safe |
| FsxEngine.Engine.StartJournal | src/fsx.cpp:567-599 | starts a journal only if none is open there, and on failure leaves a state with nothing to recover |
| FsxEngine.Engine.Commit | src/fsx.cpp:2081-2086 | COMMIT becomes durable only with the whole plan applied; a failed append is safe whether durable or not |
| FsxEngine.Engine.CleanupAfterSuccess | src/fsx.cpp:1573-1584 | deletes only staging files, and after a faultless run all of them |
| FsxEngine.Engine.DropJournal | src/fsx.cpp:1970-1985 | the journal is deleted only with nothing left to recover |
| FsxEngine.Engine.ExecutePlan | src/fsx.cpp:1987-2073 | the loop has done the whole plan exactly if no step failed; counts completed and skipped; stops at the first failure only under fail-fast |
| FsxEngine.Engine.RollBackRun | src/fsx.cpp:2050-2062 | the rollback of a failed run: the journal is deleted only if it is complete; every state on the way is returned and has the outcome of `FormedOutcome`; for an orderly plan those before a refusal can be recovered from |
| FsxEngine.Engine.Run | src/fsx.cpp:1935-2096 | for every plan, policy and refusal of system calls: every state a crash can leave from the journal header up to the start of a rollback, and after the journal is gone, is safe in the sense of `CrashOutcome`; every state during the rollback is returned and has the outcome of `FormedOutcome`, and for an orderly plan, until an operation of the rollback is refused and unless a failed append was durable, the next recovery restores; a refused run changes nothing; an ok run has applied the whole plan and left no open journal and, if nothing was refused, no staging file; unless it may overwrite it has kept every existing file it was not told to take away, and where conflicts fail it is not ok on meeting one; it keeps its journal exactly as asked, unless the deletion is refused; without refusals it is ok exactly if the plan can be done; a failed fail-fast run puts everything back and deletes its journal; a failed run that went on leaves a journal recovery can start from |
| FsxJournal.EscapeField | src/fsx.cpp:304-324 | the loop escapes exactly the bytes that would break a field or a line |
| FsxJournal.UnescapeField | src/fsx.cpp:343-364 | the loop decodes exactly the well-formed escapes and keeps all else |
| FsxJournal.IsValidField | src/fsx.cpp:440-454 | accepts exactly the non-empty fields whose every `%` starts an escape |
| FsxJournal.FieldRoundTrip | src/fsx.cpp:304-364 | every byte string survives escaping and unescaping, passes the field check if not empty, and hides every separator |
| FsxJournal.SplitPipe | src/fsx.cpp:366-379 | the loop splits at every separator |
| FsxJournal.SplitJoined | src/fsx.cpp:366-379 | splitting joined fields without separators in them gives the fields back |
| FsxJournal.ParseLine | src/fsx.cpp:421-541 | reads a line exactly as the record grammar says, in all versions: COMMIT once and last, RESTORED references, REPLACE demands, every malformed form an error |
| FsxJournal.GetLine | src/fsx.cpp:421-421 | cuts off exactly the next line, a last one without newline included |
| FsxJournal.ReadJournal | src/fsx.cpp:397-565 | the loop over lines reads exactly the journal grammar, header and absolute-path checks included |
| FsxJournal.AcceptedText | src/fsx.cpp:516-558 | whatever FSXJ4 text the parser accepts, its records meet the reference demands recovery relies on |
| FsxJournal.FieldsArePlain | src/fsx.cpp:741-758 | no field the writers produce can be confused with a separator or fail the field check |
| FsxJournal.LineReads | src/fsx.cpp:741-772 | the line of a written record or marker reads back as that record or marker |
| FsxJournal.LinesAppend | src/fsx.cpp:716-724 | appending a line to a journal that ends in a newline appends exactly that line |
| FsxJournal.TextLines | src/fsx.cpp:726-777 | the bytes of a journal split into exactly its header and its lines |
| FsxJournal.JournalReads | src/fsx.cpp:397-565 | reading the bytes of any lawful sequence of records, markers and COMMIT gives exactly its records, marks and commit flag, for arbitrary path bytes |
| FsxJournal.RunJournalReads | src/fsx.cpp:741-777 | the journal written for any log that meets the parser's demands, with or without COMMIT, reads back as that log |
| FsxJournal.MarkerReads | src/fsx.cpp:760-772 | appending a RESTORED line to a journal marks exactly the replacement it names when read back |
| FsxJournalGrammar.FieldIff | src/fsx.cpp:343-454 | a field is valid and read as this text exactly if it is plain characters and `%` escapes, digits of either case, that spell it |
| FsxJournalGrammar.StampIff | src/fsx.cpp:498-524 | a stamp is accepted exactly if it is seven signed numbers with colons between and at most 256 characters long |
| FsxJournalGrammar.LineIff | src/fsx.cpp:421-541 | a line is accepted exactly if its fields say an event that may come next: nothing after COMMIT, COMMIT not in FSXJ1, replacements and markers only in FSXJ4 and only with proper references |
| FsxJournalGrammar.TextIff | src/fsx.cpp:397-565 | a journal is accepted, and read as these records and commit flag, exactly if it is a known header and lines that lead there one after the other, with absolute paths in FSXJ4 |
| FsxJournalGrammar.LinesMakeText | src/fsx.cpp:421-421 | the lines of a text, each with its newline (the last may lack it), make it up |
| FsxTar.ParseTarOctal | src/fsx.cpp:2557-2568 | the loop stops at the first NUL or blank and passes over any other byte that is not an octal digit |
| FsxTar.OctalRoundTrip | src/fsx.cpp:2510-2568 | a number printed to a field reads back, for every value that fits |
| FsxTar.StoredNameSafe | src/fsx.cpp:2515-2591 | the trailing slash that marks a directory keeps a reader-safe name reader-safe |
| FsxTar.Put | src/fsx.cpp:2533-2549 | copies bytes to an offset and leaves the rest of the block alone |
| FsxTar.WriteTarHeader | src/fsx.cpp:2515-2555 | writes exactly the 512-byte header, or refuses exactly the unsafe or over-long names |
| FsxTar.PutName | src/fsx.cpp:2522-2533 | the name field: a directory of exactly 100 bytes loses its slash, shorter names are zero padded |
| FsxTar.PutFields | src/fsx.cpp:2534-2538 | mode, owner, size and time land in their octal fields |
| FsxTar.PutMagic | src/fsx.cpp:2539-2542 | checksum blanks, kind flag, magic and version land in their places |
| FsxTar.SumBytes | src/fsx.cpp:2543-2548 | adds up all 512 bytes |
| FsxTar.PutChecksum | src/fsx.cpp:2549-2551 | puts the checksum digits in without touching the other fields |
| FsxTar.WritePayload | src/fsx.cpp:2603-2637 | content and zero padding to the next block |
| FsxTar.WriteEntry | src/fsx.cpp:2515-2637 | an entry is header then padded content; refused exactly if it cannot be stored |
| FsxTar.CreateArchive | src/fsx.cpp:2780-2843 | writes exactly the entries in order and the two end blocks; refused exactly if some entry cannot be stored |
| FsxTar.ReadPayload | src/fsx.cpp:2984-3008 | reads exactly the content, or reports truncation |
| FsxTar.ReadArchive | src/fsx.cpp:2881-3035 | the block loop decodes exactly the archive grammar: end block, unsafe name, each truncation |
| FsxTar.NameReads | src/fsx.cpp:2593-2601 | the stored name reads back, the directory of exactly 100 bytes included |
| FsxTar.HeaderReads | src/fsx.cpp:2515-2568 | kind, size and name read back from a header, which is never mistaken for an end block |
| FsxTar.EntryReads | src/fsx.cpp:2881-3020 | one written entry in front of any decodable rest decodes as that entry in front of the rest |
| FsxTar.TarRoundTrip | src/fsx.cpp:2515-2637 | decoding a written archive gives its entries back (directory names without trailing slashes), for reader-safe names of at most 100 bytes and sizes below 8^11 |
| FsxTar.ArchiveInjective | src/fsx.cpp:2515-2637 | two entry lists with the same archive are the same list up to trailing slashes of directories |
| FsxTar.ArchiveInBlocks | src/fsx.cpp:2603-2637 | every archive is a whole number of blocks |
| FsxTar.ChecksumReads | src/fsx.cpp:2543-2551 | the stored checksum is the byte sum with the checksum field blank |
| FsxTarFormat.HeaderLayout | src/fsx.cpp:2533-2551 | every written header has mode 0644, owner, group and time 0, kind, ustar magic and version at their offsets and zeros elsewhere |
| FsxTarFormat.NameLayout | src/fsx.cpp:2522-2533 | a name that fits stands at the front with zeros behind it, a directory's with a slash |
| FsxTarFormat.OctalIff | src/fsx.cpp:2557-2568 | a field is read as the number that its octal digits in front of the first NUL or space make up |
| FsxTarFormat.HeaderIff | src/fsx.cpp:2881-2917 | a header describes an entry of this size exactly if the reader takes it for that: safe name, kind, size |
| FsxTarFormat.ReadsIff | src/fsx.cpp:2881-3035 | a byte sequence is read as these entries exactly if it is their records, each a header block, data and padding to the next block, ended by a block of zeros or the end of the input |
| FsxTarFormat.ReadNamesSafe | src/fsx.cpp:2570-2591 | every entry the reader delivers has a relative name without `..`, with the slashes of directories taken off |
| AsyncDispatch.FindOldest | src/asyncx.cpp:915-930 | finds the task with the lowest sequence of a class exactly if there is one |
| AsyncDispatch.ChooseNext | src/asyncx.cpp:932-957 | takes the oldest task of the first non-empty class from the current slot on, else the oldest of all, and moves the slot behind the one used |
| AsyncDispatch.FallbackIsDead | src/asyncx.cpp:946-957 | with valid priorities the choice is always made by a slot |
| AsyncDispatch.SlotsPerRound | src/asyncx.cpp:894-897 | any seven consecutive slots hold High four times, Normal twice, Low once, wherever they start |
| AsyncDispatch.ServedAtSlots | src/asyncx.cpp:932-944 | over consecutive dispatches during which a class stays non-empty it is served exactly once for each of its slots passed |
| AsyncDispatch.WeightedService | src/asyncx.cpp:894-957 | in any 7n consecutive dispatches during which a class stays non-empty it is served at least n times its weight |
| AsyncDispatch.AheadAfterTurn | src/asyncx.cpp:932-957 | serving a class takes exactly one task from in front of each of its waiting tasks |
| AsyncDispatch.WaitsOn | src/asyncx.cpp:932-957 | a task not yet taken has been passed by exactly as many older tasks of its class as were served |
| AsyncDispatch.TakenInTime | src/asyncx.cpp:894-957 | a task with k older tasks of its class is among the next 7(k+1) dispatches |
| AsyncPool.FindById | src/asyncx.cpp:800-810 | finds a scheduled task exactly if its id is pending |
| AsyncPool.FindNextDue | src/asyncx.cpp:812-828 | finds the earliest due task, the first of equals |
| AsyncPool.TaskCompletes | src/asyncx.cpp:974-974 | completing a task keeps every accepted task in exactly one of queued, executing, finished, discarded |
| AsyncPool.ThreadPool.constructor | src/asyncx.cpp:183-196 | starts in the invariant with a capacity of at least one |
| AsyncPool.ThreadPool.Start | src/asyncx.cpp:204-271 | starts a stopped pool with all workers waiting and resets only the dispatch cursor; a running one is left alone |
| AsyncPool.ThreadPool.CancelAllScheduled | src/asyncx.cpp:287-296 | drops all scheduled tasks, counted as cancelled and rejected, and closes the pool |
| AsyncPool.ThreadPool.Stop | src/asyncx.cpp:273-311 | drain keeps the queue, cancel discards and counts all of it; a pool not running is left alone |
| AsyncPool.ThreadPool.JoinBegin | src/asyncx.cpp:313-335 | stops a running pool that nobody stopped, else changes nothing |
| AsyncPool.ThreadPool.JoinEnd | src/asyncx.cpp:354-365 | when all threads are gone the queue is empty, nothing executes, accepted = finished + discarded, and without discards completed = submitted |
| AsyncPool.ThreadPool.Push | src/asyncx.cpp:758-763 | enqueues with the next sequence number and counts the task as submitted |
| AsyncPool.ThreadPool.Enqueue | src/asyncx.cpp:685-768 | exact status for every state (empty task, not running, closed, room, full) with exactly that status's effect |
| AsyncPool.ThreadPool.ResumeEnqueue | src/asyncx.cpp:718-763 | what a producer does when it wakes from waiting for room: time-out, closure, room or waiting on |
| AsyncPool.ThreadPool.WorkerTake | src/asyncx.cpp:899-963 | a worker takes the chosen task, leaves if the queue is empty and stop was requested, or goes on waiting |
| AsyncPool.ThreadPool.WorkerComplete | src/asyncx.cpp:965-974 | one more completion; the task is finished exactly once |
| AsyncPool.ThreadPool.WorkerReturn | src/asyncx.cpp:976-986 | the worker is idle again |
| AsyncPool.ThreadPool.AddScheduled | src/asyncx.cpp:558-648 | a new id never used before; refused and counted when empty or when the pool does not accept, refused without a count when periodic with an interval that is not positive |
| AsyncPool.ThreadPool.CancelScheduled | src/asyncx.cpp:650-673 | removes exactly the task of that id if pending, and counts it exactly then |
| AsyncPool.ThreadPool.SchedulerTake | src/asyncx.cpp:834-874 | takes the earliest task if it is due: one-shots are removed, periodic ones moved to now plus interval; leaves when stopped |
| AsyncPool.ThreadPool.SchedulerEnqueue | src/asyncx.cpp:876-876 | the held task is enqueued, waits for room, or is refused by a closed pool |
| AsyncPool.ThreadPool.SchedulerResume | src/asyncx.cpp:739-763 | the same when the wait for room returns |
| AsyncPool.ThreadPool.SchedulerDelivered | src/asyncx.cpp:877-888 | counts exactly the tasks that were enqueued, and leaves exactly on a refusal, which means the pool is being stopped |
| AsyncPool.ThreadPool.PoolTakesInTime | src/asyncx.cpp:892-988 | in every reachable pool a queued task with k older ones of its class is taken within 7(k+1) dispatches |
| AsyncGroup.TaskGroup.Cancel | src/asyncx.cpp:1050-1053 | no further task is taken |
| AsyncGroup.TaskGroup.Submit | src/asyncx.cpp:995-1046 | counts and keeps a future exactly if there is a task, the group is not cancelled and the pool accepts it |
| AsyncGroup.TaskGroup.Record | src/asyncx.cpp:1055-1085 | each future taken is counted once under its outcome |
| AsyncGroup.TaskGroup.WaitUntil | src/asyncx.cpp:1102-1131 | counts exactly the ready futures, keeps exactly the others in order, and is ok exactly if none is left; submitted = counted + kept throughout |
| AsyncGroup.PendingAreUnready | src/asyncx.cpp:1110-1119 | what is put back is exactly what is not ready |
| AsyncGroup.CountsAreReady | src/asyncx.cpp:1110-1119 | each counter grows by exactly the ready futures of its outcome |
| HttpUrl.FindLastSlash | src/httpx.cpp:388-394 | finds the last slash or the start |
| HttpUrl.RemoveDotSegments | src/httpx.cpp:371-400 | the loop that eats its view and cuts its output gives, for every path starting with `/`, the segments folded over a stack as section 5.2.4 of RFC 3986 means it |
| HttpUrl.LoopIsStack | src/httpx.cpp:371-400 | from any output of pushed segments the loop computes the stack fold of the remaining segments |
| HttpUrl.StackClean | src/httpx.cpp:371-400 | the fold leaves no `.` or `..` segment |
| HttpUrl.SegmentsOfRender | src/httpx.cpp:371-400 | the segments of a printed stack are the stack |
| HttpUrl.NormalizedIsNormal | src/httpx.cpp:371-400 | the result starts with `/`, has no dot segment, and is its own normal form |
| HttpUrl.DotRemoved | src/httpx.cpp:371-400 | a `.` segment anywhere in front of a slash makes no difference |
| HttpUrl.ParentRemoved | src/httpx.cpp:371-400 | a `..` segment takes the segment before it away |
| HttpUrl.RootHasNoParent | src/httpx.cpp:371-400 | at the root `..` makes no difference |
| HttpUrl.FinalDots | src/httpx.cpp:371-400 | at the end of a path `.` and `..` count like `./` and `../` |
| HttpUrl.CleanPathKept | src/httpx.cpp:371-400 | a path without dot segments is left alone |
| HttpChunked.CutSemicolon | src/httpx.cpp:1985-2008 | cuts off a chunk extension |
| HttpChunked.FromHex | src/httpx.cpp:1985-2008 | reads a hex number or refuses, with values above SIZE_MAX refused before they wrap |
| HttpChunked.ParseChunkSize | src/httpx.cpp:1985-2008 | reads exactly the trimmed hexadecimal size in front of the extension |
| HttpChunked.FindCrlfAppend | src/httpx.cpp:2438-2451 | a line end once found stays where it is when more bytes arrive |
| HttpChunked.DecodeBounded | src/httpx.cpp:2462-2469 | the reference decoder never exceeds the body limit and every prefix of its slices was accepted |
| HttpChunked.DecodeChunk | src/httpx.cpp:2497-2519 | a chunk taken from the buffer is the reference decoder's next step |
| HttpChunked.Decoder.Fill | src/httpx.cpp:2414-2436 | appends the next block without changing the unread stream; fails exactly on limit, closed connection or failed receive |
| HttpChunked.Decoder.NextLine | src/httpx.cpp:2440-2460 | returns the next line of the unread stream however it is split |
| HttpChunked.Decoder.Await | src/httpx.cpp:2497-2504 | waits until enough bytes are there; fails only if the stream has too few, or the wire limit is passed |
| HttpChunked.Decoder.AppendBodyChunk | src/httpx.cpp:2290-2334 | appends a slice exactly if it fits the limit and the callback accepts it; the body stays the concatenation of the slices handed over |
| HttpChunked.Decoder.SkipTrailers | src/httpx.cpp:2473-2494 | ends at the first empty line of the unread stream |
| HttpChunked.Decoder.TakeChunk | src/httpx.cpp:2497-2525 | takes exactly the declared bytes and their line end; compaction is invisible |
| HttpChunked.Decoder.ReadBody | src/httpx.cpp:2409-2527 | however the stream is cut into blocks: an ok result is the reference decoding of the whole stream and the concatenation of the slices handed to the callback, each kind of error means the reference decoder says so, and a stream within the wire limit that the reference decoder accepts is accepted |
| HttpChunked.ChunkSizeReads | src/httpx.cpp:1985-2008 | a size printed in hexadecimal reads back |
| HttpChunked.ChunkedRoundTrip | src/httpx.cpp:2409-2527 | encoding any chunks and trailers (section 7.1 of RFC 9112), sizes in digits of either case with blanks and extensions, and decoding, with anything behind the end, gives the chunks back |
| HttpChunked.ChunkSizeIff | src/httpx.cpp:1985-2008 | a line declares a size exactly if it is a hexadecimal numeral that fits, digits of either case, with blanks around it and anything behind a semicolon |
| HttpChunked.EncodingFound | src/httpx.cpp:2409-2527 | whatever is decoded to a body is an encoding of it |
| HttpChunked.DecodeIff | src/httpx.cpp:2409-2527 | a stream decodes to these chunks exactly if it is, up to what follows, an encoding of them and they can be delivered: none is empty, they fit the limits, the callback takes each |
| HttpRedirect.ContainsHeader | src/httpx.cpp:4141-4152 | finds a header regardless of case |
| HttpRedirect.RemoveHeader | src/httpx.cpp:352-363 | leaves no header of that name |
| HttpRedirect.RemovedExactly | src/httpx.cpp:352-363 | removes exactly the headers of that name |
| HttpRedirect.Complete | src/httpx.cpp:5257-5273 | adds the agent and jar cookie only where the request has none of its own |
| HttpRedirect.CarryOn | src/httpx.cpp:5386-5406 | what the next request keeps: Authorization and Cookie only on the same origin (scheme, host without case, port); 303 turns all but HEAD into a GET without body and content headers; the rest stays |
| HttpRedirect.Deliver | src/httpx.cpp:5324-5345 | hands chunks to the callback in order until it refuses |
| HttpRedirect.SendOnce | src/httpx.cpp:5237-5408 | at most max_redirects + 1 transport calls to pairwise distinct URLs, each following from the reply to the one before it as `HttpHops.EachHop` says; each error has its reason, and a final reply is no redirect and within the limits |
| HttpRedirect.CompletedOnlyJar | src/httpx.cpp:5257-5273 | completing a request without credentials adds at most the jar's cookie |
| HttpRedirect.RedirectedKeepsClean | src/httpx.cpp:5386-5406 | another origin drops credentials, and nothing brings them back |
| HttpRedirect.CarriedClean | src/httpx.cpp:5386-5406 | after any change of origin in the chain no carried request has Authorization or Cookie |
| HttpRedirect.NoCredentialsAfterCrossing | src/httpx.cpp:5237-5408 | after any change of origin no request sent carries the caller's Authorization or Cookie, only what the jar holds for its URL |
| HttpHops.SameNameIff | src/httpx.cpp:352-363 | names are compared letter by letter without regard to case |
| HttpHops.FindHeaderIff | src/httpx.cpp:339-350 | the value found is that of the first header of the name |
| HttpHops.EachHop | src/httpx.cpp:5355-5406 | on every chain each hop follows a reply 301, 302, 303, 307 or 308 to its first Location; 301, 302, 307 and 308 keep method and body, 303 turns all but HEAD into a GET without them; the headers go on in their order without those left behind |
| HttpHops.HeaderGoesOnIff | src/httpx.cpp:5386-5402 | a header goes on to the next hop exactly if it is no Authorization or Cookie on another origin (scheme or host without case, port) and no Content-Length or Content-Type of a request turned into a GET |
| HttpHops.SentIsCarried | src/httpx.cpp:5256-5285 | each request goes out with what it carries, and behind that the client's agent and the jar's cookies, each only where there is none |
| HttpHops.HeaderBytesAreRendered | src/httpx.cpp:789-799 | the header limit counts the header lines as they are written |
| HttpPool.FreshOrStale | src/httpx.cpp:645-683 | each idle handle of a bucket is kept or closed, not both |
| HttpPool.PrunedOrStale | src/httpx.cpp:645-683 | the same over all buckets |
| HttpPool.PrunedShape | src/httpx.cpp:645-683 | pruning keeps keys distinct and limits kept, and leaves no empty bucket |
| HttpPool.ReplaceBucket | src/httpx.cpp:685-751 | changing one bucket changes the pooled handles by exactly the difference |
| HttpPool.ConnectionPool.Sift | src/httpx.cpp:655-668 | keeps fresh and collects stale connections of one bucket |
| HttpPool.ConnectionPool.Prune | src/httpx.cpp:645-683 | closes exactly the expired connections and erases exactly the buckets left empty |
| HttpPool.ConnectionPool.FindBucket | src/httpx.cpp:690-694 | finds the bucket of a key or shows there is none |
| HttpPool.ConnectionPool.Acquire | src/httpx.cpp:685-709 | hands out the newest fresh connection of the key and leaves the rest in place, or says there is none exactly then; what it hands out was last used at most 30 seconds ago; expired ones are closed |
| HttpPool.ConnectionPool.CloseOldest | src/httpx.cpp:731-750 | closes exactly the first connection of a bucket |
| HttpPool.ConnectionPool.TrimBucket | src/httpx.cpp:726-730 | cuts one bucket down to its newest connections within the limit of the host |
| HttpPool.ConnectionPool.TrimTotal | src/httpx.cpp:732-750 | closes exactly as many as exceed the total limit, bucket by bucket from the front, oldest first |
| HttpPool.ConnectionPool.Release | src/httpx.cpp:711-751 | the handle joins its bucket as the newest, each bucket keeps its newest connections within the limit of its host, and then exactly as many are closed from the front as exceed the total limit; the handle ends up pooled or closed, no longer in use |
| HttpPool.FreshByParts | src/httpx.cpp:655-668 | pruning keeps the order of a bucket and exactly the connections idle for at most 30 seconds |
| HttpPool.PrunedByParts | src/httpx.cpp:645-683 | pruning keeps the order of the buckets and drops those left empty |
| HttpPool.PrunedIff | src/httpx.cpp:645-683 | a connection stays pooled under its key exactly if it has been idle for at most 30 seconds |
| HttpPool.ClosedIff | src/httpx.cpp:645-683 | pruning closes exactly the handles idle for more than 30 seconds |

## Left out

fsx:

- Directories are opaque entries of a flat namespace: no entry lies inside another, and parents are taken to exist. `ensure_parent` and `ensure_copy_parent_tracked` (src/fsx.cpp:88-97, 1300-1336) are not modelled, nor is CopyTree.
- Paths are absolute, byte for byte distinct names: no symbolic links, hard links, canonicalisation, case folding or Windows streams.
- Runs without a journal. The parser model reads all four journal versions; the recovery model follows the rules of FSXJ3 and FSXJ4 for moves and removals and has no FSXJ1 or FSXJ2 replay.
- Torn journal writes: an append is there in full or not at all. The parser rejects a malformed tail.
- Freshness of staging names rests on a serial that has not been used; the clock reading in the name is a parameter.
- Error texts, test failpoints, and the operation kinds shown in step reports.
- FsxEngine.Engine.Run: crash atomicity for every plan stops at the start of a rollback, because it is false there (`FsxRollbackCrash`); from then on the contract gives the exact condition of `FormedOutcome`.
- FsxEngine.Engine.RecoverFromJournal: follows the rules of FSXJ3 and FSXJ4; those of FSXJ1 and FSXJ2 are not modelled. States inside a recovery restore on restart exactly under the condition of `FormedOutcome`.
- FsxRestart.RestartIff: takes the restore staging names to hold regular files, if any; another writer's directory under such a name is not covered.
- FsxEngine.Engine.RestoreReplaced: comparing a file with its witness is by content and stamp in one step, and the copy to the restore staging file is whole or partial without naming the bytes.
- FsxEngine.Engine.MoveWithoutOverwrite: does not create the parent directory of the destination.
- FsxEngine.Engine.WriteFileAtomic: does not create and record missing parent directories.
- FsxEngine.Engine.CopyFileTracked: does not create and record missing parent directories.
- FsxEngine.Engine.SafeReplaceFile: does not create parent directories and knows no two names of one file.
- FsxEngine.Engine.RenameTo: does not create parent directories.
- FsxEngine.Engine.JournalIsSeparate: compares absolute paths by name; canonical paths and other names of the same file are not modelled.
- FsxTar.ReadArchive: decodes names, kinds and contents; creating files, the conflict policy and the containment check of extraction are not part of this model. Values are unbounded where the reader uses 64 bits.
- FsxTar.CreateArchive: takes the list of entries; walking the source tree is not part of this model.
- Directory watching, diffing and syncing of trees, link creation.

cfgx:

- Doubles are opaque tokens; formatting and parsing of floating point is not modelled.
- CfgJson.ParseJson: errors have a kind but no line and column.
- CfgJson.JsonParser.Parse: errors have a kind but no line and column.
- CfgJson.JsonParser.ParseNumber: a double that no `double` can represent is taken as a token and not refused.
- CfgCompose.ComposeLayers: the runtime overrides arrive as a tree or an error; how they are materialised is not modelled.
- RemoveNode, typed access, validation rules, reloading, YAML, TOML and INI.

asyncx:

- Memory order, condition variables and wake-ups: a waiting thread may run its locked region at any time.
- One thread calls Stop and Join; a second concurrent Join clears the stop flags early (src/asyncx.cpp:354-360).
- AsyncPool.ThreadPool.Start: all threads come up; their failure to start is not modelled.
- ResetStats, task bodies, futures and cancellation tokens of single tasks.
- AsyncGroup.TaskGroup.WaitUntil: the outcomes ready before the deadline are a parameter.

httpx:

- Status line and headers, bodies by content length or until close, and the callback of a transport that does not follow redirects.
- HttpChunked.Decoder.AppendBodyChunk: a redirect response that is followed is one whose callback accepts every slice, and a callback that throws counts as one that refuses.
- HttpRedirect.SendOnce: parsing and resolving URLs, the cookie jar, request validation and the transport are parameters.
- HttpPool.ConnectionPool.Release: one client's pool with fixed limits; the clock is a parameter. The order in which buckets are trimmed is the order of the list.
- Retries, circuit breaker, proxies, TLS, DNS, timeouts.

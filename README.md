# Git dependency visualiser — a verified model

`visualize_deps.py` draws the history of one file of a git repository. It
lists the commits that touched the file, expands their ancestry
breadth-first by following parent links, and writes the resulting commit
graph as Graphviz DOT text. This project models the core of that program in
Dafny and proves what it promises:

- **`build_graph`** (`GraphBuilder.BuildGraph`) is a `while` loop over a FIFO
  queue with a visited set. It is proved against two independent
  descriptions of its result:
  - *which* commits it stores: exactly those reachable from the seeds by
    parent links (`Reachable`). The build fails exactly when one of those
    commits is unknown to git.
  - *in which order*: the first occurrences in the stream of ids the queue
    ever held (`Dedup`).

  Every id is fetched at most once. `fetched` is the trace of calls to
  `get_commit_data`, and on success it equals the insertion order of the
  dict. The loop's states are described by the ghost function `Run` (`Step`
  applied `n` times). The method keeps its variables equal to `Run`, and
  `RunExpands` proves the loop invariant `Expansion` for every state.
- **`generate_graphviz_code`** (`Graphviz.GenerateGraphvizCode`) is a
  loop over the keys in insertion order appending to `lines`, then a
  newline join. Each pass (`AppendNodeBlock`) appends the node line and,
  in an inner loop, the edge lines. The method
  is proved equal to the line list `DotLines`. The lemmas about `DotLines`
  give the header and footer, the exact number of lines, and the position
  of every node line and edge line. The label escaping (the `.replace`
  chain) is proved to round-trip, and every `"` it leaves is preceded by a
  backslash.
- **`get_commits` / `get_commit_data`** parsing (`GitLog`) is modelled as
  pure functions over git's text output, with round-trip lemmas. The
  Python string methods they rely on (`strip`, `split`, `split()`, `join`,
  `replace`, slicing) are modelled in `PyStr` with Python's semantics,
  including its whitespace set and `''.split('\n') == ['']`.
- `Scenario` replays the repository's own test history: one commit adds
  the file, a second commit changes it. The program fetches the older
  commit once, even though it is queued twice, and emits two node lines
  and one edge.

Git is represented by a `Repository`: a map from each commit id git knows to
the two outputs git prints for it, the `%B` message and the `%P` parent line.
`GraphBuilder.FetchCommitData` is `get_commit_data`: it parses those outputs
with `GitLog.ParseCommitData`. Both `get_commits` and `get_commit_data` read
git's output in text mode, which turns `\r\n` and a lone `\r` into `\n`
(`PyStr.UniversalNewlines`) before the text is stripped and split. An id missing from the map stands for the
`CalledProcessError` git raises, modelled as `Err(HistoryUnavailable(id))`.
`BuildGraph` takes `get_commit_data` bound to the repository as its
parameter `fetch`. Its contract speaks of the ghost parameter `history`,
the parsed answers (`Parsed`). `FetchAnswersParsed` shows that
`FetchCommitData` answers like `Parsed`, so `BuildGraph`'s precondition holds.

`main` stops with "no commits found" when the commit list is empty
(visualize_deps.py:60-62). But `result.strip().split('\n')` yields `['']`
for a blank log, so that branch never fires. See Findings.

## Model

| member | source | states |
|---|---|---|
| `GitLog.ParseCommitList` | visualize_deps.py:9 | `strip().split('\n')` of the log output read in text mode: always at least one id, and no id contains a newline |
| `GitLog.ParseCommitListRoundTrip` | visualize_deps.py:7-9 | hashes printed one per line, with git's trailing newline, are read back exactly and in order |
| `GitLog.EmptyLogGivesOneEmptyId` | visualize_deps.py:9 | a blank log output is read as the one-element list `[""]`, not as an empty list |
| `GitLog.CommitList` | visualize_deps.py:9-10 | corrected commit list: empty exactly when the log output is blank |
| `GitLog.CommitListRoundTrip` | visualize_deps.py:9-10 | the corrected list reads back any list of hashes, including the empty one |
| `GitLog.LogNotBlank` | visualize_deps.py:7-10 | a log that lists at least one hash is not blank |
| `GitLog.ParseCommitData` | visualize_deps.py:15-16 | the message (read in text mode, then stripped) has no leading or trailing whitespace, and each parent is a non-empty whitespace-free token |
| `GitLog.ParseCommitDataRoundTrip` | visualize_deps.py:13-17 | a message followed by trailing whitespace, and parents printed space-separated, are read back: the parents unchanged, the message with its line endings translated, so unchanged when it holds no `\r` |
| `GitLog.MessageRoundTrip` | visualize_deps.py:13-15 | a `%B` output of a trimmed message and trailing whitespace, read in text mode and stripped, is the message with its line endings translated |
| `GitLog.ParentOutputRoundTrip` | visualize_deps.py:14-16 | a `%P` output of space-separated tokens, read in text mode, stripped and split, is the tokens |
| `GitLog.ParentLineRoundTrip` | visualize_deps.py:14-16 | a `%P` line of space-separated tokens reads back as those tokens |
| `GraphBuilder.FetchCommitData` | visualize_deps.py:12-17 | succeeds exactly for ids git knows; the message it returns has no surrounding whitespace and every parent is a whitespace-free token; otherwise fails naming the id |
| `GraphBuilder.FetchCommitDataRoundTrip` | visualize_deps.py:13-17 | a commit whose message git prints with trailing whitespace, and whose parents it prints space-separated, is fetched with those parents and that message, its line endings translated; a message without `\r` is fetched unchanged |
| `GraphBuilder.Parsed` | visualize_deps.py:12-17 | the parsed answers cover exactly the commits git knows, with trimmed messages and token parents |
| `GraphBuilder.FetchAnswersParsed` | visualize_deps.py:12-17 | `get_commit_data` answers every id with its parsed entry, or with the error naming it |
| `GraphBuilder.BuildGraph` | visualize_deps.py:19-33 | no id fetched twice; on success the keys, in insertion order, are the ids fetched, each stored with exactly git's data; seeds are keys; keys are closed under parents and are exactly the reachable commits; the order is the first occurrences of seeds followed by each stored commit's parents; success iff every reachable commit is known; on failure the error names the last fetched id, which is the first unknown reachable id in breadth-first order, and every earlier fetched id is known and reachable |
| `GraphBuilder.RunExpands` | visualize_deps.py:24-31 | every state of the loop satisfies the loop invariant: visited keys match the insertion order, the queue is the rest of the FIFO stream, keys and queued ids are reachable, no parent or seed is lost |
| `GraphBuilder.RunSkips` | visualize_deps.py:25-27 | dequeuing a visited id only drops it from the queue |
| `GraphBuilder.RunStores` | visualize_deps.py:28-31 | dequeuing a new known id stores it with git's data and enqueues its parents |
| `GraphBuilder.RunEnds` | visualize_deps.py:24-33 | when the queue empties, the stored commits are distinct, complete, and every reachable commit is known |
| `GraphBuilder.RunFails` | visualize_deps.py:29 | when the queue's head is new and unknown, the trace ending with it fails as `FailedAt` states, and not every reachable commit is known |
| `GraphBuilder.ExpansionSkips` | visualize_deps.py:25-27 | dequeuing an already visited id keeps the invariant |
| `GraphBuilder.ExpansionStores` | visualize_deps.py:28-31 | storing a new commit and enqueuing its parents keeps the invariant |
| `GraphBuilder.StopsAtUnknown` | visualize_deps.py:29 | an unknown id at the head of the queue is reachable and new, and every id stored before it is known and reachable |
| `GraphBuilder.NextIsFirstOccurrence` | visualize_deps.py:25-29 | the next new id dequeued is the next first occurrence of the stream |
| `GraphBuilder.ExpansionFails` | visualize_deps.py:29 | a fetch failure is for the first unknown id in breadth-first order; it is reachable, so not every reachable commit is known |
| `GraphBuilder.ExpansionEnds` | visualize_deps.py:24-33 | with the queue empty the dict is complete: seeds stored, closed under parents, keys exactly the reachable commits, order the first occurrences of the stream |
| `GraphBuilder.ClosedHoldsReachable` | visualize_deps.py:24-31 | a parent-closed set of fetched commits holding the seeds holds every reachable commit |
| `GraphBuilder.ParentReachable` | visualize_deps.py:31 | a parent of a reachable known commit is reachable |
| `GraphBuilder.Dedup` | visualize_deps.py:26-28 | the first occurrences are distinct and are exactly the elements of the stream |
| `GraphBuilder.DedupPrefix` | visualize_deps.py:22-27 | ids that come first in the stream keep their place among the first occurrences |
| `Graphviz.LabelParts` | visualize_deps.py:42 | the label is the first `min(7, len)` characters of the hash, then `": "`, then the message |
| `Graphviz.EscapeRoundTrip` | visualize_deps.py:42-44 | undoing `\"` and then `\\` gives back any label, whatever backslashes, quotes or newlines it holds |
| `Graphviz.UndoQuotes` | visualize_deps.py:44 | undoing `\"` leaves the label with its backslashes doubled |
| `Graphviz.UndoBackslashes` | visualize_deps.py:44 | undoing `\\` in a label with doubled backslashes gives the label |
| `Graphviz.EscapeQuotes` | visualize_deps.py:44 | every `"` in an escaped label is preceded by a backslash |
| `Graphviz.EscapeIdentity` | visualize_deps.py:44 | escaping changes a label exactly when it contains `\` or `"` |
| `Graphviz.EscapeCons` | visualize_deps.py:44 | the two chained replacements escape character by character: `\` to `\\`, `"` to `\"`, everything else unchanged |
| `Graphviz.EscapeAppend` | visualize_deps.py:44 | escaping distributes over concatenation |
| `Graphviz.EscapeLength` | visualize_deps.py:44 | escaping never shortens a label |
| `Graphviz.NodeLineParts` | visualize_deps.py:45 | a node line is `    "`, the hash, `" [label="`, the escaped label and `"];`, at the stated positions |
| `Graphviz.NodeLineReadBack` | visualize_deps.py:42-45 | unescaping the label field of a node line gives back the label `hash[:7]: message` |
| `Graphviz.EdgeLineParts` | visualize_deps.py:47 | an edge line is `    "`, the parent, `" -> "`, the child and `";`, at the stated positions |
| `Graphviz.EdgeLines` | visualize_deps.py:46-47 | one edge line `"p" -> "c";` per entry of the parents list, in list order |
| `Graphviz.AppendNodeBlock` | visualize_deps.py:42-47 | one pass of the outer loop appends the commit's node line followed by its edge lines |
| `Graphviz.BlocksLength` | visualize_deps.py:41-47 | the body has one line per key plus one per parent entry |
| `Graphviz.BlockAt` | visualize_deps.py:41-47 | the `j`-th key's node line comes right after the lines of the keys before it, followed by its edge lines |
| `Graphviz.DotLinesShape` | visualize_deps.py:36-48 | the output is the four header lines, then one line per key and one per parent entry (duplicates and dangling parents counted), then `}` |
| `Graphviz.DotLinesBlock` | visualize_deps.py:41-47 | the `j`-th key's node line and edge lines sit in the line list after the header and the earlier keys' lines |
| `Graphviz.DotLinesAt` | visualize_deps.py:41-47 | where each key's node line and edge lines sit in the output, in insertion order |
| `Graphviz.CodeEnds` | visualize_deps.py:37-49 | the text starts with the header lines, each ending in a newline, and ends with a newline and `}` |
| `Graphviz.MessageInCode` | visualize_deps.py:42-49 | every key's escaped message occurs in the text; a message without `\` or `"` occurs unchanged |
| `Graphviz.GenerateGraphvizCode` | visualize_deps.py:35-49 | the text is the newline join of the header lines, one node line per key in insertion order each followed by its edge lines, and the footer; what that line list holds is stated by `DotLinesShape`, `DotLinesAt` and `CodeEnds` |
| `PyStr.Split` | visualize_deps.py:9 | `str.split(sep)` returns at least one piece, and no piece contains the separator |
| `PyStr.JoinSplit` | visualize_deps.py:9 | joining the pieces of a split gives back the text |
| `PyStr.SplitJoin` | visualize_deps.py:9 | splitting the join of separator-free lines gives back the lines |
| `PyStr.JoinFirstLast` | visualize_deps.py:49 | the joined text starts with the first line and ends with the last |
| `PyStr.JoinPrefix` | visualize_deps.py:49 | the join of some lines, then a separator, is a prefix of the join of those lines followed by more |
| `PyStr.JoinLast` | visualize_deps.py:49 | with two or more lines, the text ends with the separator and the last line |
| `PyStr.JoinHasPart` | visualize_deps.py:49 | every line occurs in the newline-joined text |
| `PyStr.SplitWhitespace` | visualize_deps.py:16 | `str.split()` yields non-empty whitespace-free tokens |
| `PyStr.SplitWhitespaceJoin` | visualize_deps.py:16 | `str.split()` of space-joined tokens gives back the tokens |
| `PyStr.Strip` | visualize_deps.py:15 | `strip()` leaves no leading or trailing whitespace |
| `PyStr.StripFound` | visualize_deps.py:15 | the stripped text sits inside the original with only whitespace around it |
| `PyStr.StripPadded` | visualize_deps.py:15 | `strip()` removes exactly the surrounding whitespace |
| `PyStr.Prefix` | visualize_deps.py:42 | `s[:7]` is a prefix of at most seven characters |
| `PyStr.UniversalNewlinesNoReturn` | visualize_deps.py:8 | text-mode reading leaves no `\r` |
| `PyStr.UniversalNewlinesIdentity` | visualize_deps.py:8 | text-mode reading changes the output exactly when it holds a `\r` |
| `PyStr.UniversalNewlinesSpace` | visualize_deps.py:8-9 | the output read in text mode is blank exactly when git's output is |
| `PyStr.UniversalNewlinesAppend` | visualize_deps.py:15 | the translation of a text is the translation of its parts, when the cut does not separate a `\r` from the character after it |
| `PyStr.UniversalNewlinesTrimmed` | visualize_deps.py:15 | a text without whitespace at either end keeps that property when read in text mode |
| `PyStr.ReplaceCharIdentity` | visualize_deps.py:44 | `replace` of one character changes the text exactly when the character occurs |
| `PyStr.ReplaceCharLength` | visualize_deps.py:44 | replacing a character by a non-empty text never shortens, and by the empty text never lengthens |
| `Scenario.RenderChildAndRoot` | tests/test_visualize_deps.py:19-75 | for a file added in one commit and changed in the next, git's outputs are parsed, both commits are fetched once, newest first, with their messages read in text mode and stripped, and the text holds two node lines and exactly one edge from the older commit to the newer one |
| `Scenario.ChildAndRootFetch` | tests/test_visualize_deps.py:54-58 | `get_commit_data` on the two-commit repository answers with each commit's message, read in text mode and stripped, and its parents, and fails for any other id |
| `Scenario.BuildChildAndRoot` | tests/test_visualize_deps.py:60-65 | building from the two listed commits succeeds with both commits, newest first, each fetched once |
| `Scenario.ChildAndRootGraph` | tests/test_visualize_deps.py:61-66 | the only graph the build can return for that history holds both commits, newest first, with git's data |

## Left out

- Running git (`subprocess.check_output`) is not modelled. Its answers are the parameters: the log text for `get_commits`, and the two outputs for each commit, held in `Repository`. Any git failure is one error value, `HistoryUnavailable`.
- UTF-8 decoding with `errors='replace'` is not modelled: git's outputs are sequences of already decoded characters. The newline translation of text-mode reading is modelled (`PyStr.UniversalNewlines`).
- `main` is not modelled (visualize_deps.py:51-83): argument parsing, printing, writing the output file, `sys.exit`, and launching the Graphviz rasterizer are CLI and I/O.
- The test fixture (temporary repositories, file writes) is not modelled. Only the two-commit history of its tests is replayed, in `Scenario`, with the commit ids and raw messages as parameters. Its commit ids are required to be whitespace-free tokens, as git's hashes are.
- `Scenario.RenderChildAndRoot`: the tests check that the two literal messages occur in the text. The model states the exact line list for any ids and messages instead. `Graphviz.MessageInCode` gives the occurrence of messages that need no escaping.
- Python's dict is modelled as its insertion order plus a map (`CommitGraph.Graph`). Hashing and memory layout are not modelled.

## Findings

| source | as written | input that shows it | evidently intended | confidence | as-written member | corrected member |
|---|---|---|---|---|---|---|
| visualize_deps.py:9 | `result.strip().split('\n')` returns `['']` for a blank log, so the `if not commits` check at visualize_deps.py:60 never fires. `build_graph` is then called with an empty id, and git fails on it. | a file with no commits: `git log` prints nothing, and `get_commits` returns `['']` | no ids for a blank log, so that `main` reports that no commits were found | high, not executed | `GitLog.EmptyLogGivesOneEmptyId` | `GitLog.CommitList` |

# setuptools_scm utilities: pseudo-MIME parsing and command probing

A Dafny model of two helpers in setuptools_scm's `utils.py`:

- `data_from_mime` reads a pseudo-MIME text (lines of `key: value`, as in e-mail headers)
  into a dictionary. Lines are separated as Python's `str.splitlines` separates them. Only
  lines holding `": "` are kept. Each kept line is split at its first `": "`, and a later
  line with the same key overwrites an earlier one. The model starts from the decoded text:
  `Mime.DataFromMime(content)`.
- `has_command` runs a program (by default with the single argument `help`) and reports
  whether it is available: it is available exactly when the run completed with exit status 0.
  When it is not available and warnings are requested, it issues one `RuntimeWarning`
  saying `'<name>' was not found`. `require_command` probes with warnings off and raises
  `OSError` with that message when the probe fails.

Modules:

- `Wrappers` (`wrappers.dfy`): the `Option` type.
- `Lines` (`lines.dfy`): `str.splitlines()` with Python's full set of line boundaries
  (`\n`, `\r`, `\r\n`, `\v`, `\f`, `\x1c`, `\x1d`, `\x1e`, `\x85`, `\u2028`, `\u2029`).
  No empty line follows a final boundary, and the empty text has no lines.
- `Mime` (`mime.dfy`): `": " in x` (`ContainsSep`), `x.split(": ", 1)` (`SplitOnce`), the
  generator over the lines (`Entries`), `dict(...)` (`FromPairs`) and `DataFromMime`. It
  also holds the lemmas about them, and a writer (`Render`) used to state the round trip.
- `Command` (`command.dfy`): `HasCommand` and `RequireCommand` as methods. The process run
  is a parameter `run: seq<string> -> Outcome`. It maps the argument vector `[name] + args`
  to `Completed(returncode)`, `OsError(cause)` (an `OSError` was raised) or `TimedOut`
  (`subprocess.TimeoutExpired` was raised). Warnings issued are returned as a sequence of
  messages, and the raised `OSError` as an optional message.

Two facts about the code that the model keeps: every `OSError` raised by the run counts as
"not available", a `PermissionError` included; and a repeated key keeps the value of its
last line, as `dict` does.

The run outcome is the datatype `Command.Outcome` (lines 34-40 of `utils.py`), and the
default argument list `["help"]` of line 32 is the constant `Command.DefaultArgs`.

## Model

| member | source | states |
|---|---|---|
| `Lines.SplitLines` | src/setuptools_scm/utils.py:26 | `content.splitlines()` gives no lines exactly when the content is empty |
| `Lines.LinesHaveNoBreak` | src/setuptools_scm/utils.py:26 | no line returned by `splitlines` holds a line boundary character |
| `Lines.SplitAtEnding` | src/setuptools_scm/utils.py:26 | text `a + ending + rest`, with `a` free of boundaries, splits into the line `a` followed by the lines of `rest`; `"\r\n"` is one boundary, and a lone `"\r"` or any other boundary character is one boundary |
| `Lines.SplitJoinLines` | src/setuptools_scm/utils.py:26 | splitting lines each ended by `"\n"` gives back exactly those lines, so a final newline adds no empty line |
| `Lines.SingleLine` | src/setuptools_scm/utils.py:26 | non-empty text without a boundary is one line |
| `Mime.ContainsSep` | src/setuptools_scm/utils.py:26 | `": " in x` holds exactly when the search for the first `": "` finds one |
| `Mime.Entries` | src/setuptools_scm/utils.py:26 | the generator yields at most one pair per line; specified by `EntriesAppend`, `EntriesFromLines` and `ParseLinesSnoc` |
| `Mime.FromPairs` | src/setuptools_scm/utils.py:26 | `dict(pairs)` holds the key of every pair; its keys and values are fully specified by `FromPairsKeys`, `FromPairsLastWins` and `FromPairsSource` |
| `Mime.DataFromMime` | src/setuptools_scm/utils.py:22-29 | the empty content gives the empty dictionary; the rest is specified by `KeyPresent`, `LastWins`, `IgnoredLine`, `EmptyIffNoSeparator`, `DataFromMimeEntries` and `RenderRoundTrip` |
| `Mime.SplitOnce` | src/setuptools_scm/utils.py:26 | `x.split(": ", 1)` gives `[x]` when `": "` does not occur, otherwise two parts with `x == key + ": " + value` and no `": "` in the key |
| `Mime.SplitOnceUnique` | src/setuptools_scm/utils.py:26 | if `line == key + ": " + value` and the key has no `": "`, the split gives exactly `[key, value]`, even when the value holds more `": "` |
| `Mime.FromPairsKeys` | src/setuptools_scm/utils.py:26 | a key is in `dict(pairs)` exactly when some pair has that key |
| `Mime.FromPairsLastWins` | src/setuptools_scm/utils.py:26 | `dict(pairs)` maps a key to the value of the last pair with that key |
| `Mime.FromPairsSource` | src/setuptools_scm/utils.py:26 | every stored value comes from a pair with that key, and no later pair has the key |
| `Mime.EntriesAppend` | src/setuptools_scm/utils.py:26 | the generator over two blocks of lines yields the first block's pairs, then the second's |
| `Mime.EntriesFromLines` | src/setuptools_scm/utils.py:26 | every pair the generator yields is `(key, value)` of some line written `key + ": " + value` with no `": "` in the key |
| `Mime.ParseLinesSnoc` | src/setuptools_scm/utils.py:26 | one more line leaves the dictionary unchanged if it has no `": "`, and otherwise stores its value under its key, overwriting |
| `Mime.IgnoredLine` | src/setuptools_scm/utils.py:26 | a line without `": "` contributes nothing, wherever it stands |
| `Mime.EmptyIffNoSeparator` | src/setuptools_scm/utils.py:26 | the dictionary is empty exactly when no line holds `": "` |
| `Mime.NoDataWithoutSeparator` | src/setuptools_scm/utils.py:22-29 | content with no line holding `": "`, the empty content included, gives the empty dictionary |
| `Mime.KeyPresent` | src/setuptools_scm/utils.py:26 | a key is present exactly when some line holding `": "` has that key before its first `": "` |
| `Mime.LastWins` | src/setuptools_scm/utils.py:26 | when line `i` reads `k: v` and no later line has key `k`, the dictionary maps `k` to `v` |
| `Mime.EntryRebuildsLine` | src/setuptools_scm/utils.py:26 | every key holds no `": "`, and `key + ": " + value` is one of the lines |
| `Mime.DataFromMimeEntries` | src/setuptools_scm/utils.py:22-29 | each entry of the file: its key holds neither `": "` nor a line boundary, its value holds no line boundary, and `key + ": " + value` is a line of the content |
| `Mime.RenderRoundTrip` | src/setuptools_scm/utils.py:22-29 | writing pairs as `key: value` lines and parsing the text gives the dictionary of those pairs, last occurrence winning; keys must have no `": "`, and keys and values no line boundary |
| `Mime.Example` | src/setuptools_scm/utils.py:22-29 | `"hello\nkey: a: b\n"` gives `{"key": "a: b"}`: the line without a separator is dropped, and the value keeps its second separator |
| `Command.Repr` | src/setuptools_scm/utils.py:45 | `%r` of the name: the name between two single quotes |
| `Command.NotFoundMessage` | src/setuptools_scm/utils.py:45 | the message is the command name between two single quotes, followed by `" was not found"` |
| `Command.HasCommand` | src/setuptools_scm/utils.py:32-46 | true exactly when the run of `[name] + args` completed with exit status 0; any other status (negative ones too), an `OSError` or a timeout gives false without raising; exactly one warning naming the command is issued when the result is false and `warn` is set, and none otherwise; the result does not depend on `warn` |
| `Command.RequireCommand` | src/setuptools_scm/utils.py:49-51 | raises `OSError` with the "was not found" message naming the command exactly when running `[name, "help"]` did not complete with status 0; it never issues a warning |

## Left out

- Reading the file and decoding UTF-8 (line 23): filesystem I/O, so the model starts from the decoded text. Its errors (missing file, bad encoding) are not modelled.
- Debug and warning logging through `log` (lines 24, 28, 36, 39): diagnostics only, with no effect on results.
- Starting the process (`_run_cmd.run` with `cwd="."` and `timeout=5`, line 34): a foreign call with wall-clock timing. It is modelled only by the outcome `run` returns.
- Exceptions other than `OSError` and `subprocess.TimeoutExpired` in `has_command`: they propagate out of the function and are not modelled.
- The warning's category (`RuntimeWarning`) and Python's warning filters: the model records only which warning messages were issued.
- Dictionary insertion order: a `map` keeps only the last-wins lookup, which is all the code relies on.
- Command.Repr: Python's `repr` of the name is modelled as the name in single quotes, without repr's escaping and without its switch to double quotes for names holding a single quote; Command.NotFoundMessage inherits this.

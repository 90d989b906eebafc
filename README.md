# bah.py: the command menu, the response stream and the choice

`bah.py` asks a local text-generation server for a menu of shell commands.
It streams the reply and echoes each fragment as it arrives. It then parses the
joined text into a dictionary from menu number to command, reads the operator's
choice, and runs the chosen command through the shell, exiting with the
command's return code. This project models the three pieces of logic in that
pipeline and proves what each of them does:

- **`parse_commands`** (`command_table.dfy`, module `CommandTable`).
  - The loop is the method `ParseCommands`. It is proved equal to the
    specification function `Parse`, which is built from `Split`, `Strip`,
    `MatchEntry` and `Build`.
  - The Python `dict` is the datatype `Table`: its keys in insertion order,
    plus a key-to-command map. The order matters because the invalid-choice
    message lists the keys in dictionary order.
  - The regular expression `(\d+)\)\s(.+)` under `re.match` is modelled exactly
    and proved equal to a declarative reading, `Matches`.
- **The streaming loop of `main`** (`streaming.dfy`, module `Streaming`).
  - The transport is a sequence of `Line`s: `Blank`, `Malformed`, or
    `Decoded` with the frame's optional `"response"` field.
  - The method `StreamResponse` carries the `first` flag and the
    `options_text` list. It is proved to echo and collect exactly
    `Accumulated(lines)`: the responses of the decoded frames after the first.
- **`run_command`** (`selection.dfy`, module `Selection`).
  - The decision is the function `Select`, which gives `Quit`, `Invalid` or
    `Execute`.
  - The exit status is the function `RunCommand`. The outcome of
    `subprocess.run` is an input of type `Launch`.
  - `Session` composes the three pieces as `main` does, using the corrected
    `RunCommand` from the Findings below. It is proved to agree with the code as
    written on every launch that returns, and to hand over the same command
    in every case.

`text.dfy` (module `Text`) holds the string built-ins used: `str.isspace`,
`strip`, `split` (with `sep.join`, used only to characterise `split`) and
`"".join`. `wrappers.dfy` holds `Option`.

`bah.py`'s quit token is `"n"` and it has no copy action. It prints the
command's captured standard output only after the command exits; its standard
error is captured and discarded.

## Model

| member | source | states |
|---|---|---|
| CommandTable.ParseCommands | bah.py:77-90 | The loop returns exactly `Parse(input)`. Its keys are distinct and are exactly the map's keys, in insertion order. Every key is a non-empty digit run, and every command is non-empty, has no line feed and no trailing whitespace. |
| CommandTable.Table.Insert | bah.py:88 | `d[k] = v` stores `v` under `k`, and every other key keeps its presence and its command. An existing key keeps its place, and a new key is appended at the end. The dictionary invariant is kept. |
| CommandTable.DigitRunSpec | bah.py:85 | `\d+` takes every leading ASCII digit and stops at the first non-digit. |
| CommandTable.LineRunSpec | bah.py:85 | `.+` runs up to the first line feed and never crosses it. |
| CommandTable.MatchEntrySound | bah.py:85-87 | Every reported match satisfies the regular expression: digits, `)`, exactly one whitespace character, then a non-empty run without line feed. The groups are the key and the command. |
| CommandTable.MatchEntryComplete | bah.py:85-87 | Every match of the regular expression is the one reported. The match, and therefore `match.groups()`, is unique. |
| CommandTable.EntryWellFormed | bah.py:85-87 | A matching stripped line yields a digit-run key and a non-empty, single-line command that does not end in whitespace. |
| CommandTable.ParseWellFormed | bah.py:81-90 | Every key of the parsed dictionary is a digit run, and every command is well formed. The dictionary invariant holds. |
| CommandTable.ParseHasKey | bah.py:84-88 | A key is in the result if and only if some line of the text matched with that key. |
| CommandTable.BuildLastEntry | bah.py:84-88 | A stored key comes from a match carrying it that no later match with the key follows, and its stored command is that match's command. |
| CommandTable.LastLineOfKey | bah.py:84-88 | Every key of the result maps to the command of the last line of the text that matched with that key. |
| CommandTable.LastWriteWins | bah.py:84-88 | With duplicate keys, the stored command is that of the last matching line carrying the key. |
| CommandTable.BuildLastWriteWins | bah.py:84-88 | The same, over the sequence of per-line matches. |
| CommandTable.BuildHasKey | bah.py:84-88 | A key is stored if and only if some match carries it. |
| CommandTable.BuildKeepsKey | bah.py:84-88 | Matches that do not carry key `k` leave its presence and its command unchanged. |
| CommandTable.NonMatchingLineIgnored | bah.py:84-86 | A line that does not match, standing between two lines, can be removed without changing the result. |
| CommandTable.FirstLineIgnored | bah.py:84-86 | A first line that does not match can be removed without changing the result. |
| CommandTable.LastLineIgnored | bah.py:84-86 | A last line that does not match can be removed without changing the result. |
| CommandTable.NoEntriesGiveEmpty | bah.py:81-90 | Text in which no line matches gives the empty dictionary, not an error. |
| CommandTable.NoDigitFirstNoEntry | bah.py:85-86 | A line whose first non-blank character is not a digit never matches. This covers comments and free text. |
| CommandTable.IndentedTextNoEntry | bah.py:85-86 | An indented line starting with a non-digit, such as a `↳` comment line, adds no entry. |
| CommandTable.OptionLineEntry | bah.py:85-87 | A line `key) command` with one blank after the parenthesis yields exactly `(key, command)`. |
| CommandTable.ParseConcat | bah.py:82-88 | `parse_commands(a + "\n" + b)` is `parse_commands(a)` overridden by `parse_commands(b)`. The keys new in `b` follow those of `a`, in `b`'s order. |
| CommandTable.BuildMerge | bah.py:84-88 | Running the loop from a non-empty dictionary equals merging that dictionary with the one built from scratch. |
| CommandTable.ParseSnoc | bah.py:84-88 | Appending one line to the text runs one more loop iteration on that line's match. |
| CommandTable.DoubleSpaceKept | bah.py:85 | `\s` consumes exactly one blank: `"1)  ls"` yields the command `" ls"`. |
| CommandTable.TabSeparatorAccepted | bah.py:85 | `\s` accepts a tab as well as a space. |
| CommandTable.BareNumberIgnored | bah.py:85-86 | `"3) "` is stripped to `"3)"` and does not match. |
| CommandTable.DuplicateKeyExample | bah.py:84-88 | `"1) a\n1) b"` parses to `{"1": "b"}`. |
| CommandTable.LeadingZeroKeyExample | bah.py:85-88 | `"01"` and `"1"` are distinct keys. |
| CommandTable.PromptExample | bah.py:20-24 | The menu example shown to the language model parses to its two commands, keyed `"1"` and `"2"`. The comment lines and the blank line add nothing. |
| Text.Split | bah.py:82 | `split("\n")` returns at least one piece, and no piece contains the separator. |
| Text.JoinSplit | bah.py:82 | Joining the pieces of `split(sep)` with `sep` restores the text. |
| Text.SplitJoin | bah.py:82 | Splitting a join of separator-free pieces gives the pieces back. |
| Text.SplitConcat | bah.py:82 | `(a + sep + b).split(sep)` is `a.split(sep) + b.split(sep)`. |
| Text.LStripSpec | bah.py:85 | `lstrip()` removes the longest all-whitespace prefix, and what remains is a suffix. |
| Text.RStripSpec | bah.py:85 | `rstrip()` removes the longest all-whitespace suffix, and what remains is a prefix. |
| Text.StripSpec | bah.py:85 | A stripped line is empty, or it neither starts nor ends with whitespace. |
| Text.StripEmpty | bah.py:85 | `strip()` gives `""` exactly for an all-whitespace line. |
| Text.StripKeepsNoNewline | bah.py:85 | Stripping a line without line feeds cannot introduce one. |
| Text.ConcatAppend | bah.py:57 | `"".join` distributes over list concatenation. |
| Streaming.StreamResponse | bah.py:41-57 | The loop echoes and collects exactly the `"response"` values of the decoded frames after the first, in arrival order. The joined text is their concatenation. The echoed sequence equals the collected one. |
| Streaming.NoiseIgnored | bah.py:43-53 | Blank and malformed lines contribute nothing wherever they stand. Before the first frame, they do not use up the first-frame flag. |
| Streaming.FirstFrameDropped | bah.py:41-48 | The first decoded frame is dropped whatever it holds. |
| Streaming.FrameWithoutResponseIgnored | bah.py:49-51 | After the first frame, a frame without `"response"` contributes nothing. |
| Streaming.ResponseAppendedInOrder | bah.py:49-51 | After the first frame, a frame's response is placed after everything collected so far and before everything that follows. |
| Streaming.LaterFrames | bah.py:46-51 | Once a frame has been seen, the result is the responses present in all later frames. |
| Selection.Select | bah.py:61-67 | `"n"` gives Quit. Any other choice that is not a key gives Invalid, listing the keys in dictionary order. A key gives Execute of exactly its command. Each of the three conditions holds in both directions. |
| Selection.RunCommand | bah.py:61-75 | `"n"` exits 0 and runs nothing. An invalid choice exits 1 and runs nothing. A key runs `options[choice]` and exits with its return code, or with 1 when the launch raises. |
| Selection.RunCommandAsWritten | bah.py:70-75 | As written, the program crashes exactly when a key was chosen and `subprocess.run` raised. |
| Selection.RunCommandDiffersOnlyOnRaise | bah.py:70-75 | The as-written and corrected versions agree whenever the launch returns, and always run the same command. |
| Selection.LaunchFailureCrashes | bah.py:73-75 | On a command whose launch raises, the as-written code crashes while the corrected one exits 1. |
| Selection.ParsedChoice | bah.py:65-71 | On a parsed menu, a choice that executes is a digit run. It runs a well-formed command: the command of the last line of the text that matched with that key. |
| Selection.QuitNeverShadowsAKey | bah.py:62-65 | `"n"` is never a menu key, so testing it first hides no command. |
| Selection.BlankIsNotAKey | bah.py:65 | A choice containing a blank is neither a key of a well-formed menu nor `"n"`. |
| Selection.BlankInChoiceIsInvalid | bah.py:65-67 | The choice is not trimmed: one containing a blank, such as `" 1"`, is invalid on every parsed menu. |
| Selection.SampleDecisions | bah.py:61-75 | On `{"1": "echo hi", "2": "pwd"}`: `"1"` runs `echo hi`, `"3"` and `" 1"` are invalid, `"n"` quits, and `"2"` exits with its command's code. |
| Selection.Session | bah.py:57-59 | `main` after the request: the echo is the accumulated responses. The outcome is the corrected `RunCommand` applied to the choice and to the menu parsed from their concatenation. It equals the as-written outcome whenever the launch returns, and it hands over the same command in every case. |
| Selection.NothingStreamedNothingRuns | bah.py:41-67 | If the only frame is the dropped first one, the menu is empty, so every choice except `"n"` exits 1 without running anything. |

## Left out

- **HTTP request:** the request, `raise_for_status` and the `RequestException` path that prints and exits 1 (bah.py:36-39, 54-56) are network I/O. The body arrives as a given sequence of lines.
- **`json.loads`:** the decoder is abstracted. Each non-empty line is `Malformed` (it raises `JSONDecodeError`) or `Decoded` with its optional `"response"`. Other decoder errors are not modelled; for example, a line that is not valid UTF-8 raises `UnicodeDecodeError`, which nothing catches, so the program ends.
- **Non-object JSON values:** a bare number makes `"response" in data` raise, and a bare string makes it a substring test. These are not modelled.
- **Non-string `"response"` values:** these are not modelled. Neither is the `TypeError` that `"".join` would raise on one.
- **Echo:** the echo is the sequence of fragments printed. Flushing and the terminal are not modelled.
- **Running the command:** the shell and the printing of captured standard output (bah.py:71-72) are not modelled. The result of `subprocess.run` is the `Launch` input: a return code, or an exception.
- **Invalid-choice message:** `Invalid` carries the dictionary's keys, in order, instead of the printed line. The other messages are not modelled either.
- Selection.RunCommand: the exit status is the argument passed to `sys.exit`. The operating system's reduction to 0-255 and the negative return codes of signal-terminated children are not modelled.
- **Command line and prompt:** `sys.argv` handling, the usage message, and building the prompt and payload (bah.py:9-33) are not modelled. The only part of the prompt kept is its menu example, used in `CommandTable.PromptExample`.
- **Console input:** `input()` (bah.py:59) is not modelled. The choice is a parameter, as the string `input` returns, without its line feed.
- **Unicode digits:** `\d` is restricted to the ASCII digits `0`-`9`. Python also accepts other Unicode decimal digits on `str` patterns.
- **Whitespace:** `IsSpace` is CPython's `str.isspace` set written out; `\s` and `strip()` both use it.

## Findings

| source | as written | input that shows it | evidently intended | confidence | as-written member | corrected member |
|---|---|---|---|---|---|---|
| bah.py:70-75 | When `subprocess.run` raises, the handler prints the error and falls through to `sys.exit(result.returncode)`. `result` was never assigned, so the program dies with an uncaught `UnboundLocalError` traceback. | Menu `{"1": "echo \0"}` and choice `"1"`: an embedded NUL makes `subprocess.run` raise. | Report the failure and exit with the failure status 1. | high; not executed | Selection.RunCommandAsWritten | Selection.RunCommand |

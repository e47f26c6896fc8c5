# Alias manager core, modelled in Dafny

The alias manager (AL) keeps zsh aliases in a file, `~/.zsh/am/zsh_alias`,
which `.zshrc` sources. An interactive alias server holds the aliases in
a map from name to expansion. The server:

- reads the map from the file at start-up (`checkAliases`);
- rewrites the whole file after every change (`writeAliases`);
- sends SIGUSR1 to every running zsh so that each one re-sources the file
  (`updateAllRunningShells`).

At start-up, `main.go` makes sure that `.zshrc` contains the import block
and that the alias file contains the default aliases. Both use the same
rule: open in append mode, and append the block unless the text already
contains it.

The server logic exists in two revisions: the `server` package
(server/aliasserver.go) and the older main-package copy (aliasServer.go).
In the operations modelled here, both have the same branches and the
same format, and differ only in the default block (strings.go against
server/strings.go) and in where the path comes from. The console parts
differ more (command dispatch, the line reader, the input goroutine) and
are not modelled. One class, `Server.AliasServer`, models
both. Its two constructors, `ForServer` and `ForMain`, pick the default
block of each revision.

Modules:

- `GoStrings` (go_strings.dfy) models the Go `strings` functions the
  program calls: `Contains`, `Replace(…, -1)`, `Split` with a one-byte
  separator, and `TrimSpace`. `Split` is proved against its inverse
  `Join` and `TrimSpace` idempotent. `Contains` and `Replace` get only the
  special cases the format needs: a one-character needle, a suffix, a
  pattern that does not occur, a character that is removed or kept.
- `AliasFormat` (alias_format.dfy) covers the file format:
  - the line `alias k='v'\n` that writeAliases prints;
  - the line decoder of checkAliases, with its panic as a result value;
  - the reading of complete lines by `bufio.Reader.ReadString('\n')`;
  - the fold of the lines into the map.

  It also holds the round trip between writing and reading.
- `Files` (files.dfy) models a file as an object: whether it is present,
  and its text. What the operating system answers to each call is an
  `Env` value. The module also holds the contains-then-append step.
- `Texts` (texts.dfy) holds the constant blocks of both revisions.
- `ShellNotifier` (shell_notifier.dfy) holds the pid extraction of
  updateAllRunningShells.
- `Server` (alias_server.dfy) holds the alias server class.
- `Startup` (startup.dfy) holds `setupRC` and `setupAliasFile` of main.go.

Go's map iteration order is random. Every loop over the map picks any
remaining key (`:|`) and records the order it used in a ghost `order`.
The postconditions are stated for that order, and the lemmas hold for
every order (`IsEnumeration`).

A Go panic becomes a value: `OutOfRange` for one line, then `Crashed`
for the whole load. An unrecovered panic, which ends the process with
status 2, becomes `Exited(2)`, and `os.Exit(1)` becomes `Exited(1)`.

Some behaviours of the code are easy to miss when reading it, and the
model states them as they are:

- The decoder splits on every `=` and keeps only the first two pieces. It
  does not split on the first `=` only, so a value is cut at its first
  `=` (`DecodeCutsAtEquals`).
- The round trip holds exactly for keys and values free of `=`, `'`,
  newlines and the pair `\"`: such maps come back unchanged
  (`RoundTrip`), and a line comes back unchanged only when its key and
  value are free of all four (`DecodeFormatLineOnlyIf`). It does not hold
  for every newline-free expansion: `alias k='a\"b'` is read back as
  `a"b` (`DecodePairExample`).
- Reading the file never clears the map. When the file is missing, the
  map is left as it was (`CheckAliases`, `LoadNeverClears`); it is not
  replaced by an empty set.
- Shells are signalled whenever the file could be opened, even when
  truncating or writing failed (`WriteAliases`).
- The revisions quote the default block differently. The main-package
  block writes `alias ga="git add --all"`, whose double quotes survive
  decoding (`DecodeKeepsDoubleQuotes`). The server block writes
  `alias ga=git add --all`, which decodes bare (`DecodeBareValue`).

## Model

| member | source | states |
|---|---|---|
| AliasFormat.FormatLine | server/aliasserver.go:168 | the line printed for one alias, `alias k='v'` and a newline; its partner is DecodeLine (DecodeFormatLine, RoundTrip) |
| AliasFormat.IsDeclaration | server/aliasserver.go:145-149 | a line is looked at only when it has at least five bytes and they are `alias` |
| AliasFormat.Unquote | server/aliasserver.go:150-153 | the three replacements in source order: newlines removed, `\"` turned into `"`, single quotes removed (UnquoteFormatted, DecodedHasNoQuotes) |
| AliasFormat.DecodeLine | server/aliasserver.go:145-157 | a line is skipped exactly when it is shorter than 5 bytes or does not start with `alias`; a decoded key and value never contain `=` |
| AliasFormat.DecodePanicsIff | server/aliasserver.go:149-156 | the decoder panics on exactly the `alias` lines that have no `=` after byte 6 (such as `alias foo\n`) |
| AliasFormat.DecodedHasNoQuotes | server/aliasserver.go:150-154 | a decoded key or value never contains a newline or a single quote |
| AliasFormat.DecodeFormatted | server/aliasserver.go:150-168 | a line printed by writeAliases, for a key free of `=`, `'`, newline and `\"` and a value free of `'`, newline and `\"`, decodes to that key and the value up to its first `=` |
| AliasFormat.DecodeFormatLine | server/aliasserver.go:150-168 | a line printed by writeAliases for a key and value free of `=`, `'`, newline and `\"` decodes to that same key and value |
| AliasFormat.DecodeCutsAtEquals | aliasServer.go:137-139 | a value with an `=` in it is read back cut at that `=`, and the rest is lost |
| AliasFormat.DecodeCutExample | aliasServer.go:137-139 | the line `alias k='a=b'` gives `k` the value `a` |
| AliasFormat.DecodeFormatLineOnlyIf | server/aliasserver.go:150-168 | the converse of DecodeFormatLine: a printed line that decodes to its own key and value was printed for a key and value free of `=`, `'`, newline and `\"` |
| AliasFormat.DecodePairs | server/aliasserver.go:149-156 | a printed line whose key and value hold no `=`, `'` or newline decodes to them with every `\"` turned into `"` |
| AliasFormat.DecodePairExample | server/aliasserver.go:149-156 | the printed line `alias k='a\"b'` gives `k` the value `a"b` |
| AliasFormat.DecodeKeepsDoubleQuotes | aliasServer.go:134-139 | a value written in double quotes, as the main-package default block does, is read back with its double quotes |
| AliasFormat.DecodeBareValue | server/aliasserver.go:150-156 | a bare value, as the server-package default block writes it, is read back unchanged |
| AliasFormat.CompleteLines | server/aliasserver.go:139-143 | the strings ReadString('\n') returns without error, each up to and including a newline; an unterminated tail comes back with io.EOF and is not returned (CompleteLinesAreLines, CompleteLinesCover) |
| AliasFormat.CompleteLinesAreLines | server/aliasserver.go:139-143 | the reader hands the loop only complete lines, each ending in its one newline |
| AliasFormat.CompleteLinesCover | server/aliasserver.go:139-143 | the complete lines, followed by the unterminated tail, make up the whole text, so the reader loses nothing but that tail |
| AliasFormat.UnterminatedTailIgnored | server/aliasserver.go:139-143 | a last line without a newline is never decoded, so it changes nothing in the result |
| AliasFormat.LoadLines | server/aliasserver.go:139-157 | the read loop over lines: a skipped line leaves the map, a declaration stores its entry, a declaration without `=` ends the load as a panic |
| AliasFormat.Load | server/aliasserver.go:136-157 | the read loop over the complete lines of the file's text (RoundTrip, LoadNeverClears, LoadLastWins) |
| AliasFormat.LoadNeverClears | aliasServer.go:110-141 | loading into a map lays what the file declares over that map: keys the file does not mention keep their values, and the file's values win |
| AliasFormat.LoadLinesKeepsKey | aliasServer.go:121-141 | lines that declare nothing for a key leave that key's presence and value alone |
| AliasFormat.LoadLastWins | aliasServer.go:121-141 | for a key declared on several lines, the last declaration gives the value |
| AliasFormat.LoadLinesAppend | server/aliasserver.go:139-158 | reading two runs of lines is reading the second from the map the first left, and a panic in the first ends the load |
| AliasFormat.Serialize | server/aliasserver.go:166-169 | the text writeAliases builds: one FormatLine per key, in the order the map is ranged over (FormatAliases, SerializeSnoc, RoundTrip) |
| AliasFormat.SerializeSnoc | server/aliasserver.go:166-169 | each pass of the accumulation loop appends one `alias k='v'` line for the key it visits |
| AliasFormat.RoundTrip | server/aliasserver.go:150-168 | for a clean map, reading what writeAliases wrote into an empty map gives the map back, whatever order the map was ranged over |
| AliasFormat.ReloadIsStable | server/aliasserver.go:114-118 | re-reading the file written from a clean map into that map, as listAliases does, changes nothing |
| AliasFormat.SerializedLines | server/aliasserver.go:166-169 | for a map without newlines in its keys and values, the written text reads back as exactly the FormatLine of each listed key, in order |
| AliasFormat.SerializedLineCount | server/aliasserver.go:165-169 | for a map without newlines in its keys and values (an `=`, a quote or a backslash does not matter), the written text has exactly one complete line per alias and ends at a line break |
| GoStrings.Contains | server/aliasserver.go:249 | strings.Contains: `sub` occurs somewhere in `s` (ContainsChar, ContainsSuffix) |
| GoStrings.ContainsChar | server/aliasserver.go:249 | a one-character needle is contained exactly when that character occurs |
| GoStrings.ContainsSuffix | server/aliasserver.go:249 | a text always contains its own suffix, so an appended block is found by the next check |
| GoStrings.ReplaceAll | server/aliasserver.go:151-153 | strings.Replace with n = -1: every non-overlapping occurrence, left to right, replaced (ReplaceAllAbsent, ReplaceCharRemoves, ReplaceAllKeeps, ReplaceCharConcat) |
| GoStrings.ReplaceAllAbsent | server/aliasserver.go:151-153 | a pattern that does not occur leaves the text unchanged |
| GoStrings.ReplaceCharRemoves | server/aliasserver.go:151-153 | after replacing a character by text without it, the character no longer occurs |
| GoStrings.ReplaceAllKeeps | server/aliasserver.go:151-153 | a character outside the pattern and the replacement occurs after the replacement exactly when it did before |
| GoStrings.ReplaceCharConcat | server/aliasserver.go:151-153 | replacing a single character distributes over concatenation |
| GoStrings.Split | server/aliasserver.go:154 | strings.Split with a one-byte separator: at least one piece, no piece holds the separator, one piece exactly when the separator is absent, the first piece is everything before the first separator |
| GoStrings.SplitJoin | server/aliasserver.go:154 | joining the pieces with the separator gives the input back, so Split loses nothing |
| GoStrings.SplitCount | server/aliasserver.go:154 | there is one more piece than there are separators, so `cmdList[1]` exists exactly when the text has an `=` |
| GoStrings.SplitAfter | server/aliasserver.go:154 | a separator-free head followed by the separator is the first piece, and the rest is split on its own |
| GoStrings.TrimSpace | server/aliasserver.go:212 | strings.TrimSpace: the result is a slice of the input with only white space before and after it, and it neither starts nor ends with white space |
| GoStrings.TrimSpaceIdempotent | server/aliasserver.go:212 | strings.TrimSpace is idempotent: trimming its own result changes nothing |
| Files.EnsureContains | main.go:70-78 | after the step the text contains the block and starts with the old text; the block is appended exactly when it was missing |
| Files.EnsureContainsIdempotent | main.go:70-78 | applying the contains-then-append rule twice is applying it once |
| Files.AfterAppend | main.go:66-78 | the step with the read and write outcomes: a failed write changes nothing; with both working it is EnsureContains; with a failed read the block is appended even when it is there |
| Files.AppendIdempotent | main.go:99-111 | once the file holds the block, running the step again with a working read leaves it unchanged |
| Files.UnreadableFileGrows | main.go:99-106 | with the read failing every time, n runs append n copies of the block |
| Files.AppendUnlessContained | server/aliasserver.go:244-258 | the file's new text is AfterAppend of the old one when there is a handle, and unchanged without one |
| ShellNotifier.ShellLines | server/aliasserver.go:206 | the output is trimmed and split into at least one newline-free line; blank output gives the single empty line |
| ShellNotifier.IsGrepLine | server/aliasserver.go:209 | a line is skipped when it mentions `grep` |
| ShellNotifier.Pid | server/aliasserver.go:212-214 | the first space-separated field of the trimmed line (PidIsFirstField) |
| ShellNotifier.Pids | server/aliasserver.go:208-215 | the pids of the lines that do not mention grep, in line order (CollectPids, PidsAppend, PidsSingle) |
| ShellNotifier.PidIsFirstField | server/aliasserver.go:212-214 | the pid is the longest space-free prefix of the trimmed line, and it is empty only for a blank line |
| ShellNotifier.PidsAtMostLines | server/aliasserver.go:208-215 | there are never more pids than lines |
| ShellNotifier.UpdateAllRunningShells | server/aliasserver.go:206-215 | the pids collected are exactly Pids of the trimmed output split at newlines; the main-package revision has the same code at aliasServer.go:189-198 |
| ShellNotifier.CollectPids | server/aliasserver.go:208-215 | the loop collects exactly Pids of the lines it ranges over; the main-package revision has the same code at aliasServer.go:191-198 |
| ShellNotifier.PidsAppend | server/aliasserver.go:208-215 | the pids of two runs of lines are those of the first followed by those of the second, so they come in input order |
| ShellNotifier.PidsSingle | server/aliasserver.go:209-214 | one line yields its pid, or nothing when it mentions grep |
| ShellNotifier.PidsNoGrep | server/aliasserver.go:208-215 | with no grep line there is one pid per line |
| ShellNotifier.PidsAllGrep | server/aliasserver.go:209-211 | lines that all mention grep yield no pid |
| ShellNotifier.PidsHaveNoSpace | server/aliasserver.go:213-214 | no pid contains a space |
| ShellNotifier.BlankOutputGivesEmptyPid | server/aliasserver.go:206-214 | blank output still yields one empty pid |
| Server.FormatAliases | server/aliasserver.go:166-169 | the accumulated text is Serialize of the map in an order that lists every key exactly once |
| Server.AliasServer.ForServer | server/aliasserver.go:29-32 | the struct literal of New, before its Setup call: a server-package instance on a given file, with the server default block and an empty map; New is ForServer followed by Setup |
| Server.AliasServer.ForMain | aliasServer.go:25 | the struct literal of startAliasServer, before its Start call: a main-package instance, with the main-package default block and an empty map |
| Server.AliasServer.Setup | server/aliasserver.go:37-42 | the map starts empty; status 1 exactly when the file is missing, the directory could be made, and creation fails; then the map is what the file loads, or status 2 on a panic; the main-package revision has the same code at aliasServer.go:37-42 |
| Server.AliasServer.SetupAliasFile | server/aliasserver.go:223-242 | an existing file, or a failed MkdirAll, leaves the file untouched; a missing file is created and holds exactly the default block when the write succeeds; a failed create gives status 1; the main-package revision has the same code at aliasServer.go:206-225 |
| Server.AliasServer.WriteDefaultAliases | server/aliasserver.go:244-258 | the created file gets the contains-then-append step with the default block; the main-package revision has the same code at aliasServer.go:227-241 |
| Server.AliasServer.CheckAliases | server/aliasserver.go:127-163 | an unopenable file leaves the map as it is; otherwise the new map is Load of the old map and the text, and status 2 exactly when a line panics; the main-package revision has the same code at aliasServer.go:110-146 |
| Server.AliasServer.WriteAliases | server/aliasserver.go:165-191 | on a failed open nothing is written or signalled; otherwise the file exists and holds the old text (only if truncation failed) followed by the serialised map (if the write succeeded), and the pids from the ps output are signalled; the main-package revision has the same code at aliasServer.go:148-174 |
| Server.AliasServer.CreateAlias | server/aliasserver.go:107-112 | the map gets name → fn, replacing any old value and keeping every other entry; then the file is rewritten as by WriteAliases; the main-package revision has the same code at aliasServer.go:90-95 |
| Server.AliasServer.RemoveAlias | server/aliasserver.go:122-125 | the key is gone, other entries are kept, and a missing key leaves the map equal to before; then the file is rewritten; the main-package revision has the same code at aliasServer.go:105-108 |
| Server.AliasServer.ListAliases | server/aliasserver.go:114-120 | the file is re-read as by CheckAliases, then one `name : expansion` line is shown per entry; the main-package revision has the same code at aliasServer.go:97-103 |
| Startup.OpenedText | main.go:55-64 | the definition of the text right after the open: the old text when OpenFile worked, empty when os.Create made the file after a not-exist error |
| Startup.CreateFails | main.go:57-62 | the open fails with a not-exist error and os.Create fails too, so the process exits with status 1 |
| Startup.OpenForAppend | main.go:55-64 | an open file keeps its text; a not-exist error falls back to os.Create, which gives an empty file or status 1; any other error leaves no handle and the file untouched |
| Startup.EnsureBlock | main.go:88-111 | open, then the contains-then-append step on the text as opened |
| Startup.SetupRC | main.go:53-79 | `.zshrc` gets the import block unless it already has it; with everything working the result is EnsureContains of the old text; status 1 when the file cannot be created |
| Startup.SetupAliasFile | main.go:81-112 | a failed MkdirAll leaves the file untouched; otherwise the same as SetupRC with the default block |
| Startup.PrepareFiles | main.go:27-28 | setupRC runs first and setupAliasFile second; for every outcome of the system calls, each file is either untouched (failed open, failed MkdirAll, or an exit, including an exit in setupRC for the alias file) or holds AfterAppend of its text as opened; status 1 exactly when one of the two creates fails |

## Left out

- The process calls (`ps ax`, `grep`, `kill -USR1`) are left out. The model
  takes the grep output as the `psOutput` parameter and returns the pids
  that would be signalled. A failed kill is ignored in the code, so every
  pid is signalled.
- The real file system is replaced by the `Env` parameter, which gives the
  outcome of every call. The server's setupAliasFile opens without
  `O_CREATE`, so its outcome is taken from whether the file is present.
- Read errors in the middle of the file are left out. The loop stops at
  any error, and the model stops only at the end of the text.
- Partial writes are left out: a write either succeeds whole or writes
  nothing.
- Console I/O is left out: `Run`, `LoopInput`, `RunCmd`, `readLine`, `log`,
  `writeToUser` and `promptUser`. `ListAliases` returns the lines it shows
  rather than printing them.
- `main()`'s signal handling and time-out, `Shutdown` and the goroutine
  that starts the input loop are left out (process lifecycle and
  concurrency).
- `Server.AliasServer.CheckAliases`: after a panic (status 2) the map is
  left unspecified. The process is gone at that point, so no caller can
  observe it.
- `GoStrings.TrimSpace` and `GoStrings.IsSpace` treat only the ASCII
  white-space bytes as spaces. `unicode.IsSpace` also accepts U+0085,
  U+00A0 and other non-ASCII spaces, which the model does not.
- `AliasFormat.DecodeKeepsDoubleQuotes` and `AliasFormat.DecodeBareValue`
  are stated for one general line each. The model does not evaluate the
  whole default block.

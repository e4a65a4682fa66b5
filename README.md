# userd account-command core, modelled in Dafny

`userd` manages Linux user accounts by running the distribution's own account tools.
Three pieces of it carry real decisions, and this project models them:

- **OS identity resolver** (`getOS`): reads the os-release text line by line, keeps the last `ID` and
  `VERSION_ID` values with every `"` removed, and composes `id:version_id`, `id` or `""`.
- **Command table builder** (`getOSCommands`): lower-cases the identity, looks it up in the CentOS list,
  then the Debian/Ubuntu list, then falls back to a `flatcar` prefix, and refuses anything else. Each
  of the three tables maps the seven account operations to the command lines they run. Deletion first
  asks `pgrep` for the user's processes, kills them with `pkill -9` only when that list is not blank,
  and then always deletes.
- **Hook dispatcher** (`getHookExecutor`, `Exec`): no hook name gives the no-op executor; otherwise
  the name is resolved on the search path, and the resolved program is run as `program TAG msg...`.
  Its failures are swallowed.

Files:

- `wrappers.dfy` (`Wrappers`): `Option` and `Result`.
- `gostrings.dfy` (`GoStrings`): the Go `strings` functions the core uses: `Split`, `Replace` of one
  character (`RemoveChar`), `ToLower`, `TrimSpace`, `HasPrefix`, with their properties.
- `process.dfy` (`Process`): the `Shell` class. It records every command line run in `trace`. It
  answers each one from `respond`, an abstract model of the system given the commands run before.
- `osidentity.dfy` (`OsIdentity`): `GetOS`, a loop over the lines proved equal to the declarative
  `Identity`, plus the lemmas about `Identity`.
- `distro.dfy` (`Distro`): `GetOSCommands`, the argv of every operation (`CommandArgv`), the deletion
  plan (`DelUserPlan`), and `Perform`, which runs an operation on a `Shell`.
- `hook.dfy` (`Hook`): the event tags, `GetHookExecutor`, `HookArgs` and `Exec`.

The file read, process spawning and the search-path lookup are parameters. The os-release text
is an `Option<string>`, where `None` means the read failed. Commands go through `Shell`, whose
`respond` function stands for the system. `exec.LookPath` is a function argument of
`GetHookExecutor`. `log.Fatal` and the index-out-of-range panic become `Err` results, and
`log.Fatalf` in `getOSCommands` becomes `None`.

## Model

| member | source | states |
|---|---|---|
| `GoStrings.Split` | distro.go:32 | a split always has at least one piece, so the `len(bits) > 0` guard always holds |
| `GoStrings.JoinSplit` | distro.go:28 | joining the pieces of a split with the separator gives back the original text |
| `GoStrings.SplitJoin` | distro.go:28 | splitting a join of separator-free pieces gives back exactly those pieces |
| `GoStrings.SplitPiecesFree` | distro.go:32 | no piece of a split contains the separator |
| `GoStrings.SplitSingle` | distro.go:32-33 | there is exactly one piece iff the separator is absent, and that piece is then the whole line |
| `GoStrings.SplitAfter` | distro.go:32-37 | `a=b...` with no `=` in `a` splits into `a` followed by the pieces of the rest |
| `GoStrings.RemoveChar` | distro.go:34 | the result contains no `"` and is no longer than the input |
| `GoStrings.RemoveCharAbsent` | distro.go:37 | removing a character that does not occur changes nothing |
| `GoStrings.RemoveCharConcat` | distro.go:34 | quote removal keeps all other characters in order: it distributes over concatenation |
| `GoStrings.ToLower` | distro.go:53 | the result has the input's length, and each character is that character lower-cased |
| `GoStrings.ToLowerIdempotent` | distro.go:53 | lower-casing an already lower-cased identity changes nothing |
| `GoStrings.ToLowerOfLower` | distro.go:53 | text without ASCII capitals is its own lower-case form |
| `GoStrings.HasPrefixOfPrefix` | distro.go:142 | a string with a longer prefix also has every prefix of that prefix |
| `GoStrings.TrimSpaceEmpty` | distro.go:65 | the trimmed `pgrep` output is empty iff every character of it is white space |
| `GoStrings.TrimSpace` | distro.go:65 | `strings.TrimSpace`: the text without its leading and trailing `unicode.IsSpace` characters (see `TrimSpaceEmpty`) |
| `GoStrings.HasPrefix` | distro.go:142 | `strings.HasPrefix`: the text starts with the prefix (see `HasPrefixOfPrefix`) |
| `OsIdentity.Panics` | distro.go:32-37 | a line whose key is `ID` or `VERSION_ID` but whose split has fewer than two pieces, so `bits[1]` is out of range (see `PanicsIff`) |
| `OsIdentity.Sets` | distro.go:32-37 | a line whose first piece is the key and which has a second piece, so the loop assigns the key's variable |
| `OsIdentity.ValueOf` | distro.go:34-37 | the second piece of a line split on `=`, with every `"` removed |
| `OsIdentity.LastValue` | distro.go:31-40 | the value of the last line that sets the key, or none (see `LastValueIsLast`) |
| `OsIdentity.Compose` | distro.go:42-48 | `id:version_id` when both are non-empty, `id` when only the id is, `""` otherwise |
| `OsIdentity.Identity` | distro.go:28-48 | the declarative parse of the text: an error if any line panics, otherwise the composed last values (`GetOS` is proved equal to it) |
| `OsIdentity.GuardedIdentity` | distro.go:32 | the parser with guard `len(bits) > 1`: the composed last values, with no failure case (see `GuardedIdentityAgrees`) |
| `OsIdentity.PanicsIff` | distro.go:32-37 | `bits[1]` is out of range exactly on a line that is `ID` or `VERSION_ID` with no `=` |
| `OsIdentity.LastValueIsLast` | distro.go:31-40 | the kept value is the quote-stripped value of the LAST line setting the key, and absent iff no line sets it |
| `OsIdentity.LaterOverrides` | distro.go:31-40 | a later line that sets the key overrides every earlier one |
| `OsIdentity.OtherLineKeeps` | distro.go:31-40 | a line that does not set the key leaves the kept value unchanged |
| `OsIdentity.KeyValueLine` | distro.go:32-37 | a line `key=value` with a single `=` sets `key` to `value`, quotes removed, and sets no other key |
| `OsIdentity.KeyValueLineMore` | distro.go:32-34 | on a line `key=v=rest`, the value is `v` (the text between the first and second `=`), quotes removed, and the rest is ignored |
| `OsIdentity.KeyValueLineSafe` | distro.go:32-37 | a line of the form `key=value` never makes the parser panic |
| `OsIdentity.IdentityOfLines` | distro.go:28-48 | for a file given as its lines: fails iff some line panics, else composes the two kept values |
| `OsIdentity.GetOS` | distro.go:23-49 | an unreadable file is an error; otherwise the loop's result is exactly `Identity` of the text |
| `OsIdentity.LastSetterDecides` | distro.go:31-40 | when line `i` is the last line setting the key, the kept value is that line's value |
| `OsIdentity.BothPresentGeneral` | distro.go:31-43 | on any accepted file, whatever its other lines, their order or a trailing newline: with last `ID` line `i` and last `VERSION_ID` line `j`, both values non-empty, the identity is `value(i):value(j)` |
| `OsIdentity.IdOnlyGeneral` | distro.go:31-45 | on any accepted file with last `ID` line `i` and no line setting `VERSION_ID`, the identity is the bare value of line `i` |
| `OsIdentity.BothPresent` | distro.go:42-43 | the two-line file `ID=a` then `VERSION_ID=b` gives `a:b`, with every `"` removed from both values |
| `OsIdentity.BothPresentQuoted` | distro.go:42-43 | `ID="a"` and `VERSION_ID="b"` give `a:b` |
| `OsIdentity.IdOnly` | distro.go:44-45 | the one-line file `ID=a` gives the bare id, quotes removed |
| `OsIdentity.IdOnlyQuoted` | distro.go:44-45 | `ID="a"` alone gives `a` |
| `OsIdentity.CentOSExample` | distro.go:44-45 | the file `ID="centos"` gives `centos` |
| `OsIdentity.NoIdGivesEmpty` | distro.go:46-48 | when no line sets `ID`, the identity is `""` whatever `VERSION_ID` holds |
| `OsIdentity.VersionIdOnly` | distro.go:46-48 | a `VERSION_ID` line alone gives `""` |
| `OsIdentity.BareKeyFails` | distro.go:32-37 | a line that is exactly `ID` or `VERSION_ID`, at any position (first, last or the only line), makes the parse fail |
| `OsIdentity.IdentityQuoteFree` | distro.go:34-43 | no identity the parser returns contains `"` |
| `OsIdentity.Unquote` | distro.go:34 | a value written as `"v"` with no quote inside `v` becomes `v` |
| `OsIdentity.GuardedSkipsBareKey` | distro.go:32 | for the guarded parser, a bare `ID` or `VERSION_ID` line sets no key, and a bare key line after the others changes neither value |
| `OsIdentity.GuardedIdentityAgrees` | distro.go:32 | the parser with guard `len(bits) > 1` never fails, agrees with the original wherever the original succeeds, and reads a bare `ID` line as no value |
| `Distro.GetOSCommands` | distro.go:52-186 | `getOSCommands`: lower-case, exact match on the CentOS list, then on the Debian list, then the `flatcar` prefixes; `None` when the source calls `log.Fatalf` (see `Registry`) |
| `Distro.CommandArgv` | distro.go:56-181 | the argv literal of each of the seven closures in each of the three tables; for deletion, the final delete command (see `UsernameLast`, `UsermodShared`, `DeleteCommands`, `AddCommandsDiffer`, `CommandDeterminesOperation`) |
| `Distro.PgrepArgv` | distro.go:64 | the `pgrep -l -u <user>` argv shared by the three `delUser` closures (also distro.go:106, 149) |
| `Distro.PkillArgv` | distro.go:67 | the `pkill --signal 9 -e -u <user>` argv shared by the three `delUser` closures (also distro.go:109, 152) |
| `Distro.DelUserPlan` | distro.go:61-75 | the ordered argvs of `delUser` given the `pgrep` output: `pgrep`, `pkill` if the trimmed output is non-empty, then the family's delete (see `DelUserPlanShape`) |
| `Distro.Plan` | distro.go:56-181 | every argv an operation runs: the delete plan for deletion, the single argv otherwise (used by `Perform`) |
| `Distro.Registry` | distro.go:53-183 | CentOS iff the lower-cased identity is one of the four listed; Debian iff it is one of the ten listed; Flatcar iff it starts with `flatcar`; refused otherwise |
| `Distro.FlatcarVersionCaseRedundant` | distro.go:142 | the `flatcar:3510.3` prefix case accepts nothing that the `flatcar` case does not accept already |
| `Distro.CaseInsensitive` | distro.go:53 | an identity and its lower-cased form select the same table |
| `Distro.MixedCaseExample` | distro.go:53-142 | `CentOS:7` selects CentOS and `Flatcar:3510.3.2` selects Flatcar |
| `Distro.UnknownRefused` | distro.go:182-183 | `centos:8` and `""` are refused |
| `Distro.SelectsDebian` | distro.go:97 | every listed Debian/Ubuntu identity selects the Debian table |
| `Distro.DebianUbuntuShared` | distro.go:97 | `debian:11` and `ubuntu:18.04` select the same table |
| `Distro.UsernameLast` | distro.go:56-181 | every command line of every table ends with the target user name |
| `Distro.UsermodShared` | distro.go:76-180 | the five modifications run the same `usermod` line in all three tables |
| `Distro.DeleteCommands` | distro.go:73-158 | CentOS and Flatcar delete with `userdel --remove -f u`, Debian with `deluser --remove-home u` |
| `Distro.AddCommandsDiffer` | distro.go:57-146 | the three account-creation lines are pairwise different |
| `Distro.CommandDeterminesOperation` | distro.go:56-181 | within a table, two operations with the same command line are the same operation with the same arguments |
| `Distro.DelUserPlanShape` | distro.go:61-75 | `pgrep` runs first; `pkill --signal 9 -e -u u` runs second exactly when the process list is not all white space; deletion always runs last |
| `Distro.Perform` | distro.go:56-181 | the commands appended to the trace are exactly the operation's plan given the `pgrep` reply, and the result is the reply to the last command |
| `Process.Shell.Run` | distro.go:59 | running a command appends it to the trace and returns the system's reply to it |
| `Hook.Tag` | hook.go:10-19 | the string of each of the eight `hookEvent` constants (see `TagsDistinct`) |
| `Hook.TagsDistinct` | hook.go:10-19 | the eight event tags are pairwise distinct |
| `Hook.GetHookExecutor` | hook.go:46-55 | no-op iff the name is empty; an error iff the name is non-empty and lookup fails, with the lookup's error; otherwise bound to exactly the resolved path |
| `Hook.EmptyNameSkipsLookup` | hook.go:47-54 | for an empty name the result is the no-op executor whatever the lookup would answer |
| `Hook.HookArgs` | hook.go:36-38 | the arguments are the tag followed by every message in order, `len(msgs)+1` in all |
| `Hook.Exec` | hook.go:27-44 | the no-op hook changes nothing; the command hook runs `path tag msgs...` once, and its reply changes nothing else |

## Left out

- Reading `/etc/os-release` (distro.go:24): the text is an input of `GetOS`, and `None` stands for a failed read.
- Running processes (`exec.Command(...).CombinedOutput()`, `cmd.Run()`): only the command lines and the trace are modelled. Replies come from the abstract `Shell.respond`.
- `exec.LookPath` (hook.go:48): an oracle function argument of `GetHookExecutor`. The resolution of program names such as `adduser` on the search path is not part of this model.
- Logging (`log.Printf` at distro.go:66, 70, 108, 112, 151, 155 and hook.go:42): dropped. This includes the checks of the `pkill` output at distro.go:69-71, 111-113 and 154-156, which only decide whether to log.
- Process exit at `log.Fatal` and `log.Fatalf` (distro.go:26, 183): an `Err` or `None` result. The unreachable `return distroCommands{}` (distro.go:185) therefore has no counterpart.
- What the account tools do to the system: this is external, privileged behaviour that the source deliberately leaves to those tools.
- The plaintext password argument (distro.go:81): modelled as the argument it is. It is a security observation, not a property.
- GoStrings.ToLower: only ASCII letters are folded. Go's `strings.ToLower` also maps other letters, some of them to ASCII (U+0130 becomes `i`), so an identity such as `DEBİAN` is not covered.
- GoStrings.TrimSpace: works on characters. Invalid UTF-8 in the `pgrep` output is not modelled.
- OsIdentity.GetOS: takes the os-release text as Unicode characters, while Go converts the file's bytes with `string(b)` (distro.go:28). Invalid UTF-8 is not modelled. Splitting and matching work only on the ASCII characters `\n`, `=` and `"`, so that conversion changes no result for valid UTF-8.
- Hook.HookEvent: Go's `hookEvent` is a string type that can hold any string. The model admits only the eight declared constants.
- Process.Reply: the `error` that `CombinedOutput` and `Run` return becomes the flag `failed`. Its value (exit status, spawn failure, message) is not modelled.
- Process.Shell.Run: the `respond` oracle is fixed per shell. Concurrency between commands is not modelled.

## Findings

| source | as written | input that shows it | evidently intended | confidence | as-written member | corrected member |
|---|---|---|---|---|---|---|
| distro.go:32 | the guard `len(bits) > 0` always holds, so `bits[1]` is read on a line without `=` | an os-release file with a line `ID` (or `VERSION_ID`) alone | `len(bits) > 1`, skipping the line like any other line that sets nothing | not executed; medium | `OsIdentity.BareKeyFails` | `OsIdentity.GuardedIdentityAgrees` |

`GetOS` and `Identity` keep the code as written, with the panic as `Err(IndexOutOfRange)`.
`GuardedIdentity` is the corrected parser. It returns the same identity on every file that the
original parses.

# subseek: credential loader and subscription switcher

`subseek` is a small Go command-line tool. It reads an Azure service
principal's credentials from `creds.config`, lists the caller's
subscriptions, and switches the active subscription if the user types one in.
Two pieces of its logic do not depend on I/O or on the Azure SDK, and this
project models those two and proves properties about them:

- **The credential loader** (`readCredentialsFromFile`). It is a left fold
  over the file's lines into a triple `(clientID, clientSecret, tenantID)`.
  All three fields start empty. A line starting with `AZURE_CLIENT_ID=`,
  `AZURE_CLIENT_SECRET=` or `AZURE_TENANT_ID=` overwrites the matching field
  with the rest of the line. Every other line is ignored.
- **The subscription switcher** (the end of `main`). It turns the line read
  from standard input into either "keep the current subscription" or "run
  `az account set --subscription S`". Here `S` is the line minus one trailing
  newline.

Files:

- `go_strings.dfy` (module `GoStrings`): Go's `strings.HasPrefix`,
  `HasSuffix`, `TrimPrefix` and `TrimSuffix`.
- `options.dfy` (module `Options`): the `Option` type.
- `credentials.dfy` (module `Credentials`): the loader, with these parts:
  - `Classify`: the `else if` chain.
  - `Step`: one iteration of the loop.
  - `Fold` and `Parse`: the whole scan.
  - `ReadCredentials`: the loop exactly as the program writes it.
  - `Load`: the loader together with its open-failure path.
  - `Matching` and `Reference`: an independent reference definition in which
    each field depends only on the lines carrying its own key.
- `switcher.dfy` (module `Switcher`): `Decide`, the keep/set decision, and
  `Command`, the argument vector passed to the external `az` process.

`Fold` is the scanning loop itself (main.go:24-33). It recurses on the last
line, so it follows the loop's order, and `FoldField` and `FoldAppend` state
what it computes. `GoStrings.HasPrefix` and `GoStrings.HasSuffix` are plain
definitions of Go's tests. `HasPrefixIsSeqPrefix` ties the first to Dafny's
sequence-prefix relation, and the contracts of `TrimPrefix` and `TrimSuffix`
pin both down.

The main results are these:

- The loop computes the reference definition (`ReadCredentials`,
  `ReferenceAgrees`). This means last write wins, and a missing key yields
  `""`.
- The three prefixes exclude one another. So the order of the `else if` chain
  never matters (`Classify`), and each line sets at most one field.
- A file with one line per key gives exactly those three values, whatever the
  line order (`OneLinePerKeyAnyOrder`).
- Lines for different keys can be reordered freely without changing the
  result (`SwapDifferentKeys`, `SameKeyLinesSameCreds`).
- On the switcher side, the `Set` argument is never empty. For a line as
  `ReadString('\n')` delivers it, the argument also contains no newline.

## Model

| member | source | states |
|---|---|---|
| GoStrings.TrimPrefix | main.go:27-31 | when the line starts with the key, prefix + result rebuilds the line; otherwise the line is returned unchanged |
| GoStrings.TrimSuffix | main.go:79 | when the input ends with the suffix, result + suffix rebuilds the input; otherwise the input is returned unchanged |
| GoStrings.HasPrefixIsSeqPrefix | main.go:26 | Go's length-and-slice prefix test agrees exactly with the sequence-prefix relation |
| Credentials.PrefixesExclusive | main.go:26-31 | no line can start with two different keys' prefixes: the three keys are pairwise non-prefix-related |
| Credentials.Classify | main.go:26-32 | the `else if` chain selects key k exactly when the line starts with k's prefix, and selects nothing exactly when no prefix matches, so the test order is irrelevant |
| Credentials.Step | main.go:25-32 | after one line, every key whose prefix the line starts with holds the rest of the line (prefix + value == line), and every other field is unchanged |
| Credentials.StepSetsKey | main.go:26-31 | a line made of a key's prefix followed by v sets that key to exactly v and leaves the other two fields alone |
| Credentials.Parse | main.go:22-35 | every field of the returned triple equals the reference value: the rest of the key's last matching line, or empty if no line matches |
| Credentials.ReadCredentials | main.go:22-35 | the three-variable loop returns the fold of the lines from empty strings, and each variable equals the reference value (its last matching line minus the prefix, or empty) |
| Credentials.Load | main.go:15-19 | an open failure yields no credentials; otherwise every field equals the reference value for the file's lines |
| Credentials.FoldField | main.go:24-33 | from any starting state, a field keeps its start value when no line matches its key, and otherwise ends as the reference value |
| Credentials.ReferenceAgrees | main.go:22-35 | each parsed field equals the reference definition, which looks only at that key's own lines |
| Credentials.FoldAppend | main.go:24-33 | scanning xs + ys equals scanning xs and then scanning ys from the resulting state |
| Credentials.MissingKeyIsEmpty | main.go:22 | a key that no line starts with is returned as the empty string |
| Credentials.LastWriteWins | main.go:24-33 | if line i starts with a key and no later line does, then that key's prefix + its field == line i |
| Credentials.ValueComesFromLastLine | main.go:26-31 | every non-empty field is the rest of some line that starts with the key, and no later line starts with it |
| Credentials.UnknownLineIgnored | main.go:26-32 | a line matching none of the three prefixes leaves all three fields unchanged |
| Credentials.StepChangesAtMostOneField | main.go:26-32 | if a line changes one field, it leaves every other field unchanged |
| Credentials.LeadingWhitespaceIgnored | main.go:26-32 | any line starting with a space or a tab changes nothing, so leading whitespace hides a key |
| Credentials.MissingEqualsIgnored | main.go:26-32 | for every key, a line made of the key's name followed by anything other than `=` (or by nothing) changes nothing |
| Credentials.LowerCaseIgnored | main.go:26-32 | matching is case-sensitive: any line starting with a lower-case letter changes nothing |
| Credentials.StepsCommute | main.go:26-32 | two lines that do not share a key give the same state whichever is scanned first |
| Credentials.SwapDifferentKeys | main.go:24-33 | swapping two adjacent lines that belong to different keys does not change the parsed credentials |
| Credentials.SameKeyLinesSameCreds | main.go:24-33 | two files whose per-key subsequences of lines are equal parse to the same credentials, whatever the interleaving |
| Credentials.WellFormedFile | main.go:22-35 | a three-line file with one line per key yields exactly those three values, in either of two line orders |
| Credentials.OnlyLineForKey | main.go:24-31 | when exactly one line starts with a key's prefix and it is prefix + v, that key's field is v |
| Credentials.OneLinePerKeyAnyOrder | main.go:22-35 | in any file where each key's prefix starts exactly one line, at any positions and among any other lines, the result is exactly those three values |
| Switcher.Decide | main.go:75-81 | the decision is Keep exactly for `""` and `"\n"`; otherwise it is Set with a non-empty argument equal to the input minus exactly one trailing newline, or to the input itself when it has none |
| Switcher.Command | main.go:81 | Keep runs no command; Set runs `az account set --subscription` with the decided argument last |
| Switcher.CommandOnlyForNonBlankInput | main.go:75-81 | no external command runs exactly when the input is empty or only a newline; when one runs, its subscription argument is non-empty |
| Switcher.ReadLineArgHasNoNewline | main.go:73-81 | when the input has a newline at most in its last position (as `ReadString('\n')` guarantees), the Set argument contains no newline |
| Switcher.TypedNameRoundTrip | main.go:73-81 | a non-empty name without a newline is recovered exactly, whether it was ended by Enter or by end of input |
| Switcher.OnlyOneNewlineRemoved | main.go:79 | `TrimSuffix` strips a single newline: `"\n\n"` becomes Set(`"\n"`) |
| Switcher.CarriageReturnIsASwitch | main.go:75-79 | `"\r\n"` is not treated as an empty answer: it becomes Set(`"\r"`) |

## Left out

- Opening `creds.config` (main.go:16-20). This is file I/O, so `Load` takes the outcome of the open as an `Option`: `None` for failure, otherwise the file's lines.
- Splitting the file into lines with `bufio.Scanner` (main.go:23-25). The model takes the lines as already split. This step also strips a trailing `\r` from each line and has a line-length limit, and neither is modelled.
- The scanner's read error, `scanner.Err()` (main.go:35). On that error the program prints a message and discards the credentials. `Load` does not model a read error after a successful open.
- Azure authentication and `subscriptions.NewClient().List` (main.go:47-62). These are network calls into an SDK that is not part of this model.
- The fixed-width subscription table and separator printed with `Printf` (main.go:64-69). This is output formatting only.
- The prompt and the read from standard input (main.go:71-73). `Decide` takes the line that `ReadString` returned. `ReadString`'s error is discarded by the program and is not modelled either.
- Running `az account set` and reporting its success or failure (main.go:82-87). This is an external process, so `Command` gives only the argument vector the program would run.
- Error messages and early returns in `main` (main.go:42-45, 49-52, 59-62). These are plumbing with no stateful behaviour.
- GoStrings: works on Dafny characters where Go works on bytes. The keys and the newline are ASCII, so every comparison made here gives the same answer either way.

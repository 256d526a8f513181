# Pacstall GUI: package list, search filter and install dispatch

Pacstall GUI is a desktop front-end for the Pacstall package manager. At start-up it reads
the repository registry file, derives the package-list URL from it and downloads a
newline-separated list of package names. It shows one check button per name in a list box.
A search entry hides the rows whose label does not contain the typed text. An Install button
collects the checked names, unchecks their rows and runs `pacstall -PI <names…>`.

All of this logic sits inside GTK callbacks in `src/main.rs`. This project lifts it out and
models it in Dafny:

- `text.dfy` (module `Text`): the parts of Rust's `str` that the program uses. These are
  `trim` (with `trim_start` and `trim_end`), `split` on a `char`, and `contains` on a `&str`.
  `join` is added as the inverse of `split`. Whitespace is Rust's `char::is_whitespace`, the
  Unicode White_Space property, written out by code point.
- `package_source.dfy` (module `PackageSource`): the package-list URL derived from the
  registry file's content.
- `rows.dfy` (module `Rows`): the rows as `(name, active, visible)` values. It has one
  function per handler, saying row by row what the handler does: `NewRows`, `Search`,
  `Collect` with `Deactivate`, and `InstallInvocation`. The lemmas about them are here too.
- `package_list.dfy` (module `PackageList`): class `PackageListBox`. It keeps the list box's
  rows in three parallel arrays: `labels`, `active` and `visible`. The constructor is the
  row-creation loop. `SearchChanged` is the search handler's loop, and it writes only
  `visible`. `InstallClicked` is the install handler's loop, and it writes only `active`.
  Each method's postcondition ties the new rows to the matching function in `Rows`.
- `session.dfy` (module `Session`): a worked run. The server answers `foo\nbar\nbaz`, the
  user searches for `ba`, checks `bar` and `baz`, and clicks Install twice.

Three details of the code shape the model:

- The code appends `/packagelist` to the registry file's content first and trims the whole
  string afterwards (`src/main.rs:20-22`). So whitespace at the end of the file, such as the
  usual final newline, stays inside the URL just before `/packagelist`.
  `UrlIsTrimThenAppendIff` states exactly when this agrees with trimming first and appending
  afterwards.
- Each row is unchecked as soon as its label is read, before the installer is spawned
  (`src/main.rs:110-118`). The model does the same.
- The pieces of the `split('\n')` are neither trimmed nor filtered (`src/main.rs:34`). An empty
  line, including the one after a final newline, becomes a row with an empty label.

## Model

| member | source | states |
|---|---|---|
| `Text.WhitespaceCodePoints` | src/main.rs:22 | The whitespace test used by `trim` holds exactly for the 25 code points of the Unicode White_Space property, listed one by one |
| `Text.LeadingWhitespace` | src/main.rs:22 | The count of leading characters `trim` drops: all of them are whitespace, and the next character, if any, is not |
| `Text.TrailingWhitespace` | src/main.rs:22 | The count of trailing characters `trim` drops: all of them are whitespace, and the character before them, if any, is not |
| `Text.TrimStart` | src/main.rs:22 | Removes exactly the longest whitespace prefix: the result is a suffix of the input, everything removed is whitespace, and the result is empty or starts with non-whitespace |
| `Text.TrimEnd` | src/main.rs:22 | Removes exactly the longest whitespace suffix: the result is a prefix of the input, everything removed is whitespace, and the result is empty or ends with non-whitespace |
| `Text.Trim` | src/main.rs:22 | The trimmed string is a slice of the input with only whitespace before and after it; it is empty or starts and ends with non-whitespace; it is empty exactly when the input is all whitespace |
| `Text.TrimStartAppend` | src/main.rs:20-22 | Trimming the front of `s + t`, when `t` starts with non-whitespace, equals trimming `s` and then appending `t` whole |
| `Text.TrimIsTrimStartIff` | src/main.rs:22 | Trimming both ends gives the same as trimming only the front exactly when nothing is left or the input ends in non-whitespace |
| `Text.TrimStartThenAppendIff` | src/main.rs:20-22 | Appending a suffix to the front-trimmed string gives the same as appending it to the fully trimmed string exactly when nothing is left or the input ends in non-whitespace |
| `Text.Split` | src/main.rs:34 | `split('\n')` yields one more piece than there are newlines, and no piece contains a newline |
| `Text.SplitJoin` | src/main.rs:34 | Joining the pieces of a split with the separator gives back the original text, so empty pieces, including a trailing one, are kept |
| `Text.JoinSplit` | src/main.rs:34 | Splitting the join of one or more separator-free pieces gives back exactly those pieces |
| `Text.Contains` | src/main.rs:76 | `contains` holds exactly when the pattern occurs in the label at some position, comparing characters exactly (case-sensitive) |
| `Text.ContainsEmpty` | src/main.rs:76 | Every label contains the empty search text |
| `PackageSource.PackageListUrl` | src/main.rs:20-22 | Appending then trimming amounts to removing only the content's leading whitespace and following it with `/packagelist` |
| `PackageSource.UrlShape` | src/main.rs:20-22 | For any registry content the URL ends with `/packagelist` and has no whitespace at either end |
| `PackageSource.UrlIsTrimThenAppendIff` | src/main.rs:20-22 | The URL equals "trimmed content + `/packagelist`" if and only if the content is all whitespace or does not end in whitespace |
| `PackageSource.TrailingNewlineStaysInUrl` | src/main.rs:20-22 | Content `https://example.com/repo` plus a newline gives the URL `https://example.com/repo`, newline, `/packagelist` |
| `Rows.NewRows` | src/main.rs:150-155 | One row per package name, in order, labelled with the name, unchecked and shown |
| `Rows.Labels` | src/main.rs:150-155 | The row labels in row order, one per row |
| `Rows.Search` | src/main.rs:70-83 | Row count is unchanged; each row keeps its label and check state; each row is visible exactly when its label contains the query |
| `Rows.Collect` | src/main.rs:105-120 | The collected names number exactly as many as the checked rows |
| `Rows.CollectMembers` | src/main.rs:105-120 | A name is collected exactly when some checked row carries it, shown or hidden |
| `Rows.Deactivate` | src/main.rs:110-119 | Row count is unchanged; every row ends up unchecked with label and visibility kept, so rows that were unchecked are unchanged |
| `Rows.Catalog` | src/main.rs:34 | The catalog has (number of newlines + 1) entries, none containing a newline, and joining them with newlines reproduces the downloaded text |
| `Rows.NewRowsFromCatalog` | src/main.rs:150-155 | The rows built from the text carry the catalog entries as labels in source order, duplicates included; their labels joined with newlines are the text; no row is checked |
| `Rows.SearchEmptyShowsAll` | src/main.rs:70-83 | After a search for the empty text every row is shown |
| `Rows.SearchIdempotent` | src/main.rs:70-83 | Repeating a search with the same text changes nothing |
| `Rows.SearchKeepsSelection` | src/main.rs:70-83 | A search keeps labels and their order, and what an install would collect is the same before and after it, so hidden rows keep their check state |
| `Rows.CollectAppend` | src/main.rs:105-120 | Collecting a concatenation gives the names of the first part followed by those of the second, so names come in row order |
| `Rows.CollectStep` | src/main.rs:110-116 | Visiting one more row appends its label to the names collected so far exactly when the row is checked |
| `Rows.DeactivateLeavesNothing` | src/main.rs:110-124 | Once the rows are unchecked nothing remains to collect, so an immediate second click runs `pacstall -PI` with no names |
| `Rows.InstallInvocation` | src/main.rs:123-124 | The call runs `pacstall`; its arguments are `-PI` followed by exactly the given names, so the names can be read back from the arguments |
| `Rows.InstallArguments` | src/main.rs:123-124 | The program is `pacstall`; the arguments are `-PI` followed by the collected names in order, one more than the number of checked rows; with no row checked the arguments are `-PI` alone and the call is still made |
| `PackageList.PackageListBox.constructor` | src/main.rs:150-155 | The loop adds one row per catalog entry, so the rows are exactly `NewRows` of the entries |
| `PackageList.PackageListBox.SearchChanged` | src/main.rs:63-85 | The loop visits every row, and afterwards the rows are `Search` of the rows before; only visibility is written |
| `PackageList.PackageListBox.InstallClicked` | src/main.rs:103-124 | The loop visits every row, shown or hidden. The returned call is `InstallInvocation` of the names of the rows checked before the click, and the rows are then `Deactivate` of the rows before; only check states are written |
| `Session.ExampleCatalog` | src/main.rs:34 | The text `foo\nbar\nbaz` splits into `foo`, `bar`, `baz` |
| `Session.ExampleMatches` | src/main.rs:76 | `ba` is contained in `bar` and `baz` and not in `foo` |
| `Session.ExampleCollect` | src/main.rs:105-120 | With `foo` unchecked and hidden and `bar`, `baz` checked, the collected names are `bar`, `baz` |
| `Session.BuildAndSearch` | src/main.rs:63-85 | Building the rows from `foo\nbar\nbaz` and searching `ba` leaves three unchecked rows with only `foo` hidden |
| `Session.CheckAndInstallTwice` | src/main.rs:103-124 | After checking `bar` and `baz`, the first click runs `pacstall -PI bar baz` and the second runs `pacstall -PI` |
| `Session.ExampleSession` | src/main.rs:34-158 | The whole run: visibility after the search is hidden, shown, shown; the first install is `pacstall -PI bar baz`; the second is `pacstall -PI` |

## Left out

- GTK window, header bar, scrolled window, search entry, spinner and list-box layout
  (`src/main.rs:29-62`, `88-90`, `139-148`): presentation only. A row is modelled as its
  label, check state and visibility.
- Reading the registry file and the HTTP GET (`src/main.rs:20`, `26`): I/O. The file content
  and the response body are inputs. Their failure paths (`?` aborting start-up) are not
  modelled.
- Spawning and awaiting `pacstall`, and the `expect`/`unwrap` panics when that fails
  (`src/main.rs:123-129`): a foreign process. Only the program name and argument vector are
  modelled.
- Spinner start and stop, button sensitivity and `MainContext::spawn_local` scheduling
  (`src/main.rs:94-136`): UI concurrency. The button is made sensitive again right after
  the async task is scheduled (`src/main.rs:135`), not when it finishes. Nothing in the code
  keeps a second install from starting while one runs, and the model claims no such guard.
- The user checking and unchecking rows: GTK's check button does this, not `src/main.rs`.
  The worked session sets the `active` entries directly.
- Logging and error-report setup (`color_eyre`, `tracing`): no behaviour.
- PackageList.PackageListBox.constructor: the list box grows one `add` at a time. The model
  allocates the three arrays at their final length, which is the number of entries known
  before the loop, and fills them in the same order.
- Text.Contains: Rust compares UTF-8 bytes and the model compares characters.
  Because UTF-8 is self-synchronising, the two agree on valid strings. Byte-level matching
  is not modelled.

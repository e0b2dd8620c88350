# rmtrash, modelled in Dafny

rmtrash is a macOS command that moves a file into `/Users/<user>/.Trash/`
instead of deleting it. This project models the two parts of its `main`
that carry logic:

- **the destination name** (`paths.dfy`, `trashname.dfy`, `timestamp.dfy`):
  the final element of the absolute source path is cut into stem and
  extension with Go's `filepath.Split` and `filepath.Ext` rules, and the
  destination is `/Users/<user>/.Trash/<stem>.<timestamp>`, followed by
  `.<extension>` when there is one. The extension already starts with '.',
  so `notes.txt` becomes `notes.20240131235959..txt`; the model keeps that
  double dot. The timestamp is `time.Now()` in layout `20060102150405`,
  modelled from the clock's fields with Go's zero padding, together with a
  parser that inverts it.
- **the run of `main`** (`rmtrash.dfy`): a fail-fast sequence of checks
  (`-v`, missing file argument, current user lookup, the `-u` user's home
  directory, `filepath.Abs`, `os.Stat` of the source) followed by one
  `os.Rename`. `Rmtrash.Main` states the outcome (exit status, the rename
  attempted, the paths that exist afterwards) as a function of the
  invocation, the host's answers and the filesystem; the class
  `Rmtrash.FileSystem` holds the set of existing paths and its method `Run`
  performs the steps one at a time, proved to give exactly `Main`'s outcome.

The parsed flags, the current user, `filepath.Abs`, the clock reading and
the OS's permission verdict for the rename are inputs (`Invocation` and
`Host`); the filesystem is a set of existing paths plus a set of paths whose
`os.Stat` fails for a reason other than "does not exist".

The model follows the Go code as written: there is no `-f`/`-r` flag, only
the first file argument is processed (`rmtrash.go:70`), existence is checked
with `os.Stat` (which follows symbolic links), a leading dot is not special
(`.bashrc` is all extension, with an empty stem), and the destination has two
dots before the extension's text.

## Model

| member | source | states |
|---|---|---|
| PathNames.LastSeparator | rmtrash.go:85 | the index found is a '/' and no '/' follows it, or -1 when the path has none |
| PathNames.Base | rmtrash.go:85 | the file name is a '/'-free suffix of the path |
| PathNames.Split | rmtrash.go:85 | the directory part is a prefix ending in '/' (or empty), the file part is the rest and holds no '/' |
| PathNames.SplitUnique | rmtrash.go:85 | any cut into a '/'-terminated directory and a '/'-free name is the one Split makes |
| PathNames.LastDot | rmtrash.go:86 | the index found is a '.' with no '.' or '/' after it; -1 means no '.' after the last '/' |
| PathNames.Ext | rmtrash.go:86 | the extension is a suffix of the path, empty or a '.' followed by text without '.' or '/' |
| PathNames.ExtEmptyIff | rmtrash.go:86 | for a name without '/', the extension is empty exactly when the name has no '.' |
| PathNames.ExtOfSuffix | rmtrash.go:86 | a name ending in '.' plus dot-free, slash-free text has exactly that ending as its extension |
| PathNames.Stem | rmtrash.go:87 | the stem is the file name's prefix that the extension completes |
| PathNames.StemExtJoin | rmtrash.go:85-87 | stem followed by extension is the file name again |
| PathNames.StemExtNoSeparator | rmtrash.go:85-87 | stem and extension of a '/'-free name are '/'-free |
| Timestamp.Pad | rmtrash.go:89 | a padded field is all digits, never empty, and at least as wide as asked |
| Timestamp.Value | rmtrash.go:89 | a digit string of length n denotes a number below 10^n |
| Timestamp.ValuePad | rmtrash.go:89 | reading a padded field back gives the number written |
| Timestamp.PadWidth | rmtrash.go:89 | a number below 10^w fills a w-wide field exactly |
| Timestamp.Layout | rmtrash.go:89 | the timestamp is all digits and at least 14 long |
| Timestamp.LayoutFields | rmtrash.go:89 | before year 10000 the timestamp is 14 digits: year in 0..4, then month, day, hour, minute, second two digits each |
| Timestamp.Parse | rmtrash.go:89 | a parsed reading is valid, before year 10000, and came from 14 digits |
| Timestamp.ParseLayout | rmtrash.go:89 | parsing the timestamp of a valid reading before year 10000 gives that reading back |
| Timestamp.LayoutInjective | rmtrash.go:89 | two different valid readings before year 10000 never give the same timestamp |
| Timestamp.LayoutHasNoDotOrSlash | rmtrash.go:88-89 | a timestamp contains neither '.' nor '/' |
| TrashName.TrashDir | rmtrash.go:88 | the trash directory is `/Users/`, the user name and `/.Trash/`, and the user name can be read back from it |
| TrashName.Stamped | rmtrash.go:88-92 | the name in the trash is longer than the original and starts with the stem, a '.' and the timestamp |
| TrashName.Dest | rmtrash.go:88-92 | the destination lies inside the user's trash directory and is longer than that directory and the file name together; DestWithoutExt, DestWithExt, SplitDest, DestDetermines and DestSeparatesSeconds state the rest |
| TrashName.DestWithoutExt | rmtrash.go:88-90 | without extension the destination is `/Users/<u>/.Trash/<file>.<ts>` and ends with the timestamp |
| TrashName.DestWithExt | rmtrash.go:88-92 | with extension `.x` the destination is `/Users/<u>/.Trash/<stem>.<ts>..x` |
| TrashName.SplitDest | rmtrash.go:85-92 | the destination's directory is the user's trash and its final element is the stamped name |
| TrashName.DestIsNotSource | rmtrash.go:85-95 | the destination is never the source path |
| TrashName.StampedTimestampAt | rmtrash.go:88-89 | in the name in the trash, the timestamp follows the stem and a '.' |
| TrashName.DestTimestampAt | rmtrash.go:88-89 | in the destination, the timestamp follows the trash directory, the stem and a '.' |
| TrashName.DestTimestampsAgree | rmtrash.go:83-92 | for one user and source, equal destinations with timestamps of equal length have equal timestamps |
| TrashName.DestSeparatesSeconds | rmtrash.go:83-92 | for one user and source, two valid readings before year 10000 give the same destination exactly when they are the same reading |
| TrashName.RestoreStamped | rmtrash.go:85-92 | the original file name can be recovered from the name in the trash |
| TrashName.DestDetermines | rmtrash.go:85-92 | under one timestamp, two destinations are equal exactly when the user and the source file name are the same |
| Rmtrash.StatOf | rmtrash.go:64-78 | "other error" exactly for paths it may not examine, "exists" exactly for the other existing paths, "does not exist" otherwise |
| Rmtrash.UserHome | rmtrash.go:64 | the home checked for `-u` is `/Users/` followed by the user name |
| Rmtrash.TrashUser | rmtrash.go:59-61 | the trash user is the `-u` name when one is given, the current user otherwise |
| Rmtrash.Attempt | rmtrash.go:95-101 | the rename of source to destination is recorded; status 0 exactly when it succeeds, and then the source is replaced by the destination; otherwise status 1 and no change |
| Rmtrash.Main | rmtrash.go:32-102 | status is 0, 1 or 2; paths change only with status 0 and a rename; a rename is always of the first argument's absolute path |
| Rmtrash.VersionExitsZero | rmtrash.go:41-47 | with `-v` the status is 0, no rename happens, nothing changes, whatever the arguments and `-u` |
| Rmtrash.NoArgumentsExitsTwo | rmtrash.go:36-52 | without `-v` and without a file argument the status is 2 and nothing changes |
| Rmtrash.LookupFailureExitsOne | rmtrash.go:54-75 | a failed current-user lookup or a failed `filepath.Abs` gives status 1 and nothing changes |
| Rmtrash.UnknownUserExitsOne | rmtrash.go:60-67 | an unknown `-u` user gives status 1 with no rename, and the outcome does not depend on the argument, `filepath.Abs` or the rename |
| Rmtrash.MissingSourceExitsOne | rmtrash.go:77-81 | a source that does not exist gives status 1 with no rename |
| Rmtrash.ChecksPassed | rmtrash.go:70-95 | once the checks pass, the run ends in the rename of the source to its destination in the trash user's trash |
| Rmtrash.AttemptEffect | rmtrash.go:95-101 | a failed rename gives status 1 and no change; a successful one gives status 0, removes the source, adds the destination, and no other path changes |
| Rmtrash.RenameDecides | rmtrash.go:70-101 | after the checks, status 0 exactly when the rename succeeds; then only the source disappears and only the destination appears |
| Rmtrash.ExitZeroMeansMoved | rmtrash.go:41-101 | status 0 exactly when `-v` was given or the renamed source existed, is gone and its destination exists; any other status leaves the filesystem as it was |
| Rmtrash.LaterArgumentsIgnored | rmtrash.go:70 | arguments after the first do not change the outcome |
| Rmtrash.FileSystem.Stat | rmtrash.go:77-81 | reports "other error" for unreadable paths, "exists" for existing ones, "does not exist" otherwise |
| Rmtrash.FileSystem.Rename | rmtrash.go:95-101 | succeeds when the source exists and the OS allows it; the paths are then updated and the call is logged |
| Rmtrash.FileSystem.Run | rmtrash.go:32-102 | returns Main's status, leaves Main's paths, and logs exactly the rename Main attempts |

## Left out

- Flag parsing (`flag.Parse`, `usage`, `flag.PrintDefaults`): the parsed `-v`, `-u` and file arguments are inputs.
- The texts written to standard output and standard error, and the `darwin` build tag.
- `user.Current`, `filepath.Abs` and `time.Now` are host answers passed in; the working directory and the clock are not modelled.
- `os.Stat` and `os.Rename` are modelled as membership in and update of a set of paths: symbolic links, atomicity, cross-device moves and file contents are not modelled; the permission verdict of a rename is an input.
- Which paths `os.Stat` cannot examine is fixed for the run; the model does not change it.
- Negative (BC) years, for which Go writes a '-' in the timestamp: the year is a natural number.
- Go strings are byte strings; the model uses strings of characters, which changes nothing here because only '/' and '.' are inspected.
- Rmtrash.Attempt: the set of paths is flat, so when the source is a directory its descendants are not moved with it as `os.Rename` moves them.
- Rmtrash.AttemptEffect: "no other path changes" holds of the flat set of paths; a renamed directory's descendants are not modelled.
- Rmtrash.RenameDecides: the same flat set of paths; a renamed directory's descendants are not modelled.
- Rmtrash.FileSystem.Rename: the same flat set of paths; a renamed directory's descendants are not modelled.

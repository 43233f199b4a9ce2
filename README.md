# cliperge: a Dafny model of the file aggregator

cliperge concatenates the text of the files named on its command line into one
document, one fenced block per file, and puts that document on the clipboard.
This project models the aggregation (`combine_files_content` and its helpers in
`src/file_operations.rs`) and the command-line driver (`main` in `src/main.rs`),
and proves what they promise.

- `wrappers.dfy`: `Option` and `Result`.
- `paths.dfy` (module `Paths`): Unix path syntax as Rust's `Path` sees it:
  splitting at '/', components (root, a leading ".", skipped empty and "."
  pieces, ".." as parent), and `file_name` as the last component when it is a
  normal name.
- `file_system.dfy` (module `FileSystem`): the environment as a fixed
  `Snapshot`: what each argument string names (`Missing`, `Dir`, `File(text)`,
  `Unreadable(reason)`), a partial `Canonicalize` giving the component names of
  the canonical path, and an optional current directory.
- `file_operations.dfy` (module `FileOperations`): reading a file, the three
  display-name modes (`-f` verbatim, `-r` relative to the current directory,
  anything else the file name), and the loop `CombineFilesContent`. The loop
  is proved equal to `Combine` and `Log`. These map every argument to an
  outcome (included, skipped with a notice, or aborted), stop at the first
  abort, and keep the blocks, names and notices. `CombineIsFilterMapConcat`
  and `CombineSucceedsIff` show this equals a plain reference: filter the
  readable arguments, map them to display names, concatenate their blocks.
- `main.dfy` (module `Cli`): the split of `argv` into the option and the file
  list, and `Run`, the driver with its early returns. The clipboard's answer is
  a parameter of `Run`.

The code has no exclusion patterns and no diagnostics subcommand. The display
mode is read only from `argv[1]`. `-f` echoes the argument verbatim; it neither
canonicalises nor collapses the home directory to `~`. When there are too few
arguments or no files, the code prints a message and returns normally.

## Model

| member | source | states |
|---|---|---|
| `FileOperations.CombineFilesContent` | src/file_operations.rs:7-63 | the loop's result and its printed notices are exactly `Combine` and `Log` of the snapshot, option and arguments |
| `FileOperations.Combine` | src/file_operations.rs:11-62 | an unavailable current directory fails the call whatever the option and arguments; a successful call never has an empty file list |
| `FileOperations.CombineSucceedsIff` | src/file_operations.rs:15-62 | with a current directory: success iff some argument reads back and every readable argument gets a display name; "no valid files" iff no argument reads back |
| `FileOperations.CombineIsFilterMapConcat` | src/file_operations.rs:15-43 | on success the file list has one name per readable argument, in argument order; name i is the display name of readable argument i; the content is the concatenation of their fenced blocks |
| `FileOperations.OutcomesMatchReference` | src/file_operations.rs:15-43 | without an abort, the names and document built by the loop's classification equal the filter-map-concatenate reference |
| `FileOperations.CombineWithoutAbort` | src/file_operations.rs:57-62 | with a current directory: when no display name fails, the call succeeds iff some argument reads back, and its only error is "no valid files" |
| `FileOperations.CombineWithAbort` | src/file_operations.rs:38 | with a current directory: when some display name fails, the call fails with an error that is not "no valid files" |
| `FileOperations.NoAbortIffAllNamed` | src/file_operations.rs:34-40 | no argument aborts the loop iff every readable argument's display name succeeds |
| `FileOperations.CombineWithoutCanonicalization` | src/file_operations.rs:36-40 | with a current directory, for any option other than "-r" (including "" and unknown flags) no display name fails: the call succeeds iff some argument reads back, and otherwise fails only with "no valid files" |
| `FileOperations.CombineErrorIsFirstFailure` | src/file_operations.rs:38 | with a current directory: an error other than "no valid files" is the display-name error of a readable argument, and every earlier readable argument got a name; the blocks already built are not returned |
| `FileOperations.RelativeModeNames` | src/file_operations.rs:38 | in "-r" mode every listed name, as components, is the canonical path of its file with the current directory's components removed from the front |
| `FileOperations.NoticesMatchOmitted` | src/file_operations.rs:18-53 | without an abort, there is exactly one notice per argument that is not read, in argument order, and it is the right kind: "not found" for a missing path, "is a directory" for a directory, the read failure with its reason otherwise; included plus omitted arguments account for all of them |
| `FileOperations.LogMatchesOmitted` | src/file_operations.rs:15-59 | the printed notices are, in order, the right notice for each unread argument before the first failing display name (notices printed before the `?` return are kept), then "nothing to copy" exactly when no display name failed and no argument reads back |
| `FileOperations.Log` | src/file_operations.rs:13 | when the current directory is unavailable, nothing is printed |
| `FileOperations.Classify` | src/file_operations.rs:18-54 | an argument is included iff it reads back and gets a display name, then under that name with its text; it aborts only if it reads back and its display name fails, with that error; otherwise it is skipped with the notice its entry calls for |
| `FileOperations.Block` | src/file_operations.rs:41 | a block is ten characters longer than its name plus content: three backticks, the name, a newline, the content, then a newline, three backticks and two newlines, so name and content read back at fixed offsets |
| `FileOperations.ReadableOmittedCount` | src/file_operations.rs:18-53 | every argument is either read back or omitted, so the two counts add up to the number of arguments |
| `FileOperations.FirstAbort` | src/file_operations.rs:38 | a failing display name preceded only by arguments that did not fail is where the loop stops |
| `FileOperations.ReadableAppend` | src/file_operations.rs:15-43 | the readable-file filter distributes over concatenation of argument lists, so input order is kept |
| `FileOperations.ReadableMembership` | src/file_operations.rs:18-43 | a file with given text is included iff some argument names it and it reads back with that text |
| `FileOperations.ReadableKeepsEveryFile` | src/file_operations.rs:15-43 | when every argument reads back, the included files are the arguments themselves, same length and order, with duplicates kept |
| `FileOperations.MissingFileBetweenTwo` | src/file_operations.rs:15-62 | a readable file, a missing one and another readable file, default option: two blocks named by the two file names in order, and a single "not found" notice |
| `FileOperations.CombinedContentLength` | src/file_operations.rs:41-42 | each included file adds a fenced block of at least ten characters, so a successful document is non-empty |
| `FileOperations.ReadFileContent` | src/file_operations.rs:65-80 | a path that does not exist reads as absent; a directory or a failed open or read is an error; a readable file yields its text |
| `FileOperations.DisplayName` | src/file_operations.rs:36-40 | "-f" gives the argument unchanged, "-r" the relative path, every other option string the file name; only "-r" can fail, and only by canonicalising or prefix stripping |
| `FileOperations.GetFileName` | src/file_operations.rs:92-98 | the file name when the path has one (then a valid component name), otherwise the whole argument unchanged |
| `FileOperations.GetRelativePath` | src/file_operations.rs:82-90 | succeeds iff the path canonicalises and the current directory is a component prefix of it; otherwise the canonicalise or strip-prefix error |
| `FileOperations.RelativePathComponents` | src/file_operations.rs:82-89 | on success the current directory's components followed by the result's components are the canonical path |
| `FileOperations.AbortIndex` | src/file_operations.rs:38 | the position of the first argument whose display name fails (the `?` return), or the number of arguments when none does |
| `Paths.FileNameIsValid` | src/file_operations.rs:93-94 | a file name, when present, is a valid component: non-empty, not "." or "..", without '/' |
| `Paths.ComponentsAreValid` | src/file_operations.rs:93-94 | every normal component of a path is a valid name |
| `Paths.FileNameOfName` | src/file_operations.rs:93-94 | a bare valid name is its own file name |
| `Paths.FileNameAfterSeparator` | src/file_operations.rs:93-94 | whatever precedes the last '/', a valid last piece is the file name |
| `Paths.FileNameParentDir` | src/file_operations.rs:93-95 | ".." itself and any path whose last '/'-separated piece is ".." have no file name, so the whole argument is used |
| `Paths.FileNameTrailingSeparator` | src/file_operations.rs:93-94 | a trailing '/' does not change the file name |
| `Paths.FileNameOfRootAndCurDir` | src/file_operations.rs:93-95 | "/", "." and "" have no file name |
| `Paths.SplitAppend` | src/file_operations.rs:93-94 | splitting two strings joined by a '/' gives the pieces of the first followed by the pieces of the second |
| `Paths.ComponentsOfJoin` | src/file_operations.rs:86-89 | joining valid names with '/' yields a path whose components are exactly those names |
| `Paths.SplitJoin` | src/file_operations.rs:89 | splitting the join of '/'-free pieces gives the pieces back |
| `Cli.SplitArgs` | src/main.rs:15-19 | the option is `argv[1]` when it starts with '-', otherwise ""; the files are the contiguous suffix after it (after the program name otherwise); later dash arguments are files |
| `Cli.Run` | src/main.rs:7-42 | fewer than two arguments: usage and nothing combined; an empty file list: "no files provided" and nothing combined; otherwise the clipboard is handed exactly the combined content, only on success, and the file list is reported only when the copy succeeded |

## Left out

- `src/clipboard.rs` is not part of this model. It spawns `pbcopy` or `xclip` and writes to its stdin. `Run` takes the copy's outcome as a parameter.
- Real filesystem and environment calls (`exists`, `is_dir`, `File::open`, `read_to_string`, `canonicalize`, `current_dir`, `env::args`) are replaced by the `Snapshot` value. Symlink resolution stays inside its canonical-path map, and nothing ties that map to the entries.
- Changes to the filesystem during a run are not modelled. The fixed snapshot makes the `Ok(None)` branch of the loop and the re-checks in `read_file_content` unreachable. The model keeps them, and they print the same notice as the source.
- UTF-8 decoding and `to_string_lossy`: names and contents are plain strings. A decoding failure is one of the `Unreadable` reasons.
- Message text and colour are not modelled. Printed messages are a `Notice` log. Errors are a `CombineError` value without the operating system's message.
- The `Notice` log is one ordered sequence. The source prints it to two streams. The "Skipping …" lines and "No valid files found to copy." go to stdout (`println!` at src/file_operations.rs:19, :26, :45 and :58). "Error reading …" goes to stderr (`eprintln!` at :52). The model merges both streams into one order, which a reader of only one stream does not see.
- Windows path prefixes and separators: `Paths` models Unix paths only.
- `FileOperations.MissingFileBetweenTwo`: states the document as `Block(x, …) + Block(z, …)`, not as a literal string of characters.
- `Cli.Run`: the printing loop over the copied files is its `Copied` report's `files` list. It does not model the header lines or the process exit status.

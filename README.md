# mini-grep: argument validation, error reporting and pattern normalisation

mini-grep is a small grep clone written in Rust. This project models the
decision logic that sits in front of its search:

- `Config::validate` and `Config::try_parse` (src/config.rs). The pattern must
  not be blank. Then the paths are checked by two nested loops. A path `"-"`
  (standard input) is skipped by the outer loop. But every path that is not
  `"-"` starts an inner loop over the whole list, and that inner loop puts
  every entry to the file test, `"-"` entries included. So `"-"` alone (or
  repeated) is accepted without looking at the filesystem. Next to a real file
  it must itself be an existing regular file, and `StdinTestedBesideFile`
  exhibits the refusal. Any validation failure is re-wrapped by `try_parse` as
  `UnknownArguments` carrying the failure's display text.
- The `AppError` enumeration (src/errors.rs): the display text of each variant
  and `report`, which writes that text to standard error and maps the variant
  to exit code 3 (configuration parse error, missing pattern, I/O) or 2 (all
  others).
- `Query::compile_pattern` and the `Options` record (src/lib.rs): the needle is
  the pattern lower-cased when case is ignored, and the pattern itself
  otherwise.

Files: `errors.dfy` (module `Errors`), `config.dfy` (module `Config`),
`minigrep.dfy` (module `MiniGrep`, the library crate root).

Modelling choices:

- The argument parser's result is an input, `ParseOutcome`. It is either a
  parsed `Config` or the text of the parse error's kind.
- Whether a path names an existing regular file (`PathBuf::is_file`) is the
  function parameter `isFile`. Paths are the strings they display as.
- `str::trim` is modelled exactly: it strips characters with the Unicode
  White_Space property, which is what `char::is_whitespace` tests.
- `Validate` is a method with the source's two nested loops. It also returns a
  ghost trace of every path handed to the file test. The trace is empty for a
  blank pattern and for a list of only `"-"`. On success it is the whole list
  repeated once per path that is not `"-"`, because the inner loop rescans the
  list each time. On an invalid file it is the list up to and including that
  file, so any `"-"` before it was put to the file test too.
- `report`'s output is a value, `Exit(stderr, code)`.

## Model

| member | source | states |
|---|---|---|
| `Errors.Message` | src/errors.rs:4-20 | every variant except the transparent `Io` displays a text longer than eight characters |
| `Errors.MessageEndsWithPayload` | src/errors.rs:6-19 | the payload of `ConfigParseError`, `InvalidPattern`, `UnknownArguments`, `InvalidFile` and `Io` is the tail of the displayed message |
| `Errors.MessageInjective` | src/errors.rs:6-17 | apart from `Io`, two errors that display the same text are the same error (variant and payload) |
| `Errors.Report` | src/errors.rs:21-33 | reporting writes the error's message followed by a newline and returns exit code 2 or 3, never 0 |
| `Errors.ReportCodeClasses` | src/errors.rs:24-32 | exit code 3 exactly for `ConfigParseError`, `PatternRequired`, `Io`; exit code 2 exactly for `InvalidPattern`, `UnknownArguments`, `InvalidFile`, `ErrorOpeningFile`; never 0 |
| `Errors.ReportIgnoresPayload` | src/errors.rs:25-31 | two errors of the same variant get the same exit code, whatever their payloads |
| `MiniGrep.LowerChar` | src/lib.rs:13 | the lower-cased character is never upper case; `A`..`Z` move to `a`..`z`, every other character is kept |
| `MiniGrep.ToLower` | src/lib.rs:13 | lower-casing keeps the length and lower-cases position by position |
| `MiniGrep.CompilePattern` | src/lib.rs:11-16 | without ignore-case the needle is the pattern; with it, the needle is the pattern lower-cased: same length, equal to the pattern up to letter case, every character that is not an upper-case letter unchanged in place, and no upper-case letter left |
| `MiniGrep.CompileIdempotent` | src/lib.rs:12-13 | compiling a case-insensitive needle again changes nothing |
| `MiniGrep.CompileIgnoringCaseExact` | src/lib.rs:12-13 | two patterns give the same case-insensitive needle exactly when they are equal up to letter case |
| `Config.TrimStartRemovesLeadingRun` | src/config.rs:37 | trimming the front keeps a suffix and removes exactly the leading whitespace run |
| `Config.TrimEndRemovesTrailingRun` | src/config.rs:37 | trimming the back keeps a prefix and removes exactly the trailing whitespace run |
| `Config.BlankIffAllWhitespace` | src/config.rs:37 | `pattern.trim().is_empty()` holds exactly when every character of the pattern is whitespace |
| `Config.FirstNonFile` | src/config.rs:44-48 | no path is reported exactly when all paths are files; a reported path is not a file |
| `Config.FirstNonFileAt` | src/config.rs:44-46 | the path reported is the first, in list order, that fails the file test |
| `Config.Validate` | src/config.rs:36-51 | the nested loops compute the validation outcome; the file test is never called for a blank pattern or an all-`"-"` list; on success every path was tested once per path that is not `"-"`; on an invalid file the paths tested are exactly the list up to and including the reported path, `"-"` entries before it included |
| `Config.BlankPatternRefusedFirst` | src/config.rs:37-39 | a pattern of whitespace only is refused with `PatternRequired`, whatever the paths |
| `Config.ValidationOkIff` | src/config.rs:36-51 | validation succeeds exactly when the pattern is not blank and either all paths are `"-"` or all paths, `"-"` included, are files; a non-blank pattern with no paths succeeds; every failure is `PatternRequired` or `InvalidFile` |
| `Config.ValidationReportsFirstNonFile` | src/config.rs:40-48 | with a non-blank pattern and some path other than `"-"`, the failure is `InvalidFile` of the first path that is not a file |
| `Config.StdinTestedBesideFile` | src/config.rs:40-48 | `"-"` next to an existing file is refused as an invalid file when no file named `"-"` exists |
| `Config.TryParse` | src/config.rs:23-35 | a parse failure gives `ConfigParseError` of its kind; success exactly when parsed and validated, returning the parsed configuration unchanged; every failure is `ConfigParseError` or `UnknownArguments` |
| `Config.TryParseBlankPattern` | src/config.rs:26-28 | a blank pattern gives `UnknownArguments("Search pattern is required")` |
| `Config.TryParseInvalidFile` | src/config.rs:26-28 | an invalid path gives `UnknownArguments("Invalid file: " + path)` |
| `Config.TryParseExitCode` | src/config.rs:23-35 | reporting a failure of `try_parse` gives code 3 after a parse failure and code 2 after a validation failure |
| `Config.TryParseKeepsCause` | src/config.rs:26-28 | two command lines whose `try_parse` failures are equal failed validation for the same reason |

## Left out

- The command-line parser (the clap `Parser` derive and its `try_parse`) is foreign code. Its result is an input. A parse failure is represented by the text of its error kind.
- `PathBuf::is_file` queries the filesystem. It is the parameter `isFile`, and the filesystem is taken not to change during validation.
- Paths that are not valid UTF-8 are not modelled. `display()` shows them lossily; here a path is its text.
- The `eprintln!` write and the `ExitCode`/`Termination` runtime are I/O. `Report` returns the text written and the code as a value.
- `std::io::Error` is a foreign type. The `Io` variant keeps only the text it displays.
- MiniGrep.CompilePattern, MiniGrep.ToLower, MiniGrep.LowerChar: lower-case ASCII letters only and keep every other character. Rust's `to_lowercase` also lower-cases other Unicode letters, and for a few characters it changes the string's length; neither is modelled.
- `InvalidPattern` and `ErrorOpeningFile` are never produced by the modelled code; only their texts and exit codes are modelled.
- `Options` has no operations in the modelled code; it is a plain record.
- src/main.rs unwraps the result of `try_parse`, so in the shown program a failure panics instead of being passed to `report`. Nothing shown calls `report`. `TryParseExitCode` states what reporting such a failure would give.
- The rest of src/main.rs is not part of this model. It calls `Query::new`, `run`, `get_arguments`, `get_paths`, `options` and `path`, and none of these is defined in the modelled files. Line matching, inverted matching and counting are therefore not modelled either.

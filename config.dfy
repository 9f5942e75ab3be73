/** Command-line configuration (src/config.rs): validation of the parsed
    arguments and the wrapping of its outcome by `try_parse`. The argument
    parser itself is not modelled: its outcome is an input. Whether a path names
    an existing regular file is a question to the filesystem, given here as the
    predicate `isFile`. */
module Config {
  import opened Errors

  datatype Option<T> = None | Some(value: T)

  /** The parsed command line. Paths are kept as the text they display as. */
  datatype Config = Config(
    ignoreCase: bool,
    pattern: string,
    count: bool,
    invert: bool,
    paths: seq<string>)

  /** What the argument parser produced: a configuration, or the kind of
      parse error it reported, as text. */
  datatype ParseOutcome = Parsed(config: Config) | ParseFailed(kind: string)

  /** The path that stands for standard input. */
  const Stdin: string := "-"

  /** `char::is_whitespace`: the characters with the Unicode White_Space property. */
  predicate IsWhitespace(c: char) {
    var n := c as int;
    (0x09 <= n <= 0x0D) || n == 0x20 || n == 0x85 || n == 0xA0 || n == 0x1680
    || (0x2000 <= n <= 0x200A) || n == 0x2028 || n == 0x2029 || n == 0x202F
    || n == 0x205F || n == 0x3000
  }

  /** `s` without its leading whitespace. */
  function TrimStart(s: string): string
  {
    if s != [] && IsWhitespace(s[0]) then TrimStart(s[1..]) else s
  }

  /** `s` without its trailing whitespace. */
  function TrimEnd(s: string): string
  {
    if s != [] && IsWhitespace(s[|s| - 1]) then TrimEnd(s[..|s| - 1]) else s
  }

  /** `TrimStart` removes exactly the whitespace run at the front. */
  lemma {:induction false} TrimStartRemovesLeadingRun(s: string)
    ensures |TrimStart(s)| <= |s| && TrimStart(s) == s[|s| - |TrimStart(s)|..]
    ensures forall i :: 0 <= i < |s| - |TrimStart(s)| ==> IsWhitespace(s[i])
    ensures TrimStart(s) == [] || !IsWhitespace(TrimStart(s)[0])
  {
    if s != [] && IsWhitespace(s[0]) {
      var t := s[1..];
      TrimStartRemovesLeadingRun(t);
      var r := TrimStart(t);
      assert TrimStart(s) == r;
      assert t[|t| - |r|..] == s[|s| - |r|..];
      forall i | 1 <= i < |s| - |r|
        ensures IsWhitespace(s[i])
      {
        assert s[i] == t[i - 1];
      }
    }
  }

  /** `TrimEnd` removes exactly the whitespace run at the back. */
  lemma {:induction false} TrimEndRemovesTrailingRun(s: string)
    ensures |TrimEnd(s)| <= |s| && TrimEnd(s) == s[..|TrimEnd(s)|]
    ensures forall i :: |TrimEnd(s)| <= i < |s| ==> IsWhitespace(s[i])
    ensures TrimEnd(s) == [] || !IsWhitespace(TrimEnd(s)[|TrimEnd(s)| - 1])
  {
    if s != [] && IsWhitespace(s[|s| - 1]) {
      TrimEndRemovesTrailingRun(s[..|s| - 1]);
    }
  }

  /** `str::trim`. */
  function Trim(s: string): string {
    TrimEnd(TrimStart(s))
  }

  /** `pattern.trim().is_empty()`. */
  predicate IsBlank(pattern: string) {
    Trim(pattern) == []
  }

  /** A pattern is blank exactly when every character of it is whitespace. */
  lemma BlankIffAllWhitespace(pattern: string)
    ensures IsBlank(pattern) <==> forall i :: 0 <= i < |pattern| ==> IsWhitespace(pattern[i])
  {
    var t := TrimStart(pattern);
    TrimStartRemovesLeadingRun(pattern);
    TrimEndRemovesTrailingRun(t);
    assert t != [] ==> t[0] == pattern[|pattern| - |t|];
  }

  /** Every path is the standard-input marker (vacuously so for no paths). */
  predicate OnlyStdin(paths: seq<string>) {
    forall i :: 0 <= i < |paths| ==> paths[i] == Stdin
  }

  /** Every path names an existing regular file. */
  predicate AllFiles(paths: seq<string>, isFile: string -> bool) {
    forall i :: 0 <= i < |paths| ==> isFile(paths[i])
  }

  /** The first path, in list order, that is not an existing regular file. */
  function FirstNonFile(paths: seq<string>, isFile: string -> bool): (r: Option<string>)
    ensures r.None? <==> AllFiles(paths, isFile)
    ensures r.Some? ==> !isFile(r.value)
  {
    if paths == [] then None
    else if !isFile(paths[0]) then Some(paths[0])
    else FirstNonFile(paths[1..], isFile)
  }

  /** A path that fails the file test, preceded only by paths that pass it, is
      the one `FirstNonFile` reports. */
  lemma {:induction false} FirstNonFileAt(paths: seq<string>, isFile: string -> bool, k: nat)
    requires k < |paths| && !isFile(paths[k])
    requires forall j :: 0 <= j < k ==> isFile(paths[j])
    ensures FirstNonFile(paths, isFile) == Some(paths[k])
  {
    if k > 0 {
      FirstNonFileAt(paths[1..], isFile, k - 1);
    }
  }

  /** The outcome of `Config::validate`. A blank pattern is refused before any
      path is looked at. Paths equal to "-" are skipped, but as soon as one
      path is not "-", every path in the list, "-" included, has to be an
      existing regular file, and the first that is not is reported. */
  function Validation(c: Config, isFile: string -> bool): Result<()> {
    if IsBlank(c.pattern) then Err(PatternRequired)
    else if OnlyStdin(c.paths) then Ok(())
    else
      match FirstNonFile(c.paths, isFile)
      case None => Ok(())
      case Some(p) => Err(InvalidFile(p))
  }

  /** The number of paths that are not "-". */
  function CountNonStdin(paths: seq<string>): (n: nat)
    ensures n <= |paths|
  {
    if paths == [] then 0
    else CountNonStdin(paths[..|paths| - 1]) + (if paths[|paths| - 1] == Stdin then 0 else 1)
  }

  lemma {:induction false} CountNonStdinZero(paths: seq<string>)
    ensures CountNonStdin(paths) == 0 <==> OnlyStdin(paths)
  {
    if paths != [] {
      var init := paths[..|paths| - 1];
      CountNonStdinZero(init);
      if OnlyStdin(paths) {
        assert forall i :: 0 <= i < |init| ==> init[i] == paths[i];
      }
    }
  }

  lemma CountNonStdinStep(paths: seq<string>, i: nat)
    requires i < |paths|
    ensures CountNonStdin(paths[..i + 1]) ==
      CountNonStdin(paths[..i]) + (if paths[i] == Stdin then 0 else 1)
  {
    assert paths[..i + 1][..i] == paths[..i];
  }

  /** `n` copies of `s`, one after another. */
  ghost function Repeat(s: seq<string>, n: nat): seq<string> {
    if n == 0 then [] else Repeat(s, n - 1) + s
  }

  /** `Config::validate`, step by step. Besides the outcome it returns, as a
      ghost value, every path handed to the file test, in order: the inner
      loop rescans the whole list once for each path that is not "-". */
  method Validate(c: Config, isFile: string -> bool)
    returns (r: Result<()>, ghost probes: seq<string>)
    ensures r == Validation(c, isFile)
    ensures IsBlank(c.pattern) || OnlyStdin(c.paths) ==> probes == []
    ensures r.Ok? ==> probes == Repeat(c.paths, CountNonStdin(c.paths))
    ensures r.Err? && r.error.InvalidFile? ==>
      0 < |probes| <= |c.paths| && probes == c.paths[..|probes|] && probes[|probes| - 1] == r.error.path
  {
    probes := [];
    if Trim(c.pattern) == [] {
      return Err(PatternRequired), probes;
    }
    var paths := c.paths;
    ghost var scans := 0;
    var i := 0;
    while i < |paths|
      invariant 0 <= i <= |paths|
      invariant scans == CountNonStdin(paths[..i])
      invariant probes == Repeat(paths, scans)
      invariant scans > 0 ==> AllFiles(paths, isFile)
    {
      if paths[i] == Stdin {
        assert CountNonStdin(paths[..i + 1]) == scans by { CountNonStdinStep(paths, i); }
        i := i + 1;
        continue;
      }
      ghost var before := probes;
      var k := 0;
      while k < |paths|
        invariant 0 <= k <= |paths|
        invariant forall j :: 0 <= j < k ==> isFile(paths[j])
        invariant probes == before + paths[..k]
      {
        assert before + paths[..k + 1] == (before + paths[..k]) + [paths[k]] by {
          assert paths[..k + 1] == paths[..k] + [paths[k]];
        }
        probes := probes + [paths[k]];
        if !isFile(paths[k]) {
          assert Validation(c, isFile) == Err(InvalidFile(paths[k])) by {
            assert !OnlyStdin(c.paths) by { assert c.paths[i] != Stdin; }
            ValidationReportsFirstNonFile(c, isFile, k);
          }
          // A failing path means no earlier scan completed, so this is the first.
          assert 0 < |probes| <= |c.paths| && probes == c.paths[..|probes|]
            && probes[|probes| - 1] == paths[k] by {
            assert scans == 0;
            assert probes == paths[..k + 1];
          }
          return Err(InvalidFile(paths[k])), probes;
        }
        k := k + 1;
      }
      assert probes == Repeat(paths, scans + 1) by {
        assert paths[..k] == paths;
      }
      assert CountNonStdin(paths[..i + 1]) == scans + 1 by { CountNonStdinStep(paths, i); }
      scans := scans + 1;
      i := i + 1;
    }
    assert Validation(c, isFile) == Ok(()) && scans == CountNonStdin(c.paths)
      && (OnlyStdin(c.paths) ==> scans == 0) by {
      assert paths[..i] == paths;
      CountNonStdinZero(paths);
      ValidationOkIff(c, isFile);
    }
    return Ok(()), probes;
  }

  /** `Config::try_parse`: a parse failure is reported as a configuration error
      and validation is not reached; a validation failure is reported as unknown
      arguments carrying the validation error's message; otherwise the parsed
      configuration is handed back as it is. */
  function TryParse(parsed: ParseOutcome, isFile: string -> bool): (r: Result<Config>)
    ensures parsed.ParseFailed? ==> r == Err(ConfigParseError(parsed.kind))
    ensures r.Ok? <==> parsed.Parsed? && Validation(parsed.config, isFile).Ok?
    ensures r.Ok? ==> r.value == parsed.config
    ensures r.Err? ==> r.error.ConfigParseError? || r.error.UnknownArguments?
  {
    match parsed
    case ParseFailed(kind) => Err(ConfigParseError(kind))
    case Parsed(config) =>
      match Validation(config, isFile)
      case Err(e) => Err(UnknownArguments(Message(e)))
      case Ok(_) => Ok(config)
  }

  /** A pattern made only of whitespace is refused as missing, whatever the
      paths are: the pattern is checked before any path. */
  lemma BlankPatternRefusedFirst(c: Config, isFile: string -> bool)
    requires forall i :: 0 <= i < |c.pattern| ==> IsWhitespace(c.pattern[i])
    ensures Validation(c, isFile) == Err(PatternRequired)
  {
    BlankIffAllWhitespace(c.pattern);
  }

  /** Validation succeeds exactly when the pattern is not blank and either
      every path is "-" (no path at all included) or every path, "-" included,
      is an existing regular file. The only failures are a missing pattern and
      an invalid file. */
  lemma ValidationOkIff(c: Config, isFile: string -> bool)
    ensures Validation(c, isFile).Ok? <==>
      !IsBlank(c.pattern) && (OnlyStdin(c.paths) || AllFiles(c.paths, isFile))
    ensures !IsBlank(c.pattern) && c.paths == [] ==> Validation(c, isFile).Ok?
    ensures Validation(c, isFile).Err? ==>
      Validation(c, isFile).error == PatternRequired || Validation(c, isFile).error.InvalidFile?
  {
  }

  /** Once some path is not "-", the invalid file reported is the first path,
      in list order, that is not an existing regular file. */
  lemma ValidationReportsFirstNonFile(c: Config, isFile: string -> bool, k: nat)
    requires !IsBlank(c.pattern) && !OnlyStdin(c.paths)
    requires k < |c.paths| && !isFile(c.paths[k])
    requires forall j :: 0 <= j < k ==> isFile(c.paths[j])
    ensures Validation(c, isFile) == Err(InvalidFile(c.paths[k]))
  {
    FirstNonFileAt(c.paths, isFile, k);
  }

  /** A "-" next to a real file is put to the file test too: with no file
      named "-" in the working directory, `pattern - notes.txt` is refused
      although notes.txt exists. */
  lemma StdinTestedBesideFile()
    ensures Validation(Config(false, "err", false, false, [Stdin, "notes.txt"]),
                       p => p == "notes.txt")
            == Err(InvalidFile(Stdin))
  {
    var c := Config(false, "err", false, false, [Stdin, "notes.txt"]);
    assert !IsBlank(c.pattern) by {
      BlankIffAllWhitespace(c.pattern);
      assert !IsWhitespace(c.pattern[0]);
    }
    assert c.paths[1] != Stdin;
    ValidationReportsFirstNonFile(c, p => p == "notes.txt", 0);
  }

  /** A blank pattern surfaces from `try_parse` as unknown arguments carrying
      the missing-pattern message, never as a bare missing-pattern error. */
  lemma TryParseBlankPattern(config: Config, isFile: string -> bool)
    requires IsBlank(config.pattern)
    ensures TryParse(Parsed(config), isFile) ==
      Err(UnknownArguments("Search pattern is required"))
  {
  }

  /** An invalid file surfaces as unknown arguments carrying "Invalid file: "
      followed by the path. */
  lemma TryParseInvalidFile(config: Config, isFile: string -> bool, p: string)
    requires Validation(config, isFile) == Err(InvalidFile(p))
    ensures TryParse(Parsed(config), isFile) == Err(UnknownArguments("Invalid file: " + p))
  {
  }

  /** Reporting a failure of `try_parse` gives code 3 when the command line
      could not be parsed and code 2 when it failed validation, so the code 3
      of a missing pattern is never reached through `try_parse`. */
  lemma TryParseExitCode(parsed: ParseOutcome, isFile: string -> bool)
    requires TryParse(parsed, isFile).Err?
    ensures Report(TryParse(parsed, isFile).error).code == if parsed.ParseFailed? then 3 else 2
  {
  }

  /** Wrapping keeps the cause: two parsed command lines that fail validation
      for different reasons fail `try_parse` with different errors. */
  lemma TryParseKeepsCause(c1: Config, c2: Config, isFile: string -> bool)
    requires Validation(c1, isFile).Err? && Validation(c2, isFile).Err?
    requires TryParse(Parsed(c1), isFile) == TryParse(Parsed(c2), isFile)
    ensures Validation(c1, isFile) == Validation(c2, isFile)
  {
    MessageInjective(Validation(c1, isFile).error, Validation(c2, isFile).error);
  }
}

/** The application's error enumeration (src/errors.rs): the text each variant
    displays and the exit code the process ends with when it is reported. */
module Errors {

  /** One variant per failure kind. `Io` stands for a wrapped `std::io::Error`;
      only the text that error displays is kept. */
  datatype AppError =
    | ConfigParseError(kind: string)
    | PatternRequired
    | InvalidPattern(reason: string)
    | UnknownArguments(detail: string)
    | InvalidFile(path: string)
    | ErrorOpeningFile
    | Io(description: string)

  /** The result of a fallible operation of the program. */
  datatype Result<T> = Ok(value: T) | Err(error: AppError)

  /** What `report` hands back to the runtime: the line written to standard
      error and the process exit code. */
  datatype Exit = Exit(stderr: string, code: nat)

  /** The display text of each variant. `Io` is transparent: it shows the
      wrapped error's own text. */
  function Message(e: AppError): (m: string)
    ensures !e.Io? ==> |m| > 8
  {
    match e
    case ConfigParseError(kind) => "Config error: " + kind
    case PatternRequired => "Search pattern is required"
    case InvalidPattern(reason) => "Invalid search pattern error: " + reason
    case UnknownArguments(detail) => "Unknown argument(s): " + detail
    case InvalidFile(path) => "Invalid file: " + path
    case ErrorOpeningFile => "Error opening file"
    case Io(description) => description
  }

  /** The payload a variant carries, or the empty string for variants without one. */
  function Payload(e: AppError): string {
    match e
    case ConfigParseError(kind) => kind
    case InvalidPattern(reason) => reason
    case UnknownArguments(detail) => detail
    case InvalidFile(path) => path
    case Io(description) => description
    case _ => ""
  }

  /** True when `a` and `b` are the same variant, whatever their payloads. */
  predicate SameVariant(a: AppError, b: AppError) {
    match (a, b)
    case (ConfigParseError(_), ConfigParseError(_)) => true
    case (PatternRequired, PatternRequired) => true
    case (InvalidPattern(_), InvalidPattern(_)) => true
    case (UnknownArguments(_), UnknownArguments(_)) => true
    case (InvalidFile(_), InvalidFile(_)) => true
    case (ErrorOpeningFile, ErrorOpeningFile) => true
    case (Io(_), Io(_)) => true
    case _ => false
  }

  /** Reporting an error writes its message on one line and ends the process
      with a failure code: 3 for configuration and I/O failures, 2 for the rest. */
  function Report(e: AppError): (r: Exit)
    ensures r.code == 2 || r.code == 3
    ensures |r.stderr| > 0 && r.stderr[|r.stderr| - 1] == '\n'
    ensures r.stderr[..|r.stderr| - 1] == Message(e)
  {
    var code :=
      match e
      case ConfigParseError(_) => 3
      case PatternRequired => 3
      case InvalidPattern(_) => 2
      case UnknownArguments(_) => 2
      case InvalidFile(_) => 2
      case ErrorOpeningFile => 2
      case Io(_) => 3;
    Exit(Message(e) + "\n", code)
  }

  /** Exit code 3 is exactly the configuration-parse, missing-pattern and I/O
      variants; exit code 2 is exactly the others; no error exits with 0. */
  lemma ReportCodeClasses(e: AppError)
    ensures Report(e).code == 3 <==> (e.ConfigParseError? || e.PatternRequired? || e.Io?)
    ensures Report(e).code == 2 <==>
      (e.InvalidPattern? || e.UnknownArguments? || e.InvalidFile? || e.ErrorOpeningFile?)
    ensures Report(e).code != 0
  {
  }

  /** The exit code depends on the variant alone, never on its payload. */
  lemma ReportIgnoresPayload(a: AppError, b: AppError)
    requires SameVariant(a, b)
    ensures Report(a).code == Report(b).code
  {
  }

  /** Every variant that carries a payload displays it as the tail of its message. */
  lemma MessageEndsWithPayload(e: AppError)
    ensures |Payload(e)| <= |Message(e)|
    ensures Message(e)[|Message(e)| - |Payload(e)|..] == Payload(e)
  {
  }

  /** The first and ninth characters of a variant's display text, which tell
      the variants other than `Io` apart. */
  function Signature(e: AppError): (char, char) {
    match e
    case ConfigParseError(_) => ('C', 'r')
    case PatternRequired => ('S', 'a')
    case InvalidPattern(_) => ('I', 's')
    case UnknownArguments(_) => ('U', 'a')
    case InvalidFile(_) => ('I', 'f')
    case ErrorOpeningFile => ('E', 'e')
    case Io(_) => ('\0', '\0')
  }

  lemma MessageSignature(e: AppError)
    requires !e.Io?
    ensures |Message(e)| > 8 && (Message(e)[0], Message(e)[8]) == Signature(e)
  {
  }

  /** Apart from the transparent `Io` variant, the display text identifies the
      error completely: two errors with the same message are the same error. */
  lemma MessageInjective(a: AppError, b: AppError)
    requires !a.Io? && !b.Io?
    requires Message(a) == Message(b)
    ensures a == b
  {
    var m := Message(a);
    if !SameVariant(a, b) {
      MessageSignature(a);
      MessageSignature(b);
      assert false;
    } else {
      var p := |m| - |Payload(a)|;
      MessageEndsWithPayload(a);
      MessageEndsWithPayload(b);
      assert |Payload(a)| == |Payload(b)|;
      assert Payload(a) == m[p..] == Payload(b);
    }
  }
}

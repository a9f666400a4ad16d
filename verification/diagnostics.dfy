/** The loader's message list: an append-only sequence of (severity, text)
    pairs that `import_unit` prints even when the load fails.  Each message is
    kept as the structured facts its f-string formats. */
module Diagnostics {
  import opened Base
  import opened Bytes

  datatype Severity = Warning | Error

  datatype Diagnostic =
    | MissingFile(path: string)                            // 'Cannot find a file {filepath}'
    | UnknownBone(path: string, bone: Bytes)               // 'Animation {filepath} contains an unknown bone {bone_name}.'
    | WrongRoot(path: string, expected: string, got: string) // 'File {filepath} contains a wrong kind of data: ...'
  {
    function Severity(): Severity {
      if WrongRoot? then Error else Warning
    }
  }

  /** What a loader call leaves behind: the messages it appended, which stay
      even when it raises, and its value or the fault it raised. */
  datatype Outcome<+T> = Outcome(messages: seq<Diagnostic>, result: Result<T>)
}

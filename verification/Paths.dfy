// The part of `pathlib.PurePosixPath` the proof ledger relies on: splitting a
// path into parts, its POSIX spelling and its final component.
module Paths {

  function Split(s: string, sep: char): (parts: seq<string>)
    ensures |parts| >= 1
    ensures forall p :: p in parts ==> sep !in p
  {
    if s == "" then [""]
    else
      var rest := Split(s[1..], sep);
      if s[0] == sep then [""] + rest else [[s[0]] + rest[0]] + rest[1..]
  }

  function Join(parts: seq<string>, sep: char): string {
    if |parts| == 0 then ""
    else if |parts| == 1 then parts[0]
    else parts[0] + [sep] + Join(parts[1..], sep)
  }

  /** drops the empty and `.` components, as `Path` does */
  function Significant(parts: seq<string>): (kept: seq<string>)
    ensures forall p :: p in kept ==> p in parts && p != "" && p != "."
  {
    if parts == [] then []
    else if parts[0] == "" || parts[0] == "." then Significant(parts[1..])
    else [parts[0]] + Significant(parts[1..])
  }

  /** the components of `Path(s).parts` other than the root */
  function Parts(s: string): (parts: seq<string>)
    ensures forall p :: p in parts ==> '/' !in p && p != "" && p != "."
  {
    Significant(Split(s, '/'))
  }

  predicate IsAbsolute(s: string) {
    s != "" && s[0] == '/'
  }

  /** `Path(s).as_posix()` of a relative path */
  function AsPosix(s: string): string {
    if Parts(s) == [] then "." else Join(Parts(s), '/')
  }

  /** `Path(s).name` */
  function FileName(s: string): (name: string)
    ensures '/' !in name && name != "."
  {
    var parts := Parts(s);
    if parts == [] then "" else parts[|parts| - 1]
  }

  /** accepted by `normalize_relative_artifact_path` */
  predicate IsRelativeArtifactPath(s: string) {
    && s != ""
    && !IsAbsolute(s)
    && ".." !in Parts(s)
    && AsPosix(s) == s
  }
}

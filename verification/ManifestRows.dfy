/** Rows of the CMake manifests, stripped of surrounding space. */
module ManifestRows {

  /** Empty rows and comments. */
  predicate Ignored(row: string) {
    row == "" || row[0] == '#'
  }

  /** The rows that are neither empty nor comments. */
  function Significant(rows: seq<string>): seq<string> {
    if rows == [] then []
    else (if Ignored(rows[0]) then [] else [rows[0]]) + Significant(rows[1..])
  }

  lemma {:induction false} SignificantRows(rows: seq<string>)
    ensures forall row | row in Significant(rows) :: !Ignored(row)
  {
    if rows != [] { SignificantRows(rows[1..]); }
  }
}

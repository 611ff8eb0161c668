/** Declared-type normalisation and the compatibility matrix the validator
    uses when a column's declared type differs from the expected one. */
module TypeCompat {
  function UpperChar(c: char): char
  {
    if 'a' <= c <= 'z' then (c as int - 32) as char else c
  }

  /** Upper-casing of an introspected type name (ASCII letters only). */
  function Upper(s: string): (r: string)
    ensures |r| == |s|
    ensures forall i :: 0 <= i < |s| ==> r[i] == UpperChar(s[i])
    ensures forall i :: 0 <= i < |r| ==> !('a' <= r[i] <= 'z')
  {
    if s == [] then [] else [UpperChar(s[0])] + Upper(s[1..])
  }

  /** The three storage classes SQLite converts freely between. */
  const ScalarTypes: set<string> := {"INTEGER", "REAL", "TEXT"}

  /** Types the validator accepts in place of each expected type. */
  const CompatibleTypes: map<string, seq<string>> :=
    map["INTEGER" := ["TEXT", "REAL"], "REAL" := ["TEXT", "INTEGER"], "TEXT" := ["INTEGER", "REAL"]]

  /** An actual type is acceptable when it equals the expected one or both
      are among INTEGER, REAL and TEXT; every other differing pair (an
      expected INTEGER against a BLOB, say) is a mismatch. */
  function IsTypeCompatible(expected: string, actual: string): (r: bool)
    ensures r <==> expected == actual || (expected in ScalarTypes && actual in ScalarTypes)
  {
    expected == actual || (expected in CompatibleTypes && actual in CompatibleTypes[expected])
  }

  /** Upper-casing is idempotent, so a type already normalised is
      compared as is. */
  lemma {:induction false} UpperIdempotent(s: string)
    ensures Upper(Upper(s)) == Upper(s)
  {
    if s != [] {
      UpperIdempotent(s[1..]);
    }
  }

  /** The matrix is symmetric: swapping expected and actual never changes
      the verdict. */
  lemma TypeCompatSymmetric(a: string, b: string)
    ensures IsTypeCompatible(a, b) == IsTypeCompatible(b, a)
  {
  }
}

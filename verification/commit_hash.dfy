/** The commit-hash guard both version registries run before any insert:
    a Git commit hash is forty lower-case hexadecimal digits. */
module CommitHash {
  import opened Outcomes

  predicate IsLowerHex(c: char)
  {
    '0' <= c <= '9' || 'a' <= c <= 'f'
  }

  /** Every character of `s` is a lower-case hex digit, scanned left to
      right as the character class `[a-f0-9]` is. */
  function AllLowerHex(s: string): (ok: bool)
    ensures ok <==> forall i :: 0 <= i < |s| ==> IsLowerHex(s[i])
  {
    if s == [] then true
    else
      assert forall i :: 0 < i < |s| ==> s[i] == s[1..][i - 1];
      IsLowerHex(s[0]) && AllLowerHex(s[1..])
  }

  /** The intended rule: exactly forty characters, all lower-case hex. */
  predicate IsValidCommitHash(s: string)
  {
    |s| == 40 && AllLowerHex(s)
  }

  /** The guard: no error for a valid hash, otherwise a validation error on
      the `commit_hash` field. */
  function CheckCommitHash(s: string): (r: Option<DwhError>)
    ensures r.None? <==> |s| == 40 && forall i :: 0 <= i < |s| ==> IsLowerHex(s[i])
    ensures r.Some? ==> r.value == ValidationError(Some("commit_hash"))
  {
    if IsValidCommitHash(s) then None else Some(ValidationError(Some("commit_hash")))
  }

  // ---------------------------------------------------------------------
  // The pattern as written: `re.match(r'^[a-f0-9]{40}$', s)`.

  /** Python's `$` (without MULTILINE) matches at the end of the text and
      also just before a newline that ends the text. */
  predicate DollarMatchesAt(s: string, i: nat)
  {
    i == |s| || (i == |s| - 1 && s[i] == '\n')
  }

  /** `^[a-f0-9]{40}$` under `re.match`: forty hex digits from the start,
      then a position where `$` matches. */
  predicate MatchesAsWritten(s: string)
  {
    |s| >= 40 && AllLowerHex(s[..40]) && DollarMatchesAt(s, 40)
  }

  /** The pattern as written accepts exactly the intended hashes plus those
      hashes followed by one newline. */
  lemma AsWrittenAcceptsTrailingNewline(s: string)
    ensures MatchesAsWritten(s) <==>
      IsValidCommitHash(s) || (|s| == 41 && s[40] == '\n' && IsValidCommitHash(s[..40]))
  {
    if |s| == 40 {
      assert s[..40] == s;
    }
  }

  /** A concrete input the as-written guard lets through although it is
      not a forty-character hash: forty `a`s followed by a newline. */
  lemma AsWrittenCounterexample()
    ensures var s := seq(40, i => 'a') + "\n";
      MatchesAsWritten(s) && !IsValidCommitHash(s) && CheckCommitHash(s).Some?
  {
    var s := seq(40, i => 'a') + "\n";
    assert s[..40] == seq(40, i => 'a');
  }

  /** Concrete cases of the corrected guard: forty lower-case digits pass;
      forty upper-case digits, or thirty-nine lower-case ones, are
      rejected. */
  lemma CheckCommitHashExamples()
    ensures CheckCommitHash(seq(40, i => 'f')).None?
    ensures CheckCommitHash(seq(40, i => 'F')).Some?
    ensures CheckCommitHash(seq(39, i => 'f')).Some?
  {
    assert seq(40, i => 'F')[0] == 'F';
  }
}

/**
 * The Active Directory sub-code scrape of `Ldap::verifyOperation`:
 * `preg_match('/(?<=data )[0-9]{2,3}/', $errorString, $matches)`.
 * The pattern matches at a position preceded by the five characters `data `
 * and holding at least two ASCII digits; PCRE reports the leftmost such
 * position and the greedy `{2,3}` takes a third digit when there is one.
 */
module DataCode {
  import opened Wrappers
  import opened Php

  const Marker := "data "

  predicate DigitAt(s: string, i: nat) {
    i < |s| && IsDigit(s[i])
  }

  /** The pattern can start its match at position `p` of `s`. */
  predicate MatchesAt(s: string, p: nat) {
    DigitAt(s, p) && DigitAt(s, p + 1) && 5 <= p && s[p - 5..p] == Marker
  }

  /** How many digits the greedy `{2,3}` consumes at a match position. */
  function MatchLength(s: string, p: nat): nat {
    if DigitAt(s, p + 2) then 3 else 2
  }

  /** The leftmost match position at or after `from`. */
  function FirstMatchFrom(s: string, from: nat): (r: Option<nat>)
    ensures r.Some? ==> from <= r.value && MatchesAt(s, r.value)
    ensures r.Some? ==> forall j :: from <= j < r.value ==> !MatchesAt(s, j)
    ensures r.None? ==> forall j :: from <= j ==> !MatchesAt(s, j)
    decreases |s| - from
  {
    if from + 1 >= |s| then None
    else if MatchesAt(s, from) then Some(from)
    else FirstMatchFrom(s, from + 1)
  }

  /**
   * `$matches[0]` when `preg_match` finds the pattern, None otherwise. The text
   * is kept as a string, as PHP keeps it.
   */
  function ExtractDataCode(errorString: string): (r: Option<string>)
    ensures r.None? <==> forall p :: !MatchesAt(errorString, p)
    ensures r.Some? ==> IsDecimalString(r.value) && 2 <= |r.value| <= 3
  {
    match FirstMatchFrom(errorString, 0)
    case None => None
    case Some(p) => Some(errorString[p..p + MatchLength(errorString, p)])
  }

  /**
   * The matched text is the one at the leftmost match, with a third digit
   * exactly when the string has one there.
   */
  lemma LeftmostGreedyMatch(s: string, p: nat)
    requires MatchesAt(s, p)
    requires forall j :: 0 <= j < p ==> !MatchesAt(s, j)
    ensures ExtractDataCode(s) == Some(if DigitAt(s, p + 2) then s[p..p + 3] else s[p..p + 2])
  {
    var r := FirstMatchFrom(s, 0);
    assert r.Some? && r.value == p;
  }

  /**
   * After a prefix without a match, `data ` and two or three digits give those
   * digits, whatever follows them: a letter such as the `e` of `52e`, or a
   * fourth digit after three.
   */
  lemma MatchAfterPrefix(prefix: string, digits: string, rest: string)
    requires forall j :: 0 <= j <= |prefix| ==> !MatchesAt(prefix + Marker, j)
    requires IsDecimalString(digits) && 2 <= |digits| <= 3
    requires |digits| == 2 ==> !DigitAt(rest, 0)
    ensures ExtractDataCode(prefix + Marker + digits + rest) == Some(digits)
  {
    var s := prefix + Marker + digits + rest;
    var p := |prefix| + 5;
    assert s[p - 5..p] == Marker;
    assert s[p..p + |digits|] == digits;
    assert MatchesAt(s, p);
    forall j | 0 <= j < p ensures !MatchesAt(s, j) {
      if MatchesAt(s, j) {
        assert j + 1 < p;
        assert (prefix + Marker)[j - 5..j] == s[j - 5..j];
        assert MatchesAt(prefix + Marker, j);
      }
    }
    LeftmostGreedyMatch(s, p);
  }

  /**
   * A comment without `data ` leaves the pattern nothing to match before a
   * `data ` appended to it: the lookbehind needs `data ` wholly inside the
   * comment, and the appended `d` is no digit.
   */
  lemma {:induction false} NoMarkerNoMatch(comment: string)
    requires !Contains(comment, Marker)
    ensures forall j :: 0 <= j <= |comment| ==> !MatchesAt(comment + Marker, j)
  {
    var s := comment + Marker;
    forall j | 0 <= j <= |comment| ensures !MatchesAt(s, j) {
      if j == |comment| {
        assert s[j] == 'd';
      } else if 5 <= j {
        assert s[j - 5..j] == comment[j - 5..j];
        assert !OccursAt(comment, Marker, j - 5);
      }
    }
  }

  /**
   * After a comment without `data ` (such as
   * `80090308: LdapErr: DSID-0C090334, comment: AcceptSecurityContext error, `),
   * `data ` and two or three digits give those digits.
   */
  lemma SubCodeAfterComment(comment: string, digits: string, rest: string)
    requires !Contains(comment, Marker)
    requires IsDecimalString(digits) && 2 <= |digits| <= 3
    requires |digits| == 2 ==> !DigitAt(rest, 0)
    ensures ExtractDataCode(comment + (Marker + digits + rest)) == Some(digits)
  {
    NoMarkerNoMatch(comment);
    MatchAfterPrefix(comment, digits, rest);
    AppendAssoc(comment, Marker, digits);
    AppendAssoc(comment, Marker + digits, rest);
  }
}

/**
 * The allow-list check `re.match(r'^[\w\s.,!?-]*$', text)` used by the
 * question and forgot views, and the minimum answer length.
 *
 * Character classes are restricted to ASCII: `\w` is a letter, a digit or
 * `_`; `\s` is one of the ASCII characters Python treats as whitespace
 * (tab through carriage return, the four separators 0x1C-0x1F, and space).
 */
module Validation {

  /** `len(answer_text) < 4` rejects an answer. */
  const MinAnswerLength: nat := 4

  predicate IsWordChar(c: char) {
    ('a' <= c <= 'z') || ('A' <= c <= 'Z') || ('0' <= c <= '9') || c == '_'
  }

  predicate IsSpaceChar(c: char) {
    c == ' ' || ('\t' <= c <= '\r') || ('\U{1C}' <= c <= '\U{1F}')
  }

  /** Membership in the character class `[\w\s.,!?-]`. */
  predicate AllowedChar(c: char) {
    IsWordChar(c) || IsSpaceChar(c) || c in ".,!?-"
  }

  /** Every character of `s` is in the class. */
  predicate AllAllowed(s: string) {
    forall i :: 0 <= i < |s| ==> AllowedChar(s[i])
  }

  /** Python's `$`: at the end of the text, or just before a final newline. */
  predicate AnchoredAt(s: string, k: nat) {
    k == |s| || (k + 1 == |s| && s[k] == '\n')
  }

  /**
   * Reference semantics of the pattern: some prefix of `s` is matched by
   * `[\w\s.,!?-]*` and `$` matches right after it.
   */
  ghost predicate PatternMatches(s: string) {
    exists k: nat :: k <= |s| && AllAllowed(s[..k]) && AnchoredAt(s, k)
  }

  /** The length of the run the greedy `[\w\s.,!?-]*` consumes. */
  function AllowedPrefixLength(s: string): (k: nat)
    ensures k <= |s|
    ensures AllAllowed(s[..k])
    ensures k < |s| ==> !AllowedChar(s[k])
  {
    if s == [] then 0
    else if AllowedChar(s[0]) then
      var k := 1 + AllowedPrefixLength(s[1..]);
      assert s[..k] == [s[0]] + s[1..][..k - 1];
      k
    else 0
  }

  /**
   * The greedy run meets `$` exactly when it covers every character: it
   * cannot stop before a final newline, because a newline is in the class.
   */
  lemma GreedyRunAnchored(s: string)
    ensures AnchoredAt(s, AllowedPrefixLength(s)) <==> AllAllowed(s)
  {
    var k := AllowedPrefixLength(s);
    if AnchoredAt(s, k) {
      assert k == |s| && s[..k] == s;
    }
  }

  /** The check as the regex engine runs it: greedy run, then `$`. */
  predicate MatchesAllowList(s: string): (r: bool)
    ensures r <==> AllAllowed(s)
  {
    GreedyRunAnchored(s);
    AnchoredAt(s, AllowedPrefixLength(s))
  }

  /**
   * The greedy check agrees with the pattern's meaning, and both amount to
   * "every character is allowed": the trailing-newline case of `$` admits
   * nothing more, because a newline is itself in the class.
   */
  lemma MatchesAllowListIff(s: string)
    ensures MatchesAllowList(s) <==> PatternMatches(s)
    ensures MatchesAllowList(s) <==> AllAllowed(s)
  {
    var k := AllowedPrefixLength(s);
    if MatchesAllowList(s) {
      assert s[..k] == s;
    }
    if PatternMatches(s) {
      var j: nat :| j <= |s| && AllAllowed(s[..j]) && AnchoredAt(s, j);
      assert AllAllowed(s) by {
        forall i | 0 <= i < |s| ensures AllowedChar(s[i]) {
          if i < j { assert s[..j][i] == s[i]; }
        }
      }
    }
    if AllAllowed(s) {
      assert s[..|s|] == s;
    }
  }
}

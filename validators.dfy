/**
 * The username validator: the regular expression `^[\w.@+-]+\Z`, searched
 * in the value, with the error code `invalid_username` on a mismatch.
 */
module Validators {
  import opened Wrappers

  /**
   * `\w`, restricted to ASCII letters, digits and the underscore. Python's
   * `\w` on text also accepts the letters and digits of other scripts.
   */
  predicate IsWordChar(c: char) {
    'a' <= c <= 'z' || 'A' <= c <= 'Z' || '0' <= c <= '9' || c == '_'
  }

  /** The character class `[\w.@+-]`. */
  predicate IsUsernameChar(c: char) {
    IsWordChar(c) || c == '.' || c == '@' || c == '+' || c == '-'
  }

  const InvalidUsernameCode := "invalid_username"

  datatype ValidationError = ValidationError(code: string)

  /** How many characters of the class `[\w.@+-]` follow position `i`: what the greedy `+` consumes. */
  function ClassRun(s: string, i: nat): (n: nat)
    requires i <= |s|
    ensures i + n <= |s|
    decreases |s| - i
  {
    if i < |s| && IsUsernameChar(s[i]) then 1 + ClassRun(s, i + 1) else 0
  }

  /**
   * `^[\w.@+-]+\Z`: anchored at the start, at least one character of the
   * class, and then the very end of the string (`\Z`, unlike `$`, does not
   * match before a final newline).
   */
  predicate MatchesUsernamePattern(s: string) {
    var n := ClassRun(s, 0);
    n >= 1 && n == |s|
  }

  /** The same pattern written with `$` instead of `\Z`: `$` also matches just before a final newline. */
  predicate MatchesWithDollar(s: string) {
    var n := ClassRun(s, 0);
    n >= 1 && (n == |s| || (n == |s| - 1 && s[n] == '\n'))
  }

  lemma {:induction false} ClassRunAll(s: string, i: nat)
    requires i <= |s|
    ensures ClassRun(s, i) == |s| - i <==> forall k :: i <= k < |s| ==> IsUsernameChar(s[k])
    decreases |s| - i
  {
    if i < |s| {
      ClassRunAll(s, i + 1);
    }
  }

  /** `username_validator` called on `value`: no error, or the `invalid_username` error. */
  function ValidateUsername(value: string): (r: Option<ValidationError>)
    ensures r.None? <==> |value| >= 1 && forall k :: 0 <= k < |value| ==> IsUsernameChar(value[k])
    ensures r.Some? ==> r.value.code == InvalidUsernameCode
  {
    ClassRunAll(value, 0);
    if MatchesUsernamePattern(value) then None else Some(ValidationError(InvalidUsernameCode))
  }

  /** A value with a trailing newline is always rejected. */
  lemma TrailingNewlineRejected(s: string)
    ensures ValidateUsername(s + "\n") == Some(ValidationError(InvalidUsernameCode))
  {
    var t := s + "\n";
    assert !IsUsernameChar(t[|t| - 1]);
  }

  /** With `$` such a value would have been accepted; `\Z` is what rejects it. */
  lemma DollarWouldAcceptNewline(s: string)
    requires ValidateUsername(s).None?
    ensures MatchesWithDollar(s + "\n")
  {
    ClassRunAll(s, 0);
    RunOverNewline(s, 0);
  }

  lemma {:induction false} RunOverNewline(s: string, i: nat)
    requires i <= |s|
    requires forall k :: i <= k < |s| ==> IsUsernameChar(s[k])
    ensures ClassRun(s + "\n", i) == |s| - i
    decreases |s| - i
  {
    var t := s + "\n";
    if i < |s| {
      assert t[i] == s[i];
      RunOverNewline(s, i + 1);
    } else {
      assert t[i] == '\n';
    }
  }
}

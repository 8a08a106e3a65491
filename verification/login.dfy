/** The client-side checks of the login page: the e-mail and password
    validators and the required-field check run when a login form is
    submitted. */
module Login {
  import opened JsString

  // ---------------------------------------------------------------------
  // validatePassword

  /** `validatePassword`: at least six characters, counted as JavaScript
      counts them (UTF-16 code units). */
  function ValidatePassword(password: string): (ok: bool)
    ensures |password| >= 6 ==> ok
    ensures ok ==> |password| >= 3
  {
    Utf16Length(password) >= 6
  }

  /** Without characters beyond U+FFFF, the length test is exactly "six
      characters or more". */
  lemma PasswordInBasicPlane(password: string)
    requires InBasicPlane(password)
    ensures ValidatePassword(password) <==> |password| >= 6
  {
    BasicPlaneLength(password);
  }

  // ---------------------------------------------------------------------
  // validateEmail

  /** A non-empty run of `[^\s@]`: no white space and no `@`. */
  predicate IsEmailPart(s: string) {
    |s| > 0 && forall k :: 0 <= k < |s| ==> !IsWhiteSpace(s[k]) && s[k] != '@'
  }

  /** The pattern `^[^\s@]+@[^\s@]+\.[^\s@]+$` matched with the `@` at index
      `i` and the escaped dot at index `j`. */
  predicate EmailMatchAt(e: string, i: nat, j: nat) {
    && i < j < |e|
    && IsEmailPart(e[..i])
    && e[i] == '@'
    && IsEmailPart(e[i + 1..j])
    && e[j] == '.'
    && IsEmailPart(e[j + 1..])
  }

  /** Whether the pattern matches the whole of `e` in some way. */
  ghost predicate MatchesEmailPattern(e: string) {
    exists i: nat, j: nat :: EmailMatchAt(e, i, j)
  }

  /** `validateEmail`, computed: the text before the first `@` is a part, the
      text after it is a part, and that text has a dot with at least one
      character on each side. */
  function ValidateEmail(e: string): (ok: bool)
    ensures ok ==> '@' in e && !IsWhiteSpace(e[0]) && e[0] != '@'
  {
    var i := IndexOf(e, '@');
    var rest := if i < |e| then e[i + 1..] else [];
    && i < |e|
    && IsEmailPart(e[..i])
    && IsEmailPart(rest)
    && |rest| >= 3
    && '.' in rest[1..|rest| - 1]
  }

  lemma PartSlice(s: string, a: nat, b: nat)
    requires IsEmailPart(s) && a < b <= |s|
    ensures IsEmailPart(s[a..b])
  {
    forall k | 0 <= k < b - a ensures !IsWhiteSpace(s[a..b][k]) && s[a..b][k] != '@' {
      assert s[a..b][k] == s[a + k];
    }
  }

  /** An address the computed check accepts matches the pattern, with the
      `@` at its first `@` and the dot at the first dot that has text on both
      sides. */
  lemma ValidateEmailMatches(e: string)
    requires ValidateEmail(e)
    ensures MatchesEmailPattern(e)
  {
    var i := IndexOf(e, '@');
    var rest := e[i + 1..];
    var mid := rest[1..|rest| - 1];
    var m := IndexOf(mid, '.');
    var j := i + 2 + m;
    assert e[i + 1..j] == rest[..m + 1];
    assert e[j] == mid[m];
    assert e[j + 1..] == rest[m + 2..|rest|];
    PartSlice(rest, 0, m + 1);
    PartSlice(rest, m + 2, |rest|);
    assert EmailMatchAt(e, i, j);
  }

  /** Two `[^\s@]` runs around a dot make one run with a dot inside it. */
  lemma PartAroundDot(rest: string, k: nat)
    requires 0 < k < |rest| - 1 && rest[k] == '.'
    requires IsEmailPart(rest[..k]) && IsEmailPart(rest[k + 1..])
    ensures IsEmailPart(rest) && '.' in rest[1..|rest| - 1]
  {
    forall n | 0 <= n < |rest| ensures !IsWhiteSpace(rest[n]) && rest[n] != '@' {
      if n < k {
        assert rest[n] == rest[..k][n];
      } else if n > k {
        assert rest[n] == rest[k + 1..][n - k - 1];
      }
    }
    assert rest[1..|rest| - 1][k - 1] == '.';
  }

  /** A `[^\s@]` run holds no `@`. */
  lemma PartHasNoAt(x: string)
    requires IsEmailPart(x)
    ensures '@' !in x
  {
    forall k | 0 <= k < |x| ensures x[k] != '@' {
    }
  }

  /** A match of the pattern passes the computed check. */
  lemma MatchValidates(e: string, i: nat, j: nat)
    requires EmailMatchAt(e, i, j)
    ensures ValidateEmail(e)
  {
    PartHasNoAt(e[..i]);
    IndexOfFirst(e, '@', i);
    var rest := e[i + 1..];
    var k := j - i - 1;
    assert rest[..k] == e[i + 1..j];
    assert rest[k + 1..] == e[j + 1..];
    PartAroundDot(rest, k);
  }

  /** The computed check accepts exactly the strings the regular expression
      matches. */
  lemma ValidateEmailIff(e: string)
    ensures ValidateEmail(e) <==> MatchesEmailPattern(e)
  {
    if ValidateEmail(e) {
      ValidateEmailMatches(e);
    }
    if MatchesEmailPattern(e) {
      var i: nat, j: nat :| EmailMatchAt(e, i, j);
      MatchValidates(e, i, j);
    }
  }

  /** Around an index `i`, two `[^\s@]` runs leave no white space and no `@`
      anywhere but at `i`. */
  lemma PartsAround(e: string, i: nat)
    requires i < |e| && IsEmailPart(e[..i]) && IsEmailPart(e[i + 1..])
    ensures forall k :: 0 <= k < |e| && k != i ==> !IsWhiteSpace(e[k]) && e[k] != '@'
  {
    forall k | 0 <= k < |e| && k != i ensures !IsWhiteSpace(e[k]) && e[k] != '@' {
      if k < i {
        assert e[k] == e[..i][k];
      } else {
        assert e[k] == e[i + 1..][k - i - 1];
      }
    }
  }

  /** An address `validateEmail` accepts holds exactly one `@` and no white
      space at all. */
  lemma ValidEmailShape(e: string)
    requires ValidateEmail(e)
    ensures forall k :: 0 <= k < |e| ==> !IsWhiteSpace(e[k])
    ensures forall k :: 0 <= k < |e| ==> (e[k] == '@' <==> k == IndexOf(e, '@'))
  {
    PartsAround(e, IndexOf(e, '@'));
  }

  // ---------------------------------------------------------------------
  // The required-field check of the submit handler

  /** What the handler reads and writes on one required field and around
      it: its value and border colour, whether another element (such as a
      password toggle) follows it inside its parent, and how many
      `field-error` messages sit at the end of that parent, where
      `appendChild` puts them. */
  datatype Field = Field(value: string, borderColor: string, followedByElement: bool, errorMessages: nat)

  /** The colour a blank required field is outlined in. */
  const ErrorColor: string := "#F44336"

  /** Whether a required field counts as empty. The handler tests
      `!field.value.trim()`, which holds exactly when the value is all white
      space (`BlankIffTrimEmpty`). */
  predicate IsBlank(f: Field) {
    AllWhiteSpace(f.value)
  }

  /** `IsBlank` is the handler's test `!field.value.trim()`. */
  lemma BlankIffTrimEmpty(f: Field)
    ensures IsBlank(f) <==> Trim(f.value) == []
  {
    TrimEmptyIff(f.value);
  }

  /** Whether `field.nextElementSibling` is an error message: no other
      element follows the field, and at least one message does. */
  predicate NextIsErrorMessage(f: Field) {
    !f.followedByElement && f.errorMessages > 0
  }

  /** How one pass of the submit handler leaves one field. The value and
      layout are untouched. A blank field is outlined in red and gets one more message unless its
      next sibling is already one. Any other field loses its outline, and
      loses one message when its next sibling is one. */
  predicate Checked(before: Field, after: Field) {
    var blank := IsBlank(before);
    var nextIsMessage := NextIsErrorMessage(before);
    && after.value == before.value
    && after.followedByElement == before.followedByElement
    && after.borderColor == (if blank then ErrorColor else "")
    && after.errorMessages == (if blank && !nextIsMessage then before.errorMessages + 1
                               else if !blank && nextIsMessage then before.errorMessages - 1
                               else before.errorMessages)
  }

  /** One field as the loop body of the handler leaves it: a blank field is
      outlined in red and gets a message appended unless its next sibling is
      one already; a filled field loses its outline, and its next sibling
      when that is a message. */
  function CheckField(f: Field): (r: Field)
    ensures Checked(f, r)
  {
    if IsBlank(f) then
      if NextIsErrorMessage(f) then f.(borderColor := ErrorColor)
      else f.(borderColor := ErrorColor, errorMessages := f.errorMessages + 1)
    else
      if NextIsErrorMessage(f) then f.(borderColor := "", errorMessages := f.errorMessages - 1)
      else f.(borderColor := "")
  }

  /** Whatever the layout, a checked field is outlined in red exactly when
      `!field.value.trim()` holds, and then at least one error message
      follows it in its parent. */
  lemma CheckedMeansBlank(before: Field, after: Field)
    requires Checked(before, after)
    ensures after.borderColor == (if Trim(before.value) == [] then ErrorColor else "")
    ensures Trim(before.value) == [] ==> after.errorMessages > 0
  {
    BlankIffTrimEmpty(before);
  }

  /** A field that nothing else follows, with at most one message after it,
      ends with exactly one message when it is blank and none when it is
      filled; so after every submission its message shows exactly when it is
      blank. */
  lemma PlainFieldOneMessage(before: Field, after: Field)
    requires Checked(before, after)
    requires !before.followedByElement && before.errorMessages <= 1
    ensures !after.followedByElement && after.errorMessages <= 1
    ensures after.errorMessages == 1 <==> IsBlank(before)
    ensures NextIsErrorMessage(after) <==> IsBlank(before)
  {
  }

  /** A field followed by another element (an input with its password
      toggle) never finds its message as the next sibling: each blank check
      appends one more message, and filling the field removes none. */
  lemma FollowedFieldMessagesPileUp(before: Field, after: Field)
    requires Checked(before, after)
    requires before.followedByElement
    ensures IsBlank(before) ==> after.errorMessages == before.errorMessages + 1
    ensures !IsBlank(before) ==> after.errorMessages == before.errorMessages
    ensures !NextIsErrorMessage(after)
  {
  }

  /** Whether no field is blank. */
  predicate AllFilled(fs: seq<Field>) {
    forall k :: 0 <= k < |fs| ==> !IsBlank(fs[k])
  }

  lemma AllFilledStep(fs: seq<Field>, n: nat)
    requires n < |fs|
    ensures AllFilled(fs[..n + 1]) <==> AllFilled(fs[..n]) && !IsBlank(fs[n])
  {
    assert fs[..n + 1][n] == fs[n];
    assert forall k :: 0 <= k < n ==> fs[..n + 1][k] == fs[..n][k];
  }

  /** Checks every required field in order: a blank one is outlined in red
      and gets an error message unless its next sibling is one already; a
      filled one loses its outline, and its next sibling when that is an
      error message. Answers whether every field was filled. */
  method CheckRequiredFields(fields: array<Field>) returns (valid: bool)
    modifies fields
    ensures valid <==> AllFilled(old(fields[..]))
    ensures forall k :: 0 <= k < fields.Length ==> Checked(old(fields[k]), fields[k])
  {
    ghost var before := fields[..];
    valid := true;
    var n := 0;
    while n < fields.Length
      invariant 0 <= n <= fields.Length
      invariant valid <==> AllFilled(before[..n])
      invariant forall k :: n <= k < fields.Length ==> fields[k] == before[k]
      invariant forall k :: 0 <= k < n ==> Checked(before[k], fields[k])
    {
      var field := fields[n];
      AllFilledStep(before, n);
      if IsBlank(field) {
        valid := false;
      }
      fields[n] := CheckField(field);
      n := n + 1;
    }
    assert before[..n] == before;
  }

  /** The submit handler: the submission is prevented exactly when some
      required field is blank, and every field is left as `Checked` says. */
  method HandleSubmit(fields: array<Field>) returns (prevented: bool)
    modifies fields
    ensures prevented <==> !AllFilled(old(fields[..]))
    ensures forall k :: 0 <= k < fields.Length ==> Checked(old(fields[k]), fields[k])
  {
    var valid := CheckRequiredFields(fields);
    prevented := !valid;
  }
}

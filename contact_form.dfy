/** Inline validation of the contact form: three field rules, the per-field
    update of the error line and `aria-invalid`, and the pre-check that decides
    whether a submission is sent. The request itself is not modelled. */
module ContactForm {
  import opened Wrappers
  import opened Text

  /** What a rule returns: `true`, or the message to show. */
  datatype Verdict = Pass | Fail(message: string)

  const NameRuleText: string := "Please enter your name"
  const EmailRuleText: string := "Please enter a valid email"
  const MessageRuleText: string := "Please enter at least 10 characters"

  // ---------------------------------------------------------------- the email pattern

  /** No character of `t` is a line terminator: text the regex `.` can cover. */
  predicate LineFree(t: string, cs: CharSets) {
    forall k :: 0 <= k < |t| ==> !cs.isLineBreak(t[k])
  }

  /** `t` as a whole reads x@y.z with x, y and z non-empty. */
  ghost predicate AtDotShape(t: string) {
    exists i, j :: 1 <= i && i + 2 <= j && j + 2 <= |t| && t[i] == '@' && t[j] == '.'
  }

  /** What `/.+@.+\..+/.test(v)` asks: does some substring of `v` without line
      terminators read x@y.z with x, y and z non-empty? */
  ghost predicate PatternOccurs(v: string, cs: CharSets) {
    exists a, b :: 0 <= a <= b <= |v| && LineFree(v[a..b], cs) && AtDotShape(v[a..b])
  }

  /** The search as a matcher decides it: an '@' with a character before it, a
      '.' at least two places after it with a character after that, and no line
      terminator from the character before '@' to the one after '.'. */
  predicate EmailTest(v: string, cs: CharSets) {
    exists i, j :: 1 <= i && i + 2 <= j && j + 2 <= |v| &&
      v[i] == '@' && v[j] == '.' && LineFree(v[i - 1..j + 2], cs)
  }

  lemma EmailTestMatchesPattern(v: string, cs: CharSets)
    ensures EmailTest(v, cs) <==> PatternOccurs(v, cs)
  {
    if EmailTest(v, cs) {
      var i, j :| 1 <= i && i + 2 <= j && j + 2 <= |v| &&
        v[i] == '@' && v[j] == '.' && LineFree(v[i - 1..j + 2], cs);
      var t := v[i - 1..j + 2];
      assert t[1] == '@' && t[j - i + 1] == '.';
      assert AtDotShape(t);
    }
    if PatternOccurs(v, cs) {
      var a, b :| 0 <= a <= b <= |v| && LineFree(v[a..b], cs) && AtDotShape(v[a..b]);
      var t := v[a..b];
      var i, j :| 1 <= i && i + 2 <= j && j + 2 <= |t| && t[i] == '@' && t[j] == '.';
      assert v[a + i] == '@' && v[a + j] == '.';
      var u := v[a + i - 1..a + j + 2];
      forall k | 0 <= k < |u|
        ensures !cs.isLineBreak(u[k])
      {
        assert u[k] == t[i - 1 + k];
      }
    }
  }

  // ---------------------------------------------------------------- the rules

  /** `name`: at least two UTF-16 code units once trimmed. */
  function NameRule(v: string, cs: CharSets): (r: Verdict)
    ensures r == Pass <==> SpansAtLeast(v, 2, cs.isSpace)
    ensures r != Pass ==> r == Fail(NameRuleText)
  {
    TrimLength(v, 2, cs.isSpace);
    if Utf16Length(Trim(v, cs.isSpace)) >= 2 then Pass else Fail(NameRuleText)
  }

  /** `email`: the pattern occurs somewhere in the value. */
  function EmailRule(v: string, cs: CharSets): (r: Verdict)
    ensures r == Pass <==> PatternOccurs(v, cs)
    ensures r != Pass ==> r == Fail(EmailRuleText)
  {
    EmailTestMatchesPattern(v, cs);
    if EmailTest(v, cs) then Pass else Fail(EmailRuleText)
  }

  /** `message`: at least ten UTF-16 code units once trimmed. */
  function MessageRule(v: string, cs: CharSets): (r: Verdict)
    ensures r == Pass <==> SpansAtLeast(v, 10, cs.isSpace)
    ensures r != Pass ==> r == Fail(MessageRuleText)
  {
    TrimLength(v, 10, cs.isSpace);
    if Utf16Length(Trim(v, cs.isSpace)) >= 10 then Pass else Fail(MessageRuleText)
  }

  /** `validators[name]` applied to `v`; None for a name with no rule. */
  function Check(name: string, v: string, cs: CharSets): (r: Option<Verdict>)
    ensures r.None? <==> name !in {"name", "email", "message"}
    ensures r.Some? && r.value.Fail? ==> r.value.message != ""
  {
    if name == "name" then Some(NameRule(v, cs))
    else if name == "email" then Some(EmailRule(v, cs))
    else if name == "message" then Some(MessageRule(v, cs))
    else None
  }

  /** The `validators` object as a table: the rule for a field name applied to
      a value, or None when the name has no rule. */
  type Rules = (string, string) -> Option<Verdict>

  /** The form's table: `Check` under the browser's character classes. */
  function Validators(cs: CharSets): Rules {
    (name, v) => Check(name, v, cs)
  }

  // ---------------------------------------------------------------- one field

  /** An `input` or `textarea` of the form: its `name`, its `value`, the text of
      the `.error` element beside it (None when there is none) and its
      `aria-invalid` attribute (None while unset). */
  datatype Field = Field(name: string, value: Option<string>, errorText: Option<string>, ariaInvalid: Option<string>)

  /** The value a rule sees: `input.value || ""`. */
  function ValueOf(f: Field): string {
    f.value.GetOr("")
  }

  /** Whether `validateField` returns true for `f`. */
  predicate Passes(f: Field, rules: Rules) {
    match rules(f.name, ValueOf(f))
    case None => true
    case Some(v) => v == Pass
  }

  /** `showError(input, message)`: the error line (when there is one) shows the
      message, and `aria-invalid` says whether the message is non-empty. */
  function WithError(f: Field, message: string): Field {
    f.(errorText := if f.errorText.Some? then Some(message) else None,
       ariaInvalid := Some(if message != "" then "true" else "false"))
  }

  /** `f` after `validateField`. */
  function Validated(f: Field, rules: Rules): Field {
    match rules(f.name, ValueOf(f))
    case None => f
    case Some(Pass) => WithError(f, "")
    case Some(Fail(m)) => WithError(f, m)
  }

  /** What validating one field means: a field without a rule passes and is left
      as it was; one with a rule passes exactly when it is marked
      `aria-invalid="false"` with an empty error line, and otherwise carries the
      rule's message and `aria-invalid="true"`. Name and value never change. */
  lemma ValidatedMeaning(f: Field, cs: CharSets)
    ensures var g := Validated(f, Validators(cs)); g.name == f.name && g.value == f.value
    ensures f.name !in {"name", "email", "message"} ==>
      Passes(f, Validators(cs)) && Validated(f, Validators(cs)) == f
    ensures f.name in {"name", "email", "message"} ==>
      (Passes(f, Validators(cs)) <==> Validated(f, Validators(cs)).ariaInvalid == Some("false")) &&
      (Passes(f, Validators(cs)) ==>
        Validated(f, Validators(cs)).errorText == if f.errorText.Some? then Some("") else None)
    ensures !Passes(f, Validators(cs)) ==>
      var m := Check(f.name, ValueOf(f), cs).value.message;
      Validated(f, Validators(cs)).ariaInvalid == Some("true") &&
      Validated(f, Validators(cs)).errorText == (if f.errorText.Some? then Some(m) else None) &&
      m in {NameRuleText, EmailRuleText, MessageRuleText}
  {
    assert Validators(cs)(f.name, ValueOf(f)) == Check(f.name, ValueOf(f), cs);
  }

  /** `showError` on `fields[i]`: the error line first, then the attribute. */
  method ShowError(fields: array<Field>, i: nat, message: string)
    requires i < fields.Length
    modifies fields
    ensures fields[i] == WithError(old(fields[i]), message)
    ensures forall j :: 0 <= j < fields.Length && j != i ==> fields[j] == old(fields[j])
  {
    if fields[i].errorText.Some? {
      fields[i] := fields[i].(errorText := Some(message));
    }
    fields[i] := fields[i].(ariaInvalid := Some(if message != "" then "true" else "false"));
  }

  /** `validateField(fields[i])`: the result is whether the field passes, and the
      field becomes `Validated` of what it was; no other field changes. */
  method ValidateField(fields: array<Field>, i: nat, rules: Rules) returns (ok: bool)
    requires i < fields.Length
    modifies fields
    ensures ok == Passes(old(fields[i]), rules)
    ensures fields[i] == Validated(old(fields[i]), rules)
    ensures forall j :: 0 <= j < fields.Length && j != i ==> fields[j] == old(fields[j])
  {
    var value := fields[i].value.GetOr("");
    var test := rules(fields[i].name, value);
    if test.None? {
      return true;
    }
    var result := test.value;
    if result != Pass {
      ShowError(fields, i, result.message);
      return false;
    }
    ShowError(fields, i, "");
    return true;
  }

  // ---------------------------------------------------------------- submit

  /** Index of the first field that fails, or |s| when all pass. */
  function FirstFailure(s: seq<Field>, rules: Rules): (k: nat)
    ensures k <= |s|
    ensures forall j :: 0 <= j < k ==> Passes(s[j], rules)
    ensures k < |s| ==> !Passes(s[k], rules)
  {
    if s == [] || !Passes(s[0], rules) then 0 else 1 + FirstFailure(s[1..], rules)
  }

  /** The submit handler's `inputs.every(validateField)`: fields are validated in
      order up to and including the first that fails; the ones after it keep
      their previous state. `send` is whether the request would be made, which
      is exactly when every field passes. */
  method PreValidate(fields: array<Field>, rules: Rules) returns (send: bool)
    modifies fields
    ensures var s := old(fields[..]); var k := FirstFailure(s, rules);
      (send <==> k == |s|) &&
      (send <==> forall j :: 0 <= j < |s| ==> Passes(s[j], rules)) &&
      (forall j :: 0 <= j < |s| && j <= k ==> fields[j] == Validated(s[j], rules)) &&
      (forall j :: k < j < |s| ==> fields[j] == s[j])
  {
    ghost var s := fields[..];
    var i := 0;
    while i < fields.Length
      invariant 0 <= i <= fields.Length
      invariant forall j :: 0 <= j < i ==> Passes(s[j], rules)
      invariant forall j :: 0 <= j < i ==> fields[j] == Validated(s[j], rules)
      invariant forall j :: i <= j < fields.Length ==> fields[j] == s[j]
    {
      var passed := ValidateField(fields, i, rules);
      if !passed {
        assert FirstFailure(s, rules) == i;
        return false;
      }
      i := i + 1;
    }
    assert FirstFailure(s, rules) == |s|;
    return true;
  }

  // ---------------------------------------------------------------- examples

  /** The values "A", "bad" and "short" fail the name, email and message rules. */
  lemma ExampleRulesFail(cs: CharSets)
    requires Conforming(cs)
    ensures NameRule("A", cs) == Fail(NameRuleText)
    ensures EmailRule("bad", cs) == Fail(EmailRuleText)
    ensures MessageRule("short", cs) == Fail(MessageRuleText)
  {
    EmailTestMatchesPattern("bad", cs);
  }

  /** The values "Al", "a@b.co" and "this is long enough" pass the name, email
      and message rules. */
  lemma ExampleRulesPass(cs: CharSets)
    requires Conforming(cs)
    ensures NameRule("Al", cs) == Pass
    ensures EmailRule("a@b.co", cs) == Pass
    ensures MessageRule("this is long enough", cs) == Pass
  {
    var long := "this is long enough";
    assert !cs.isSpace(long[0]) && !cs.isSpace(long[18]);
    assert !cs.isSpace('A') && !cs.isSpace('l');
    var e := "a@b.co";
    assert EmailTest(e, cs) by {
      assert e[1] == '@' && e[3] == '.';
      assert LineFree(e[0..5], cs);
    }
    EmailTestMatchesPattern(e, cs);
  }

  /** A name field holding "A" fails, and validating it shows the name message
      with `aria-invalid="true"`. */
  lemma ExampleNameFieldFails(cs: CharSets)
    requires Conforming(cs)
    ensures var f := Field("name", Some("A"), Some(""), None);
            !Passes(f, Validators(cs)) &&
            Validated(f, Validators(cs)) == Field("name", Some("A"), Some(NameRuleText), Some("true"))
  {
    var f := Field("name", Some("A"), Some(""), None);
    assert ValueOf(f) == "A";
    assert NameRule("A", cs) == Fail(NameRuleText) by {
      ExampleRulesFail(cs);
    }
    assert Check("name", "A", cs) == Some(Fail(NameRuleText));
    assert Validators(cs)(f.name, ValueOf(f)) == Some(Fail(NameRuleText));
    assert NameRuleText[0] == 'P';
  }

  /** When the first field is a name field holding "A", whatever fields follow,
      the pre-check stops at it and nothing is sent. */
  lemma ExampleStopsAtName(cs: CharSets, rest: seq<Field>)
    requires Conforming(cs)
    ensures FirstFailure([Field("name", Some("A"), Some(""), None)] + rest, Validators(cs)) == 0
  {
    var f := Field("name", Some("A"), Some(""), None);
    ExampleNameFieldFails(cs);
    var s := [f] + rest;
    assert s[0] == f;
  }

  /** One character above U+FFFF is two code units, so it passes the name rule. */
  lemma ExampleSurrogatePair(cs: CharSets)
    requires !cs.isSpace('\U{1F600}')
    ensures NameRule("\U{1F600}", cs) == Pass
  {
  }
}

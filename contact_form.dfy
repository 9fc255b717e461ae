/**
 * The contact page's form (contact.js): five fields checked on blur and on
 * submit, counters of submit attempts and failed validations, and per-field
 * page attributes that make a validation error, or a first interaction, be
 * reported to analytics only once until a successful submission resets them.
 */
module ContactForm {
  import opened Wrappers
  import opened JsText
  import Validators
  import Regex

  /** The fields in the order the form lists and checks them. */
  const FieldCount: nat := 5
  const FieldNames: seq<string> := ["full_name", "email", "phone", "subject", "message"]

  /** `validateName`: at least two characters. */
  predicate ValidateName(name: string)
  {
    |name| >= 2
  }

  /** `validateEmail`: the e-mail expression. */
  predicate ValidateEmail(email: string)
  {
    Validators.IsValidEmail(email)
  }

  /** `validatePhone`: the field is optional; a non-empty value must match the phone expression. */
  predicate ValidatePhone(phone: string)
  {
    phone == "" || Validators.IsContactPhone(phone)
  }

  /** `validateSubject`: an option other than the empty placeholder is chosen. */
  predicate ValidateSubject(subject: string)
  {
    subject != ""
  }

  /** `validateMessage`: at least ten characters. */
  predicate ValidateMessage(message: string)
  {
    |message| >= 10
  }

  /** Field `k`'s rule, in the order of `FieldNames`; a rule sees the trimmed value. */
  predicate FieldRule(k: int, value: string)
  {
    if k == 0 then ValidateName(value)
    else if k == 1 then ValidateEmail(value)
    else if k == 2 then ValidatePhone(value)
    else if k == 3 then ValidateSubject(value)
    else ValidateMessage(value)
  }

  /** The phone rule is the empty string or a match of the phone expression. */
  lemma PhoneRuleIsRegex(value: string)
    ensures FieldRule(2, value) <==> value == "" || Regex.Matches(Validators.ContactPhonePattern(), value)
  {
    Validators.ContactPhoneMatchesRegex(value);
  }

  /** The e-mail rule is a match of the e-mail expression. */
  lemma EmailRuleIsRegex(value: string)
    ensures FieldRule(1, value) <==> Regex.Matches(Validators.EmailPattern(), value)
  {
    Validators.EmailMatchesRegex(value);
  }

  /** A field's value and its two tracking attributes. */
  datatype Field = Field(value: string, errorTracked: bool, interactionTracked: bool)

  /** Whether a field (if present) passes its rule. */
  predicate Passes(f: Option<Field>, k: int)
    requires 0 <= k < FieldCount
  {
    f.Some? && FieldRule(k, Trim(f.value.value))
  }

  /** Whether each field passes its rule; a missing field fails. */
  function Verdicts(fields: seq<Option<Field>>): (r: seq<bool>)
    requires |fields| == FieldCount
    ensures |r| == FieldCount
  {
    seq(FieldCount, k requires 0 <= k < FieldCount => Passes(fields[k], k))
  }

  /** A present field that fails (`ok` is false) and has not reported its error yet. */
  predicate Reports(f: Option<Field>, ok: bool)
  {
    f.Some? && !ok && !f.value.errorTracked
  }

  /** A field after `validateField` with verdict `ok`: a failing one carries the error attribute. */
  function Checked(f: Option<Field>, ok: bool): (r: Option<Field>)
    ensures ErrorTracked(r) <==> ErrorTracked(f) || Reports(f, ok)
    ensures r.Some? <==> f.Some?
    ensures r.Some? ==> r.value.value == f.value.value && r.value.interactionTracked == f.value.interactionTracked
  {
    if Reports(f, ok) then Some(f.value.(errorTracked := true)) else f
  }

  /** The fields among the first `n` whose error a submit with these verdicts reports, in order. */
  function NewErrors(fields: seq<Option<Field>>, verdicts: seq<bool>, n: int): seq<int>
    requires 0 <= n <= |fields| && n <= |verdicts|
  {
    if n == 0 then [] else NewErrors(fields, verdicts, n - 1) + (if Reports(fields[n - 1], verdicts[n - 1]) then [n - 1] else [])
  }

  /** Adding the next verdict leaves the reports of earlier fields as they were. */
  lemma {:induction false} NewErrorsPrefix(fields: seq<Option<Field>>, verdicts: seq<bool>, ok: bool, n: int)
    requires n == |verdicts| < |fields|
    ensures NewErrors(fields, verdicts + [ok], n + 1) ==
      NewErrors(fields, verdicts, n) + (if Reports(fields[n], ok) then [n] else [])
  {
    NewErrorsSame(fields, verdicts, verdicts + [ok], n);
  }

  /** The reports among the first `n` fields depend only on the first `n` verdicts. */
  lemma {:induction false} NewErrorsSame(fields: seq<Option<Field>>, v: seq<bool>, w: seq<bool>, n: int)
    requires 0 <= n <= |fields| && n <= |v| && n <= |w|
    requires forall j :: 0 <= j < n ==> v[j] == w[j]
    ensures NewErrors(fields, v, n) == NewErrors(fields, w, n)
  {
    if n > 0 {
      NewErrorsSame(fields, v, w, n - 1);
    }
  }

  /** A submit reports exactly the failing fields not reported before, in field order. */
  lemma {:induction false} NewErrorsMembers(fields: seq<Option<Field>>, verdicts: seq<bool>, n: int)
    requires 0 <= n <= |fields| && n <= |verdicts|
    ensures forall k :: k in NewErrors(fields, verdicts, n) <==> 0 <= k < n && Reports(fields[k], verdicts[k])
    ensures forall i, j :: 0 <= i < j < |NewErrors(fields, verdicts, n)| ==>
      NewErrors(fields, verdicts, n)[i] < NewErrors(fields, verdicts, n)[j]
  {
    if n > 0 {
      NewErrorsMembers(fields, verdicts, n - 1);
      var init := NewErrors(fields, verdicts, n - 1);
      var r := NewErrors(fields, verdicts, n);
      assert r == init + (if Reports(fields[n - 1], verdicts[n - 1]) then [n - 1] else []);
      forall i, j | 0 <= i < j < |r| ensures r[i] < r[j] {
        assert r[i] == init[i] && init[i] in init;
        if j >= |init| {
          assert r[j] == n - 1;
        } else {
          assert r[j] == init[j] && init[i] < init[j];
        }
      }
    }
  }

  predicate NoDuplicates(s: seq<int>)
  {
    forall i, j :: 0 <= i < j < |s| ==> s[i] != s[j]
  }

  predicate ErrorTracked(f: Option<Field>)
  {
    f.Some? && f.value.errorTracked
  }

  /** An error attribute is set exactly for the fields in `reported`, and each is reported once. */
  ghost predicate Bookkept(fields: seq<Option<Field>>, reported: seq<int>)
  {
    |fields| == FieldCount &&
    (forall k :: 0 <= k < FieldCount ==> (ErrorTracked(fields[k]) <==> k in reported)) &&
    (forall k :: k in reported ==> 0 <= k < FieldCount) &&
    NoDuplicates(reported)
  }

  /** A blur keeps the error attributes and the reported errors in step. */
  lemma BlurKeepsBookkept(fields: seq<Option<Field>>, reported: seq<int>, k: int, ok: bool)
    requires Bookkept(fields, reported) && 0 <= k < FieldCount
    ensures Bookkept(fields[k := Checked(fields[k], ok)], reported + (if Reports(fields[k], ok) then [k] else []))
  {
    if Reports(fields[k], ok) {
      var r := reported + [k];
      assert k !in reported;
      forall i, j | 0 <= i < j < |r| ensures r[i] != r[j] {
        if j == |reported| {
          assert r[i] in reported;
        }
      }
    }
  }

  /**
   * `validateField` on field `k`: the trimmed value is checked; a failure not
   * yet reported is marked and reported (the field's index is returned in
   * `reported`). A missing field fails and reports nothing.
   */
  method ValidateField(field: Option<Field>, k: int) returns (ok: bool, marked: Option<Field>, reported: seq<int>)
    requires 0 <= k < FieldCount
    ensures ok == Passes(field, k)
    ensures marked == Checked(field, ok)
    ensures reported == if Reports(field, ok) then [k] else []
  {
    ok := field.Some? && FieldRule(k, Trim(field.value.value));
    marked := field;
    reported := [];
    if field.Some? && !ok && !field.value.errorTracked {
      marked := Some(field.value.(errorTracked := true));
      reported := [k];
    }
  }

  /**
   * The checks a submit runs: every field is checked in order, none is
   * skipped, and each failure not yet reported is marked and reported.
   */
  method CheckFields(fields: seq<Option<Field>>, ghost reported: seq<int>) returns (checked: seq<Option<Field>>, reports: seq<int>, verdicts: seq<bool>, allValid: bool)
    requires Bookkept(fields, reported)
    ensures verdicts == Verdicts(fields)
    ensures allValid <==> forall j :: 0 <= j < FieldCount ==> verdicts[j]
    ensures |checked| == FieldCount && forall j :: 0 <= j < FieldCount ==> checked[j] == Checked(fields[j], verdicts[j])
    ensures reports == NewErrors(fields, verdicts, |fields|)
    ensures Bookkept(checked, reported + reports)
  {
    checked := fields;
    reports := [];
    verdicts := [];
    var k := 0;
    while k < FieldCount
      invariant 0 <= k <= FieldCount && |checked| == FieldCount
      invariant verdicts == Verdicts(fields)[..k]
      invariant forall j :: 0 <= j < k ==> checked[j] == Checked(fields[j], verdicts[j])
      invariant forall j :: k <= j < FieldCount ==> checked[j] == fields[j]
      invariant reports == NewErrors(fields, verdicts, k)
    {
      var ok, f, reported := ValidateField(checked[k], k);
      PrefixStep(Verdicts(fields), k);
      NewErrorsPrefix(fields, verdicts, ok, k);
      reports := reports + reported;
      checked := checked[k := f];
      verdicts := verdicts + [ok];
      k := k + 1;
    }
    assert verdicts == Verdicts(fields);
    allValid := forall j | 0 <= j < FieldCount :: verdicts[j];
    SubmitKeepsValid(fields, verdicts, reported, checked);
  }

  /** A prefix one longer is the shorter prefix and the next element. */
  lemma PrefixStep(v: seq<bool>, k: int)
    requires 0 <= k < |v|
    ensures v[..k + 1] == v[..k] + [v[k]]
  {
  }

  class ContactFormPage {
    /** Each field, or `None` when the field or its error element is missing. */
    var fields: seq<Option<Field>>
    var formSubmissionAttempts: int
    var validationErrors: int
    /** The fields whose `form_validation_error` was reported, in order. */
    var errorEvents: seq<int>
    /** The fields whose `form_field_interaction` was reported, in order. */
    var interactionEvents: seq<int>
    /** The errors reported since the tracking attributes were last cleared. */
    ghost var errorsSinceReset: seq<int>

    /** An error attribute is set exactly for the fields reported since the last reset, each once. */
    ghost predicate Valid()
      reads this
    {
      Bookkept(fields, errorsSinceReset)
    }

    /** A fresh page: the fields that exist, with no attributes, and zero counters. */
    constructor Load(values: seq<Option<string>>)
      requires |values| == FieldCount
      ensures Valid()
      ensures forall k :: 0 <= k < FieldCount ==>
        fields[k] == if values[k].Some? then Some(Field(values[k].value, false, false)) else None
      ensures formSubmissionAttempts == 0 && validationErrors == 0 && errorEvents == [] && interactionEvents == []
    {
      fields := seq(FieldCount, k requires 0 <= k < FieldCount =>
        if values[k].Some? then Some(Field(values[k].value, false, false)) else None);
      formSubmissionAttempts := 0;
      validationErrors := 0;
      errorEvents := [];
      interactionEvents := [];
      errorsSinceReset := [];
    }

    /**
     * `validateField` on blur: the trimmed value is checked; a failure not yet
     * reported is reported once and marked.
     */
    method Blur(k: int) returns (ok: bool)
      requires Valid() && 0 <= k < FieldCount && fields[k].Some?
      modifies this
      ensures Valid()
      ensures ok == Passes(old(fields)[k], k)
      ensures fields == old(fields)[k := Checked(old(fields)[k], ok)]
      ensures errorEvents == old(errorEvents) + (if Reports(old(fields)[k], ok) then [k] else [])
      ensures formSubmissionAttempts == old(formSubmissionAttempts) && validationErrors == old(validationErrors)
      ensures interactionEvents == old(interactionEvents)
    {
      var marked, reported;
      ok, marked, reported := ValidateField(fields[k], k);
      BlurKeepsBookkept(fields, errorsSinceReset, k, ok);
      fields := fields[k := marked];
      errorEvents := errorEvents + reported;
      errorsSinceReset := errorsSinceReset + reported;
    }

    /** Typing into a field: the first non-empty input since the last reset is reported once. */
    method Input(k: int, value: string)
      requires Valid() && 0 <= k < FieldCount && fields[k].Some?
      modifies this
      ensures Valid()
      ensures var f := old(fields[k].value);
        var report := |value| > 0 && !f.interactionTracked;
        fields == old(fields)[k := Some(f.(value := value, interactionTracked := f.interactionTracked || report))] &&
        interactionEvents == old(interactionEvents) + (if report then [k] else [])
      ensures errorEvents == old(errorEvents)
      ensures formSubmissionAttempts == old(formSubmissionAttempts) && validationErrors == old(validationErrors)
    {
      var f := fields[k].value.(value := value);
      if |value| > 0 && !f.interactionTracked {
        f := f.(interactionTracked := true);
        interactionEvents := interactionEvents + [k];
      }
      fields := fields[k := Some(f)];
    }

    /**
     * The submit handler: every field is checked (none is skipped), a missing
     * one counts as invalid; the form is valid iff all five pass. Every submit
     * counts as an attempt, only a failed one as a validation error.
     */
    method Submit() returns (valid: bool)
      requires Valid()
      modifies this
      ensures Valid()
      ensures valid <==> forall k :: 0 <= k < FieldCount ==> Verdicts(old(fields))[k]
      ensures formSubmissionAttempts == old(formSubmissionAttempts) + 1
      ensures validationErrors == old(validationErrors) + (if valid then 0 else 1)
      ensures |fields| == FieldCount
      ensures forall k :: 0 <= k < FieldCount ==> fields[k] == Checked(old(fields)[k], Verdicts(old(fields))[k])
      ensures errorEvents == old(errorEvents) + NewErrors(old(fields), Verdicts(old(fields)), |old(fields)|)
      ensures interactionEvents == old(interactionEvents)
    {
      var fs, reports, verdicts, allValid := CheckFields(fields, errorsSinceReset);
      formSubmissionAttempts := formSubmissionAttempts + 1;
      fields := fs;
      errorEvents := errorEvents + reports;
      errorsSinceReset := errorsSinceReset + reports;
      valid := allValid;
      if !valid {
        validationErrors := validationErrors + 1;
      }
    }

    /**
     * What happens after a successful submission: the form is reset and both
     * tracking attributes are cleared on every field.
     */
    method FinishSubmission()
      requires |fields| == FieldCount
      modifies this
      ensures Valid() && errorsSinceReset == []
      ensures forall k :: 0 <= k < FieldCount ==>
        fields[k] == if old(fields[k]).Some? then Some(Field("", false, false)) else None
      ensures errorEvents == old(errorEvents) && interactionEvents == old(interactionEvents)
      ensures formSubmissionAttempts == old(formSubmissionAttempts) && validationErrors == old(validationErrors)
    {
      var fs := fields;
      fields := seq(FieldCount, k requires 0 <= k < FieldCount =>
        if fs[k].Some? then Some(Field("", false, false)) else None);
      errorsSinceReset := [];
    }
  }

  /** The error bookkeeping after a submit: marked fields and reported errors still agree, without repeats. */
  lemma SubmitKeepsValid(f0: seq<Option<Field>>, v: seq<bool>, s0: seq<int>, fs: seq<Option<Field>>)
    requires Bookkept(f0, s0) && |fs| == FieldCount && |v| == FieldCount
    requires forall k :: 0 <= k < FieldCount ==> fs[k] == Checked(f0[k], v[k])
    ensures Bookkept(fs, s0 + NewErrors(f0, v, |f0|))
  {
    NewErrorsMembers(f0, v, |f0|);
    var n := NewErrors(f0, v, |f0|);
    var r := s0 + n;
    forall i, j | 0 <= i < j < |r| ensures r[i] != r[j] {
      if j < |s0| {
        assert r[i] == s0[i] && r[j] == s0[j];
      } else if i >= |s0| {
        assert r[i] == n[i - |s0|] && r[j] == n[j - |s0|] && n[i - |s0|] < n[j - |s0|];
      } else {
        var x := n[j - |s0|];
        assert r[j] == x && x in n;
        assert Reports(f0[x], v[x]);
        assert x !in s0;
        assert r[i] == s0[i] && s0[i] in s0;
      }
    }
  }
}

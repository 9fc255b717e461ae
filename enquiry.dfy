/**
 * The enquiry form (enquiry.js): the per-field rule switch with its ordered
 * error messages, the extra fields each enquiry type requires, the whole-form
 * check that evaluates every required field, and the confirmation text built
 * after a successful submission.
 */
module Enquiry {
  import opened Wrappers
  import opened JsText
  import Validators
  import Regex

  // ----- validateField -----

  /**
   * A control's `name`: the ones the rule switch and the extra-field check
   * name, and any other.
   */
  datatype FieldName =
    | FirstName | LastName | Email | Phone | EnquiryType | Message | Terms
    | BudgetRange | OrderQuantity | PartnershipType
    | OtherName(name: string)

  /** A form control: its name, its raw value, whether it carries `required`, and (for a checkbox) `checked`. */
  datatype FormField = FormField(name: FieldName, value: string, required: bool, checked: bool)

  /** Each message the form can show under a field. */
  datatype Problem =
    | Required | NameTooShort | NameHasOtherChars
    | EmailRequired | EmailInvalid | PhoneInvalid | TypeRequired
    | MessageRequired | MessageTooShort | TermsNotAccepted
    | BudgetRequired | QuantityRequired | QuantityBelowOne | PartnershipTypeRequired

  /** The text shown for each problem. */
  function Text(p: Problem): string
  {
    match p
    case Required => "This field is required"
    case NameTooShort => "Must be at least 2 characters long"
    case NameHasOtherChars => "Only letters, spaces, hyphens, and apostrophes are allowed"
    case EmailRequired => "Email address is required"
    case EmailInvalid => "Please enter a valid email address"
    case PhoneInvalid => "Please enter a valid phone number"
    case TypeRequired => "Please select an enquiry type"
    case MessageRequired => "Please enter your message"
    case MessageTooShort => "Message must be at least 10 characters long"
    case TermsNotAccepted => "You must agree to the terms and conditions"
    case BudgetRequired => "Budget range is required"
    case QuantityRequired => "Order quantity is required"
    case QuantityBelowOne => "Order quantity must be at least 1"
    case PartnershipTypeRequired => "Partnership type is required"
  }

  /** The outcome of one field's rule: valid, or the problem shown under the field. */
  datatype Check = Pass | Fail(problem: Problem)

  /** The `firstName`/`lastName` rule, its three failures in the order they are tested. */
  function NameCheck(value: string): Check
  {
    if value == "" then Fail(Required)
    else if |value| < 2 then Fail(NameTooShort)
    else if !Validators.IsNameText(value) then Fail(NameHasOtherChars)
    else Pass
  }

  /** The `email` rule. */
  function EmailCheck(value: string): Check
  {
    if value == "" then Fail(EmailRequired)
    else if !Validators.IsValidEmail(value) then Fail(EmailInvalid)
    else Pass
  }

  /** The `phone` rule: a blank phone is valid, any other must be a phone number. */
  function PhoneCheck(value: string): Check
  {
    if value != "" && !Validators.IsValidPhone(value) then Fail(PhoneInvalid) else Pass
  }

  /** The `message` rule. */
  function MessageCheck(value: string): Check
  {
    if value == "" then Fail(MessageRequired)
    else if |value| < 10 then Fail(MessageTooShort)
    else Pass
  }

  /** The rule the switch picks for a field name, applied to the trimmed value. */
  function RuleFor(name: FieldName, value: string, checked: bool): Check
  {
    match name
    case FirstName => NameCheck(value)
    case LastName => NameCheck(value)
    case Email => EmailCheck(value)
    case Phone => PhoneCheck(value)
    case EnquiryType => if value == "" then Fail(TypeRequired) else Pass
    case Message => MessageCheck(value)
    case Terms => if !checked then Fail(TermsNotAccepted) else Pass
    case _ => Pass
  }

  /**
   * `validateField`: the value is trimmed; an optional field left empty is
   * valid; otherwise the rule for the field's name applies, and a name the
   * switch does not list is always valid.
   */
  function CheckField(f: FormField): Check
  {
    var value := Trim(f.value);
    if !f.required && value == "" then Pass else RuleFor(f.name, value, f.checked)
  }

  /** A name passes exactly when it is two or more characters the name expression accepts. */
  lemma NameRuleIsRegex(value: string)
    ensures NameCheck(value) == Pass <==> |value| >= 2 && Regex.Matches([Regex.Plus(Validators.NameChars())], value)
  {
    Validators.NameMatchesRegex(value);
  }

  /** An e-mail passes exactly when it matches the e-mail expression. */
  lemma EmailRuleIsRegex(value: string)
    ensures EmailCheck(value) == Pass <==> Regex.Matches(Validators.EmailPattern(), value)
  {
    Validators.EmailMatchesRegex(value);
  }

  /** A phone passes exactly when it is blank or, stripped of separators, matches one of the two phone expressions. */
  lemma PhoneRuleIsRegex(value: string)
    ensures PhoneCheck(value) == Pass <==>
      value == "" ||
      Regex.Matches(Validators.ShortPhonePattern(), Validators.StripSeparators(value)) ||
      Regex.Matches(Validators.LongPhonePattern(), Validators.StripSeparators(value))
  {
    Validators.EnquiryPhoneMatchesRegex(value);
  }

  /** A message passes exactly when it is ten or more characters long. */
  lemma MessageRuleLength(value: string)
    ensures MessageCheck(value) == Pass <==> |value| >= 10
  {
  }

  /** A field without `required` that holds only white space passes, whatever its name. */
  lemma OptionalBlankPasses(f: FormField)
    requires !f.required && AllSpace(f.value)
    ensures CheckField(f) == Pass
  {
    TrimEmptyIff(f.value);
  }

  /** A field the switch does not name passes, whatever its value. */
  lemma UnlistedNamePasses(name: FieldName, value: string, checked: bool)
    requires name.OtherName? || name == BudgetRange || name == OrderQuantity || name == PartnershipType
    ensures RuleFor(name, value, checked) == Pass
  {
  }

  // ----- validateDynamicFields -----

  /** An extra field the chosen enquiry type adds: whether it carries `required`, and its raw value. */
  datatype DynamicInput = DynamicInput(required: bool, value: string)

  /** The extra fields as found on the page; `None` when the element is absent. */
  datatype DynamicInputs = DynamicInputs(
    budgetRange: Option<DynamicInput>,
    orderQuantity: Option<DynamicInput>,
    partnershipType: Option<DynamicInput>)

  /** An error shown under a named field. */
  datatype FieldError = FieldError(field: FieldName, problem: Problem)

  datatype DynamicResult = DynamicResult(isValid: bool, errors: seq<FieldError>)

  /** The value of a decimal digit string. */
  function DigitsValue(s: string): nat
    requires Validators.AllDigits(s)
  {
    if s == [] then 0 else DigitsValue(s[..|s| - 1]) * 10 + (s[|s| - 1] as int - '0' as int)
  }

  /**
   * The number a value stands for when compared with `< 1`: white space around
   * it is ignored, text of white space alone is 0, and an optional sign may
   * lead the digits; any other text is not a number (`None`), and no
   * comparison with it holds.
   */
  function NumberOf(s: string): Option<int>
  {
    var t := Trim(s);
    if t == [] then Some(0)
    else if Validators.AllDigits(t) then Some(DigitsValue(t))
    else if |t| >= 2 && t[0] == '+' && Validators.AllDigits(t[1..]) then Some(DigitsValue(t[1..]))
    else if |t| >= 2 && t[0] == '-' && Validators.AllDigits(t[1..]) then Some(0 - DigitsValue(t[1..]) as int)
    else None
  }

  /** A required extra field that is present and empty. */
  predicate MissingRequired(input: Option<DynamicInput>)
  {
    input.Some? && input.value.required && input.value.value == ""
  }

  /** A required order quantity that is empty, or a number below 1. */
  predicate QuantityRejected(input: Option<DynamicInput>)
  {
    input.Some? && input.value.required &&
    (input.value.value == "" || (NumberOf(input.value.value).Some? && NumberOf(input.value.value).value < 1))
  }

  /** The value of the enquiry-type select, read as one of the six types it offers or any other text. */
  datatype Kind = Product | Pricing | Wholesale | Sponsorship | Partnership | General | Unlisted(text: string)

  /** Reads the select's value; `other` is the general type. */
  function KindOf(t: string): (k: Kind)
    ensures k.Unlisted? ==> k.text == t
  {
    if t == "product" then Product
    else if t == "pricing" then Pricing
    else if t == "wholesale" then Wholesale
    else if t == "sponsorship" then Sponsorship
    else if t == "partnership" then Partnership
    else if t == "other" then General
    else Unlisted(t)
  }

  /**
   * `validateDynamicFields`: `pricing` needs a budget range, `wholesale` an
   * order quantity of at least 1, `partnership` a partnership type; a field
   * that is absent or not required is not checked, and any other type has no
   * extra fields.
   */
  function DynamicValidation(kind: Kind, inputs: DynamicInputs): (r: DynamicResult)
    ensures r.isValid <==> r.errors == []
    ensures |r.errors| <= 1
    ensures kind == Pricing ==> (r.isValid <==> !MissingRequired(inputs.budgetRange))
    ensures kind == Partnership ==> (r.isValid <==> !MissingRequired(inputs.partnershipType))
    ensures kind == Wholesale ==> (r.isValid <==> !QuantityRejected(inputs.orderQuantity))
    ensures kind != Pricing && kind != Wholesale && kind != Partnership ==> r == DynamicResult(true, [])
  {
    if kind == Pricing then
      if MissingRequired(inputs.budgetRange) then DynamicResult(false, [FieldError(BudgetRange, BudgetRequired)])
      else DynamicResult(true, [])
    else if kind == Wholesale then
      match inputs.orderQuantity
      case Some(q) =>
        if !q.required then DynamicResult(true, [])
        else if q.value == "" then DynamicResult(false, [FieldError(OrderQuantity, QuantityRequired)])
        else if NumberOf(q.value).Some? && NumberOf(q.value).value < 1 then
          DynamicResult(false, [FieldError(OrderQuantity, QuantityBelowOne)])
        else DynamicResult(true, [])
      case None => DynamicResult(true, [])
    else if kind == Partnership then
      if MissingRequired(inputs.partnershipType) then DynamicResult(false, [FieldError(PartnershipType, PartnershipTypeRequired)])
      else DynamicResult(true, [])
    else DynamicResult(true, [])
  }

  // ----- validateForm -----

  /** The outcome of `validateField` for each field, in form order. */
  function Outcomes(fields: seq<FormField>): (checks: seq<Check>)
    ensures |checks| == |fields|
  {
    seq(|fields|, k requires 0 <= k < |fields| => CheckField(fields[k]))
  }

  /** The errors shown for the fields whose outcomes are `checks`: one per failing required field, in form order. */
  function ShownErrors(fields: seq<FormField>, checks: seq<Check>): seq<FieldError>
    requires |checks| == |fields|
  {
    if fields == [] then []
    else
      var f := fields[|fields| - 1];
      var c := checks[|checks| - 1];
      ShownErrors(fields[..|fields| - 1], checks[..|checks| - 1]) + (if f.required && c.Fail? then [FieldError(f.name, c.problem)] else [])
  }

  /** Taking one more field adds its error, if it is required and fails. */
  lemma ShownErrorsStep(fields: seq<FormField>, checks: seq<Check>, k: int)
    requires |checks| == |fields| && 0 <= k < |fields|
    ensures ShownErrors(fields[..k + 1], checks[..k + 1]) ==
      ShownErrors(fields[..k], checks[..k]) +
      (if fields[k].required && checks[k].Fail? then [FieldError(fields[k].name, checks[k].problem)] else [])
  {
    assert fields[..k + 1][..k] == fields[..k] && checks[..k + 1][..k] == checks[..k];
  }

  /** No error is shown exactly when every required field passes. */
  lemma {:induction false} ShownErrorsEmptyIff(fields: seq<FormField>, checks: seq<Check>)
    requires |checks| == |fields|
    ensures ShownErrors(fields, checks) == [] <==> forall k :: 0 <= k < |fields| && fields[k].required ==> checks[k] == Pass
  {
    if fields != [] {
      var n := |fields| - 1;
      ShownErrorsEmptyIff(fields[..n], checks[..n]);
      if ShownErrors(fields, checks) == [] {
        forall k | 0 <= k < |fields| && fields[k].required
          ensures checks[k] == Pass
        {
          if k < n {
            assert fields[k] == fields[..n][k] && checks[k] == checks[..n][k];
          }
        }
      }
    }
  }

  /** Every failing required field shows its own error: none is skipped after an earlier failure. */
  lemma {:induction false} ShownErrorsListEveryFailure(fields: seq<FormField>, checks: seq<Check>, k: int)
    requires |checks| == |fields|
    requires 0 <= k < |fields| && fields[k].required && checks[k].Fail?
    ensures FieldError(fields[k].name, checks[k].problem) in ShownErrors(fields, checks)
  {
    var n := |fields| - 1;
    if k < n {
      assert fields[k] == fields[..n][k] && checks[k] == checks[..n][k];
      ShownErrorsListEveryFailure(fields[..n], checks[..n], k);
    }
  }

  /**
   * `validateForm`: every required field is checked (a failure does not stop
   * the loop), then the extra fields of a chosen enquiry type; the form is
   * valid iff nothing failed, which is exactly when no error was shown.
   */
  method ValidateForm(fields: seq<FormField>, enquiryType: string, inputs: DynamicInputs) returns (isValid: bool, shown: seq<FieldError>)
    ensures shown == ShownErrors(fields, Outcomes(fields)) + (if enquiryType != "" then DynamicValidation(KindOf(enquiryType), inputs).errors else [])
    ensures isValid <==> shown == []
    ensures isValid <==>
      (forall k :: 0 <= k < |fields| && fields[k].required ==> CheckField(fields[k]) == Pass) &&
      (enquiryType == "" || DynamicValidation(KindOf(enquiryType), inputs).isValid)
  {
    ghost var checks := Outcomes(fields);
    isValid := true;
    shown := [];
    var k := 0;
    while k < |fields|
      invariant 0 <= k <= |fields|
      invariant shown == ShownErrors(fields[..k], checks[..k])
      invariant isValid <==> shown == []
    {
      ShownErrorsStep(fields, checks, k);
      var f := fields[k];
      if f.required {
        var c := CheckField(f);
        assert c == checks[k];
        if c.Fail? {
          isValid := false;
          shown := shown + [FieldError(f.name, c.problem)];
        }
      }
      k := k + 1;
    }
    assert fields[..k] == fields && checks[..k] == checks;
    ShownErrorsEmptyIff(fields, checks);
    if enquiryType != "" {
      var dynamic := DynamicValidation(KindOf(enquiryType), inputs);
      if !dynamic.isValid {
        isValid := false;
        shown := shown + dynamic.errors;
      }
    }
  }

  // ----- generateResponse -----

  /** `getEnquiryTypeLabel`: the label of a listed type, any other text as it is. */
  function Label(k: Kind): string
  {
    match k
    case Product => "product information"
    case Pricing => "pricing and availability"
    case Wholesale => "wholesale order"
    case Sponsorship => "sponsorship opportunity"
    case Partnership => "business partnership"
    case General => "general"
    case Unlisted(t) => t
  }

  /** A type's label is its own text exactly when it is not one of the six. */
  lemma LabelIsOwnTextIffUnlisted(t: string)
    ensures Label(KindOf(t)) == t <==> KindOf(t).Unlisted?
  {
    match KindOf(t)
    case Unlisted(_) =>
    case _ => assert |Label(KindOf(t))| != |t|;
  }

  const ProductSentence := "Our product specialist will contact you within 24 hours with detailed information about our sneaker collection."
  const PricingSentence := "Our sales team will provide you with competitive pricing and availability information within 1 business day."
  const WholesaleSentence := "Our wholesale department will review your request and contact you within 2 business days with bulk pricing and terms."
  const SponsorshipSentence := "Our partnership team will review your sponsorship request and get back to you within 3-5 business days."
  const PartnershipSentence := "Our business development team will contact you to discuss potential partnership opportunities within 2 business days."
  const GeneralSentence := "Our team will review your enquiry and get back to you within 24 hours."

  /** The one type-specific sentence; an unknown type gets the general one. */
  function TypeSentence(k: Kind): string
  {
    match k
    case Product => ProductSentence
    case Pricing => PricingSentence
    case Wholesale => WholesaleSentence
    case Sponsorship => SponsorshipSentence
    case Partnership => PartnershipSentence
    case _ => GeneralSentence
  }

  const Title := "Enquiry Submitted Successfully!"
  const NewsletterNote := " You have been subscribed to our newsletter."

  datatype Response = Response(title: string, message: string)

  /** The opening sentence naming the customer and the enquiry's label. */
  function Greeting(firstName: string, t: string): string
  {
    "Thank you " + firstName + ", we have received your " + Label(KindOf(t)) + " enquiry. "
  }

  /** `generateResponse`: the fixed title; the greeting, one type sentence, then the newsletter note if subscribed. */
  function GenerateResponse(firstName: string, t: string, newsletter: bool): Response
  {
    Response(Title, Greeting(firstName, t) + TypeSentence(KindOf(t)) + (if newsletter then NewsletterNote else ""))
  }

  predicate EndsWith(s: string, suffix: string)
  {
    |suffix| <= |s| && s[|s| - |suffix|..] == suffix
  }

  /** No type sentence ends the way the newsletter note does. */
  lemma TypeSentenceEnding(k: Kind)
    ensures var s := TypeSentence(k); |s| >= 2 && s[|s| - 2] != 'r'
  {
    match k
    case Product => assert ProductSentence[|ProductSentence| - 2] == 'n';
    case Pricing => assert PricingSentence[|PricingSentence| - 2] == 'y';
    case Wholesale => assert WholesaleSentence[|WholesaleSentence| - 2] == 's';
    case Sponsorship => assert SponsorshipSentence[|SponsorshipSentence| - 2] == 's';
    case Partnership => assert PartnershipSentence[|PartnershipSentence| - 2] == 's';
    case _ => assert GeneralSentence[|GeneralSentence| - 2] == 's';
  }

  /** The confirmation has the fixed title and opens with the greeting. */
  lemma ResponseOpensWithGreeting(firstName: string, t: string, newsletter: bool)
    ensures var r := GenerateResponse(firstName, t, newsletter);
      r.title == Title &&
      |Greeting(firstName, t)| <= |r.message| && r.message[..|Greeting(firstName, t)|] == Greeting(firstName, t)
  {
    OpensWith(Greeting(firstName, t), TypeSentence(KindOf(t)), if newsletter then NewsletterNote else "");
  }

  lemma OpensWith(a: string, b: string, c: string)
    ensures |a| <= |a + b + c| && (a + b + c)[..|a|] == a
  {
    assert a + b + c == a + (b + c);
  }

  /** The confirmation ends with the newsletter note exactly when the customer subscribed. */
  lemma ResponseNoteIffNewsletter(firstName: string, t: string, newsletter: bool)
    ensures EndsWith(GenerateResponse(firstName, t, newsletter).message, NewsletterNote) <==> newsletter
  {
    var m := GenerateResponse(firstName, t, newsletter).message;
    var front := Greeting(firstName, t) + TypeSentence(KindOf(t));
    if newsletter {
      assert m == front + NewsletterNote;
      assert m[|m| - |NewsletterNote|..] == NewsletterNote;
    } else {
      var s := TypeSentence(KindOf(t));
      assert m == Greeting(firstName, t) + s;
      TypeSentenceEnding(KindOf(t));
      assert m[|m| - 2] == s[|s| - 2];
      assert NewsletterNote[|NewsletterNote| - 2] == 'r';
    }
  }
}

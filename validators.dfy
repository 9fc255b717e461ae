/**
 * The string validators shared by the site's forms, each written as a direct
 * character-level predicate and proved equal to the regular expression the
 * scripts test with (module Regex gives those expressions their meaning).
 */
module Validators {
  import opened Wrappers
  import JsText
  import opened Regex

  // ----- e-mail: /^[^\s@]+@[^\s@]+\.[^\s@]+$/ -----

  /** `[^\s@]` */
  function NotSpaceOrAt(): CharClass
  {
    CharClass([('@', '@')], true, true)
  }

  function EmailPattern(): seq<Piece>
  {
    [Plus(NotSpaceOrAt()), One(Lit('@')), Plus(NotSpaceOrAt()), One(Lit('.')), Plus(NotSpaceOrAt())]
  }

  predicate NoSpace(s: string)
  {
    forall i :: 0 <= i < |s| ==> !JsText.IsSpace(s[i])
  }

  /** The only `@` of `e` is at position `k`. */
  predicate OnlyAtSignAt(e: string, k: int)
  {
    forall i :: 0 <= i < |e| && e[i] == '@' ==> i == k
  }

  /**
   * An e-mail address as the scripts accept it: no white space, exactly one `@`
   * with a non-empty local part before it, and after it a `.` with at least one
   * character on either side.
   */
  predicate IsValidEmail(e: string)
  {
    NoSpace(e) &&
    exists k | 0 < k < |e| ::
      e[k] == '@' && OnlyAtSignAt(e, k) && exists d | k + 1 < d < |e| - 1 :: e[d] == '.'
  }

  lemma NotSpaceOrAtIff(c: char)
    ensures InClass(c, NotSpaceOrAt()) <==> !JsText.IsSpace(c) && c != '@'
  {
    var r := NotSpaceOrAt().ranges;
    assert r[1..] == [];
    assert !InRanges(c, r[1..]);
  }

  /** A run of `[^\s@]+` over `e[i..k]`. */
  lemma NotSpaceOrAtRun(e: string, i: int, k: int)
    requires 0 <= i <= k <= |e|
    ensures RunOk(Plus(NotSpaceOrAt()), e, i, k) <==>
            i < k && forall m :: i <= m < k ==> !JsText.IsSpace(e[m]) && e[m] != '@'
  {
    forall m | i <= m < k ensures InClass(e[m], NotSpaceOrAt()) <==> !JsText.IsSpace(e[m]) && e[m] != '@' {
      NotSpaceOrAtIff(e[m]);
    }
  }

  /** The characters of `IsValidEmail` with its `@` at `k` and a dot at `d`. */
  predicate EmailCut(e: string, k: int, d: int)
  {
    0 < k && k + 1 < d < |e| - 1 && e[k] == '@' && e[d] == '.' &&
    forall m :: 0 <= m < |e| && m != k ==> !JsText.IsSpace(e[m]) && e[m] != '@'
  }

  lemma {:induction false} EmailCutIff(e: string)
    ensures IsValidEmail(e) <==> exists k, d :: EmailCut(e, k, d)
  {
    if IsValidEmail(e) {
      var k :| 0 < k < |e| && e[k] == '@' && OnlyAtSignAt(e, k) && exists d | k + 1 < d < |e| - 1 :: e[d] == '.';
      var d :| k + 1 < d < |e| - 1 && e[d] == '.';
      assert EmailCut(e, k, d);
    }
    if exists k, d :: EmailCut(e, k, d) {
      var k, d :| EmailCut(e, k, d);
      assert OnlyAtSignAt(e, k);
    }
  }

  /** The regular expression's runs are the pieces between `@` at `k` and `.` at `d`. */
  lemma {:induction false} EmailCutMatches(e: string, k: int, d: int)
    requires EmailCut(e, k, d)
    ensures Matches(EmailPattern(), e)
  {
    var p := EmailPattern();
    EmailCutRuns(e, k, d);
    MatchesLast(p, e, d + 1);
    MatchesStep(p, 3, e, d, d + 1);
    MatchesStep(p, 2, e, k + 1, d);
    MatchesStep(p, 1, e, k, k + 1);
    MatchesStep(p, 0, e, 0, k);
  }

  /** Each piece of the e-mail expression matches its part of a cut address. */
  lemma EmailCutRuns(e: string, k: int, d: int)
    requires EmailCut(e, k, d)
    ensures var p := EmailPattern();
      RunOk(p[0], e, 0, k) && RunOk(p[1], e, k, k + 1) && RunOk(p[2], e, k + 1, d) &&
      RunOk(p[3], e, d, d + 1) && RunOk(p[4], e, d + 1, |e|)
  {
    var p := EmailPattern();
    var nsa := NotSpaceOrAt();
    assert p[0] == p[2] == p[4] == Plus(nsa) && p[1] == One(Lit('@')) && p[3] == One(Lit('.'));
    NotSpaceOrAtRun(e, 0, k);
    NotSpaceOrAtRun(e, k + 1, d);
    NotSpaceOrAtRun(e, d + 1, |e|);
    LitRun('@', e, k, k + 1);
    LitRun('.', e, d, d + 1);
  }

  lemma {:induction false} MatchesEmailCut(e: string) returns (k: int, d: int)
    requires Matches(EmailPattern(), e)
    ensures EmailCut(e, k, d)
  {
    var p := EmailPattern();
    var nsa := NotSpaceOrAt();
    assert p[0] == p[2] == p[4] == Plus(nsa) && p[1] == One(Lit('@')) && p[3] == One(Lit('.'));
    k := MatchesSplit(p, 0, e, 0);
    var k1 := MatchesSplit(p, 1, e, k);
    LitRun('@', e, k, k1);
    d := MatchesSplit(p, 2, e, k1);
    var d1 := MatchesSplit(p, 3, e, d);
    LitRun('.', e, d, d1);
    MatchesLast(p, e, d1);
    NotSpaceOrAtRun(e, 0, k);
    NotSpaceOrAtRun(e, k + 1, d);
    NotSpaceOrAtRun(e, d + 1, |e|);
    assert !JsText.IsSpace(e[d]) && e[d] != '@';
  }

  /** `IsValidEmail` is exactly what the e-mail regular expression accepts. */
  lemma {:induction false} EmailMatchesRegex(e: string)
    ensures IsValidEmail(e) <==> Matches(EmailPattern(), e)
  {
    EmailCutIff(e);
    if IsValidEmail(e) {
      var k, d :| EmailCut(e, k, d);
      EmailCutMatches(e, k, d);
    }
    if Matches(EmailPattern(), e) {
      var k, d := MatchesEmailCut(e);
    }
  }

  // ----- contact form phone: /^[\+]?[0-9\s\-\(\)]{10,}$/ -----

  /** `[0-9\s\-\(\)]`, also written `[\d\s\-\(\)]`. */
  function PhoneChars(): CharClass
  {
    CharClass([('0', '9'), ('-', '-'), ('(', '('), (')', ')')], true, false)
  }

  predicate IsPhoneChar(c: char)
  {
    ('0' <= c <= '9') || JsText.IsSpace(c) || c == '-' || c == '(' || c == ')'
  }

  predicate AllPhoneChars(s: string)
  {
    forall i :: 0 <= i < |s| ==> IsPhoneChar(s[i])
  }

  function ContactPhonePattern(): seq<Piece>
  {
    [Opt(Lit('+')), Piece(PhoneChars(), 10, None)]
  }

  /**
   * An optional leading `+` followed by at least ten characters drawn from
   * digits, white space, `-`, `(` and `)`.
   */
  predicate IsContactPhone(p: string)
  {
    (|p| >= 10 && AllPhoneChars(p)) ||
    (|p| >= 11 && p[0] == '+' && AllPhoneChars(p[1..]))
  }

  lemma PhoneCharsIff(c: char)
    ensures InClass(c, PhoneChars()) <==> IsPhoneChar(c)
  {
    var r := PhoneChars().ranges;
    assert r[1..] == [('-', '-'), ('(', '('), (')', ')')];
    assert r[1..][1..] == [('(', '('), (')', ')')];
    assert r[1..][1..][1..] == [(')', ')')];
    assert r[1..][1..][1..][1..] == [];
    assert !InRanges(c, r[1..][1..][1..][1..]);
    assert InRanges(c, r[1..][1..][1..]) <==> c == ')';
    assert InRanges(c, r[1..][1..]) <==> c == '(' || c == ')';
    assert InRanges(c, r[1..]) <==> c == '-' || c == '(' || c == ')';
  }

  /** A run of `[0-9\s\-\(\)]` over `s[i..|s|]`, at least `n` long. */
  lemma PhoneRun(s: string, i: int, n: nat)
    requires 0 <= i <= |s|
    ensures RunOk(Piece(PhoneChars(), n, None), s, i, |s|) <==>
            |s| - i >= n && forall m :: i <= m < |s| ==> IsPhoneChar(s[m])
  {
    forall m | i <= m < |s| ensures InClass(s[m], PhoneChars()) <==> IsPhoneChar(s[m]) {
      PhoneCharsIff(s[m]);
    }
  }

  /** `IsContactPhone` is exactly what the contact form's phone expression accepts. */
  lemma {:induction false} ContactPhoneMatchesRegex(p: string)
    ensures IsContactPhone(p) <==> Matches(ContactPhonePattern(), p)
  {
    var pat := ContactPhonePattern();
    assert pat[0] == Opt(Lit('+')) && pat[1] == Piece(PhoneChars(), 10, None);
    PhoneRun(p, 0, 10);
    assert AllPhoneChars(p) <==> forall m :: 0 <= m < |p| ==> IsPhoneChar(p[m]);
    if |p| >= 1 {
      PhoneRun(p, 1, 10);
      LitIff('+', p[0]);
      assert AllPhoneChars(p[1..]) <==> forall m :: 1 <= m < |p| ==> IsPhoneChar(p[m]) by {
        forall m | 1 <= m < |p| ensures p[m] == p[1..][m - 1] { }
      }
      MatchesLast(pat, p, 1);
    }
    MatchesLast(pat, p, 0);
    if IsContactPhone(p) {
      if |p| >= 10 && AllPhoneChars(p) {
        MatchesStep(pat, 0, p, 0, 0);
      } else {
        MatchesStep(pat, 0, p, 0, 1);
      }
    }
    if Matches(pat, p) {
      var k := MatchesSplit(pat, 0, p, 0);
    }
  }

  // ----- enquiry form phone -----

  /** The characters `isValidPhone` strips before testing: white space, `-`, `(` and `)`. */
  predicate IsPhoneSeparator(c: char)
  {
    JsText.IsSpace(c) || c == '-' || c == '(' || c == ')'
  }

  /** `phone.replace(/[\s\-\(\)]/g, '')`: the characters that are not separators, in order. */
  function StripSeparators(s: string): (r: string)
    ensures |r| <= |s|
    ensures forall i :: 0 <= i < |r| ==> !IsPhoneSeparator(r[i])
    ensures forall c :: c in r <==> c in s && !IsPhoneSeparator(c)
  {
    if s == [] then []
    else if IsPhoneSeparator(s[0]) then StripSeparators(s[1..])
    else [s[0]] + StripSeparators(s[1..])
  }

  predicate AllDigits(s: string)
  {
    forall i :: 0 <= i < |s| ==> '0' <= s[i] <= '9'
  }

  /** The stripped number without the optional leading `+`. */
  function PhoneBody(q: string): string
  {
    if q != [] && q[0] == '+' then q[1..] else q
  }

  /**
   * `isValidPhone`: once separators are stripped, an optional `+` followed by
   * digits only, either a non-zero digit and at most fifteen more, or at least ten.
   */
  predicate IsValidPhone(phone: string)
  {
    var body := PhoneBody(StripSeparators(phone));
    AllDigits(body) && ((1 <= |body| <= 16 && body[0] != '0') || |body| >= 10)
  }

  /** `[1-9]` */
  function NonZeroDigit(): CharClass
  {
    CharClass([('1', '9')], false, false)
  }

  /** `[\d]` */
  function Digit(): CharClass
  {
    CharClass([('0', '9')], false, false)
  }

  /** `^[\+]?[1-9][\d]{0,15}$` */
  function ShortPhonePattern(): seq<Piece>
  {
    [Opt(Lit('+')), One(NonZeroDigit()), Piece(Digit(), 0, Some(15))]
  }

  /** `^[\+]?[(]?[\d\s\-\(\)]{10,}$` */
  function LongPhonePattern(): seq<Piece>
  {
    [Opt(Lit('+')), Opt(Lit('(')), Piece(PhoneChars(), 10, None)]
  }

  lemma DigitIff(c: char)
    ensures InClass(c, Digit()) <==> '0' <= c <= '9'
    ensures InClass(c, NonZeroDigit()) <==> '1' <= c <= '9'
  {
    var r := Digit().ranges;
    var r1 := NonZeroDigit().ranges;
    assert r[1..] == [] && r1[1..] == [];
    assert !InRanges(c, r[1..]) && !InRanges(c, r1[1..]);
  }

  /** Where the digits start: after the optional `+`. */
  function BodyStart(q: string): nat
  {
    if q != [] && q[0] == '+' then 1 else 0
  }

  lemma BodyIsSuffix(q: string)
    ensures BodyStart(q) <= |q| && PhoneBody(q) == q[BodyStart(q)..]
    ensures AllDigits(PhoneBody(q)) <==> forall m :: BodyStart(q) <= m < |q| ==> '0' <= q[m] <= '9'
  {
    var b := BodyStart(q);
    forall m | b <= m < |q| ensures q[m] == PhoneBody(q)[m - b] { }
  }

  /** The optional `+` takes exactly the leading `+` when the next character cannot be one. */
  lemma PlusRun(q: string, k: int)
    requires RunOk(Opt(Lit('+')), q, 0, k)
    requires k < |q| ==> q[k] != '+'
    ensures k == BodyStart(q)
  {
    if |q| > 0 {
      LitIff('+', q[0]);
    }
  }

  predicate ShortForm(q: string)
  {
    var body := PhoneBody(q);
    AllDigits(body) && 1 <= |body| <= 16 && body[0] != '0'
  }

  lemma {:induction false} ShortFormMatches(q: string)
    requires ShortForm(q)
    ensures Matches(ShortPhonePattern(), q)
  {
    var pat := ShortPhonePattern();
    assert pat[0] == Opt(Lit('+')) && pat[1] == One(NonZeroDigit()) && pat[2] == Piece(Digit(), 0, Some(15));
    var b := BodyStart(q);
    BodyIsSuffix(q);
    assert q[b] == PhoneBody(q)[0];
    DigitIff(q[b]);
    forall m | b + 1 <= m < |q| ensures InClass(q[m], Digit()) {
      DigitIff(q[m]);
    }
    MatchesLast(pat, q, b + 1);
    MatchesStep(pat, 1, q, b, b + 1);
    if b == 1 { LitIff('+', q[0]); }
    MatchesStep(pat, 0, q, 0, b);
  }

  lemma {:induction false} MatchesShortForm(q: string)
    requires Matches(ShortPhonePattern(), q)
    ensures ShortForm(q)
  {
    var pat := ShortPhonePattern();
    assert pat[0] == Opt(Lit('+')) && pat[1] == One(NonZeroDigit()) && pat[2] == Piece(Digit(), 0, Some(15));
    var k := MatchesSplit(pat, 0, q, 0);
    var k1 := MatchesSplit(pat, 1, q, k);
    MatchesLast(pat, q, k1);
    DigitIff(q[k]);
    PlusRun(q, k);
    BodyIsSuffix(q);
    forall m | k1 <= m < |q| ensures '0' <= q[m] <= '9' {
      DigitIff(q[m]);
    }
  }

  /** On a stripped string the short alternative is "optional `+`, non-zero digit, up to 15 digits". */
  lemma {:induction false} ShortPhoneMatches(q: string)
    ensures Matches(ShortPhonePattern(), q) <==> ShortForm(q)
  {
    if ShortForm(q) { ShortFormMatches(q); }
    if Matches(ShortPhonePattern(), q) { MatchesShortForm(q); }
  }

  /** On a stripped string the long alternative is "optional `+`, at least ten digits". */
  lemma {:induction false} LongPhoneMatches(q: string)
    requires forall i :: 0 <= i < |q| ==> !IsPhoneSeparator(q[i])
    ensures Matches(LongPhonePattern(), q) <==>
            var body := PhoneBody(q); AllDigits(body) && |body| >= 10
  {
    var body := PhoneBody(q);
    if AllDigits(body) && |body| >= 10 {
      LongPhoneFromBody(q);
    }
    if Matches(LongPhonePattern(), q) {
      LongPhoneToBody(q);
    }
  }

  /** Ten or more digits after an optional `+` match the long expression. */
  lemma LongPhoneFromBody(q: string)
    requires AllDigits(PhoneBody(q)) && |PhoneBody(q)| >= 10
    ensures Matches(LongPhonePattern(), q)
  {
    var pat := LongPhonePattern();
    var last := Piece(PhoneChars(), 10, None);
    assert pat[0] == Opt(Lit('+')) && pat[1] == Opt(Lit('(')) && pat[2] == last;
    var b := BodyStart(q);
    BodyIsSuffix(q);
    PhoneRun(q, b, 10);
    MatchesLast(pat, q, b);
    MatchesStep(pat, 1, q, b, b);
    if b == 1 { LitIff('+', q[0]); }
    MatchesStep(pat, 0, q, 0, b);
  }

  /** A stripped string the long expression accepts is an optional `+` and ten or more digits. */
  lemma LongPhoneToBody(q: string)
    requires forall i :: 0 <= i < |q| ==> !IsPhoneSeparator(q[i])
    requires Matches(LongPhonePattern(), q)
    ensures AllDigits(PhoneBody(q)) && |PhoneBody(q)| >= 10
  {
    var k := LongPhoneCut(q);
    PhoneRun(q, k, 10);
    PlusRun(q, k);
    BodyIsSuffix(q);
  }

  /** A stripped string never uses the optional `(`: the accepted string is `+`? and a run. */
  lemma LongPhoneCut(q: string) returns (k: nat)
    requires forall i :: 0 <= i < |q| ==> !IsPhoneSeparator(q[i])
    requires Matches(LongPhonePattern(), q)
    ensures k <= |q| && RunOk(Opt(Lit('+')), q, 0, k) && RunOk(Piece(PhoneChars(), 10, None), q, k, |q|)
  {
    var pat := LongPhonePattern();
    assert pat[0] == Opt(Lit('+')) && pat[1] == Opt(Lit('(')) && pat[2] == Piece(PhoneChars(), 10, None);
    k := MatchesSplit(pat, 0, q, 0);
    var k1 := MatchesSplit(pat, 1, q, k);
    if k1 == k + 1 {
      LitIff('(', q[k]);
      assert false;
    }
    MatchesLast(pat, q, k);
  }

  /** `isValidPhone` accepts exactly the strings whose stripped form matches one of its two expressions. */
  lemma {:induction false} EnquiryPhoneMatchesRegex(phone: string)
    ensures IsValidPhone(phone) <==>
            Matches(ShortPhonePattern(), StripSeparators(phone)) ||
            Matches(LongPhonePattern(), StripSeparators(phone))
  {
    var q := StripSeparators(phone);
    ShortPhoneMatches(q);
    LongPhoneMatches(q);
  }

  // ----- enquiry form names: /^[a-zA-Z\s\-']+$/ -----

  /** `[a-zA-Z\s\-']` */
  function NameChars(): CharClass
  {
    CharClass([('a', 'z'), ('A', 'Z'), ('-', '-'), ('\'', '\'')], true, false)
  }

  predicate IsNameChar(c: char)
  {
    ('a' <= c <= 'z') || ('A' <= c <= 'Z') || JsText.IsSpace(c) || c == '-' || c == '\''
  }

  /** At least one character, and only ASCII letters, white space, hyphens and apostrophes. */
  predicate IsNameText(s: string)
  {
    |s| >= 1 && forall i :: 0 <= i < |s| ==> IsNameChar(s[i])
  }

  lemma NameCharsIff(c: char)
    ensures InClass(c, NameChars()) <==> IsNameChar(c)
  {
    var r := NameChars().ranges;
    assert r[1..] == [('A', 'Z'), ('-', '-'), ('\'', '\'')];
    assert r[1..][1..] == [('-', '-'), ('\'', '\'')];
    assert r[1..][1..][1..] == [('\'', '\'')];
    assert r[1..][1..][1..][1..] == [];
    assert !InRanges(c, r[1..][1..][1..][1..]);
    assert InRanges(c, r[1..][1..][1..]) <==> c == '\'';
    assert InRanges(c, r[1..][1..]) <==> c == '-' || c == '\'';
    assert InRanges(c, r[1..]) <==> ('A' <= c <= 'Z') || c == '-' || c == '\'';
  }

  /** `IsNameText` is exactly what the name expression accepts. */
  lemma {:induction false} NameMatchesRegex(s: string)
    ensures IsNameText(s) <==> Matches([Plus(NameChars())], s)
  {
    forall m | 0 <= m < |s| ensures InClass(s[m], NameChars()) <==> IsNameChar(s[m]) {
      NameCharsIff(s[m]);
    }
    MatchesLast([Plus(NameChars())], s, 0);
  }
}

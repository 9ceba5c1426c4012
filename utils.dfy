/**
 * The input validators and phone-number formatters of utils.py. A
 * validator either accepts (`Ok(true)`), rejects quietly (`Ok(false)`, for
 * the CPF only) or raises an HTTP 400 error carrying a fixed message in
 * Portuguese, modelled as `Err`.
 */
module Utils {
  import opened Text

  /** An `HTTPException`: status code and detail message. */
  datatype HttpError = HttpError(status: int, detail: string)

  const BadRequest: int := 400

  function Reject(detail: string): HttpError {
    HttpError(BadRequest, detail)
  }

  predicate IsUpper(c: char) { 'A' <= c <= 'Z' }

  predicate IsLower(c: char) { 'a' <= c <= 'z' }

  /** The character class `[!@#$%^&*()_+\-=\[\]{};:'",<>./?]`. */
  const SpecialChars: string := "!@#$%^&*()_+-=[]{};:'\",<>./?"

  predicate IsSpecial(c: char) { c in SpecialChars }

  // ---------------------------------------------------------------------
  // valida_pwd
  // ---------------------------------------------------------------------

  /** The password rules, in the order they are checked. */
  datatype PwdRule = MinLength | HasUpper | HasLower | HasDigit | HasSpecial

  const PwdRules: seq<PwdRule> := [MinLength, HasUpper, HasLower, HasDigit, HasSpecial]

  predicate Passes(rule: PwdRule, pwd: string) {
    match rule
    case MinLength => |pwd| >= 6
    case HasUpper => exists c | c in pwd :: IsUpper(c)
    case HasLower => exists c | c in pwd :: IsLower(c)
    case HasDigit => exists c | c in pwd :: IsDigit(c)
    case HasSpecial => exists c | c in pwd :: IsSpecial(c)
  }

  function RuleMessage(rule: PwdRule): string {
    match rule
    case MinLength => "A senha deve conter pelo menos 6 caracteres!"
    case HasUpper => "A senha deve conter pelo menos uma letra maiúscula!"
    case HasLower => "A senha deve conter pelo menos uma letra minúscula!"
    case HasDigit => "A senha deve conter pelo menos um número!"
    case HasSpecial => "A senha deve conter pelo menos um caractere especial!"
  }

  /** `valida_pwd`: the checks in source order, the first failing one raising. */
  function ValidaPwd(pwd: string): (r: Result<bool, HttpError>)
    ensures r.Ok? ==> r.value
    ensures r.Err? ==> r.error.status == BadRequest
  {
    if !Passes(MinLength, pwd) then Err(Reject(RuleMessage(MinLength)))
    else if !Passes(HasUpper, pwd) then Err(Reject(RuleMessage(HasUpper)))
    else if !Passes(HasLower, pwd) then Err(Reject(RuleMessage(HasLower)))
    else if !Passes(HasDigit, pwd) then Err(Reject(RuleMessage(HasDigit)))
    else if !Passes(HasSpecial, pwd) then Err(Reject(RuleMessage(HasSpecial)))
    else Ok(true)
  }

  /** The first rule of `rules` that `pwd` breaks. */
  function FirstBroken(rules: seq<PwdRule>, pwd: string): (r: Option<PwdRule>)
    ensures r.None? <==> forall k :: 0 <= k < |rules| ==> Passes(rules[k], pwd)
    ensures r.Some? ==> r.value in rules && !Passes(r.value, pwd)
  {
    if rules == [] then None
    else if !Passes(rules[0], pwd) then Some(rules[0])
    else FirstBroken(rules[1..], pwd)
  }

  /**
   * A password is accepted exactly when it obeys every rule, and a rejected
   * one is told about the first rule it breaks.
   */
  lemma PwdVerdict(pwd: string)
    ensures ValidaPwd(pwd) == match FirstBroken(PwdRules, pwd)
                              case None => Ok(true)
                              case Some(rule) => Err(Reject(RuleMessage(rule)))
    ensures ValidaPwd(pwd).Ok? <==> forall rule: PwdRule :: Passes(rule, pwd)
  {
    var rules := PwdRules;
    assert rules[1..] == [HasUpper, HasLower, HasDigit, HasSpecial];
    assert rules[1..][1..] == [HasLower, HasDigit, HasSpecial];
    assert rules[1..][1..][1..] == [HasDigit, HasSpecial];
    assert rules[1..][1..][1..][1..] == [HasSpecial];
    assert rules[1..][1..][1..][1..][1..] == [];
    assert FirstBroken(rules[1..][1..][1..][1..], pwd) == if !Passes(HasSpecial, pwd) then Some(HasSpecial) else None;
    assert FirstBroken(rules[1..][1..][1..], pwd)
        == if !Passes(HasDigit, pwd) then Some(HasDigit) else FirstBroken(rules[1..][1..][1..][1..], pwd);
    assert FirstBroken(rules[1..][1..], pwd)
        == if !Passes(HasLower, pwd) then Some(HasLower) else FirstBroken(rules[1..][1..][1..], pwd);
    assert FirstBroken(rules[1..], pwd)
        == if !Passes(HasUpper, pwd) then Some(HasUpper) else FirstBroken(rules[1..][1..], pwd);
    assert FirstBroken(rules, pwd)
        == if !Passes(MinLength, pwd) then Some(MinLength) else FirstBroken(rules[1..], pwd);
    if ValidaPwd(pwd).Ok? {
      forall rule: PwdRule ensures Passes(rule, pwd) {
        match rule
        case MinLength => assert rules[0] == rule;
        case HasUpper => assert rules[1] == rule;
        case HasLower => assert rules[2] == rule;
        case HasDigit => assert rules[3] == rule;
        case HasSpecial => assert rules[4] == rule;
      }
    }
  }

  lemma PwdAccepted(good: string)
    requires good == "Abc12!"
    ensures ValidaPwd(good) == Ok(true)
  {
    assert Passes(HasUpper, good) by { assert IsUpper(good[0]) && good[0] in good; }
    assert Passes(HasLower, good) by { assert IsLower(good[1]) && good[1] in good; }
    assert Passes(HasDigit, good) by { assert IsDigit(good[3]) && good[3] in good; }
    assert Passes(HasSpecial, good) by { assert SpecialChars[0] == good[5] && good[5] in good; }
  }

  lemma PwdWithoutUpper(bad: string)
    requires bad == "abc12!"
    ensures ValidaPwd(bad) == Err(Reject(RuleMessage(HasUpper)))
  {
    assert !Passes(HasUpper, bad) by {
      forall c | c in bad ensures !IsUpper(c) {
        var k :| 0 <= k < |bad| && bad[k] == c;
      }
    }
  }

  // ---------------------------------------------------------------------
  // valida_username and valida_email: `re.match(... $)`
  // ---------------------------------------------------------------------

  /**
   * `re.match(pattern + "$", s)` tries the pattern body on the whole of `s`
   * and, because `$` also matches just before one final line feed, on `s`
   * without that line feed.
   */
  predicate EndsInLineFeed(s: string) { |s| > 0 && s[|s| - 1] == '\n' }

  predicate IsWordChar(c: char) { IsUpper(c) || IsLower(c) || IsDigit(c) || c == '_' }

  /** `[a-zA-Z0-9_]+` over the whole string. */
  predicate WordChars(s: string) {
    |s| > 0 && forall k :: 0 <= k < |s| ==> IsWordChar(s[k])
  }

  const UsernameTooShort: string := "O nome de usuário deve conter pelo menos 6 caracteres!"
  const UsernameBadChars: string := "O nome de usuário deve conter apenas letras, números e underline! (Não use espaços)"

  /**
   * `valida_username` as written: `^...+$` lets one trailing line feed
   * through. It accepts every name the intended check accepts, and
   * otherwise only names ending in a line feed; where it refuses, it says
   * what the intended check says.
   */
  function ValidaUsernameAsWritten(username: string): (r: Result<bool, HttpError>)
    ensures ValidaUsername(username).Ok? ==> r == Ok(true)
    ensures r.Ok? && ValidaUsername(username).Err? ==> EndsInLineFeed(username)
    ensures r.Err? ==> r == ValidaUsername(username)
  {
    if |username| < 6 then Err(Reject(UsernameTooShort))
    else if !(WordChars(username) || (EndsInLineFeed(username) && WordChars(username[..|username| - 1]))) then Err(Reject(UsernameBadChars))
    else Ok(true)
  }

  /**
   * The as-written check accepts any valid name followed by a line feed,
   * which the evidently intended check refuses.
   */
  lemma UsernameNewlineAccepted(name: string)
    requires |name| >= 6 && WordChars(name)
    ensures ValidaUsernameAsWritten(name + "\n") == Ok(true)
    ensures ValidaUsername(name + "\n") == Err(Reject(UsernameBadChars))
  {
    var s := name + "\n";
    assert s[..|s| - 1] == name;
    assert !IsWordChar(s[|s| - 1]);
  }

  /**
   * `valida_username` as evidently intended: at least six characters, all
   * letters, digits or underscores.
   */
  function ValidaUsername(username: string): (r: Result<bool, HttpError>)
    ensures r.Ok? <==> |username| >= 6 && forall k :: 0 <= k < |username| ==> IsWordChar(username[k])
    ensures r.Ok? ==> r.value
    ensures r.Err? ==> r.error == Reject(if |username| < 6 then UsernameTooShort else UsernameBadChars)
  {
    if |username| < 6 then Err(Reject(UsernameTooShort))
    else if !WordChars(username) then Err(Reject(UsernameBadChars))
    else Ok(true)
  }

  /** The two versions differ only on names that end in a line feed. */
  lemma UsernameVersionsAgree(username: string)
    requires '\n' !in username
    ensures ValidaUsernameAsWritten(username) == ValidaUsername(username)
  {
    if |username| > 0 {
      assert username[|username| - 1] in username;
    }
  }

  /** `[a-zA-Z0-9_.+-]`: the local part of an address. */
  predicate IsLocalChar(c: char) { IsUpper(c) || IsLower(c) || IsDigit(c) || c in "_.+-" }

  /** `[a-zA-Z0-9-]`: the first label of the domain. */
  predicate IsDomainLabelChar(c: char) { IsUpper(c) || IsLower(c) || IsDigit(c) || c == '-' }

  /** `[a-zA-Z0-9-.]`: the part after the first dot of the domain. */
  predicate IsDomainChar(c: char) { IsUpper(c) || IsLower(c) || IsDigit(c) || c in "-." }

  predicate LocalChars(s: string) { forall k :: 0 <= k < |s| ==> IsLocalChar(s[k]) }

  predicate LabelChars(s: string) { forall k :: 0 <= k < |s| ==> IsDomainLabelChar(s[k]) }

  predicate DomainChars(s: string) { forall k :: 0 <= k < |s| ==> IsDomainChar(s[k]) }

  /** An address `local@domain.tail` as the pattern sees it. */
  datatype Address = Address(local: string, domain: string, tail: string)

  function Compose(a: Address): string {
    a.local + "@" + a.domain + "." + a.tail
  }

  predicate WellFormed(a: Address) {
    |a.local| > 0 && LocalChars(a.local)
    && |a.domain| > 0 && LabelChars(a.domain)
    && |a.tail| > 0 && DomainChars(a.tail)
  }

  /**
   * The pattern body `[a-zA-Z0-9_.+-]+@[a-zA-Z0-9-]+\.[a-zA-Z0-9-.]+`:
   * the local part stops at the first `@` and the domain at the first `.`
   * after it, since neither class contains that character.
   */
  function ParseAddress(s: string): (r: Option<Address>)
    ensures r.Some? ==> WellFormed(r.value) && Compose(r.value) == s
  {
    var i := Find(s, '@');
    if i < 0 then None
    else
      var after := s[i + 1..];
      var j := Find(after, '.');
      if j < 0 then None
      else
        var a := Address(s[..i], after[..j], after[j + 1..]);
        SplitAround(s, i, j);
        if WellFormed(a) then Some(a) else None
  }

  lemma SplitAround(s: string, i: nat, j: nat)
    requires i < |s| && s[i] == '@' && j < |s[i + 1..]| && s[i + 1..][j] == '.'
    ensures Compose(Address(s[..i], s[i + 1..][..j], s[i + 1..][j + 1..])) == s
  {
    var after := s[i + 1..];
    assert after == after[..j] + "." + after[j + 1..];
    assert s == s[..i] + "@" + after;
  }

  /**
   * A string composed of parts whose local part has no `@` and whose domain
   * has no `.` is cut back into those parts, and accepted exactly when they
   * are well formed.
   */
  lemma ParseParts(a: Address)
    requires '@' !in a.local && '.' !in a.domain
    ensures ParseAddress(Compose(a)) == if WellFormed(a) then Some(a) else None
  {
    var s := Compose(a);
    assert s[..|a.local|] == a.local;
    FindAt(s, '@', |a.local|);
    var after := s[|a.local| + 1..];
    assert after == a.domain + "." + a.tail;
    assert after[..|a.domain|] == a.domain;
    FindAt(after, '.', |a.domain|);
    assert after[|a.domain| + 1..] == a.tail;
  }

  /** Every well-formed address is recognised and split back into its parts. */
  lemma ParseCompose(a: Address)
    requires WellFormed(a)
    ensures ParseAddress(Compose(a)) == Some(a)
  {
    assert !IsLocalChar('@') && !IsDomainLabelChar('.');
    ParseParts(a);
  }

  /** The pattern body accepts exactly the compositions of well-formed parts. */
  lemma AddressShape(s: string)
    ensures ParseAddress(s).Some? <==> exists a: Address :: WellFormed(a) && Compose(a) == s
  {
    if a: Address :| WellFormed(a) && Compose(a) == s {
      ParseCompose(a);
    }
  }

  predicate AddressBody(s: string) { ParseAddress(s).Some? }

  const EmailInvalid: string := "E-mail inválido"

  /**
   * `valida_email` as written: one trailing line feed gets through. It
   * accepts every address the intended check accepts, and otherwise only
   * text ending in a line feed.
   */
  function ValidaEmailAsWritten(email: string): (r: Result<bool, HttpError>)
    ensures ValidaEmail(email).Ok? ==> r == Ok(true)
    ensures r.Ok? && ValidaEmail(email).Err? ==> EndsInLineFeed(email)
    ensures r.Err? ==> r == ValidaEmail(email)
  {
    if !(AddressBody(email) || (EndsInLineFeed(email) && AddressBody(email[..|email| - 1]))) then Err(Reject(EmailInvalid)) else Ok(true)
  }

  /**
   * Any well-formed address followed by a line feed passes the as-written
   * check, although the pattern body itself refuses it.
   */
  lemma EmailNewlineAccepted(a: Address)
    requires WellFormed(a)
    ensures ValidaEmailAsWritten(Compose(a) + "\n") == Ok(true)
    ensures ParseAddress(Compose(a) + "\n").None?
  {
    NewlineBeforeEnd(a);
    NewlineBodyRefused(a);
  }

  lemma NewlineBeforeEnd(a: Address)
    requires WellFormed(a)
    ensures ValidaEmailAsWritten(Compose(a) + "\n") == Ok(true)
  {
    var s := Compose(a) + "\n";
    assert s[..|s| - 1] == Compose(a);
    ParseCompose(a);
  }

  lemma NewlineBodyRefused(a: Address)
    requires WellFormed(a)
    ensures ParseAddress(Compose(a) + "\n").None?
  {
    var b := Address(a.local, a.domain, a.tail + "\n");
    assert Compose(b) == Compose(a) + "\n";
    assert !IsDomainChar(b.tail[|b.tail| - 1]);
    assert !IsLocalChar('@') && !IsDomainLabelChar('.');
    ParseParts(b);
  }

  /** `valida_email` as evidently intended: the whole string is `local@domain.tail`. */
  function ValidaEmail(email: string): (r: Result<bool, HttpError>)
    ensures r.Ok? <==> exists a: Address :: WellFormed(a) && Compose(a) == email
    ensures r.Ok? ==> r.value
    ensures r.Err? ==> r.error == Reject(EmailInvalid)
  {
    AddressShape(email);
    if !AddressBody(email) then Err(Reject(EmailInvalid)) else Ok(true)
  }

  /** The two versions differ only on addresses that end in a line feed. */
  lemma EmailVersionsAgree(email: string)
    requires '\n' !in email
    ensures ValidaEmailAsWritten(email) == ValidaEmail(email)
  {
    if |email| > 0 {
      assert email[|email| - 1] in email;
    }
  }

  // ---------------------------------------------------------------------
  // format_whatsapp_number and format_sms_number
  // ---------------------------------------------------------------------

  /** `s.replace(c, "")`: every character but `c` stays. */
  function RemoveChar(s: string, c: char): (r: string)
    ensures forall x :: x in r <==> x in s && x != c
  {
    if s == [] then [] else (if s[0] == c then [] else [s[0]]) + RemoveChar(s[1..], c)
  }

  /** `s` with every character of `cs` deleted, in one pass. */
  function RemoveAll(s: string, cs: set<char>): (r: string)
    ensures forall k :: 0 <= k < |r| ==> r[k] !in cs
    ensures |r| <= |s|
  {
    if s == [] then []
    else (if s[0] in cs then [] else [s[0]]) + RemoveAll(s[1..], cs)
  }

  lemma {:induction false} RemoveCharAfterRemoveAll(s: string, cs: set<char>, c: char)
    ensures RemoveChar(RemoveAll(s, cs), c) == RemoveAll(s, cs + {c})
  {
    if s != [] {
      RemoveCharAfterRemoveAll(s[1..], cs, c);
      var head := if s[0] in cs then [] else [s[0]];
      RemoveCharAppend(head, RemoveAll(s[1..], cs), c);
    }
  }

  lemma {:induction false} RemoveCharAppend(a: string, b: string, c: char)
    ensures RemoveChar(a + b, c) == RemoveChar(a, c) + RemoveChar(b, c)
  {
    if a != [] {
      assert (a + b)[1..] == a[1..] + b;
      RemoveCharAppend(a[1..], b, c);
    } else {
      assert a + b == b;
    }
  }

  lemma {:induction false} RemoveNothing(s: string)
    ensures RemoveAll(s, {}) == s
  {
    if s != [] {
      RemoveNothing(s[1..]);
      assert s == [s[0]] + s[1..];
    }
  }

  const Separators: set<char> := {' ', '-', '(', ')'}

  /** The four chained `replace` calls of format_whatsapp_number: every character but the four separators stays. */
  function StripSeparators(s: string): (r: string)
    ensures forall x :: x in r <==> x in s && x !in Separators
  {
    RemoveChar(RemoveChar(RemoveChar(RemoveChar(s, ' '), '-'), '('), ')')
  }

  /** The chained replacements delete exactly the separator characters. */
  lemma StripSeparatorsDeletesSet(s: string)
    ensures StripSeparators(s) == RemoveAll(s, Separators)
  {
    RemoveNothing(s);
    RemoveCharAfterRemoveAll(s, {}, ' ');
    RemoveCharAfterRemoveAll(s, {' '}, '-');
    RemoveCharAfterRemoveAll(s, {' ', '-'}, '(');
    RemoveCharAfterRemoveAll(s, {' ', '-', '('}, ')');
    assert {} + {' '} == {' '};
    assert {' '} + {'-'} == {' ', '-'};
    assert {' ', '-'} + {'('} == {' ', '-', '('};
    assert {' ', '-', '('} + {')'} == Separators;
  }

  const WhatsappSuffix: string := "@s.whatsapp.net"

  /** The separators deleted, then exactly one leading `+` dropped, if there is one. */
  function NationalPart(phone: string): (r: string)
    ensures forall k :: 0 <= k < |r| ==> r[k] !in Separators
    ensures "+" <= StripSeparators(phone) ==> StripSeparators(phone) == "+" + r
    ensures !("+" <= StripSeparators(phone)) ==> r == StripSeparators(phone)
  {
    var p := StripSeparators(phone);
    if |p| > 0 && p[0] == '+' then
      assert p == "+" + p[1..];
      assert forall k :: 0 <= k < |p[1..]| ==> p[1..][k] in p;
      p[1..]
    else
      assert forall k :: 0 <= k < |p| ==> p[k] in p;
      p
  }

  /** The number part of the address format_whatsapp_number builds. */
  function WhatsappNumber(phone: string): (r: string)
    ensures "55" <= r
    ensures "55" <= NationalPart(phone) ==> r == NationalPart(phone)
    ensures !("55" <= NationalPart(phone)) ==> r == "55" + NationalPart(phone)
    ensures forall k :: 0 <= k < |r| ==> r[k] !in Separators
  {
    var q := NationalPart(phone);
    if "55" <= q then q else "55" + q
  }

  /** `format_whatsapp_number`. */
  function FormatWhatsappNumber(phone: string): (r: string)
    ensures |r| >= |WhatsappSuffix| && r[|r| - |WhatsappSuffix|..] == WhatsappSuffix
    ensures r[..|r| - |WhatsappSuffix|] == WhatsappNumber(phone)
  {
    WhatsappNumber(phone) + WhatsappSuffix
  }

  /** A number already in the target form only gets the suffix. */
  lemma WhatsappKeepsFormatted(n: string)
    requires "55" <= n && forall k :: 0 <= k < |n| ==> n[k] !in Separators
    ensures FormatWhatsappNumber(n) == n + WhatsappSuffix
  {
    StripSeparatorsDeletesSet(n);
    RemoveAllUnchanged(n, Separators);
  }

  lemma {:induction false} RemoveAllUnchanged(s: string, cs: set<char>)
    requires forall k :: 0 <= k < |s| ==> s[k] !in cs
    ensures RemoveAll(s, cs) == s
  {
    if s != [] {
      RemoveAllUnchanged(s[1..], cs);
      assert s == [s[0]] + s[1..];
    }
  }

  /** `re.sub(r'\D', '', s)`: the ASCII digits of `s`, in order. */
  function KeepDigits(s: string): (r: string)
    ensures forall k :: 0 <= k < |r| ==> IsDigit(r[k])
    ensures forall x :: x in r <==> x in s && IsDigit(x)
    ensures |r| <= |s|
  {
    if s == [] then [] else (if IsDigit(s[0]) then [s[0]] else []) + KeepDigits(s[1..])
  }

  lemma {:induction false} KeepDigitsOfDigits(s: string)
    requires forall k :: 0 <= k < |s| ==> IsDigit(s[k])
    ensures KeepDigits(s) == s
  {
    if s != [] {
      KeepDigitsOfDigits(s[1..]);
      assert s == [s[0]] + s[1..];
    }
  }

  /** On one character, the substitution keeps a digit and drops anything else. */
  lemma KeepDigitsChar(c: char)
    ensures KeepDigits([c]) == if IsDigit(c) then [c] else []
  {
    assert [c][1..] == [];
  }

  /** The substitution works character by character: it distributes over concatenation. */
  lemma {:induction false} KeepDigitsAppend(a: string, b: string)
    ensures KeepDigits(a + b) == KeepDigits(a) + KeepDigits(b)
  {
    if a == [] {
      assert a + b == b;
    } else {
      assert (a + b)[1..] == a[1..] + b;
      KeepDigitsAppend(a[1..], b);
    }
  }

  /** `format_sms_number`: the digits, without a leading country code 55. */
  function FormatSmsNumber(phone: string): (r: string)
    ensures forall k :: 0 <= k < |r| ==> IsDigit(r[k])
    ensures "55" <= KeepDigits(phone) ==> KeepDigits(phone) == "55" + r
    ensures !("55" <= KeepDigits(phone)) ==> r == KeepDigits(phone)
  {
    var d := KeepDigits(phone);
    if "55" <= d then
      assert d == "55" + d[2..];
      d[2..]
    else d
  }

  /** A phone number made of digits and separators, optionally after a leading `+`. */
  predicate PhoneLike(s: string) {
    forall k :: 0 <= k < |s| ==> IsDigit(s[k]) || s[k] in Separators || (k == 0 && s[k] == '+')
  }

  lemma {:induction false} DigitsAreSeparatorFree(s: string)
    requires forall k :: 0 <= k < |s| ==> IsDigit(s[k]) || s[k] in Separators
    ensures RemoveAll(s, Separators) == KeepDigits(s)
  {
    if s != [] {
      DigitsAreSeparatorFree(s[1..]);
    }
  }

  /**
   * For a phone-like input the two formatters agree: the WhatsApp number is
   * the SMS number with the country code 55 in front.
   */
  lemma WhatsappSmsAgree(phone: string)
    requires PhoneLike(phone)
    ensures WhatsappNumber(phone) == "55" + FormatSmsNumber(phone)
  {
    NationalDigits(phone);
    var d := KeepDigits(phone);
    if "55" <= d {
      assert d == "55" + d[2..];
    }
  }

  /** For a phone-like input, what is left after the separators and the `+` are its digits. */
  lemma NationalDigits(phone: string)
    requires PhoneLike(phone)
    ensures NationalPart(phone) == KeepDigits(phone)
  {
    StripSeparatorsDeletesSet(phone);
    if |phone| > 0 && phone[0] == '+' {
      PlusDropped(phone[1..]);
      assert phone == ['+'] + phone[1..];
    } else {
      DigitsAreSeparatorFree(phone);
      if |KeepDigits(phone)| > 0 {
        assert IsDigit(KeepDigits(phone)[0]);
      }
    }
  }

  lemma PlusDropped(tail: string)
    requires forall k :: 0 <= k < |tail| ==> IsDigit(tail[k]) || tail[k] in Separators
    ensures RemoveAll(['+'] + tail, Separators) == ['+'] + KeepDigits(tail)
    ensures KeepDigits(['+'] + tail) == KeepDigits(tail)
  {
    PlusKept(tail);
    PlusNotDigit(tail);
    DigitsAreSeparatorFree(tail);
  }

  lemma PlusKept(tail: string)
    ensures RemoveAll(['+'] + tail, Separators) == ['+'] + RemoveAll(tail, Separators)
  {
    var phone := ['+'] + tail;
    assert phone[0] == '+' && phone[1..] == tail;
    assert '+' !in Separators;
  }

  lemma PlusNotDigit(tail: string)
    ensures KeepDigits(['+'] + tail) == KeepDigits(tail)
  {
    var phone := ['+'] + tail;
    assert phone[0] == '+' && phone[1..] == tail;
  }

  // ---------------------------------------------------------------------
  // valida_cpf
  // ---------------------------------------------------------------------

  /** `sum(int(d[i]) * (top - i) for i in range(n))`. */
  function WeightedSum(d: string, n: nat, top: int): int
    requires n <= |d| && forall k :: 0 <= k < |d| ==> IsDigit(d[k])
  {
    if n == 0 then 0 else WeightedSum(d, n - 1, top) + DigitValue(d[n - 1]) * (top - (n - 1))
  }

  /** A check digit: `(sum * 10) % 11`, with 10 mapped to 0. */
  function CheckDigit(sum: int): (d: nat)
    ensures d < 10
  {
    var x := (sum * 10) % 11;
    if x == 10 then 0 else x
  }

  /** The check-digit rule as usually published: remainders 0 and 1 give 0, else 11 minus the remainder. */
  lemma CheckDigitTextbook(sum: int)
    ensures CheckDigit(sum) == if sum % 11 < 2 then 0 else 11 - sum % 11
  {
    var q, m := sum / 11, sum % 11;
    assert sum * 10 == 11 * (10 * q) + 10 * m by {
      assert sum == 11 * q + m;
    }
    ModAddMultiple(10 * m, 10 * q);
    TenTimesMod(m);
  }

  lemma ModAddMultiple(a: int, k: int)
    ensures (11 * k + a) % 11 == a % 11
  {
  }

  /** `10 * m % 11` for each remainder `m`: 0, 10, then 11 - m. */
  lemma TenTimesMod(m: int)
    requires 0 <= m < 11
    ensures (10 * m) % 11 == if m == 0 then 0 else 11 - m
  {
    if m > 0 {
      assert 10 * m == 11 * (m - 1) + (11 - m);
    }
  }

  predicate AllSame(d: string)
    requires |d| > 0
  {
    forall k :: 0 <= k < |d| ==> d[k] == d[0]
  }

  /** The two check digits the first nine (resp. ten) digits call for. */
  function FirstCheck(d: string): nat
    requires |d| >= 9 && forall k :: 0 <= k < |d| ==> IsDigit(d[k])
  {
    CheckDigit(WeightedSum(d, 9, 10))
  }

  function SecondCheck(d: string): nat
    requires |d| >= 10 && forall k :: 0 <= k < |d| ==> IsDigit(d[k])
  {
    CheckDigit(WeightedSum(d, 10, 11))
  }

  const CpfInvalid: string := "CPF inválido"

  /**
   * `valida_cpf`: `Ok(false)` when the digits are not eleven or all equal,
   * an error when a check digit is wrong, `Ok(true)` otherwise.
   */
  function ValidaCpf(cpf: string): (r: Result<bool, HttpError>)
    ensures r == Ok(false) <==> var d := KeepDigits(cpf); |d| != 11 || AllSame(d)
    ensures r == Ok(true) <==> var d := KeepDigits(cpf);
              |d| == 11 && !AllSame(d) && d[9..] == [DigitChar(FirstCheck(d)), DigitChar(SecondCheck(d))]
    ensures r.Err? ==> r.error == Reject(CpfInvalid)
  {
    var d := KeepDigits(cpf);
    if |d| != 11 then Ok(false)
    else if AllSame(d) then Ok(false)
    else if d[9..] != [DigitChar(FirstCheck(d)), DigitChar(SecondCheck(d))] then Err(Reject(CpfInvalid))
    else Ok(true)
  }

  lemma {:induction false} WeightedSumPrefix(d: string, e: string, n: nat, top: int)
    requires n <= |d| && n <= |e| && d[..n] == e[..n]
    requires forall k :: 0 <= k < |d| ==> IsDigit(d[k])
    requires forall k :: 0 <= k < |e| ==> IsDigit(e[k])
    ensures WeightedSum(d, n, top) == WeightedSum(e, n, top)
  {
    if n > 0 {
      assert d[..n - 1] == d[..n][..n - 1] && e[..n - 1] == e[..n][..n - 1];
      assert d[n - 1] == d[..n][n - 1] && e[n - 1] == e[..n][n - 1];
      WeightedSumPrefix(d, e, n - 1, top);
    }
  }

  /**
   * Completing nine digits that are not all equal with the check digits
   * they call for gives a number valida_cpf accepts.
   */
  lemma CompletedCpfAccepted(base: string)
    requires |base| == 9 && forall k :: 0 <= k < 9 ==> IsDigit(base[k])
    requires exists k :: 0 <= k < 9 && base[k] != base[0]
    ensures var d1 := DigitChar(CheckDigit(WeightedSum(base, 9, 10)));
            var ten := base + [d1];
            var d2 := DigitChar(CheckDigit(WeightedSum(ten, 10, 11)));
            ValidaCpf(ten + [d2]) == Ok(true)
  {
    var d1 := DigitChar(CheckDigit(WeightedSum(base, 9, 10)));
    var ten := base + [d1];
    var d2 := DigitChar(CheckDigit(WeightedSum(ten, 10, 11)));
    var d := ten + [d2];
    assert d[..9] == base[..9];
    WeightedSumPrefix(d, base, 9, 10);
    assert d[..10] == ten[..10];
    WeightedSumPrefix(d, ten, 10, 11);
    var k :| 0 <= k < 9 && base[k] != base[0];
    assert d[k] != d[0];
    CheckedCpfAccepted(d);
  }

  /**
   * Eleven equal digits always satisfy both check-digit equations, which is
   * why they are turned away before the checksum.
   */
  lemma RepeatedDigitsPassChecksum(d: string)
    requires |d| == 11 && forall k :: 0 <= k < 11 ==> IsDigit(d[k]) && d[k] == d[0]
    ensures d[9..] == [DigitChar(FirstCheck(d)), DigitChar(SecondCheck(d))]
  {
    var a := DigitValue(d[0]);
    RepeatedFirstCheck(d, a);
    RepeatedSecondCheck(d, a);
    assert DigitChar(a) == d[0];
  }

  lemma RepeatedFirstCheck(d: string, a: nat)
    requires |d| == 11 && forall k :: 0 <= k < 11 ==> IsDigit(d[k]) && DigitValue(d[k]) == a
    ensures FirstCheck(d) == a
  {
    RepeatedSum(d, 9, 10, a);
    assert Weights(9, 10) == 54;
    assert WeightedSum(d, 9, 10) * 10 == 11 * (49 * a) + a;
    ModAddMultiple(a, 49 * a);
  }

  lemma RepeatedSecondCheck(d: string, a: nat)
    requires |d| == 11 && forall k :: 0 <= k < 11 ==> IsDigit(d[k]) && DigitValue(d[k]) == a
    ensures SecondCheck(d) == a
  {
    RepeatedSum(d, 10, 11, a);
    assert Weights(10, 11) == 65;
    assert WeightedSum(d, 10, 11) * 10 == 11 * (59 * a) + a;
    ModAddMultiple(a, 59 * a);
  }

  /** The sum of the weights `top, top - 1, ...` over `n` positions. */
  function Weights(n: nat, top: int): int {
    if n == 0 then 0 else Weights(n - 1, top) + (top - (n - 1))
  }

  lemma {:induction false} RepeatedSum(d: string, n: nat, top: int, a: nat)
    requires n <= |d| && forall k :: 0 <= k < |d| ==> IsDigit(d[k]) && DigitValue(d[k]) == a
    ensures WeightedSum(d, n, top) == a * Weights(n, top)
  {
    if n > 0 {
      RepeatedSum(d, n - 1, top, a);
      assert a * Weights(n, top) == a * Weights(n - 1, top) + a * (top - (n - 1));
    }
  }

  lemma FirstSumExample(d: string)
    requires d == "52998224725"
    ensures WeightedSum(d, 9, 10) == 295
  {
    assert WeightedSum(d, 1, 10) == 50;
    assert WeightedSum(d, 2, 10) == 68;
    assert WeightedSum(d, 3, 10) == 140;
    assert WeightedSum(d, 4, 10) == 203;
    assert WeightedSum(d, 5, 10) == 251;
    assert WeightedSum(d, 6, 10) == 261;
    assert WeightedSum(d, 7, 10) == 269;
    assert WeightedSum(d, 8, 10) == 281;
  }

  lemma SecondSumExample(d: string)
    requires d == "52998224725"
    ensures WeightedSum(d, 10, 11) == 347
  {
    assert WeightedSum(d, 1, 11) == 55;
    assert WeightedSum(d, 2, 11) == 75;
    assert WeightedSum(d, 3, 11) == 156;
    assert WeightedSum(d, 4, 11) == 228;
    assert WeightedSum(d, 5, 11) == 284;
    assert WeightedSum(d, 6, 11) == 296;
    assert WeightedSum(d, 7, 11) == 306;
    assert WeightedSum(d, 8, 11) == 322;
    assert WeightedSum(d, 9, 11) == 343;
  }

  lemma ExampleChecks()
    ensures CheckDigit(295) == 2 && CheckDigit(347) == 5
  {
    assert 295 * 10 == 11 * 268 + 2;
    assert 347 * 10 == 11 * 315 + 5;
  }

  /** Eleven digits, not all equal, ending in the two check digits they call for, are accepted. */
  lemma CheckedCpfAccepted(d: string)
    requires |d| == 11 && forall k :: 0 <= k < 11 ==> IsDigit(d[k])
    requires !AllSame(d)
    requires d[9] == DigitChar(FirstCheck(d)) && d[10] == DigitChar(SecondCheck(d))
    ensures ValidaCpf(d) == Ok(true)
  {
    ValidaCpfOfDigits(d);
    assert d[9..] == [d[9], d[10]];
  }

  /** On a string of eleven digits, not all equal, `valida_cpf` only compares the last two. */
  lemma ValidaCpfOfDigits(d: string)
    requires |d| == 11 && forall k :: 0 <= k < 11 ==> IsDigit(d[k])
    requires !AllSame(d)
    ensures ValidaCpf(d) == if d[9..] == [DigitChar(FirstCheck(d)), DigitChar(SecondCheck(d))] then Ok(true) else Err(Reject(CpfInvalid))
  {
    KeepDigitsOfDigits(d);
  }

  /** A published example number is accepted. */
  lemma CpfExample()
    ensures ValidaCpf("52998224725") == Ok(true)
  {
    var d := "52998224725";
    FirstSumExample(d);
    SecondSumExample(d);
    ExampleChecks();
    assert DigitChar(2) == '2' && DigitChar(5) == '5';
    assert d[1] != d[0];
    CheckedCpfAccepted(d);
  }

  /** Changing the last digit of an accepted number gets it rejected with an error. */
  lemma WrongLastDigitRejected(d: string, x: char)
    requires forall k :: 0 <= k < |d| ==> IsDigit(d[k])
    requires ValidaCpf(d) == Ok(true) && IsDigit(x) && x != d[10]
    ensures ValidaCpf(d[..10] + [x]) == Err(Reject(CpfInvalid))
  {
    KeepDigitsOfDigits(d);
    assert d[10] == d[9..][1];
    var e := d[..10] + [x];
    SameLeadSameChecks(d, e);
    WrongSecondCheckRejected(e);
  }

  /** Eleven digits whose last one is not the second check digit get the error. */
  lemma WrongSecondCheckRejected(e: string)
    requires |e| == 11 && forall k :: 0 <= k < 11 ==> IsDigit(e[k])
    requires e[10] != DigitChar(SecondCheck(e))
    ensures ValidaCpf(e) == Err(Reject(CpfInvalid))
  {
    ChangedLastDigitNotRepeated(e);
    ValidaCpfOfDigits(e);
    assert e[9..][1] == e[10];
  }

  /** Two eleven-digit numbers that agree on their first ten digits call for the same check digits. */
  lemma SameLeadSameChecks(d: string, e: string)
    requires |d| == 11 && |e| == 11 && d[..10] == e[..10]
    requires forall k :: 0 <= k < 11 ==> IsDigit(d[k]) && IsDigit(e[k])
    ensures FirstCheck(d) == FirstCheck(e) && SecondCheck(d) == SecondCheck(e)
  {
    assert d[..9] == d[..10][..9] && e[..9] == e[..10][..9];
    WeightedSumPrefix(d, e, 9, 10);
    WeightedSumPrefix(d, e, 10, 11);
  }

  /**
   * A number whose last digit differs from the second check digit its first
   * ten call for cannot have all digits equal.
   */
  lemma ChangedLastDigitNotRepeated(e: string)
    requires |e| == 11 && forall k :: 0 <= k < 11 ==> IsDigit(e[k])
    requires e[10] != DigitChar(SecondCheck(e))
    ensures !AllSame(e)
  {
    if AllSame(e) {
      RepeatedDigitsPassChecksum(e);
    }
  }

}

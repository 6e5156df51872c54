/** The user validator: the declared field rules, run in order, each failure
    mapped to a fixed message, followed by the name-pair uniqueness query
    against the repository. */
module Validation {
  import opened Errors
  import opened Model
  import opened Text
  import opened Repository

  const ErrorAgeMinimum := "User does not meet minimum age requirement"
  const ErrorEmailFormat := "User email must be properly formatted"
  const ErrorNameUnique := "User with the same first and last name already exists"

  /** `validateAge`: the age is at least ten. */
  predicate ValidateAge(age: int)
  {
    age >= 10
  }

  /** `validateEmail`: the address is not blank once trimmed and holds an "@". */
  predicate ValidateEmail(email: string)
  {
    |TrimSpace(email)| != 0 && Contains(email, "@")
  }

  /** `validateEmail` accepts exactly the addresses with a code point that is
      not white space and an "@" somewhere. */
  lemma ValidateEmailIff(email: string)
    ensures ValidateEmail(email) <==>
              (exists i :: 0 <= i < |email| && !IsSpace(email[i])) && '@' in email
  {
    assert "@" == ['@'];
    ContainsChar(email, '@');
  }

  /** Whether a value passes one tag. `required` asks for a non-zero value;
      `email` is the validator library's address syntax, which this model
      takes as the given predicate `emailSyntax`. */
  predicate TagHolds(tag: Tag, v: Value, emailSyntax: string -> bool)
  {
    match tag
    case RequiredTag => (match v case Text(s) => s != "" case Number(n) => n != 0)
    case EmailTag => v.Text? && emailSyntax(v.s)
    case ValidateEmailTag => v.Text? && ValidateEmail(v.s)
    case ValidateAgeTag => v.Number? && ValidateAge(v.n)
  }

  /** The position of the first tag the value fails: the validator stops
      checking a field at its first failure. */
  function FirstFailing(tags: seq<Tag>, v: Value, emailSyntax: string -> bool): (r: Option<nat>)
    ensures r.Some? ==> r.value < |tags| && !TagHolds(tags[r.value], v, emailSyntax)
    ensures r.Some? ==> forall j :: 0 <= j < r.value ==> TagHolds(tags[j], v, emailSyntax)
    ensures r.None? <==> forall j :: 0 <= j < |tags| ==> TagHolds(tags[j], v, emailSyntax)
  {
    if |tags| == 0 then None
    else if !TagHolds(tags[0], v, emailSyntax) then Some(0)
    else
      match FirstFailing(tags[1..], v, emailSyntax)
      case None => None
      case Some(i) => Some(i + 1)
  }

  /** One failed rule: the field and the tag it failed. */
  datatype FieldError = FieldError(field: Field, tag: Tag)

  /** The errors of one field: none, or its first failing tag. */
  function FieldOutcome(u: User, rule: (Field, seq<Tag>), emailSyntax: string -> bool): seq<FieldError>
  {
    match FirstFailing(rule.1, ValueOf(u, rule.0), emailSyntax)
    case None => []
    case Some(i) => [FieldError(rule.0, rule.1[i])]
  }

  /** `validate.Struct`: the errors of every field, in the order of `rules`. */
  function FieldErrors(rules: seq<(Field, seq<Tag>)>, u: User, emailSyntax: string -> bool): (errs: seq<FieldError>)
    ensures |errs| <= |rules|
  {
    if |rules| == 0 then []
    else FieldOutcome(u, rules[0], emailSyntax) + FieldErrors(rules[1..], u, emailSyntax)
  }

  /** The validator's default text for a failed tag. */
  function DefaultText(e: FieldError): string
  {
    "Key: 'User." + e.field.Name() + "' Error:Field validation for '" + e.field.Name()
      + "' failed on the '" + e.tag.Name() + "' tag"
  }

  /** The message a failed tag is reported with. */
  function MessageFor(e: FieldError): string
  {
    match e.tag
    case ValidateAgeTag => ErrorAgeMinimum
    case ValidateEmailTag => ErrorEmailFormat
    case EmailTag => ErrorEmailFormat
    case RequiredTag => DefaultText(e)
  }

  /** The messages of a list of failed tags, in order. */
  function Messages(errs: seq<FieldError>): (msgs: seq<string>)
    ensures |msgs| == |errs|
    ensures forall i :: 0 <= i < |errs| ==> msgs[i] == MessageFor(errs[i])
  {
    if |errs| == 0 then [] else Messages(errs[..|errs| - 1]) + [MessageFor(errs[|errs| - 1])]
  }

  /** The violations `ValidateUser` reports: the field messages, then the
      uniqueness message when the name pair is already stored. */
  function Violations(u: User, emailSyntax: string -> bool, duplicate: bool): seq<string>
  {
    Messages(FieldErrors(UserRules, u, emailSyntax)) + (if duplicate then [ErrorNameUnique] else [])
  }

  /** The outcome of `ValidateUser`: the violations found (none for a valid
      record), or the abort caused by a failed uniqueness query. */
  datatype Validated = Checked(violations: seq<string>) | Aborted(cause: MessageErr)

  /** `ValidateUser` against a table. */
  function ValidateResult(t: Table, faults: map<Call, string>, u: User, emailSyntax: string -> bool): Validated
  {
    match ExistsResult(t, faults, u.firstName, u.lastName)
    case Err(e) => Aborted(e)
    case Ok(duplicate) => Checked(Violations(u, emailSyntax, duplicate))
  }

  // The field rules, field by field.

  function NameErrors(field: Field, name: string): seq<FieldError>
  {
    if name == "" then [FieldError(field, RequiredTag)] else []
  }

  function EmailErrors(email: string, emailSyntax: string -> bool): seq<FieldError>
  {
    if email == "" then [FieldError(EmailField, RequiredTag)]
    else if !emailSyntax(email) then [FieldError(EmailField, EmailTag)]
    else if !ValidateEmail(email) then [FieldError(EmailField, ValidateEmailTag)]
    else []
  }

  function AgeErrors(age: int): seq<FieldError>
  {
    if age == 0 then [FieldError(AgeField, RequiredTag)]
    else if !ValidateAge(age) then [FieldError(AgeField, ValidateAgeTag)]
    else []
  }

  /** The email rule stops at its first failing check. */
  lemma EmailOutcome(u: User, emailSyntax: string -> bool)
    ensures FieldOutcome(u, UserRules[2], emailSyntax) == EmailErrors(u.email, emailSyntax)
  {
    var tags := UserRules[2].1;
    var v := ValueOf(u, EmailField);
    assert tags == [RequiredTag, EmailTag, ValidateEmailTag];
    assert tags[1..] == [EmailTag, ValidateEmailTag];
    assert tags[1..][1..] == [ValidateEmailTag];
    if u.email == "" {
      assert FirstFailing(tags, v, emailSyntax) == Some(0);
    } else if !emailSyntax(u.email) {
      assert FirstFailing(tags[1..], v, emailSyntax) == Some(0);
      assert FirstFailing(tags, v, emailSyntax) == Some(1);
    } else if !ValidateEmail(u.email) {
      assert FirstFailing(tags[1..][1..], v, emailSyntax) == Some(0);
      assert FirstFailing(tags[1..], v, emailSyntax) == Some(1);
      assert FirstFailing(tags, v, emailSyntax) == Some(2);
    } else {
      assert forall j :: 0 <= j < |tags| ==> TagHolds(tags[j], v, emailSyntax);
    }
  }

  /** The age rule stops at its first failing check. */
  lemma AgeOutcome(u: User, emailSyntax: string -> bool)
    ensures FieldOutcome(u, UserRules[3], emailSyntax) == AgeErrors(u.age)
  {
    var tags := UserRules[3].1;
    var v := ValueOf(u, AgeField);
    assert tags == [RequiredTag, ValidateAgeTag];
    assert tags[1..] == [ValidateAgeTag];
    if u.age == 0 {
      assert FirstFailing(tags, v, emailSyntax) == Some(0);
    } else if !ValidateAge(u.age) {
      assert FirstFailing(tags[1..], v, emailSyntax) == Some(0);
      assert FirstFailing(tags, v, emailSyntax) == Some(1);
    } else {
      assert forall j :: 0 <= j < |tags| ==> TagHolds(tags[j], v, emailSyntax);
    }
  }

  /** A name rule fails only `required`, on an empty name. */
  lemma NameOutcome(u: User, i: nat, emailSyntax: string -> bool)
    requires i < 2
    ensures FieldOutcome(u, UserRules[i], emailSyntax) ==
              if i == 0 then NameErrors(FirstNameField, u.firstName) else NameErrors(LastNameField, u.lastName)
  {
    var tags := UserRules[i].1;
    var v := ValueOf(u, UserRules[i].0);
    assert tags == [RequiredTag];
    if v == Text("") {
      assert FirstFailing(tags, v, emailSyntax) == Some(0);
    } else {
      assert forall j :: 0 <= j < |tags| ==> TagHolds(tags[j], v, emailSyntax);
    }
  }

  /** The declared rules report, in field order: a missing first name, a
      missing last name, the first of the three email checks that fails, and
      the first of the two age checks that fails. */
  lemma FieldErrorsOfUser(u: User, emailSyntax: string -> bool)
    ensures FieldErrors(UserRules, u, emailSyntax) ==
              NameErrors(FirstNameField, u.firstName) + NameErrors(LastNameField, u.lastName)
              + EmailErrors(u.email, emailSyntax) + AgeErrors(u.age)
  {
    var r := UserRules;
    NameOutcome(u, 0, emailSyntax);
    NameOutcome(u, 1, emailSyntax);
    EmailOutcome(u, emailSyntax);
    AgeOutcome(u, emailSyntax);
    var o0, o1 := FieldOutcome(u, r[0], emailSyntax), FieldOutcome(u, r[1], emailSyntax);
    var o2, o3 := FieldOutcome(u, r[2], emailSyntax), FieldOutcome(u, r[3], emailSyntax);
    assert r[4..] == [];
    assert r[3..][0] == r[3] && r[3..][1..] == r[4..];
    assert FieldErrors(r[3..], u, emailSyntax) == o3;
    assert r[2..][0] == r[2] && r[2..][1..] == r[3..];
    assert FieldErrors(r[2..], u, emailSyntax) == o2 + o3;
    assert r[1..][0] == r[1] && r[1..][1..] == r[2..];
    assert FieldErrors(r[1..], u, emailSyntax) == o1 + o2 + o3;
    assert FieldErrors(r, u, emailSyntax) == o0 + (o1 + o2 + o3);
  }

  lemma {:induction false} MessagesAppend(a: seq<FieldError>, b: seq<FieldError>)
    ensures Messages(a + b) == Messages(a) + Messages(b)
  {
    assert |Messages(a + b)| == |Messages(a) + Messages(b)|;
    forall i | 0 <= i < |a + b|
      ensures Messages(a + b)[i] == (Messages(a) + Messages(b))[i]
    {
      if i >= |a| {
        assert (a + b)[i] == b[i - |a|];
      }
    }
  }

  /** The `required` default text of a field. */
  function Missing(f: Field): string
  {
    DefaultText(FieldError(f, RequiredTag))
  }

  /** The messages of one field's errors. */
  lemma FieldMessages(u: User, emailSyntax: string -> bool)
    ensures Messages(NameErrors(FirstNameField, u.firstName)) == (if u.firstName == "" then [Missing(FirstNameField)] else [])
    ensures Messages(NameErrors(LastNameField, u.lastName)) == (if u.lastName == "" then [Missing(LastNameField)] else [])
    ensures Messages(EmailErrors(u.email, emailSyntax)) ==
              if u.email == "" then [Missing(EmailField)]
              else if !emailSyntax(u.email) || !ValidateEmail(u.email) then [ErrorEmailFormat]
              else []
    ensures Messages(AgeErrors(u.age)) ==
              if u.age == 0 then [Missing(AgeField)] else if u.age < 10 then [ErrorAgeMinimum] else []
  {
  }

  /** The violations, field by field in declaration order, with the
      uniqueness message last: an empty field gets its `required` text, a
      malformed address the email message, an age from 1 to 9 the age
      message. */
  lemma ViolationsInOrder(u: User, emailSyntax: string -> bool, duplicate: bool)
    ensures Violations(u, emailSyntax, duplicate) ==
              (if u.firstName == "" then [Missing(FirstNameField)] else [])
              + (if u.lastName == "" then [Missing(LastNameField)] else [])
              + (if u.email == "" then [Missing(EmailField)]
                 else if !emailSyntax(u.email) || !ValidateEmail(u.email) then [ErrorEmailFormat]
                 else [])
              + (if u.age == 0 then [Missing(AgeField)] else if u.age < 10 then [ErrorAgeMinimum] else [])
              + (if duplicate then [ErrorNameUnique] else [])
  {
    FieldErrorsOfUser(u, emailSyntax);
    FieldMessages(u, emailSyntax);
    var n1, n2 := NameErrors(FirstNameField, u.firstName), NameErrors(LastNameField, u.lastName);
    var e, a := EmailErrors(u.email, emailSyntax), AgeErrors(u.age);
    MessagesAppend(n1 + n2 + e, a);
    MessagesAppend(n1 + n2, e);
    MessagesAppend(n1, n2);
  }

  /** No two of the messages coincide: the three fixed messages have
      different lengths, and every default text is longer than all of them. */
  lemma MessagesDistinct(e: FieldError)
    ensures MessageFor(e) != ErrorNameUnique
    ensures e.tag == RequiredTag ==> MessageFor(e) != ErrorAgeMinimum && MessageFor(e) != ErrorEmailFormat
    ensures ErrorAgeMinimum != ErrorEmailFormat
  {
    assert |ErrorNameUnique| == 53;
    assert |ErrorAgeMinimum| == 42;
    assert |ErrorEmailFormat| == 37;
    if e.tag == RequiredTag {
      assert |DefaultText(e)| >= 64;
    }
  }

  /** The age message is reported exactly for a non-zero age under ten; a zero
      age fails `required` and is reported with the default text instead. */
  lemma AgeMessage(u: User, emailSyntax: string -> bool, duplicate: bool)
    ensures ErrorAgeMinimum in Violations(u, emailSyntax, duplicate) <==> u.age != 0 && u.age < 10
    ensures u.age == 0 ==> Missing(AgeField) in Violations(u, emailSyntax, duplicate)
  {
    ViolationsInOrder(u, emailSyntax, duplicate);
    MessagesDistinct(FieldError(FirstNameField, RequiredTag));
    MessagesDistinct(FieldError(LastNameField, RequiredTag));
    MessagesDistinct(FieldError(EmailField, RequiredTag));
    MessagesDistinct(FieldError(AgeField, RequiredTag));
  }

  /** The email message is reported exactly for a non-empty address that fails
      the library's syntax or `validateEmail`. */
  lemma EmailMessage(u: User, emailSyntax: string -> bool, duplicate: bool)
    ensures ErrorEmailFormat in Violations(u, emailSyntax, duplicate) <==>
              u.email != "" && (!emailSyntax(u.email) || !ValidateEmail(u.email))
    ensures u.email == "" ==> Missing(EmailField) in Violations(u, emailSyntax, duplicate)
  {
    ViolationsInOrder(u, emailSyntax, duplicate);
    MessagesDistinct(FieldError(FirstNameField, RequiredTag));
    MessagesDistinct(FieldError(LastNameField, RequiredTag));
    MessagesDistinct(FieldError(EmailField, RequiredTag));
    MessagesDistinct(FieldError(AgeField, RequiredTag));
  }

  /** An empty first or last name is reported with the `required` default text
      for that field. */
  lemma NameMessages(u: User, emailSyntax: string -> bool, duplicate: bool)
    ensures u.firstName == "" ==> Violations(u, emailSyntax, duplicate)[0] == Missing(FirstNameField)
    ensures u.lastName == "" ==> Missing(LastNameField) in Violations(u, emailSyntax, duplicate)
  {
    ViolationsInOrder(u, emailSyntax, duplicate);
  }

  /** The uniqueness message appears exactly when the pair is stored, and then
      only once, as the last violation. */
  lemma UniqueMessageLast(u: User, emailSyntax: string -> bool, duplicate: bool)
    ensures var v := Violations(u, emailSyntax, duplicate);
            && (ErrorNameUnique in v <==> duplicate)
            && (duplicate ==> v[|v| - 1] == ErrorNameUnique && ErrorNameUnique !in v[..|v| - 1])
  {
    var fields := Messages(FieldErrors(UserRules, u, emailSyntax));
    forall i | 0 <= i < |fields|
      ensures fields[i] != ErrorNameUnique
    {
      MessagesDistinct(FieldErrors(UserRules, u, emailSyntax)[i]);
    }
    if duplicate {
      assert Violations(u, emailSyntax, duplicate)[..|fields|] == fields;
    }
  }

  /** There are no violations exactly when no field rule failed and the
      name pair is new. */
  lemma ViolationsEmptyIff(u: User, emailSyntax: string -> bool, duplicate: bool)
    ensures Violations(u, emailSyntax, duplicate) == [] <==> FieldErrors(UserRules, u, emailSyntax) == [] && !duplicate
  {
    var errs := FieldErrors(UserRules, u, emailSyntax);
    if errs != [] {
      assert |Messages(errs)| > 0;
    }
  }

  /** A record passes exactly when every declared rule holds and its name pair
      is not yet stored. */
  lemma NoViolationsIff(u: User, emailSyntax: string -> bool, duplicate: bool)
    ensures Violations(u, emailSyntax, duplicate) == [] <==>
              && u.firstName != "" && u.lastName != ""
              && u.email != "" && emailSyntax(u.email) && ValidateEmail(u.email)
              && u.age != 0 && ValidateAge(u.age)
              && !duplicate
  {
    ViolationsInOrder(u, emailSyntax, duplicate);
  }

  /** The first name, last name and email are checked before the age, and the
      field messages come before the uniqueness message: a record failing
      everything gets five violations in that order. */
  lemma AllFailInOrder(u: User, emailSyntax: string -> bool)
    requires u.firstName == "" && u.lastName == "" && u.email == "" && u.age == 0
    ensures Violations(u, emailSyntax, true) == [
              Missing(FirstNameField),
              Missing(LastNameField),
              Missing(EmailField),
              Missing(AgeField),
              ErrorNameUnique]
  {
    ViolationsInOrder(u, emailSyntax, true);
  }

  /** A message among the violations can be found in their ","-joined text,
      which is what a rejected save reports. */
  lemma ReportedInJoin(v: seq<string>, m: string)
    requires m in v
    ensures Contains(Join(v, ","), m)
  {
    var k :| 0 <= k < |v| && v[k] == m;
    JoinContainsPart(v, ",", k);
  }

  /** `ValidateUser` on a table: a failed query aborts with the repository's
      error; otherwise the violations are those of the record, with the
      uniqueness message exactly when a stored row has both names. */
  lemma ValidateResultIff(t: Table, faults: map<Call, string>, u: User, emailSyntax: string -> bool)
    ensures ExistsByName in faults ==> ValidateResult(t, faults, u, emailSyntax) == Aborted(InternalServerError(faults[ExistsByName]))
    ensures ExistsByName !in faults ==>
              ValidateResult(t, faults, u, emailSyntax) ==
                Checked(Violations(u, emailSyntax,
                  exists k :: k in t.rows && t.rows[k].firstName == u.firstName && t.rows[k].lastName == u.lastName))
  {
    if ExistsByName !in faults {
      ExistsIff(t, faults, u.firstName, u.lastName);
    }
  }

  /** A nine-year-old is reported with the age message. */
  lemma AgeNineRejected(emailSyntax: string -> bool, duplicate: bool)
    ensures Contains(Join(Violations(User(2, "Zenia", "Brennan", "ultrices.vivamus.rhoncus@yahoo.ca", 9), emailSyntax, duplicate), ","),
                     ErrorAgeMinimum)
  {
    var u := User(2, "Zenia", "Brennan", "ultrices.vivamus.rhoncus@yahoo.ca", 9);
    AgeMessage(u, emailSyntax, duplicate);
    ReportedInJoin(Violations(u, emailSyntax, duplicate), ErrorAgeMinimum);
  }

  /** An address without "@" is reported with the email message, whatever
      the library's own syntax check says. */
  lemma BadEmailRejected(emailSyntax: string -> bool, duplicate: bool)
    ensures Contains(Join(Violations(User(2, "Zenia", "Brennan", "bad_email", 19), emailSyntax, duplicate), ","),
                     ErrorEmailFormat)
  {
    var u := User(2, "Zenia", "Brennan", "bad_email", 19);
    ValidateEmailIff(u.email);
    assert '@' !in u.email;
    EmailMessage(u, emailSyntax, duplicate);
    ReportedInJoin(Violations(u, emailSyntax, duplicate), ErrorEmailFormat);
  }

  /** A record whose names are already stored is reported with the
      uniqueness message, last. */
  lemma DuplicateRejected(t: Table, faults: map<Call, string>, u: User, emailSyntax: string -> bool, k: int)
    requires ExistsByName !in faults
    requires k in t.rows && t.rows[k].firstName == u.firstName && t.rows[k].lastName == u.lastName
    ensures ValidateResult(t, faults, u, emailSyntax).Checked?
    ensures var v := ValidateResult(t, faults, u, emailSyntax).violations;
            |v| > 0 && v[|v| - 1] == ErrorNameUnique && Contains(Join(v, ","), ErrorNameUnique)
  {
    ValidateResultIff(t, faults, u, emailSyntax);
    var v := Violations(u, emailSyntax, true);
    UniqueMessageLast(u, emailSyntax, true);
    ReportedInJoin(v, ErrorNameUnique);
  }

  /** The validator over a repository. `emailSyntax` is the library's `email`
      rule. */
  class UserValidationService {
    const repository: UserRepository
    const emailSyntax: string -> bool

    constructor (repository: UserRepository, emailSyntax: string -> bool)
      ensures this.repository == repository && this.emailSyntax == emailSyntax
    {
      this.repository := repository;
      this.emailSyntax := emailSyntax;
    }

    /** `validateFirstNameLastName`: true when the pair is not stored yet; a
        failed query aborts. */
    method ValidateFirstNameLastName(firstName: string, lastName: string) returns (r: Result<bool>)
      modifies repository`trace
      ensures repository.trace == old(repository.trace) + [ExistsByName]
      ensures r == match ExistsResult(repository.State(), repository.faults, firstName, lastName)
                   case Ok(exists_) => Ok(!exists_)
                   case Err(e) => Err(e)
    {
      var exists_ := repository.ExistsByFirstNameAndLastName(firstName, lastName);
      if exists_.Err? {
        return Err(exists_.error);
      }
      return Ok(!exists_.value);
    }

    /** `ValidateUser`: the failed rules' messages in order, then the
        uniqueness query, which runs whatever the rules found. */
    method ValidateUser(user: User) returns (v: Validated)
      modifies repository`trace
      ensures repository.trace == old(repository.trace) + [ExistsByName]
      ensures v == ValidateResult(repository.State(), repository.faults, user, emailSyntax)
    {
      var errs := FieldErrors(UserRules, user, emailSyntax);
      var msgs: seq<string> := [];
      for i := 0 to |errs|
        invariant msgs == Messages(errs[..i])
      {
        var e := errs[i];
        match e.tag {
          case ValidateAgeTag =>
            msgs := msgs + [ErrorAgeMinimum];
          case ValidateEmailTag =>
            msgs := msgs + [ErrorEmailFormat];
          case EmailTag =>
            msgs := msgs + [ErrorEmailFormat];
          case RequiredTag =>
            msgs := msgs + [DefaultText(e)];
        }
        assert errs[..i + 1][..i] == errs[..i];
      }
      assert errs[..|errs|] == errs;
      var unique := ValidateFirstNameLastName(user.firstName, user.lastName);
      if unique.Err? {
        return Aborted(unique.error);
      }
      if !unique.value {
        msgs := msgs + [ErrorNameUnique];
      }
      return Checked(msgs);
    }
  }
}

/** The user record and the validation rules its struct tags declare. */
module Model {

  /** A stored or candidate user. `id` is the primary key and carries no rule. */
  datatype User = User(id: int, firstName: string, lastName: string, email: string, age: int)

  /** The fields that carry `validate` tags, in declaration order. */
  datatype Field = FirstNameField | LastNameField | EmailField | AgeField
  {
    /** The field's name as the validator reports it. */
    function Name(): string
    {
      match this
      case FirstNameField => "FirstName"
      case LastNameField => "LastName"
      case EmailField => "Email"
      case AgeField => "Age"
    }
  }

  /** The rule tags used in the `validate` struct tags. */
  datatype Tag = RequiredTag | EmailTag | ValidateEmailTag | ValidateAgeTag
  {
    /** The tag as written in the struct tag. */
    function Name(): string
    {
      match this
      case RequiredTag => "required"
      case EmailTag => "email"
      case ValidateEmailTag => "validateEmail"
      case ValidateAgeTag => "validateAge"
    }
  }

  /** A field's value, as the validator sees it. */
  datatype Value = Text(s: string) | Number(n: int)

  function ValueOf(u: User, f: Field): Value
  {
    match f
    case FirstNameField => Text(u.firstName)
    case LastNameField => Text(u.lastName)
    case EmailField => Text(u.email)
    case AgeField => Number(u.age)
  }

  /** The declared rules: each tagged field, in declaration order, with its tags
      in the order they are checked. */
  const UserRules: seq<(Field, seq<Tag>)> := [
    (FirstNameField, [RequiredTag]),
    (LastNameField, [RequiredTag]),
    (EmailField, [RequiredTag, EmailTag, ValidateEmailTag]),
    (AgeField, [RequiredTag, ValidateAgeTag])
  ]
}

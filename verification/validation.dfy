/** Field validation of a registration form (register.php, POST branch).
    Every rule runs; none short-circuits another field's rule, and the
    failures are collected in one map keyed by field. */
module Validation {
  import opened PhpText
  import opened Calendar

  /** The keys of the error map, one per form field. */
  datatype Field = FirstName | LastName | Username | Email | Password | RepeatPassword | Birthdate

  /** Field-keyed error messages, as returned to the client. */
  type Errors = map<Field, string>

  /** The POST body as received. `birthdate` is the submitted text, checked
      for emptiness and stored verbatim; `born` is the date `date_create`
      reads from that text. */
  datatype Form = Form(
    firstName: Bytes,
    lastName: Bytes,
    username: Bytes,
    email: Bytes,
    password: Bytes,
    repeatPassword: Bytes,
    birthdate: Bytes,
    born: Date)

  const MinPasswordLength := 8
  const AdultAge := 18

  const FirstNameRequired := "First name is required."
  const LastNameRequired := "Last name is required."
  const UsernameRequired := "Username is required."
  const UsernameCharset := "Username can only contain letters, numbers, and underscores."
  const EmailRequired := "Email is required."
  const PasswordRequired := "Password is required."
  const PasswordTooShort := "Password must be at least 8 characters long."
  const PasswordsDiffer := "Passwords do not match."
  const BirthdateRequired := "Birthdate is required."
  const TooYoung := "You must be at least 18 years old."

  /** A text field that is empty once trimmed, or is "0" once trimmed. */
  predicate Blank(s: Bytes) {
    PhpEmpty(Trim(s))
  }

  /** An acceptable username: after trimming, one or more letters, digits
      and underscores, and not the single digit "0" (which `empty` rejects). */
  predicate GoodUsername(s: Bytes) {
    IsWordString(Trim(s)) && Trim(s) != "0"
  }

  /** Everything the form rules demand, stated field by field. */
  predicate Acceptable(f: Form, today: Date) {
    && !Blank(f.firstName)
    && !Blank(f.lastName)
    && GoodUsername(f.username)
    && !Blank(f.email)
    && |f.password| >= MinPasswordLength
    && f.password == f.repeatPassword
    && !PhpEmpty(f.birthdate)
    && YearsApart(f.born, today, AdultAge)
  }

  /** What one rule concludes about its field. */
  datatype Verdict = Pass | Reject(message: string)

  const AllFields: set<Field> :=
    {FirstName, LastName, Username, Email, Password, RepeatPassword, Birthdate}

  /** The rule register.php applies to one field, in the source's own terms:
      `empty` on the trimmed names, username and email, `preg_match` on the
      username, `empty` and `strlen` on the password, strict inequality of
      the two passwords, `empty` on the birthdate text and the `y` of
      `date_diff` against today. */
  function Rule(field: Field, f: Form, today: Date): Verdict {
    match field
    case FirstName =>
      if PhpEmpty(Trim(f.firstName)) then Reject(FirstNameRequired) else Pass
    case LastName =>
      if PhpEmpty(Trim(f.lastName)) then Reject(LastNameRequired) else Pass
    case Username =>
      var u := Trim(f.username);
      if PhpEmpty(u) then Reject(UsernameRequired)
      else if !MatchesUsernamePattern(u) then Reject(UsernameCharset)
      else Pass
    case Email =>
      if PhpEmpty(Trim(f.email)) then Reject(EmailRequired) else Pass
    case Password =>
      if PhpEmpty(f.password) then Reject(PasswordRequired)
      else if |f.password| < MinPasswordLength then Reject(PasswordTooShort)
      else Pass
    case RepeatPassword =>
      if f.password != f.repeatPassword then Reject(PasswordsDiffer) else Pass
    case Birthdate =>
      if PhpEmpty(f.birthdate) then Reject(BirthdateRequired)
      else if Age(f.born, today) < AdultAge then Reject(TooYoung)
      else Pass
  }

  /** The requirement each field must meet, stated without the source's
      built-ins: a name or email that is not blank, a good username, a
      password of at least eight bytes, a confirmation equal to the password,
      and a birthdate that is given and eighteen whole years from today. */
  predicate Holds(field: Field, f: Form, today: Date) {
    match field
    case FirstName => !Blank(f.firstName)
    case LastName => !Blank(f.lastName)
    case Username => GoodUsername(f.username)
    case Email => !Blank(f.email)
    case Password => |f.password| >= MinPasswordLength
    case RepeatPassword => f.password == f.repeatPassword
    case Birthdate => !PhpEmpty(f.birthdate) && YearsApart(f.born, today, AdultAge)
  }

  /** Each rule of register.php rejects its field exactly when that field's
      requirement fails. */
  lemma RuleMeaning(field: Field, f: Form, today: Date)
    ensures Rule(field, f, today).Reject? <==> !Holds(field, f, today)
  {
    match field
    case Username => UnpaddedUsernamePattern(Trim(f.username));
    case Birthdate => AgeAtLeast(f.born, today, AdultAge);
    case _ =>
  }

  /** `RuleMeaning` for every field at once. */
  lemma AllRulesMeaning(f: Form, today: Date)
    ensures forall field :: Rule(field, f, today).Reject? <==> !Holds(field, f, today)
  {
    forall field: Field
      ensures Rule(field, f, today).Reject? <==> !Holds(field, f, today)
    {
      RuleMeaning(field, f, today);
    }
  }

  /** The error map of register.php: every rule runs, and a field has a key
      exactly when its own requirement fails, whatever the other fields hold;
      its message is the one its rule gives. */
  function Validate(f: Form, today: Date): (errors: Errors)
    ensures forall field :: field in errors <==> !Holds(field, f, today)
    ensures forall field :: field in errors ==>
      Rule(field, f, today).Reject? && errors[field] == Rule(field, f, today).message
  {
    AllRulesMeaning(f, today);
    map field | field in AllFields && Rule(field, f, today).Reject? :: Rule(field, f, today).message
  }

  /** The names and the email are required: a key and the "required"
      message exactly when the trimmed value is "" or "0". */
  lemma RequiredTextFields(f: Form, today: Date)
    ensures FirstName in Validate(f, today) <==> Blank(f.firstName)
    ensures LastName in Validate(f, today) <==> Blank(f.lastName)
    ensures Email in Validate(f, today) <==> Blank(f.email)
    ensures FirstName in Validate(f, today) ==> Validate(f, today)[FirstName] == FirstNameRequired
    ensures LastName in Validate(f, today) ==> Validate(f, today)[LastName] == LastNameRequired
    ensures Email in Validate(f, today) ==> Validate(f, today)[Email] == EmailRequired
  {
  }

  /** The username fails exactly when, trimmed, it is not a non-empty word
      string or is "0"; an empty or "0" value gets the "required" message
      and anything else the charset message, never both. */
  lemma UsernameRule(f: Form, today: Date)
    ensures Username in Validate(f, today) <==> !GoodUsername(f.username)
    ensures Username in Validate(f, today) ==>
      Validate(f, today)[Username] == if PhpEmpty(Trim(f.username)) then UsernameRequired else UsernameCharset
  {
    UnpaddedUsernamePattern(Trim(f.username));
  }

  /** The password fails exactly when it is shorter than eight bytes; ""
      and "0" get the "required" message, other short ones the length message. */
  lemma PasswordRule(f: Form, today: Date)
    ensures Password in Validate(f, today) <==> |f.password| < MinPasswordLength
    ensures Password in Validate(f, today) ==>
      Validate(f, today)[Password] == if PhpEmpty(f.password) then PasswordRequired else PasswordTooShort
  {
  }

  /** The confirmation fails exactly when it differs from the password,
      whether or not the password passed its own rule. */
  lemma RepeatPasswordRule(f: Form, today: Date)
    ensures RepeatPassword in Validate(f, today) <==> f.password != f.repeatPassword
    ensures RepeatPassword in Validate(f, today) ==> Validate(f, today)[RepeatPassword] == PasswordsDiffer
  {
  }

  /** The birthdate fails exactly when its text is "" or "0", or fewer than
      eighteen whole years separate it from today. */
  lemma BirthdateRule(f: Form, today: Date)
    ensures Birthdate in Validate(f, today) <==> PhpEmpty(f.birthdate) || !YearsApart(f.born, today, AdultAge)
    ensures Birthdate in Validate(f, today) ==>
      Validate(f, today)[Birthdate] == if PhpEmpty(f.birthdate) then BirthdateRequired else TooYoung
  {
    AgeAtLeast(f.born, today, AdultAge);
  }

  /** The error map is empty exactly when the form meets every requirement. */
  lemma ValidExactlyWhenAcceptable(f: Form, today: Date)
    ensures Validate(f, today) == map[] <==> Acceptable(f, today)
  {
    var errors := Validate(f, today);
    RequiredTextFields(f, today);
    UsernameRule(f, today);
    PasswordRule(f, today);
    RepeatPasswordRule(f, today);
    BirthdateRule(f, today);
    if Acceptable(f, today) {
      forall field: Field
        ensures field !in errors
      {
        match field
        case FirstName =>
        case LastName =>
        case Username =>
        case Email =>
        case Password =>
        case RepeatPassword =>
        case Birthdate =>
      }
      assert errors.Keys == {};
    }
  }

  /** For a birthdate not after today the boundary is the eighteenth
      birthday: a date on or before the day eighteen years before today
      passes, and any later one, even a single day later, fails. */
  lemma EighteenthBirthday(f: Form, today: Date)
    requires !PhpEmpty(f.birthdate) && OnOrBefore(f.born, today)
    ensures Birthdate !in Validate(f, today) <==> OnOrBefore(f.born, Anniversary(today, -AdultAge))
  {
    BirthdateRule(f, today);
  }

  /** The age is a distance, not a signed difference: a birthdate eighteen
      or more years in the future passes the age rule. */
  lemma FarFutureBirthdatePasses(f: Form, today: Date)
    requires !PhpEmpty(f.birthdate) && OnOrBefore(Anniversary(today, AdultAge), f.born)
    ensures Birthdate !in Validate(f, today)
  {
    BirthdateRule(f, today);
  }
}

/**
 * The `User` schema of models/user.js: the paths firstName, lastName,
 * email, role and isActive, their setters (`trim`), defaults and validators.
 */
module UserSchema {
  import opened Wrappers
  import opened Text
  import opened EmailPattern
  import opened SchemaRules

  const FirstNameRequired := "Please add a first name"
  const FirstNameTooLong := "First name cannot be more than 50 characters"
  const LastNameRequired := "Please add a last name"
  const LastNameTooLong := "Last name cannot be more than 50 characters"
  const EmailRequired := "Please add an email"
  const EmailInvalid := "Please add a valid email"
  const MaxNameLength := 50

  const Roles: seq<string> := ["customer", "admin", "vendor"]
  const DefaultRole := "customer"

  /** The store's default message for a value outside an `enum`. */
  function RoleEnumMessage(v: string): string {
    "`" + v + "` is not a valid enum value for path `role`."
  }

  /** The schema paths of a user document. */
  datatype UserFields = UserFields(
    firstName: string,
    lastName: string,
    email: string,
    role: string,
    isActive: bool)

  /** The schema paths as a request body supplies them: each may be absent. */
  datatype UserInput = UserInput(
    firstName: Option<string>,
    lastName: Option<string>,
    email: Option<string>,
    role: Option<string>,
    isActive: Option<bool>)

  /** A body that supplies nothing. */
  const NoInput := UserInput(None, None, None, None, None)

  /** The validators of firstName, on the trimmed value. */
  function FirstNameError(v: string): (e: Option<string>)
    ensures e.None? <==> 1 <= Utf16Length(v) <= MaxNameLength
    ensures v == [] ==> e == Some(FirstNameRequired)
    ensures Utf16Length(v) > MaxNameLength ==> e == Some(FirstNameTooLong)
  {
    Required(v, FirstNameRequired).OrElse(MaxLength(v, MaxNameLength, FirstNameTooLong))
  }

  /** The validators of lastName, on the trimmed value. */
  function LastNameError(v: string): (e: Option<string>)
    ensures e.None? <==> 1 <= Utf16Length(v) <= MaxNameLength
    ensures v == [] ==> e == Some(LastNameRequired)
    ensures Utf16Length(v) > MaxNameLength ==> e == Some(LastNameTooLong)
  {
    Required(v, LastNameRequired).OrElse(MaxLength(v, MaxNameLength, LastNameTooLong))
  }

  /** The validators of email (which has no setter): `required`, then the pattern. */
  function EmailError(v: string): (e: Option<string>)
    ensures e.None? <==> MatchesEmail(v)
    ensures v == [] ==> e == Some(EmailRequired)
    ensures v != [] && !MatchesEmail(v) ==> e == Some(EmailInvalid)
  {
    Required(v, EmailRequired).OrElse(Rule(MatchesEmail(v), EmailInvalid))
  }

  /** The `enum` validator of role. */
  function RoleError(v: string): (e: Option<string>)
    ensures e.None? <==> v in Roles
    ensures e.Some? ==> e.value == RoleEnumMessage(v)
  {
    OneOf(v, Roles, RoleEnumMessage(v))
  }

  /** A user document as the schema admits it: trimmed names within bounds, a matching e-mail, a listed role. */
  predicate IsValidUser(u: UserFields) {
    && IsTrimmed(u.firstName) && 1 <= Utf16Length(u.firstName) <= MaxNameLength
    && IsTrimmed(u.lastName) && 1 <= Utf16Length(u.lastName) <= MaxNameLength
    && MatchesEmail(u.email)
    && u.role in Roles
  }

  /** The validation messages of a document: exactly the messages of its failing paths, each once. */
  function UserErrors(u: UserFields): (errs: seq<string>)
    ensures errs == [] <==> (&& 1 <= Utf16Length(u.firstName) <= MaxNameLength
                              && 1 <= Utf16Length(u.lastName) <= MaxNameLength
                              && MatchesEmail(u.email) && u.role in Roles)
    ensures |errs| <= 4
    ensures forall m :: m in errs <==> || FirstNameError(u.firstName) == Some(m)
                                       || LastNameError(u.lastName) == Some(m)
                                       || EmailError(u.email) == Some(m)
                                       || RoleError(u.role) == Some(m)
    ensures forall i, j :: 0 <= i < j < |errs| ==> errs[i] != errs[j]
  {
    PathMessagesDiffer(u);
    MessagesOfFour(FirstNameError(u.firstName), LastNameError(u.lastName), EmailError(u.email), RoleError(u.role));
    Messages([FirstNameError(u.firstName), LastNameError(u.lastName), EmailError(u.email), RoleError(u.role)])
  }

  /** No two paths of a document fail with the same message. */
  lemma PathMessagesDiffer(u: UserFields)
    ensures var first, last := FirstNameError(u.firstName), LastNameError(u.lastName);
            var email, role := EmailError(u.email), RoleError(u.role);
            && (first.Some? ==> first != last && first != email && first != role)
            && (last.Some? ==> last != email && last != role)
            && (email.Some? ==> email != role)
  {
    assert RoleEnumMessage(u.role)[0] == '`';
  }

  /** What a new document holds after the setters and defaults: trimmed names, role `customer`
      and isActive `true` unless supplied; an absent string stays empty and fails `required`. */
  function FromInput(i: UserInput): (u: UserFields)
    ensures u.firstName == Trim(i.firstName.GetOr("")) && u.lastName == Trim(i.lastName.GetOr(""))
    ensures u.email == i.email.GetOr("")
    ensures u.role == (if i.role.Some? then i.role.value else DefaultRole)
    ensures u.isActive == (i.isActive.None? || i.isActive.value)
  {
    UserFields(
      Trim(i.firstName.GetOr("")),
      Trim(i.lastName.GetOr("")),
      i.email.GetOr(""),
      i.role.GetOr(DefaultRole),
      i.isActive.GetOr(true))
  }

  /** `User.create(body)` up to the write: the new document, or the validation messages. */
  function ValidateNewUser(i: UserInput): (r: Checked<UserFields>)
    ensures r.Accepted? ==> IsValidUser(r.value) && r.value == FromInput(i)
    ensures r.Refused? ==> r.messages != [] && r.messages == UserErrors(FromInput(i))
  {
    var u := FromInput(i);
    var errs := UserErrors(u);
    if errs == [] then Accepted(u) else Refused(errs)
  }

  /** The body that supplies every path of `u`. */
  function ToInput(u: UserFields): UserInput {
    UserInput(Some(u.firstName), Some(u.lastName), Some(u.email), Some(u.role), Some(u.isActive))
  }

  /** The setters and defaults leave a document with trimmed names as it is. */
  lemma FromInputOfTrimmed(u: UserFields)
    requires IsTrimmed(u.firstName) && IsTrimmed(u.lastName)
    ensures FromInput(ToInput(u)) == u
  {
    TrimOfTrimmed(u.firstName);
    TrimOfTrimmed(u.lastName);
  }

  /** Submitting a valid document's own fields recreates exactly that document. */
  lemma ValidUserRoundTrip(u: UserFields)
    requires IsValidUser(u)
    ensures ValidateNewUser(ToInput(u)) == Accepted(u)
  {
    FromInputOfTrimmed(u);
    assert UserErrors(u) == [];
  }

  /** A first name of more than 25 characters above U+FFFF is more than 50 code units: too long. */
  lemma AstralFirstNameTooLong(v: string)
    requires |v| > MaxNameLength / 2
    requires forall i :: 0 <= i < |v| ==> v[i] > '\U{FFFF}'
    ensures FirstNameError(v) == Some(FirstNameTooLong)
  {
  }

  /** A first name made of white space only is refused as missing. */
  lemma BlankFirstNameRefused(i: UserInput)
    requires i.firstName.None? || AllSpace(i.firstName.value)
    ensures ValidateNewUser(i).Refused?
    ensures FirstNameRequired in ValidateNewUser(i).messages
  {
    var t := i.firstName.GetOr("");
    var r := Trim(t);
    TrimIsPaddedInfix(t);
    assert FirstNameError(FromInput(i).firstName) == Some(FirstNameRequired);
  }

  // ---- updateUser: assignment of the supplied paths, then a whole-document save ----

  /** The fields assigned on the fetched document: each supplied path is set through its setter,
      every other path keeps its value. */
  function ApplyPatch(u: UserFields, p: UserInput): (r: UserFields)
    ensures r.firstName == if p.firstName.Some? then Trim(p.firstName.value) else u.firstName
    ensures r.lastName == if p.lastName.Some? then Trim(p.lastName.value) else u.lastName
    ensures r.email == p.email.GetOr(u.email)
    ensures r.role == p.role.GetOr(u.role)
    ensures r.isActive == p.isActive.GetOr(u.isActive)
  {
    UserFields(
      if p.firstName.Some? then Trim(p.firstName.value) else u.firstName,
      if p.lastName.Some? then Trim(p.lastName.value) else u.lastName,
      p.email.GetOr(u.email),
      p.role.GetOr(u.role),
      p.isActive.GetOr(u.isActive))
  }

  /** The validation messages of the supplied paths alone. */
  function PatchErrors(p: UserInput): (errs: seq<string>)
    ensures errs == [] <==> (&& (p.firstName.Some? ==> 1 <= Utf16Length(Trim(p.firstName.value)) <= MaxNameLength)
                              && (p.lastName.Some? ==> 1 <= Utf16Length(Trim(p.lastName.value)) <= MaxNameLength)
                              && (p.email.Some? ==> MatchesEmail(p.email.value))
                              && (p.role.Some? ==> p.role.value in Roles))
  {
    var first := if p.firstName.Some? then FirstNameError(Trim(p.firstName.value)) else None;
    var last := if p.lastName.Some? then LastNameError(Trim(p.lastName.value)) else None;
    var email := if p.email.Some? then EmailError(p.email.value) else None;
    var role := if p.role.Some? then RoleError(p.role.value) else None;
    MessagesOfFour(first, last, email, role);
    Messages([first, last, email, role])
  }

  /** Saving a patched valid document reports exactly the failures of the supplied paths. */
  lemma PatchReportsOnlySuppliedPaths(u: UserFields, p: UserInput)
    requires IsValidUser(u)
    ensures UserErrors(ApplyPatch(u, p)) == PatchErrors(p)
  {
  }

  /** A patch not reported by PatchErrors keeps a valid document valid. */
  lemma PatchKeepsValid(u: UserFields, p: UserInput)
    requires IsValidUser(u) && PatchErrors(p) == []
    ensures IsValidUser(ApplyPatch(u, p))
  {
  }

  /** A body that supplies nothing leaves the document as it is. */
  lemma EmptyPatchChangesNothing(u: UserFields)
    ensures ApplyPatch(u, NoInput) == u
  {
  }
}

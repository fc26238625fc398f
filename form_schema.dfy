/** The zod schemas of schemas/formSchema.ts (AddressSchema nested in
    FormSchema) as one validation function, FormSchema.safeParse: either the
    parsed record or every issue found, each at its property path. */
module FormSchema {
  import opened Text
  import opened JsValues

  datatype Address = Address(
    line1: string,
    line2: Option<string>,
    street: string,
    city: string,
    state: string,
    country: string,
    zipCode: string)

  datatype FormData = FormData(name: string, email: string, address: Address)

  /** A zod issue path: the property names from the root, e.g. ["address", "zipCode"]. */
  type Path = seq<string>

  /** The schema's own message, or zod's built-in type-mismatch message
      (whose wording belongs to the library and is not modelled). */
  datatype Message = InvalidType | Custom(text: string)

  datatype Issue = Issue(path: Path, message: Message)

  datatype Validation = Ok(data: FormData) | Err(issues: seq<Issue>)

  /** The outcome of one property's schema. */
  datatype Checked<T> = Pass(value: T) | Fail(failures: seq<Issue>) {
    function Issues(): seq<Issue> {
      if Pass? then [] else failures
    }
  }

  const NameMessage := "Name is required."
  const EmailMessage := "Enter a valid email address."
  const Line1Message := "Address Line 1 is required."
  const StreetMessage := "Street is required."
  const CityMessage := "City is required."
  const StateMessage := "State is required."
  const ZipMessage := "Enter a valid US ZIP code (e.g., 94103 or 94103-1234)."

  // ---------- the schema, property by property ----------

  /** z.string().min(1, message): any string of at least one character,
      white space included. */
  function RequiredString(v: Value, path: Path, message: string): Checked<string> {
    match v
    case Str(s) => if |s| >= 1 then Pass(s) else Fail([Issue(path, Custom(message))])
    case _ => Fail([Issue(path, InvalidType)])
  }

  /** z.string().email(message), with zod's address check given as isEmail. */
  function EmailString(v: Value, path: Path, isEmail: string -> bool): Checked<string> {
    match v
    case Str(s) => if isEmail(s) then Pass(s) else Fail([Issue(path, Custom(EmailMessage))])
    case _ => Fail([Issue(path, InvalidType)])
  }

  /** z.string().optional(): undefined or a string. */
  function OptionalString(v: Value, path: Path): Checked<Option<string>> {
    match v
    case Missing => Pass(None)
    case Str(s) => Pass(Some(s))
    case _ => Fail([Issue(path, InvalidType)])
  }

  /** z.string(): any string, unchanged. */
  function AnyString(v: Value, path: Path): Checked<string> {
    match v
    case Str(s) => Pass(s)
    case _ => Fail([Issue(path, InvalidType)])
  }

  /** The regex /^[0-9]{5}(?:-[0-9]{4})?$/: five digits, optionally followed
      by '-' and four digits, and nothing else. */
  predicate IsZipCode(t: string) {
    && DigitsAt(t, 0, 5)
    && (|t| == 5 || (|t| == 10 && t[5] == '-' && DigitsAt(t, 6, 4)))
  }

  /** t[i..i+n] is n ASCII digits. */
  predicate DigitsAt(t: string, i: nat, n: nat) {
    i + n <= |t| && forall k :: i <= k < i + n ==> IsAsciiDigit(t[k])
  }

  /** z.string().trim().regex(...): the trimmed text is checked and kept. */
  function ZipString(v: Value, path: Path): Checked<string> {
    match v
    case Str(s) =>
      var t := Trim(s);
      if IsZipCode(t) then Pass(t) else Fail([Issue(path, Custom(ZipMessage))])
    case _ => Fail([Issue(path, InvalidType)])
  }

  /** AddressSchema, at property "address" of the form. */
  function ValidateAddress(a: Value): Checked<Address> {
    if !a.Obj? then Fail([Issue(["address"], InvalidType)])
    else
      var line1 := RequiredString(Get(a, "line1"), ["address", "line1"], Line1Message);
      var line2 := OptionalString(Get(a, "line2"), ["address", "line2"]);
      var street := RequiredString(Get(a, "street"), ["address", "street"], StreetMessage);
      var city := RequiredString(Get(a, "city"), ["address", "city"], CityMessage);
      var state := RequiredString(Get(a, "state"), ["address", "state"], StateMessage);
      var country := AnyString(Get(a, "country"), ["address", "country"]);
      var zipCode := ZipString(Get(a, "zipCode"), ["address", "zipCode"]);
      if line1.Pass? && line2.Pass? && street.Pass? && city.Pass? && state.Pass? && country.Pass? && zipCode.Pass?
      then Pass(Address(line1.value, line2.value, street.value, city.value, state.value, country.value, zipCode.value))
      else Fail(line1.Issues() + line2.Issues() + street.Issues() + city.Issues()
                + state.Issues() + country.Issues() + zipCode.Issues())
  }

  /** FormSchema.safeParse(candidate). Properties are checked in the order of
      the schema; a failing property does not stop the others from being
      checked. Properties the schema does not name are dropped. */
  function Validate(candidate: Value, isEmail: string -> bool): (r: Validation)
    ensures r.Err? ==> |r.issues| > 0
    ensures !candidate.Obj? ==> r == Err([Issue([], InvalidType)])
  {
    if !candidate.Obj? then Err([Issue([], InvalidType)])
    else
      var name := RequiredString(Get(candidate, "name"), ["name"], NameMessage);
      var email := EmailString(Get(candidate, "email"), ["email"], isEmail);
      var address := ValidateAddress(Get(candidate, "address"));
      if name.Pass? && email.Pass? && address.Pass?
      then Ok(FormData(name.value, email.value, address.value))
      else
        assert address.Fail? ==> address.Issues() != [];
        Err(name.Issues() + email.Issues() + address.Issues())
  }

  // ---------- what the schema demands, position by position ----------

  /** The positions the schema inspects: the candidate itself, the form's
      properties and the address's properties. */
  datatype Field =
    | Root | Name | Email | AddressObject
    | Line1 | Line2 | Street | City | State | Country | ZipCode

  /** Every position, in the order the schema inspects them: the form's own
      four, then from index 4 on the address's seven. */
  const SchemaFields: seq<Field> :=
    [Root, Name, Email, AddressObject, Line1, Line2, Street, City, State, Country, ZipCode]

  /** The property name of each position below the root. */
  function KeyOf(f: Field): string
    requires !f.Root?
  {
    match f
    case Name => "name"
    case Email => "email"
    case AddressObject => "address"
    case Line1 => "line1"
    case Line2 => "line2"
    case Street => "street"
    case City => "city"
    case State => "state"
    case Country => "country"
    case ZipCode => "zipCode"
  }

  predicate IsAddressField(f: Field) {
    !(f.Root? || f.Name? || f.Email? || f.AddressObject?)
  }

  /** The issue path of each position, e.g. ["address", "zipCode"]. */
  function PathOf(f: Field): Path {
    if f.Root? then []
    else if IsAddressField(f) then ["address", KeyOf(f)]
    else [KeyOf(f)]
  }

  /** The value found at a position: undefined below anything that is not
      an object. */
  function ValueAt(c: Value, f: Field): Value {
    if f.Root? then c
    else if IsAddressField(f) then Get(Get(c, "address"), KeyOf(f))
    else Get(c, KeyOf(f))
  }

  /** Zod looks at a position only when every enclosing value is an object. */
  predicate Reached(c: Value, f: Field) {
    if f.Root? then true
    else if IsAddressField(f) then c.Obj? && Get(c, "address").Obj?
    else c.Obj?
  }

  /** What the schema accepts at each position, read off the declarations. */
  predicate AcceptsAt(f: Field, v: Value, isEmail: string -> bool) {
    match f
    case Root => v.Obj?
    case AddressObject => v.Obj?
    case Email => v.Str? && isEmail(v.s)
    case Line2 => v.Missing? || v.Str?
    case Country => v.Str?
    case ZipCode => v.Str? && IsZipCode(Trim(v.s))
    case _ => v.Str? && |v.s| >= 1
  }

  predicate FailsAt(c: Value, f: Field, isEmail: string -> bool) {
    Reached(c, f) && !AcceptsAt(f, ValueAt(c, f), isEmail)
  }

  /** The paths of the positions of fs at which the candidate breaks the schema. */
  function FailingPathsIn(c: Value, fs: seq<Field>, isEmail: string -> bool): set<Path> {
    set j | 0 <= j < |fs| && FailsAt(c, fs[j], isEmail) :: PathOf(fs[j])
  }

  /** The paths at which the candidate breaks the schema. */
  function FailingPaths(c: Value, isEmail: string -> bool): set<Path> {
    FailingPathsIn(c, SchemaFields, isEmail)
  }

  function PathsOf(issues: seq<Issue>): set<Path> {
    set i | 0 <= i < |issues| :: issues[i].path
  }

  /** The schema's own message for a position whose value is a string. */
  function MessageFor(f: Field): string {
    match f
    case Name => NameMessage
    case Email => EmailMessage
    case Line1 => Line1Message
    case Street => StreetMessage
    case City => CityMessage
    case State => StateMessage
    case ZipCode => ZipMessage
    case _ => ""
  }

  /** The message zod reports at a failing position: its own type message
      when the value has the wrong type, the schema's message otherwise. */
  function ExpectedMessage(f: Field, v: Value): Message {
    if v.Str? && !f.Root? && !f.AddressObject? then Custom(MessageFor(f)) else InvalidType
  }

  /** The issue zod reports at one position: one issue when it fails. */
  function IssueAt(c: Value, f: Field, isEmail: string -> bool): seq<Issue> {
    if FailsAt(c, f, isEmail) then [Issue(PathOf(f), ExpectedMessage(f, ValueAt(c, f)))] else []
  }

  /** issue is the one some failing position calls for. */
  ghost predicate IsExpectedIssue(c: Value, issue: Issue, isEmail: string -> bool) {
    exists f :: FailsAt(c, f, isEmail) && issue == Issue(PathOf(f), ExpectedMessage(f, ValueAt(c, f)))
  }

  /** The issues of the positions of fs from index i on, in order. */
  function IssuesFrom(c: Value, fs: seq<Field>, i: nat, isEmail: string -> bool): seq<Issue>
    requires i <= |fs|
    decreases |fs| - i
  {
    if i == |fs| then [] else IssueAt(c, fs[i], isEmail) + IssuesFrom(c, fs, i + 1, isEmail)
  }

  /** One issue per failing position, in schema order. */
  function ExpectedIssues(c: Value, isEmail: string -> bool): seq<Issue> {
    IssuesFrom(c, SchemaFields, 0, isEmail)
  }

  predicate NonEmptyString(v: Value) {
    v.Str? && |v.s| >= 1
  }

  /** AddressSchema's conditions written out field by field: required strings
      of length at least one (untrimmed), an absent or string line2, any string
      as country, and a ZIP code that matches after trimming. */
  predicate AddressAcceptable(a: Value) {
    && a.Obj?
    && NonEmptyString(Get(a, "line1"))
    && (Get(a, "line2").Missing? || Get(a, "line2").Str?)
    && NonEmptyString(Get(a, "street"))
    && NonEmptyString(Get(a, "city"))
    && NonEmptyString(Get(a, "state"))
    && Get(a, "country").Str?
    && Get(a, "zipCode").Str? && IsZipCode(Trim(Get(a, "zipCode").s))
  }

  /** FormSchema's conditions: an object with a non-empty name, an email that
      passes the email check and an acceptable address. */
  predicate Acceptable(c: Value, isEmail: string -> bool) {
    && c.Obj?
    && NonEmptyString(Get(c, "name"))
    && Get(c, "email").Str? && isEmail(Get(c, "email").s)
    && AddressAcceptable(Get(c, "address"))
  }

  // ---------- lemmas ----------

  // Regroupings of issue lists, stated over plain sequence variables so that
  // the lemmas below use them without re-deriving them on the schema's
  // concrete issue lists.

  lemma ConcatFive(a: seq<Issue>, b: seq<Issue>, c: seq<Issue>, d: seq<Issue>, e: seq<Issue>)
    ensures a + (b + (c + (d + e))) == a + b + c + d + e
  {
  }

  lemma DropEmpty(a: seq<Issue>, b: seq<Issue>, c: seq<Issue>)
    ensures [] + a + b + c + [] == a + b + c
  {
  }

  lemma ConcatSeven(a: seq<Issue>, b: seq<Issue>, c: seq<Issue>, d: seq<Issue>, e: seq<Issue>, f: seq<Issue>, g: seq<Issue>)
    ensures a + (b + (c + (d + (e + (f + (g + [])))))) == a + b + c + d + e + f + g
  {
  }

  /** The expected issues of the form's own positions, then the address's. */
  lemma FormIssues(c: Value, isEmail: string -> bool)
    ensures ExpectedIssues(c, isEmail)
      == IssueAt(c, Root, isEmail) + IssueAt(c, Name, isEmail) + IssueAt(c, Email, isEmail)
         + IssueAt(c, AddressObject, isEmail) + IssuesFrom(c, SchemaFields, 4, isEmail)
  {
    assert IssuesFrom(c, SchemaFields, 0, isEmail) == IssueAt(c, Root, isEmail) + IssuesFrom(c, SchemaFields, 1, isEmail);
    assert IssuesFrom(c, SchemaFields, 1, isEmail) == IssueAt(c, Name, isEmail) + IssuesFrom(c, SchemaFields, 2, isEmail);
    assert IssuesFrom(c, SchemaFields, 2, isEmail) == IssueAt(c, Email, isEmail) + IssuesFrom(c, SchemaFields, 3, isEmail);
    assert IssuesFrom(c, SchemaFields, 3, isEmail) == IssueAt(c, AddressObject, isEmail) + IssuesFrom(c, SchemaFields, 4, isEmail);
    ConcatFive(IssueAt(c, Root, isEmail), IssueAt(c, Name, isEmail), IssueAt(c, Email, isEmail),
               IssueAt(c, AddressObject, isEmail), IssuesFrom(c, SchemaFields, 4, isEmail));
  }

  /** The expected issues of the address's positions. */
  lemma AddressIssues(c: Value, isEmail: string -> bool)
    ensures IssuesFrom(c, SchemaFields, 4, isEmail)
      == IssueAt(c, Line1, isEmail) + IssueAt(c, Line2, isEmail) + IssueAt(c, Street, isEmail)
         + IssueAt(c, City, isEmail) + IssueAt(c, State, isEmail) + IssueAt(c, Country, isEmail)
         + IssueAt(c, ZipCode, isEmail)
  {
    assert IssuesFrom(c, SchemaFields, 4, isEmail) == IssueAt(c, Line1, isEmail) + IssuesFrom(c, SchemaFields, 5, isEmail);
    assert IssuesFrom(c, SchemaFields, 5, isEmail) == IssueAt(c, Line2, isEmail) + IssuesFrom(c, SchemaFields, 6, isEmail);
    assert IssuesFrom(c, SchemaFields, 6, isEmail) == IssueAt(c, Street, isEmail) + IssuesFrom(c, SchemaFields, 7, isEmail);
    assert IssuesFrom(c, SchemaFields, 7, isEmail) == IssueAt(c, City, isEmail) + IssuesFrom(c, SchemaFields, 8, isEmail);
    assert IssuesFrom(c, SchemaFields, 8, isEmail) == IssueAt(c, State, isEmail) + IssuesFrom(c, SchemaFields, 9, isEmail);
    assert IssuesFrom(c, SchemaFields, 9, isEmail) == IssueAt(c, Country, isEmail) + IssuesFrom(c, SchemaFields, 10, isEmail);
    assert IssuesFrom(c, SchemaFields, 10, isEmail) == IssueAt(c, ZipCode, isEmail) + IssuesFrom(c, SchemaFields, 11, isEmail);
    ConcatSeven(IssueAt(c, Line1, isEmail), IssueAt(c, Line2, isEmail), IssueAt(c, Street, isEmail),
                IssueAt(c, City, isEmail), IssueAt(c, State, isEmail), IssueAt(c, Country, isEmail),
                IssueAt(c, ZipCode, isEmail));
  }

  /** Below a value that is not an object, no address position is reached. */
  lemma UnreachedAddressFields(c: Value, isEmail: string -> bool)
    requires !(c.Obj? && Get(c, "address").Obj?)
    ensures && IssueAt(c, Line1, isEmail) == [] && IssueAt(c, Line2, isEmail) == []
            && IssueAt(c, Street, isEmail) == [] && IssueAt(c, City, isEmail) == []
            && IssueAt(c, State, isEmail) == [] && IssueAt(c, Country, isEmail) == []
            && IssueAt(c, ZipCode, isEmail) == []
  {
  }

  /** Below a value that is not an object, nothing is reported. */
  lemma UnreachedAddressIssues(c: Value, isEmail: string -> bool)
    requires !(c.Obj? && Get(c, "address").Obj?)
    ensures IssuesFrom(c, SchemaFields, 4, isEmail) == []
  {
    AddressIssues(c, isEmail);
    UnreachedAddressFields(c, isEmail);
  }

  /** The expected issues of the form's own positions, property by property. */
  lemma FormFieldIssues(c: Value, isEmail: string -> bool)
    requires c.Obj?
    ensures && IssueAt(c, Root, isEmail) == []
            && IssueAt(c, Name, isEmail) == RequiredString(Get(c, "name"), ["name"], NameMessage).Issues()
            && IssueAt(c, Email, isEmail) == EmailString(Get(c, "email"), ["email"], isEmail).Issues()
            && IssueAt(c, AddressObject, isEmail)
               == if Get(c, "address").Obj? then [] else [Issue(["address"], InvalidType)]
  {
    RequiredIssue(c, Name, isEmail);
  }

  /** The expected issues of the address's required strings. */
  lemma AddressRequiredIssues(c: Value, isEmail: string -> bool)
    requires c.Obj? && Get(c, "address").Obj?
    ensures var a := Get(c, "address");
      && IssueAt(c, Line1, isEmail) == RequiredString(Get(a, "line1"), ["address", "line1"], Line1Message).Issues()
      && IssueAt(c, Street, isEmail) == RequiredString(Get(a, "street"), ["address", "street"], StreetMessage).Issues()
      && IssueAt(c, City, isEmail) == RequiredString(Get(a, "city"), ["address", "city"], CityMessage).Issues()
      && IssueAt(c, State, isEmail) == RequiredString(Get(a, "state"), ["address", "state"], StateMessage).Issues()
  {
    RequiredIssue(c, Line1, isEmail);
    RequiredIssue(c, Street, isEmail);
    RequiredIssue(c, City, isEmail);
    RequiredIssue(c, State, isEmail);
  }

  /** The expected issues of the address's other properties. */
  lemma AddressOtherIssues(c: Value, isEmail: string -> bool)
    requires c.Obj? && Get(c, "address").Obj?
    ensures var a := Get(c, "address");
      && IssueAt(c, Line2, isEmail) == OptionalString(Get(a, "line2"), ["address", "line2"]).Issues()
      && IssueAt(c, Country, isEmail) == AnyString(Get(a, "country"), ["address", "country"]).Issues()
      && IssueAt(c, ZipCode, isEmail) == ZipString(Get(a, "zipCode"), ["address", "zipCode"]).Issues()
  {
  }

  lemma NonObjectReportsExactly(c: Value, isEmail: string -> bool)
    requires !c.Obj?
    ensures Validate(c, isEmail) == Err(ExpectedIssues(c, isEmail))
  {
    FormIssues(c, isEmail);
    UnreachedAddressIssues(c, isEmail);
  }

  /** With an address that is not an object, safeParse reports the name's
      and the email's issues and one type issue at "address". */
  lemma ValidateNonObjectAddress(c: Value, isEmail: string -> bool)
    requires c.Obj? && !Get(c, "address").Obj?
    ensures Validate(c, isEmail) == Err(RequiredString(Get(c, "name"), ["name"], NameMessage).Issues()
      + EmailString(Get(c, "email"), ["email"], isEmail).Issues() + [Issue(["address"], InvalidType)])
  {
    assert ValidateAddress(Get(c, "address")) == Fail([Issue(["address"], InvalidType)]);
  }

  lemma ExpectedNonObjectAddress(c: Value, isEmail: string -> bool)
    requires c.Obj? && !Get(c, "address").Obj?
    ensures ExpectedIssues(c, isEmail) == RequiredString(Get(c, "name"), ["name"], NameMessage).Issues()
      + EmailString(Get(c, "email"), ["email"], isEmail).Issues() + [Issue(["address"], InvalidType)]
  {
    FormIssues(c, isEmail);
    UnreachedAddressIssues(c, isEmail);
    FormFieldIssues(c, isEmail);
    DropEmpty(RequiredString(Get(c, "name"), ["name"], NameMessage).Issues(),
      EmailString(Get(c, "email"), ["email"], isEmail).Issues(), [Issue(["address"], InvalidType)]);
  }

  lemma NonObjectAddressReportsExactly(c: Value, isEmail: string -> bool)
    requires c.Obj? && !Get(c, "address").Obj?
    ensures Validate(c, isEmail) == Err(ExpectedIssues(c, isEmail))
  {
    ValidateNonObjectAddress(c, isEmail);
    ExpectedNonObjectAddress(c, isEmail);
  }

  /** At a reached position that holds a required string, the expected issue
      is the one z.string().min(1, message) reports. */
  lemma RequiredIssue(c: Value, f: Field, isEmail: string -> bool)
    requires f.Name? || f.Line1? || f.Street? || f.City? || f.State?
    requires Reached(c, f)
    ensures IssueAt(c, f, isEmail) == RequiredString(ValueAt(c, f), PathOf(f), MessageFor(f)).Issues()
  {
  }

  /** An object address fails with its properties' issues, in order, and
      passes exactly when there are none. */
  lemma ValidateAddressIssues(a: Value)
    requires a.Obj?
    ensures var r := ValidateAddress(a);
      && r.Issues()
         == RequiredString(Get(a, "line1"), ["address", "line1"], Line1Message).Issues()
          + OptionalString(Get(a, "line2"), ["address", "line2"]).Issues()
          + RequiredString(Get(a, "street"), ["address", "street"], StreetMessage).Issues()
          + RequiredString(Get(a, "city"), ["address", "city"], CityMessage).Issues()
          + RequiredString(Get(a, "state"), ["address", "state"], StateMessage).Issues()
          + AnyString(Get(a, "country"), ["address", "country"]).Issues()
          + ZipString(Get(a, "zipCode"), ["address", "zipCode"]).Issues()
      && (r.Pass? <==> r.Issues() == [])
  {
  }

  /** For an object address, the address schema reports exactly the expected
      issues of the address's positions. */
  lemma AddressIssuesMatch(c: Value, isEmail: string -> bool)
    requires c.Obj? && Get(c, "address").Obj?
    ensures var r := ValidateAddress(Get(c, "address"));
      && IssuesFrom(c, SchemaFields, 4, isEmail) == r.Issues()
      && (r.Pass? <==> r.Issues() == [])
  {
    AddressIssues(c, isEmail);
    AddressRequiredIssues(c, isEmail);
    AddressOtherIssues(c, isEmail);
    ValidateAddressIssues(Get(c, "address"));
  }

  lemma DropEmptyAddress(a: seq<Issue>, b: seq<Issue>, d: seq<Issue>)
    ensures [] + a + b + [] + d == a + b + d
  {
  }

  lemma FormIssuesMatch(c: Value, isEmail: string -> bool)
    requires c.Obj? && Get(c, "address").Obj?
    ensures ExpectedIssues(c, isEmail)
      == RequiredString(Get(c, "name"), ["name"], NameMessage).Issues()
         + EmailString(Get(c, "email"), ["email"], isEmail).Issues()
         + ValidateAddress(Get(c, "address")).Issues()
  {
    FormIssues(c, isEmail);
    AddressIssuesMatch(c, isEmail);
    FormFieldIssues(c, isEmail);
    DropEmptyAddress(RequiredString(Get(c, "name"), ["name"], NameMessage).Issues(),
      EmailString(Get(c, "email"), ["email"], isEmail).Issues(), ValidateAddress(Get(c, "address")).Issues());
  }

  lemma ObjectAddressReportsExactly(c: Value, isEmail: string -> bool)
    requires c.Obj? && Get(c, "address").Obj?
    ensures Validate(c, isEmail).Ok? <==> ExpectedIssues(c, isEmail) == []
    ensures Validate(c, isEmail).Err? ==> Validate(c, isEmail).issues == ExpectedIssues(c, isEmail)
  {
    FormIssuesMatch(c, isEmail);
    AddressIssuesMatch(c, isEmail);
    var name := RequiredString(Get(c, "name"), ["name"], NameMessage);
    var email := EmailString(Get(c, "email"), ["email"], isEmail);
    assert name.Pass? <==> name.Issues() == [];
    assert email.Pass? <==> email.Issues() == [];
  }

  /** safeParse reports exactly the expected issues: it succeeds when no path
      of the schema fails, and otherwise lists one issue per failing path, in
      schema order, with that path's message. */
  lemma ValidateReportsExactly(c: Value, isEmail: string -> bool)
    ensures Validate(c, isEmail).Ok? <==> ExpectedIssues(c, isEmail) == []
    ensures Validate(c, isEmail).Err? ==> Validate(c, isEmail).issues == ExpectedIssues(c, isEmail)
  {
    if !c.Obj? {
      NonObjectReportsExactly(c, isEmail);
    } else if !Get(c, "address").Obj? {
      NonObjectAddressReportsExactly(c, isEmail);
    } else {
      ObjectAddressReportsExactly(c, isEmail);
    }
  }

  /** The address schema passes exactly when every condition on the address
      holds. */
  lemma ValidateAddressPassesIff(a: Value)
    ensures ValidateAddress(a).Pass? <==> AddressAcceptable(a)
  {
  }

  /** Validation succeeds exactly when every condition of the schema holds. */
  lemma ValidateSucceedsIff(c: Value, isEmail: string -> bool)
    ensures Validate(c, isEmail).Ok? <==> Acceptable(c, isEmail)
  {
    ValidateAddressPassesIff(Get(c, "address"));
  }

  /** On success every field but the ZIP code is returned exactly as given,
      line2 is None exactly when it was absent, and the ZIP code is the trimmed
      input. */
  lemma ValidateKeepsFields(c: Value, isEmail: string -> bool)
    requires Validate(c, isEmail).Ok?
    ensures var d := Validate(c, isEmail).data;
      var a := Get(c, "address");
      && Str(d.name) == Get(c, "name")
      && Str(d.email) == Get(c, "email")
      && Str(d.address.line1) == Get(a, "line1")
      && (if d.address.line2.Some? then Str(d.address.line2.value) == Get(a, "line2") else Get(a, "line2") == Missing)
      && Str(d.address.street) == Get(a, "street")
      && Str(d.address.city) == Get(a, "city")
      && Str(d.address.state) == Get(a, "state")
      && Str(d.address.country) == Get(a, "country")
      && d.address.zipCode == Trim(Get(a, "zipCode").s)
  {
  }

  /** An accepted ZIP code is five digits, or five digits, '-' and four digits. */
  lemma ZipShape(t: string)
    ensures IsZipCode(t) <==>
      || (|t| == 5 && AllDigits(t))
      || (|t| == 10 && t[5] == '-' && AllDigits(t[..5]) && AllDigits(t[6..]))
  {
    if |t| == 10 && t[5] == '-' && AllDigits(t[..5]) && AllDigits(t[6..]) {
      forall k | 0 <= k < 5 ensures IsAsciiDigit(t[k]) { assert t[..5][k] == t[k]; }
      forall k | 6 <= k < 10 ensures IsAsciiDigit(t[k]) { assert t[6..][k - 6] == t[k]; }
    }
  }

  /** A ZIP code the property schema accepts is trimmed and has one of the
      two accepted shapes. */
  lemma ZipStringShape(v: Value, path: Path)
    requires ZipString(v, path).Pass?
    ensures var z := ZipString(v, path).value;
      && IsTrimmed(z)
      && (|z| == 5 || (|z| == 10 && z[5] == '-'))
      && AllDigits(z[..5])
  {
    var z := ZipString(v, path).value;
    TrimSpec(v.s);
    ZipShape(z);
    if |z| == 5 {
      assert z[..5] == z;
    }
  }

  /** The ZIP code of a successful result is already trimmed and has one of
      the two accepted shapes. */
  lemma AcceptedZipShape(c: Value, isEmail: string -> bool)
    requires Validate(c, isEmail).Ok?
    ensures var z := Validate(c, isEmail).data.address.zipCode;
      && IsTrimmed(z)
      && (|z| == 5 || (|z| == 10 && z[5] == '-'))
      && AllDigits(z[..5])
  {
    var zip := ZipString(Get(Get(c, "address"), "zipCode"), ["address", "zipCode"]);
    assert zip.Pass? && Validate(c, isEmail).data.address.zipCode == zip.value;
    ZipStringShape(Get(Get(c, "address"), "zipCode"), ["address", "zipCode"]);
  }

  /** The address with its country replaced by s. */
  function WithCountry(a: Value, s: string): Value
    requires a.Obj?
  {
    Obj(a.fields["country" := Str(s)])
  }

  lemma WithCountryGet(a: Value, s: string, k: string)
    requires a.Obj?
    ensures Get(WithCountry(a, s), k) == if k == "country" then Str(s) else Get(a, k)
  {
  }

  /** Replacing a string country with any other string changes nothing in
      the address schema's outcome but the country: the country is neither
      normalised nor rejected. */
  lemma AddressCountryIsAnyString(a: Value, s: string)
    requires a.Obj? && Get(a, "country").Str?
    ensures var r, r' := ValidateAddress(a), ValidateAddress(WithCountry(a, s));
      && r'.Pass? == r.Pass?
      && (r.Pass? ==> r'.value == r.value.(country := s))
  {
    var a' := WithCountry(a, s);
    WithCountryGet(a, s, "line1");
    WithCountryGet(a, s, "line2");
    WithCountryGet(a, s, "street");
    WithCountryGet(a, s, "city");
    WithCountryGet(a, s, "state");
    WithCountryGet(a, s, "country");
    WithCountryGet(a, s, "zipCode");
  }

  /** The same for the whole form. */
  lemma CountryIsAnyString(c: Value, s: string, isEmail: string -> bool)
    requires c.Obj? && Get(c, "address").Obj? && Get(Get(c, "address"), "country").Str?
    ensures var c' := Obj(c.fields["address" := WithCountry(Get(c, "address"), s)]);
      var r, r' := Validate(c, isEmail), Validate(c', isEmail);
      && r'.Ok? == r.Ok?
      && (r.Ok? ==> r'.data == r.data.(address := r.data.address.(country := s)))
  {
    var c' := Obj(c.fields["address" := WithCountry(Get(c, "address"), s)]);
    assert Get(c', "name") == Get(c, "name");
    assert Get(c', "email") == Get(c, "email");
    assert Get(c', "address") == WithCountry(Get(c, "address"), s);
    AddressCountryIsAnyString(Get(c, "address"), s);
  }

  lemma {:induction false} IssuesFromEmpty(c: Value, fs: seq<Field>, i: nat, isEmail: string -> bool)
    requires i <= |fs|
    ensures IssuesFrom(c, fs, i, isEmail) == [] <==> forall j :: i <= j < |fs| ==> !FailsAt(c, fs[j], isEmail)
    decreases |fs| - i
  {
    if i < |fs| {
      IssuesFromEmpty(c, fs, i + 1, isEmail);
    }
  }

  /** The k-th issue reported from index i on is the issue of a failing
      position j there. */
  lemma {:induction false} IssueOrigin(c: Value, fs: seq<Field>, i: nat, k: nat, isEmail: string -> bool)
      returns (j: nat)
    requires i <= |fs| && k < |IssuesFrom(c, fs, i, isEmail)|
    ensures i <= j < |fs| && FailsAt(c, fs[j], isEmail)
    ensures IssuesFrom(c, fs, i, isEmail)[k] == IssueAt(c, fs[j], isEmail)[0]
    decreases |fs| - i
  {
    var head, tail := IssueAt(c, fs[i], isEmail), IssuesFrom(c, fs, i + 1, isEmail);
    assert IssuesFrom(c, fs, i, isEmail) == head + tail;
    if k < |head| {
      j := i;
    } else {
      j := IssueOrigin(c, fs, i + 1, k - |head|, isEmail);
    }
  }

  /** A failing position j from index i on is reported, as the k-th issue. */
  lemma {:induction false} IssueOfFailing(c: Value, fs: seq<Field>, i: nat, j: nat, isEmail: string -> bool)
      returns (k: nat)
    requires i <= j < |fs| && FailsAt(c, fs[j], isEmail)
    ensures k < |IssuesFrom(c, fs, i, isEmail)|
    ensures IssuesFrom(c, fs, i, isEmail)[k] == IssueAt(c, fs[j], isEmail)[0]
    decreases |fs| - i
  {
    var head, tail := IssueAt(c, fs[i], isEmail), IssuesFrom(c, fs, i + 1, isEmail);
    assert IssuesFrom(c, fs, i, isEmail) == head + tail;
    if j == i {
      k := 0;
    } else {
      var k' := IssueOfFailing(c, fs, i + 1, j, isEmail);
      k := |head| + k';
    }
  }

  /** Along any fs, each issue is the one its failing position calls for:
      that position's path with the message its value calls for. */
  lemma IssuesCarryMessages(c: Value, fs: seq<Field>, isEmail: string -> bool)
    ensures forall k :: 0 <= k < |IssuesFrom(c, fs, 0, isEmail)| ==>
      IsExpectedIssue(c, IssuesFrom(c, fs, 0, isEmail)[k], isEmail)
  {
    forall k | 0 <= k < |IssuesFrom(c, fs, 0, isEmail)|
      ensures IsExpectedIssue(c, IssuesFrom(c, fs, 0, isEmail)[k], isEmail)
    {
      var j := IssueOrigin(c, fs, 0, k, isEmail);
      var f := fs[j];
      assert FailsAt(c, f, isEmail) && IssuesFrom(c, fs, 0, isEmail)[k] == Issue(PathOf(f), ExpectedMessage(f, ValueAt(c, f)));
    }
  }

  /** Along any fs, the issues' paths are exactly the failing positions'
      paths. */
  lemma IssuesAtFailingPaths(c: Value, fs: seq<Field>, isEmail: string -> bool)
    ensures PathsOf(IssuesFrom(c, fs, 0, isEmail)) == FailingPathsIn(c, fs, isEmail)
  {
    var issues := IssuesFrom(c, fs, 0, isEmail);
    forall p | p in PathsOf(issues) ensures p in FailingPathsIn(c, fs, isEmail) {
      var k :| 0 <= k < |issues| && issues[k].path == p;
      var j := IssueOrigin(c, fs, 0, k, isEmail);
      assert p == PathOf(fs[j]);
    }
    forall p | p in FailingPathsIn(c, fs, isEmail) ensures p in PathsOf(issues) {
      var j :| 0 <= j < |fs| && FailsAt(c, fs[j], isEmail) && PathOf(fs[j]) == p;
      var k := IssueOfFailing(c, fs, 0, j, isEmail);
      assert issues[k].path == p;
    }
  }

  /** A failed validation reports exactly the failing paths, each failing
      field with its own message; none masks another. */
  lemma ValidateIssuesAtFailingPaths(c: Value, isEmail: string -> bool)
    requires Validate(c, isEmail).Err?
    ensures var issues := Validate(c, isEmail).issues;
      && PathsOf(issues) == FailingPaths(c, isEmail)
      && forall k :: 0 <= k < |issues| ==> IsExpectedIssue(c, issues[k], isEmail)
  {
    ValidateReportsExactly(c, isEmail);
    IssuesAtFailingPaths(c, SchemaFields, isEmail);
    IssuesCarryMessages(c, SchemaFields, isEmail);
  }

  /** Along any fs, no issue is reported exactly when no position fails. */
  lemma NoIssuesIffNoFailure(c: Value, fs: seq<Field>, isEmail: string -> bool)
    ensures IssuesFrom(c, fs, 0, isEmail) == [] <==> FailingPathsIn(c, fs, isEmail) == {}
  {
    IssuesFromEmpty(c, fs, 0, isEmail);
    if FailingPathsIn(c, fs, isEmail) == {} {
      forall j | 0 <= j < |fs| ensures !FailsAt(c, fs[j], isEmail) {
        assert PathOf(fs[j]) !in FailingPathsIn(c, fs, isEmail);
      }
    }
  }

  /** Validation succeeds exactly when no position of the schema fails. */
  lemma ValidateSucceedsIffNoFailure(c: Value, isEmail: string -> bool)
    ensures Validate(c, isEmail).Ok? <==> FailingPaths(c, isEmail) == {}
  {
    ValidateReportsExactly(c, isEmail);
    NoIssuesIffNoFailure(c, SchemaFields, isEmail);
  }

  /** An example address without line2. */
  function ExampleAddress(): Value {
    Obj(map[
      "line1" := Str("1 St"), "street" := Str("Main"), "city" := Str("SF"),
      "state" := Str("CA"), "country" := Str("USA"), "zipCode" := Str("94103")])
  }

  /** An example candidate: an empty name and an otherwise complete record. */
  function EmptyNameCandidate(): Value {
    Obj(map["name" := Str(""), "email" := Str("a@b.com"), "address" := ExampleAddress()])
  }

  /** The example address passes: line2 may be absent and a ZIP code without
      white space matches as it is. */
  lemma ExampleAddressPasses()
    ensures ValidateAddress(ExampleAddress()).Pass?
  {
    var a := ExampleAddress();
    ExampleAddressFields();
    TrimOfTrimmed("94103");
    assert IsZipCode("94103");
    assert AddressAcceptable(a);
    ValidateAddressPassesIff(a);
  }

  lemma ExampleAddressFields()
    ensures var a := ExampleAddress();
      && a.Obj?
      && Get(a, "line1") == Str("1 St") && Get(a, "line2") == Missing
      && Get(a, "street") == Str("Main") && Get(a, "city") == Str("SF")
      && Get(a, "state") == Str("CA") && Get(a, "country") == Str("USA")
      && Get(a, "zipCode") == Str("94103")
  {
  }

  /** A candidate whose only fault is an empty name gets exactly the name's
      issue: the other properties are checked and add nothing. */
  lemma OnlyEmptyName(c: Value, isEmail: string -> bool)
    requires c.Obj? && Get(c, "name") == Str("")
    requires Get(c, "email").Str? && isEmail(Get(c, "email").s)
    requires ValidateAddress(Get(c, "address")).Pass?
    ensures Validate(c, isEmail) == Err([Issue(["name"], Custom(NameMessage))])
  {
    var name := RequiredString(Get(c, "name"), ["name"], NameMessage);
    assert name == Fail([Issue(["name"], Custom(NameMessage))]);
    assert EmailString(Get(c, "email"), ["email"], isEmail).Pass?;
    assert Validate(c, isEmail) == Err(name.Issues() + [] + []);
  }

  lemma EmptyNameCandidateFields()
    ensures var c := EmptyNameCandidate();
      && c.Obj? && Get(c, "name") == Str("") && Get(c, "email") == Str("a@b.com")
      && Get(c, "address") == ExampleAddress()
  {
  }

  /** The empty name is the only issue reported for the example candidate. */
  lemma EmptyNameIsTheOnlyIssue(isEmail: string -> bool)
    requires isEmail("a@b.com")
    ensures Validate(EmptyNameCandidate(), isEmail) == Err([Issue(["name"], Custom(NameMessage))])
  {
    EmptyNameCandidateFields();
    ExampleAddressPasses();
    OnlyEmptyName(EmptyNameCandidate(), isEmail);
  }
}

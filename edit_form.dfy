/**
 * The edit form: its initial values, the client-side validation schema and
 * the submit handler that turns the form values into the multipart payload
 * of the update request.
 */
module EditForm {
  import opened Wrappers
  import opened Text
  import opened UserModel

  /** A form value as JavaScript holds it: null, undefined, a string, or a picked file. */
  datatype FieldValue = Null | Undefined | Str(text: string) | Upload(fileName: string)

  /** One key of the form's values object with its value. */
  datatype Entry = Entry(key: string, value: FieldValue)

  /** The keys of the initial values object, in the order they are written. */
  const FormKeys: seq<string> :=
    ["firstName", "lastName", "email", "mobile", "gender", "status", "profile", "location"]

  /** A fetched user's field as the form receives it: a string, or null. */
  function FromStored(v: Option<string>): FieldValue {
    if v.Some? then Str(v.value) else Null
  }

  /** Formik's `initialValues`: the eight stored fields of the fetched user. */
  function InitialValues(u: User): (vs: seq<Entry>)
    ensures |vs| == |FormKeys|
    ensures forall j :: 0 <= j < |vs| ==>
      vs[j].key == FormKeys[j] && vs[j].value == FromStored(UserFieldAt(u, FormKeys[j]))
  {
    [Entry("firstName", Str(u.firstName)), Entry("lastName", Str(u.lastName)),
     Entry("email", Str(u.email)), Entry("mobile", Str(u.mobile)),
     Entry("gender", Str(u.gender)), Entry("status", Str(u.status)),
     Entry("profile", FromStored(u.profile)), Entry("location", Str(u.location))]
  }

  /** `values[key]`: the value stored under `key`, `undefined` when there is none. */
  function ValueOf(vs: seq<Entry>, key: string): (v: FieldValue)
  {
    if vs == [] then Undefined
    else if vs[0].key == key then vs[0].value
    else ValueOf(vs[1..], key)
  }

  /** A value read under `key` that is not undefined is the value of an entry with that key. */
  lemma {:induction false} ValueOfFound(vs: seq<Entry>, key: string)
    ensures ValueOf(vs, key) != Undefined ==>
      exists j :: 0 <= j < |vs| && vs[j] == Entry(key, ValueOf(vs, key))
  {
    if vs != [] && vs[0].key != key {
      ValueOfFound(vs[1..], key);
      if ValueOf(vs, key) != Undefined {
        var j :| 0 <= j < |vs[1..]| && vs[1..][j] == Entry(key, ValueOf(vs, key));
        assert vs[j + 1] == vs[1..][j];
      }
    }
  }

  predicate DistinctKeys(vs: seq<Entry>) {
    forall i, j :: 0 <= i < j < |vs| ==> vs[i].key != vs[j].key
  }

  /** The value of the first entry with a key is the value read under that key. */
  lemma {:induction false} ValueAtIndex(vs: seq<Entry>, j: nat)
    requires j < |vs| && forall i :: 0 <= i < j ==> vs[i].key != vs[j].key
    ensures ValueOf(vs, vs[j].key) == vs[j].value
  {
    if j > 0 {
      assert vs[1..][j - 1] == vs[j];
      ValueAtIndex(vs[1..], j - 1);
    }
  }

  /** A key no entry has reads as undefined. */
  lemma {:induction false} NoKeyUndefined(vs: seq<Entry>, key: string)
    requires forall e :: e in vs ==> e.key != key
    ensures ValueOf(vs, key) == Undefined
  {
    if vs != [] {
      assert vs[0] in vs;
      assert forall e :: e in vs[1..] ==> e in vs;
      NoKeyUndefined(vs[1..], key);
    }
  }

  lemma DistinctTail(vs: seq<Entry>)
    requires vs != [] && DistinctKeys(vs)
    ensures DistinctKeys(vs[1..])
    ensures forall e :: e in vs[1..] ==> e.key != vs[0].key
  {
    var rest := vs[1..];
    forall i, j | 0 <= i < j < |rest| ensures rest[i].key != rest[j].key {
      assert rest[i] == vs[i + 1] && rest[j] == vs[j + 1];
    }
    forall e | e in rest ensures e.key != vs[0].key {
      var j :| 0 <= j < |rest| && rest[j] == e;
      assert vs[j + 1] == e;
    }
  }

  // ---------------------------------------------------------------------------
  // The validation schema

  /** `Yup.string().required()`: a string, and not the empty one. */
  predicate Required(v: FieldValue) {
    v.Str? && v.text != ""
  }

  /** `.matches(/^[0-9]{10}$/)`: exactly ten characters, all decimal digits. */
  predicate MobileDigits(s: string) {
    |s| == 10 && AllDigits(s)
  }

  /**
   * The `validationSchema`: seven required strings, the email also passing
   * Yup's email rule (given here as `isEmail`), the mobile also exactly ten
   * digits. `profile` is not in the schema.
   */
  predicate FormValid(vs: seq<Entry>, isEmail: string -> bool) {
    Required(ValueOf(vs, "firstName")) && Required(ValueOf(vs, "lastName")) &&
    Required(ValueOf(vs, "email")) && isEmail(ValueOf(vs, "email").text) &&
    Required(ValueOf(vs, "mobile")) && MobileDigits(ValueOf(vs, "mobile").text) &&
    Required(ValueOf(vs, "gender")) && Required(ValueOf(vs, "status")) &&
    Required(ValueOf(vs, "location"))
  }

  /** Every mobile the client accepts, the server's unanchored rule accepts too. */
  lemma ClientMobileServerAccepts(s: string)
    requires MobileDigits(s)
    ensures MobileValid(s)
  {
    assert s[0..10] == s;
    assert DigitWindow(s, 0, 10);
  }

  /** The converse fails: eleven digits pass the server's rule but not the client's. */
  lemma ServerMobileClientRejects()
    ensures MobileValid("12345678901") && !MobileDigits("12345678901")
  {
    assert DigitWindow("12345678901", 0, 10);
  }

  // ---------------------------------------------------------------------------
  // The submit handler

  /** A value the submit handler sends: neither null nor undefined. */
  predicate Sent(v: FieldValue) {
    v != Null && v != Undefined
  }

  /** The entries with a value that is neither null nor undefined, in their order. */
  function SentEntries(vs: seq<Entry>): (r: seq<Entry>)
    ensures |r| <= |vs|
  {
    if vs == [] then []
    else (if Sent(vs[0].value) then [vs[0]] else []) + SentEntries(vs[1..])
  }

  /** The payload holds exactly the entries whose value is neither null nor undefined. */
  lemma {:induction false} SentMembers(vs: seq<Entry>)
    ensures forall e :: e in SentEntries(vs) <==> e in vs && Sent(e.value)
  {
    if vs != [] {
      SentMembers(vs[1..]);
      assert vs == [vs[0]] + vs[1..];
    }
  }

  lemma {:induction false} SentEntriesAppend(vs: seq<Entry>, e: Entry)
    ensures SentEntries(vs + [e]) == SentEntries(vs) + (if Sent(e.value) then [e] else [])
  {
    if vs != [] {
      assert (vs + [e])[1..] == vs[1..] + [e];
      SentEntriesAppend(vs[1..], e);
    } else {
      assert vs + [e] == [e];
    }
  }

  /**
   * `onSubmit`: walk the keys of the values object and append every value
   * that is neither null nor undefined to the form data, unchanged.
   */
  method BuildFormData(values: seq<Entry>) returns (formData: seq<Entry>)
    ensures formData == SentEntries(values)
  {
    formData := [];
    var i := 0;
    while i < |values|
      invariant 0 <= i <= |values|
      invariant formData == SentEntries(values[..i])
    {
      var entry := values[i];
      if entry.value != Null && entry.value != Undefined {
        formData := formData + [entry];
      }
      assert values[..i + 1] == values[..i] + [entry];
      SentEntriesAppend(values[..i], entry);
      i := i + 1;
    }
    assert values[..i] == values;
  }

  /**
   * Key by key: the payload has a value for `key` exactly when the form's
   * value for it is neither null nor undefined, and then it is that value.
   */
  lemma {:induction false} SentByKey(vs: seq<Entry>, key: string)
    requires DistinctKeys(vs)
    ensures ValueOf(SentEntries(vs), key) ==
      (if Sent(ValueOf(vs, key)) then ValueOf(vs, key) else Undefined)
  {
    if vs != [] {
      var rest := vs[1..];
      DistinctTail(vs);
      SentByKey(rest, key);
      var head := if Sent(vs[0].value) then [vs[0]] else [];
      assert SentEntries(vs) == head + SentEntries(rest);
      if Sent(vs[0].value) {
        assert (head + SentEntries(rest))[0] == vs[0];
        assert (head + SentEntries(rest))[1..] == SentEntries(rest);
      } else {
        assert head + SentEntries(rest) == SentEntries(rest);
      }
      if vs[0].key == key {
        NoKeyUndefined(rest, key);
        SentMembers(rest);
        forall e | e in SentEntries(rest) ensures e.key != key {
          assert e in rest;
        }
        NoKeyUndefined(SentEntries(rest), key);
      }
    }
  }

  // ---------------------------------------------------------------------------
  // From the payload to the update request

  /** A string the payload carries under `key`, as a body path. */
  function TextOf(formData: seq<Entry>, key: string): Option<string> {
    match ValueOf(formData, key)
    case Str(t) => Some(t)
    case _ => None
  }

  /** The file the payload carries under `profile`, if any. */
  function FileOf(formData: seq<Entry>): Option<string> {
    match ValueOf(formData, "profile")
    case Upload(name) => Some(name)
    case _ => None
  }

  /**
   * How the multipart payload arrives: each string entry becomes that body
   * path, and a file under `profile` becomes the uploaded file.
   */
  function ReceivedBody(formData: seq<Entry>): Fields {
    Fields(TextOf(formData, "firstName"), TextOf(formData, "lastName"),
           TextOf(formData, "email"), TextOf(formData, "mobile"),
           TextOf(formData, "gender"), TextOf(formData, "status"),
           TextOf(formData, "profile"), TextOf(formData, "location"))
  }

  lemma InitialKeysDistinct(u: User)
    ensures DistinctKeys(InitialValues(u))
  {
    var vs := InitialValues(u);
    forall i, j | 0 <= i < j < |vs| ensures vs[i].key != vs[j].key {
      assert vs[i].key == FormKeys[i] && vs[j].key == FormKeys[j];
    }
  }

  /** The unedited payload read under a form key gives the stored field back, as a string. */
  lemma UneditedField(u: User, j: nat)
    requires j < |FormKeys|
    ensures TextOf(SentEntries(InitialValues(u)), FormKeys[j]) == UserFieldAt(u, FormKeys[j])
    ensures !ValueOf(SentEntries(InitialValues(u)), FormKeys[j]).Upload?
  {
    var vs := InitialValues(u);
    InitialKeysDistinct(u);
    ValueAtIndex(vs, j);
    SentByKey(vs, FormKeys[j]);
  }

  /** A payload that reads as a user's fields under every form key arrives as those fields. */
  lemma BodyOfFields(fd: seq<Entry>, u: User)
    requires forall j :: 0 <= j < |FormKeys| ==> TextOf(fd, FormKeys[j]) == UserFieldAt(u, FormKeys[j])
    ensures ReceivedBody(fd) == Snapshot(u)
  {
    assert TextOf(fd, FormKeys[0]) == Some(u.firstName);
    assert TextOf(fd, FormKeys[1]) == Some(u.lastName);
    assert TextOf(fd, FormKeys[2]) == Some(u.email);
    assert TextOf(fd, FormKeys[3]) == Some(u.mobile);
    assert TextOf(fd, FormKeys[4]) == Some(u.gender);
    assert TextOf(fd, FormKeys[5]) == Some(u.status);
    assert TextOf(fd, FormKeys[6]) == u.profile;
    assert TextOf(fd, FormKeys[7]) == Some(u.location);
  }

  /** The unedited payload arrives as the user's own fields and no file. */
  lemma UneditedBody(u: User)
    ensures FileOf(SentEntries(InitialValues(u))) == None
    ensures ReceivedBody(SentEntries(InitialValues(u))) == Snapshot(u)
  {
    var fd := SentEntries(InitialValues(u));
    forall j | 0 <= j < |FormKeys|
      ensures TextOf(fd, FormKeys[j]) == UserFieldAt(u, FormKeys[j])
    {
      UneditedField(u, j);
    }
    BodyOfFields(fd, u);
    UneditedField(u, 6);
  }

  /**
   * Submitting the form unedited sends back the user's own values and no
   * file: the update passes the server's validators and leaves the user as
   * it was.
   */
  lemma UneditedSubmit(u: User)
    requires UserValid(u)
    ensures FileOf(SentEntries(InitialValues(u))) == None
    ensures UpdateValid(ReceivedBody(SentEntries(InitialValues(u))))
    ensures Merge(u, ReceivedBody(SentEntries(InitialValues(u)))) == u
  {
    UneditedBody(u);
    ValidUserPassesUpdate(u);
    MergeIdentity(u);
  }

  /**
   * The client is stricter than the server: a stored user whose mobile has
   * eleven digits may be valid, yet its unedited form does not validate.
   */
  lemma StoredUserFormRejected(u: User, isEmail: string -> bool)
    requires u.mobile == "12345678901"
    ensures MobileValid(u.mobile)
    ensures !FormValid(InitialValues(u), isEmail)
  {
    MobileExamples(u.mobile);
    var vs := InitialValues(u);
    InitialKeysDistinct(u);
    ValueAtIndex(vs, 3);
  }

  /** Each schema path of the received body is the string read under that key. */
  lemma ReceivedPath(fd: seq<Entry>, p: string)
    requires p in SchemaPaths
    ensures FieldAt(ReceivedBody(fd), p) == TextOf(fd, p)
  {
  }

  /** The client requires every path the server requires. */
  lemma FormRequires(vs: seq<Entry>, isEmail: string -> bool, p: string)
    requires FormValid(vs, isEmail) && p in RequiredPaths
    ensures Required(ValueOf(vs, p))
  {
  }

  /** A required string of the form is sent unchanged. */
  lemma RequiredSent(vs: seq<Entry>, p: string)
    requires DistinctKeys(vs) && Required(ValueOf(vs, p))
    ensures TextOf(SentEntries(vs), p) == Some(ValueOf(vs, p).text)
  {
    SentByKey(vs, p);
  }

  /** The payload built from `vs` arrives with path `p` holding the form's non-empty string. */
  predicate Arrives(vs: seq<Entry>, p: string) {
    var body := ReceivedBody(SentEntries(vs));
    ValueOf(vs, p).Str? && Present(FieldAt(body, p)) && FieldAt(body, p) == Some(ValueOf(vs, p).text)
  }

  /** A path the server requires arrives holding the form's non-empty string. */
  lemma RequiredPayload(vs: seq<Entry>, isEmail: string -> bool, p: string)
    requires DistinctKeys(vs) && FormValid(vs, isEmail) && p in RequiredPaths
    ensures Arrives(vs, p)
  {
    FormRequires(vs, isEmail, p);
    RequiredSent(vs, p);
    ReceivedPath(SentEntries(vs), p);
  }

  /**
   * A form the client accepts reaches the server with all seven required
   * paths present, each holding the form's string.
   */
  lemma ValidFormPayload(vs: seq<Entry>, isEmail: string -> bool)
    requires DistinctKeys(vs) && FormValid(vs, isEmail)
    ensures Arrives(vs, "firstName") && Arrives(vs, "lastName") && Arrives(vs, "email")
    ensures Arrives(vs, "mobile") && Arrives(vs, "gender") && Arrives(vs, "status")
    ensures Arrives(vs, "location")
  {
    RequiredPayload(vs, isEmail, "firstName");
    RequiredPayload(vs, isEmail, "lastName");
    RequiredPayload(vs, isEmail, "email");
    RequiredPayload(vs, isEmail, "mobile");
    RequiredPayload(vs, isEmail, "gender");
    RequiredPayload(vs, isEmail, "status");
    RequiredPayload(vs, isEmail, "location");
  }

  /** The mobile of a form the client accepts arrives and passes the server's rule. */
  lemma ValidFormMobile(vs: seq<Entry>, isEmail: string -> bool)
    requires DistinctKeys(vs) && FormValid(vs, isEmail)
    ensures var m := FieldAt(ReceivedBody(SentEntries(vs)), "mobile");
      Present(m) && MobileValid(m.value)
  {
    RequiredPayload(vs, isEmail, "mobile");
    var t := ValueOf(vs, "mobile").text;
    assert MobileDigits(t);
    ClientMobileServerAccepts(t);
  }
}

/**
 * The user schema: the stored document, the request fields that may be
 * supplied for it, and the schema's field rules (`required`, `enum` and the
 * two `validate` functions). Uniqueness of `email` is a property of the
 * collection, not of one document; it lives with the store.
 */
module UserModel {
  import opened Wrappers
  import opened Text
  import Email

  /** The store-assigned document identifier. */
  type Id = nat

  /** A stored user: every required path holds a string, `profile` may be null. */
  datatype User = User(
    id: Id,
    firstName: string,
    lastName: string,
    email: string,
    mobile: string,
    gender: string,
    status: string,
    profile: Option<string>,
    location: string)

  /** Values for the schema's paths as a request carries them: each one may be absent. */
  datatype Fields = Fields(
    firstName: Option<string>,
    lastName: Option<string>,
    email: Option<string>,
    mobile: Option<string>,
    gender: Option<string>,
    status: Option<string>,
    profile: Option<string>,
    location: Option<string>)

  /** The schema's paths, in declaration order. */
  const SchemaPaths: seq<string> :=
    ["firstName", "lastName", "email", "mobile", "gender", "status", "profile", "location"]

  /** The paths declared with `required: true`: all of them except `profile`. */
  const RequiredPaths: seq<string> :=
    ["firstName", "lastName", "email", "mobile", "gender", "status", "location"]

  /** The value a request gives for `path`; `None` when absent or not a schema path. */
  function FieldAt(f: Fields, path: string): Option<string> {
    match path
    case "firstName" => f.firstName
    case "lastName" => f.lastName
    case "email" => f.email
    case "mobile" => f.mobile
    case "gender" => f.gender
    case "status" => f.status
    case "profile" => f.profile
    case "location" => f.location
    case _ => None
  }

  /** The value a stored user holds for `path`; `None` for a null `profile` or an unknown path. */
  function UserFieldAt(u: User, path: string): Option<string> {
    match path
    case "firstName" => Some(u.firstName)
    case "lastName" => Some(u.lastName)
    case "email" => Some(u.email)
    case "mobile" => Some(u.mobile)
    case "gender" => Some(u.gender)
    case "status" => Some(u.status)
    case "profile" => u.profile
    case "location" => Some(u.location)
    case _ => None
  }

  /** A stored user read back as request fields. */
  function Snapshot(u: User): (f: Fields)
    ensures forall p :: p in SchemaPaths ==> FieldAt(f, p) == UserFieldAt(u, p)
  {
    Fields(Some(u.firstName), Some(u.lastName), Some(u.email), Some(u.mobile),
           Some(u.gender), Some(u.status), u.profile, Some(u.location))
  }

  // ---------------------------------------------------------------------------
  // Field rules

  /** Mongoose's `required` check on a String path: present and not the empty string. */
  predicate Present(v: Option<string>) {
    v.Some? && v.value != ""
  }

  /** `enum: ['Male', 'Female']` */
  predicate GenderValid(g: string) {
    g == "Male" || g == "Female"
  }

  /** `enum: ['Active', 'Inactive']` */
  predicate StatusValid(s: string) {
    s == "Active" || s == "Inactive"
  }

  /** `m` has `n` decimal digits in a row starting at position `i`. */
  predicate DigitWindow(m: string, i: nat, n: nat) {
    i + n <= |m| && AllDigits(m[i..i + n])
  }

  /** The mobile validator `/\d{10}/.test(v)`: unanchored, so ten digits in a row anywhere. */
  predicate MobileValid(m: string) {
    exists i: nat | i <= |m| :: DigitWindow(m, i, 10)
  }

  /** The `validate`/`enum` rules of a path; a path without one accepts any string. */
  predicate PathRule(path: string, v: string) {
    match path
    case "email" => Email.Matches(v)
    case "mobile" => MobileValid(v)
    case "gender" => GenderValid(v)
    case "status" => StatusValid(v)
    case _ => true
  }

  /**
   * Validation of a whole document before it is saved: every required path
   * is present, and every path that holds a value passes that path's rules.
   */
  predicate DocumentValid(f: Fields) {
    (forall p :: p in RequiredPaths ==> Present(FieldAt(f, p))) &&
    (forall p :: p in SchemaPaths && FieldAt(f, p).Some? ==> PathRule(p, FieldAt(f, p).value))
  }

  /**
   * Validation of an update with `runValidators`: only the supplied paths
   * are checked; a supplied required path must not be empty, and every
   * supplied value passes its path's rules.
   */
  predicate UpdateValid(f: Fields) {
    forall p :: p in SchemaPaths && FieldAt(f, p).Some? ==>
      (p in RequiredPaths ==> FieldAt(f, p).value != "") && PathRule(p, FieldAt(f, p).value)
  }

  /** A stored user satisfies the schema. */
  predicate UserValid(u: User) {
    DocumentValid(Snapshot(u))
  }

  // ---------------------------------------------------------------------------
  // Building and updating documents

  /** The `profile` a create or update stores for an uploaded file, or null without one. */
  function ProfilePath(file: Option<string>): (p: Option<string>)
    ensures p.Some? <==> file.Some?
    ensures file.Some? ==> p.value == "/public/uploads/" + file.value
  {
    match file
    case Some(name) => Some("/public/uploads/" + name)
    case None => None
  }

  /** The user a valid document becomes once the store has given it `id`. */
  function Materialize(id: Id, f: Fields): (u: User)
    requires DocumentValid(f)
    ensures u.id == id && Snapshot(u) == f
  {
    ValidHasFieldRules(f);
    User(id, f.firstName.value, f.lastName.value, f.email.value, f.mobile.value,
         f.gender.value, f.status.value, f.profile, f.location.value)
  }

  /** Each supplied path of `patch` overwrites the stored value; the others stay. */
  function Merge(u: User, patch: Fields): User {
    User(u.id,
      if patch.firstName.Some? then patch.firstName.value else u.firstName,
      if patch.lastName.Some? then patch.lastName.value else u.lastName,
      if patch.email.Some? then patch.email.value else u.email,
      if patch.mobile.Some? then patch.mobile.value else u.mobile,
      if patch.gender.Some? then patch.gender.value else u.gender,
      if patch.status.Some? then patch.status.value else u.status,
      if patch.profile.Some? then patch.profile else u.profile,
      if patch.location.Some? then patch.location.value else u.location)
  }

  // ---------------------------------------------------------------------------
  // Properties of the rules

  /**
   * The schema table read field by field: a document is valid exactly when
   * the seven required paths are present and non-empty, the email matches
   * the pattern, the mobile holds ten digits in a row, and gender and status
   * are one of their enum values. `profile` plays no part.
   */
  lemma DocumentValidByField(f: Fields)
    ensures DocumentValid(f) <==> FieldRules(f)
  {
    if DocumentValid(f) {
      ValidHasFieldRules(f);
    }
    if FieldRules(f) {
      FieldRulesValid(f);
    }
  }

  /** The schema table written out path by path. */
  predicate FieldRules(f: Fields) {
    Present(f.firstName) && Present(f.lastName) && Present(f.email) &&
    Present(f.mobile) && Present(f.gender) && Present(f.status) && Present(f.location) &&
    Email.Matches(f.email.value) && MobileValid(f.mobile.value) &&
    GenderValid(f.gender.value) && StatusValid(f.status.value)
  }

  lemma ValidHasFieldRules(f: Fields)
    requires DocumentValid(f)
    ensures FieldRules(f)
  {
    var r := RequiredPaths;
    assert Present(FieldAt(f, r[0])) && Present(FieldAt(f, r[1])) && Present(FieldAt(f, r[2]));
    assert Present(FieldAt(f, r[3])) && Present(FieldAt(f, r[4])) && Present(FieldAt(f, r[5]));
    assert Present(FieldAt(f, r[6]));
    var a := SchemaPaths;
    assert PathRule(a[2], FieldAt(f, a[2]).value) && PathRule(a[3], FieldAt(f, a[3]).value);
    assert PathRule(a[4], FieldAt(f, a[4]).value) && PathRule(a[5], FieldAt(f, a[5]).value);
  }

  lemma FieldRulesValid(f: Fields)
    requires FieldRules(f)
    ensures DocumentValid(f)
  {
    forall p | p in RequiredPaths ensures Present(FieldAt(f, p)) {
    }
    forall p | p in SchemaPaths && FieldAt(f, p).Some? ensures PathRule(p, FieldAt(f, p).value) {
    }
  }

  /** The update validators written out path by path: each supplied value obeys its path's rules. */
  predicate PatchRules(f: Fields) {
    (f.firstName.Some? ==> f.firstName.value != "") &&
    (f.lastName.Some? ==> f.lastName.value != "") &&
    (f.email.Some? ==> f.email.value != "" && Email.Matches(f.email.value)) &&
    (f.mobile.Some? ==> f.mobile.value != "" && MobileValid(f.mobile.value)) &&
    (f.gender.Some? ==> GenderValid(f.gender.value)) &&
    (f.status.Some? ==> StatusValid(f.status.value)) &&
    (f.location.Some? ==> f.location.value != "")
  }

  lemma UpdateHasPatchRules(f: Fields)
    requires UpdateValid(f)
    ensures PatchRules(f)
  {
    var a := SchemaPaths;
    assert FieldAt(f, a[0]) == f.firstName && FieldAt(f, a[1]) == f.lastName;
    assert FieldAt(f, a[2]) == f.email && FieldAt(f, a[3]) == f.mobile;
    assert FieldAt(f, a[4]) == f.gender && FieldAt(f, a[5]) == f.status;
    assert FieldAt(f, a[7]) == f.location;
  }

  /** `profile` is optional and unconstrained: changing it never changes validity. */
  lemma ProfileIrrelevant(f: Fields, profile: Option<string>)
    ensures DocumentValid(f) <==> DocumentValid(f.(profile := profile))
  {
    DocumentValidByField(f);
    DocumentValidByField(f.(profile := profile));
  }

  /** Each path of the merged user comes from the patch when supplied, else from the stored user. */
  lemma MergeByPath(u: User, patch: Fields)
    ensures Merge(u, patch).id == u.id
    ensures forall p :: p in SchemaPaths ==>
      UserFieldAt(Merge(u, patch), p) ==
        (if FieldAt(patch, p).Some? then FieldAt(patch, p) else UserFieldAt(u, p))
  {
  }

  /** A valid user updated with a patch that passes the update validators is still valid. */
  lemma MergeKeepsValid(u: User, patch: Fields)
    requires UserValid(u) && UpdateValid(patch)
    ensures UserValid(Merge(u, patch))
  {
    ValidHasFieldRules(Snapshot(u));
    UpdateHasPatchRules(patch);
    FieldRulesValid(Snapshot(Merge(u, patch)));
  }

  /** A valid user's own fields, sent as an update, pass the update validators. */
  lemma ValidUserPassesUpdate(u: User)
    requires UserValid(u)
    ensures UpdateValid(Snapshot(u))
  {
    var f := Snapshot(u);
    forall p | p in SchemaPaths && FieldAt(f, p).Some?
      ensures (p in RequiredPaths ==> FieldAt(f, p).value != "") && PathRule(p, FieldAt(f, p).value)
    {
      if p in RequiredPaths {
        assert Present(FieldAt(f, p));
      }
    }
  }

  /** An empty patch changes nothing, and a patch of a user's own values changes nothing. */
  lemma MergeIdentity(u: User)
    ensures Merge(u, Fields(None, None, None, None, None, None, None, None)) == u
    ensures Merge(u, Snapshot(u)) == u
  {
  }

  // ---------------------------------------------------------------------------
  // The mobile rule

  /** The number of decimal digits at the very end of `s`. */
  function TrailingDigits(s: string): (n: nat)
    ensures n <= |s|
    ensures AllDigits(s[|s| - n..])
    ensures n < |s| ==> !IsDigit(s[|s| - n - 1])
  {
    if s == [] || !IsDigit(s[|s| - 1]) then 0
    else
      var n := TrailingDigits(s[..|s| - 1]);
      DigitsSnoc(s, n);
      1 + n
  }

  /** A digit run ending the text before its last character grows by that character when it is a digit. */
  lemma DigitsSnoc(s: string, n: nat)
    requires n < |s| && AllDigits(s[..|s| - 1][|s| - 1 - n..]) && IsDigit(s[|s| - 1])
    ensures AllDigits(s[|s| - 1 - n..])
  {
    var t := s[|s| - 1 - n..];
    forall k | 0 <= k < |t| ensures IsDigit(t[k]) {
      if k < n {
        assert t[k] == s[..|s| - 1][|s| - 1 - n..][k];
      }
    }
  }

  /** The length of the longest run of decimal digits anywhere in `s`. */
  function LongestDigitRun(s: string): nat {
    if s == [] then 0
    else
      var before := LongestDigitRun(s[..|s| - 1]);
      var here := TrailingDigits(s);
      if before < here then here else before
  }

  lemma {:induction false} WindowInPrefix(s: string, i: nat, n: nat)
    requires |s| > 0 && DigitWindow(s[..|s| - 1], i, n)
    ensures DigitWindow(s, i, n)
  {
    assert s[..|s| - 1][i..i + n] == s[i..i + n];
  }

  lemma {:induction false} TrailingAtLeast(s: string, n: nat)
    requires n <= |s| && AllDigits(s[|s| - n..])
    ensures TrailingDigits(s) >= n
    decreases n
  {
    if n > 0 {
      var p := s[..|s| - 1];
      assert IsDigit(s[|s| - 1]) by {
        assert s[|s| - 1] == s[|s| - n..][n - 1];
      }
      forall k | |p| - (n - 1) <= k < |p| ensures IsDigit(p[k]) {
        assert p[k] == s[|s| - n..][k - (|s| - n)];
      }
      TrailingAtLeast(p, n - 1);
    }
  }

  lemma {:induction false} LongRunHasWindow(s: string, n: nat) returns (i: nat)
    requires n > 0 && LongestDigitRun(s) >= n
    ensures i <= |s| && DigitWindow(s, i, n)
    decreases |s|
  {
    var p := s[..|s| - 1];
    if LongestDigitRun(p) >= n {
      i := LongRunHasWindow(p, n);
      WindowInPrefix(s, i, n);
    } else {
      var t := TrailingDigits(s);
      assert s[|s| - n..] == s[|s| - t..][t - n..];
      i := |s| - n;
    }
  }

  lemma {:induction false} WindowMakesLongRun(s: string, i: nat, n: nat)
    requires n > 0 && DigitWindow(s, i, n)
    ensures LongestDigitRun(s) >= n
    decreases |s|
  {
    var p := s[..|s| - 1];
    if i + n < |s| {
      assert p[i..i + n] == s[i..i + n];
      WindowMakesLongRun(p, i, n);
    } else {
      assert s[|s| - n..] == s[i..i + n];
      TrailingAtLeast(s, n);
    }
  }

  /** The unanchored mobile rule holds exactly when some run of digits is ten or more long. */
  lemma MobileValidIffLongRun(m: string)
    ensures MobileValid(m) <==> LongestDigitRun(m) >= 10
  {
    if MobileValid(m) {
      var i: nat :| i <= |m| && DigitWindow(m, i, 10);
      WindowMakesLongRun(m, i, 10);
    }
    if LongestDigitRun(m) >= 10 {
      var i := LongRunHasWindow(m, 10);
    }
  }

  /**
   * Consequences of the missing anchors: eleven digits pass, ten digits
   * inside other text pass, and anything shorter than ten characters fails.
   */
  lemma MobileExamples(m: string)
    ensures MobileValid("12345678901")
    ensures MobileValid("x1234567890y")
    ensures |m| < 10 ==> !MobileValid(m)
  {
    assert DigitWindow("12345678901", 0, 10);
    assert DigitWindow("x1234567890y", 1, 10);
  }

  // ---------------------------------------------------------------------------
  // The email rule on examples

  /** A dotted address is accepted; the malformed examples are not. */
  lemma EmailExamples()
    ensures Email.Matches("jo.e@ex.com")
    ensures !Email.Matches("not-an-email")
    ensures !Email.Matches("a@b.c")
  {
    var s := "jo.e@ex.com";
    assert Email.Segment("jo") && Email.Step(".e");
    assert s[..4] == "jo.e" && s[..4][..2] == "jo" && s[..4][2..] == ".e";
    assert Email.Segment(s[..4]);
    assert Email.WordRun("ex") && Email.Segment(s[5..7]);
    assert Email.Group(s[7..], 3);
    assert Email.Suffixes(s[7..]);
    assert s[4] == '@';
    Email.RejectsWithoutTld("not-an-email");
    Email.RejectsWithoutTld("a@b.c");
  }
}

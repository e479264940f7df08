/**
 * The request handlers for the user collection: create, paginated list,
 * get, partial update, delete, search and the export column list.
 * The collection is a `Store`: the users in insertion order, which is the
 * natural order listing, search and export return them in, together with
 * the supply of fresh identifiers.
 */
module UsersController {
  import opened Wrappers
  import opened Text
  import opened UserModel
  import JsParse
  import Pagination

  /** Why a request is answered with status 400. */
  datatype Failure =
    | Invalid         // a schema rule failed
    | DuplicateEmail  // the unique index on `email` refused the write
    | MalformedId     // the `:id` parameter does not cast to an identifier

  /** A handler's answer: data with a 2xx status, 404, or 400. */
  datatype Outcome<T> = Done(value: T) | NotFound | BadRequest(reason: Failure)

  /** The HTTP status of an outcome; `success` is 201 for create and 200 everywhere else. */
  function StatusCode<T>(o: Outcome<T>, success: int): int {
    match o
    case Done(_) => success
    case NotFound => 404
    case BadRequest(_) => 400
  }

  /** The `:id` route parameter: an identifier, or text that does not cast to one. */
  datatype IdParam = Wellformed(id: Id) | Malformed

  // ---------------------------------------------------------------------------
  // The collection

  predicate IdsUnique(users: seq<User>) {
    forall i, j :: 0 <= i < j < |users| ==> users[i].id != users[j].id
  }

  /** The unique index on `email`: no two stored users share an address. */
  predicate EmailsUnique(users: seq<User>) {
    forall i, j :: 0 <= i < j < |users| ==> users[i].email != users[j].email
  }

  /**
   * What every write keeps: each stored user satisfies the schema, has an
   * identifier below the next fresh one, and identifiers and emails are unique.
   */
  predicate TableValid(users: seq<User>, nextId: Id) {
    (forall i :: 0 <= i < |users| ==> UserValid(users[i]) && users[i].id < nextId) &&
    IdsUnique(users) && EmailsUnique(users)
  }

  /** The position of the user with identifier `id`; `|users|` when there is none. */
  function IndexOfId(users: seq<User>, id: Id): (k: nat)
    ensures k <= |users|
    ensures k < |users| ==> users[k].id == id
    ensures forall j :: 0 <= j < k ==> users[j].id != id
  {
    if users == [] then 0 else if users[0].id == id then 0 else 1 + IndexOfId(users[1..], id)
  }

  /** Some stored user other than the one at position `except` has address `email`. */
  predicate EmailTaken(users: seq<User>, email: string, except: int) {
    exists j | 0 <= j < |users| :: j != except && users[j].email == email
  }

  // ---------------------------------------------------------------------------
  // Create and update documents

  /** The document a create builds: the seven body paths, and `profile` from the upload only. */
  function NewDocument(body: Fields, file: Option<string>): (doc: Fields)
    ensures forall p :: p in RequiredPaths ==> FieldAt(doc, p) == FieldAt(body, p)
    ensures doc.profile == ProfilePath(file)
  {
    body.(profile := ProfilePath(file))
  }

  /** The update a request asks for: the body's paths, with an uploaded file taking over `profile`. */
  function UpdateData(body: Fields, file: Option<string>): (patch: Fields)
    ensures forall p :: p in RequiredPaths ==> FieldAt(patch, p) == FieldAt(body, p)
    ensures patch.profile == if file.Some? then ProfilePath(file) else body.profile
  {
    if file.Some? then body.(profile := ProfilePath(file)) else body
  }

  // ---------------------------------------------------------------------------
  // Read-only handlers

  /** `getUser`: the user with that identifier, 404 without one, 400 for a malformed one. */
  function GetUser(users: seq<User>, param: IdParam): (o: Outcome<User>)
    ensures o.BadRequest? <==> param.Malformed?
    ensures o.NotFound? <==> param.Wellformed? && forall u :: u in users ==> u.id != param.id
    ensures o.Done? ==> o.value in users && o.value.id == param.id
  {
    match param
    case Malformed => BadRequest(MalformedId)
    case Wellformed(id) =>
      var k := IndexOfId(users, id);
      if k < |users| then Done(users[k]) else NotFound
  }

  /** The body of a list reply: the page of users and the `pagination` object. */
  datatype ListReply = ListReply(data: seq<User>, page: int, limit: int, totalPages: nat, totalUsers: nat)

  /** The reply for one page of the collection once `page` and `limit` are known. */
  function ListPage(users: seq<User>, page: nat, limit: nat): (r: ListReply)
    requires page >= 1 && limit >= 1
    ensures r.page == page && r.limit == limit && r.totalUsers == |users|
    ensures r.data == Pagination.Page(users, page, limit) && |r.data| <= limit
    ensures r.totalPages == Pagination.TotalPages(|users|, limit)
    ensures page > r.totalPages ==> r.data == []
  {
    Pagination.BeyondLastPage(users, page, limit);
    ListReply(Pagination.Page(users, page, limit), page, limit,
              Pagination.TotalPages(|users|, limit), |users|)
  }

  /** `getUsers`: `page` defaults to 1 and `limit` to 5, then one page of the collection. */
  function GetUsers(users: seq<User>, pageQuery: Option<string>, limitQuery: Option<string>): (r: ListReply)
    requires JsParse.QueryNumber(pageQuery, 1) > 0 && JsParse.QueryNumber(limitQuery, 5) > 0
    ensures r.page == JsParse.QueryNumber(pageQuery, 1) && r.limit == JsParse.QueryNumber(limitQuery, 5)
    ensures pageQuery.None? ==> r.page == 1
    ensures limitQuery.None? ==> r.limit == 5
    ensures r.data == Pagination.Page(users, r.page, r.limit) && |r.data| <= r.limit
    ensures r.totalPages == Pagination.TotalPages(|users|, r.limit) && r.totalUsers == |users|
    ensures r.page > r.totalPages ==> r.data == []
  {
    ListPage(users, JsParse.QueryNumber(pageQuery, 1), JsParse.QueryNumber(limitQuery, 5))
  }

  /** The `$or` of three case-insensitive `$regex` conditions, with the key taken literally. */
  predicate SearchHit(u: User, key: string) {
    ContainsIgnoringCase(u.firstName, key) || ContainsIgnoringCase(u.lastName, key) ||
    ContainsIgnoringCase(u.email, key)
  }

  /** `searchUsers`: every user that the condition selects, in natural order, unpaginated. */
  function Search(users: seq<User>, key: string): (r: seq<User>)
    ensures |r| <= |users|
    ensures forall u :: u in r <==> u in users && SearchHit(u, key)
  {
    if users == [] then []
    else
      assert users == [users[0]] + users[1..];
      (if SearchHit(users[0], key) then [users[0]] else []) + Search(users[1..], key)
  }

  /** Each selected user comes back as often as it is stored, and no other user comes back. */
  lemma {:induction false} SearchCounts(users: seq<User>, key: string)
    ensures forall u :: multiset(Search(users, key))[u] == if SearchHit(u, key) then multiset(users)[u] else 0
  {
    if users != [] {
      SearchCounts(users[1..], key);
      assert users == [users[0]] + users[1..];
      assert multiset(users) == multiset([users[0]]) + multiset(users[1..]);
    }
  }

  /** The search keeps the order of the collection: it distributes over concatenation. */
  lemma {:induction false} SearchAppend(a: seq<User>, b: seq<User>, key: string)
    ensures Search(a + b, key) == Search(a, key) + Search(b, key)
  {
    if a == [] {
      assert a + b == b;
    } else {
      assert (a + b)[0] == a[0] && (a + b)[1..] == a[1..] + b;
      SearchAppend(a[1..], b, key);
    }
  }

  /** `Search("smith")` finds a user named Smith whatever the case, and not one named Jones. */
  lemma SearchSmith(smith: User, jones: User)
    requires smith.lastName == "Smith" && jones.firstName == "Ann" && jones.lastName == "Jones"
    requires jones.email == "ann@example.com"
    ensures Search([smith, jones], "smith") == [smith]
  {
    var key := Lower("smith");
    assert key == "smith" && key[0] == 's';
    assert SearchHit(smith, "smith") by {
      assert Lower(smith.lastName) == key;
      assert OccursAt(Lower(smith.lastName), key, 0);
    }
    assert !SearchHit(jones, "smith") by {
      assert Lower(jones.firstName) == "ann";
      FirstCharAbsent("ann", key);
      assert Lower(jones.lastName) == "jones";
      forall i: nat | i <= 5 ensures !OccursAt("jones", key, i) {
        if i == 0 {
          assert "jones"[0..5][0] == 'j';
        }
      }
      assert Lower(jones.email) == "ann@example.com";
      FirstCharAbsent("ann@example.com", key);
    }
    assert [smith, jones][1..] == [jones];
  }

  /** The CSV columns of `exportUsers`, in order; neither the identifier nor `profile` is one. */
  const ExportColumns: seq<string> :=
    ["firstName", "lastName", "email", "mobile", "gender", "status", "location"]

  /** One CSV row: the user's value for each export column. */
  function ExportRow(u: User): (row: seq<string>)
    ensures |row| == |ExportColumns|
    ensures forall j :: 0 <= j < |row| ==> Some(row[j]) == UserFieldAt(u, ExportColumns[j])
  {
    [u.firstName, u.lastName, u.email, u.mobile, u.gender, u.status, u.location]
  }

  /** `exportUsers`: a header of the column names, then one row per user in natural order. */
  function ExportTable(users: seq<User>): (t: seq<seq<string>>)
    ensures |t| == |users| + 1 && t[0] == ExportColumns
    ensures forall i :: 0 <= i < |users| ==> t[i + 1] == ExportRow(users[i])
  {
    [ExportColumns] + seq(|users|, i requires 0 <= i < |users| => ExportRow(users[i]))
  }

  /** The identifier and `profile` never reach the export. */
  lemma ExportOmits(u: User, id: Id, profile: Option<string>)
    ensures "profile" !in ExportColumns && "id" !in ExportColumns && "_id" !in ExportColumns
    ensures ExportRow(u.(id := id, profile := profile)) == ExportRow(u)
  {
  }

  /** Page 2 of twelve users, five per page: five users, three pages, twelve in all. */
  lemma SecondPageOfTwelve(users: seq<User>)
    requires |users| == 12
    ensures JsParse.QueryNumber(Some("2"), 1) == 2 && JsParse.QueryNumber(Some("5"), 5) == 5
    ensures var r := GetUsers(users, Some("2"), Some("5"));
      |r.data| == 5 && r.data == users[5..10] && r.totalPages == 3 && r.totalUsers == 12
  {
    assert JsParse.QueryNumber(Some("2"), 1) == 2 by {
      JsParse.QueryDecimal(2, 1);
      JsParse.OneDigit(2);
      assert ['0' + 2 as char] == "2";
    }
    assert JsParse.QueryNumber(Some("5"), 5) == 5 by {
      JsParse.QueryDecimal(5, 5);
      JsParse.OneDigit(5);
      assert ['0' + 5 as char] == "5";
    }
    Pagination.TwelveByFive(users);
    var p := Pagination.Page(users, 2, 5);
    assert p == users[5..10] by {
      assert |p| == 5;
      forall k | 0 <= k < 5 ensures p[k] == users[5..10][k] {
        assert p[k] == users[(2 - 1) * 5 + k];
      }
    }
    assert GetUsers(users, Some("2"), Some("5")) == ListPage(users, 2, 5);
  }

  // ---------------------------------------------------------------------------
  // Facts about the collection used by the store

  lemma AppendKeepsTable(users: seq<User>, nextId: Id, u: User)
    requires TableValid(users, nextId)
    requires UserValid(u) && u.id == nextId && !EmailTaken(users, u.email, -1)
    ensures TableValid(users + [u], nextId + 1)
  {
    var t := users + [u];
    forall i, j | 0 <= i < j < |t| ensures t[i].email != t[j].email {
      if j == |users| {
        assert !(i != -1 && users[i].email == u.email);
      }
    }
  }

  lemma ReplaceKeepsTable(users: seq<User>, nextId: Id, k: nat, u: User)
    requires TableValid(users, nextId) && k < |users|
    requires UserValid(u) && u.id == users[k].id && !EmailTaken(users, u.email, k)
    ensures TableValid(users[k := u], nextId)
  {
    var t := users[k := u];
    forall i, j | 0 <= i < j < |t| ensures t[i].email != t[j].email {
      if i == k {
        assert !(j != k && users[j].email == u.email);
      } else if j == k {
        assert !(i != k && users[i].email == u.email);
      }
    }
  }

  lemma RemoveKeepsTable(users: seq<User>, nextId: Id, k: nat)
    requires TableValid(users, nextId) && k < |users|
    ensures TableValid(users[..k] + users[k + 1..], nextId)
    ensures forall u :: u in users[..k] + users[k + 1..] ==> u.id != users[k].id
  {
    var t := users[..k] + users[k + 1..];
    forall i | 0 <= i < |t| ensures t[i] == users[if i < k then i else i + 1] {
    }
    forall u | u in t ensures u.id != users[k].id {
      var i :| 0 <= i < |t| && t[i] == u;
      assert t[i] == users[if i < k then i else i + 1];
    }
  }

  // ---------------------------------------------------------------------------
  // The store and its writing handlers

  class Store {
    /** The collection in insertion order. */
    var users: seq<User>
    /** The next identifier the store hands out; larger than every stored one. */
    var nextId: Id

    ghost predicate Valid()
      reads this
    {
      TableValid(users, nextId)
    }

    constructor ()
      ensures Valid() && users == [] && nextId == 0
    {
      users := [];
      nextId := 0;
    }

    /**
     * `createUser`: validate the document, then insert it with a fresh
     * identifier unless its email is taken. Any failure leaves the
     * collection as it was and answers 400.
     */
    method Create(body: Fields, file: Option<string>) returns (o: Outcome<User>)
      requires Valid()
      modifies this
      ensures Valid()
      ensures var doc := NewDocument(body, file);
        (o.Done? <==> DocumentValid(doc) && !EmailTaken(old(users), FieldAt(doc, "email").value, -1)) &&
        (o == BadRequest(Invalid) <==> !DocumentValid(doc)) &&
        (o == BadRequest(DuplicateEmail) <==> DocumentValid(doc) && EmailTaken(old(users), FieldAt(doc, "email").value, -1))
      ensures o.Done? ==>
        var doc := NewDocument(body, file);
        o.value == Materialize(old(nextId), doc) &&
        (forall v :: v in old(users) ==> v.id != o.value.id) &&
        users == old(users) + [o.value]
      ensures !o.Done? ==> users == old(users) && nextId == old(nextId)
    {
      var doc := NewDocument(body, file);
      if !DocumentValid(doc) {
        return BadRequest(Invalid);
      }
      if EmailTaken(users, FieldAt(doc, "email").value, -1) {
        return BadRequest(DuplicateEmail);
      }
      var u := Materialize(nextId, doc);
      assert UserValid(u);
      AppendKeepsTable(users, nextId, u);
      users := users + [u];
      nextId := nextId + 1;
      o := Done(u);
    }

    /**
     * `updateUser`: merge the supplied paths (and an uploaded `profile`)
     * over the stored user and return the new version. A malformed
     * identifier or a patch that fails the update validators answers 400,
     * an unknown identifier 404, a taken email 400; nothing changes then.
     */
    method Update(param: IdParam, body: Fields, file: Option<string>) returns (o: Outcome<User>)
      requires Valid()
      modifies this
      ensures Valid() && nextId == old(nextId)
      ensures var patch := UpdateData(body, file);
        (o == BadRequest(MalformedId) <==> param.Malformed?) &&
        (o == BadRequest(Invalid) <==> param.Wellformed? && !UpdateValid(patch)) &&
        (o.NotFound? <==> param.Wellformed? && UpdateValid(patch) &&
                          forall u :: u in old(users) ==> u.id != param.id)
      ensures o.Done? ==>
        var k := IndexOfId(old(users), param.id);
        var patch := UpdateData(body, file);
        k < |old(users)| && UpdateValid(patch) &&
        o.value == Merge(old(users)[k], patch) && !EmailTaken(old(users), o.value.email, k) &&
        users == old(users)[k := o.value]
      ensures o == BadRequest(DuplicateEmail) ==>
        var k := IndexOfId(old(users), param.id);
        k < |old(users)| && EmailTaken(old(users), Merge(old(users)[k], UpdateData(body, file)).email, k)
      ensures !o.Done? ==> users == old(users)
    {
      if param.Malformed? {
        return BadRequest(MalformedId);
      }
      var patch := UpdateData(body, file);
      if !UpdateValid(patch) {
        return BadRequest(Invalid);
      }
      var k := IndexOfId(users, param.id);
      if k == |users| {
        return NotFound;
      }
      var u := Merge(users[k], patch);
      if EmailTaken(users, u.email, k) {
        return BadRequest(DuplicateEmail);
      }
      MergeKeepsValid(users[k], patch);
      ReplaceKeepsTable(users, nextId, k, u);
      users := users[k := u];
      o := Done(u);
    }

    /**
     * `deleteUser`: remove the user with that identifier. Afterwards no
     * stored user has it, so getting it answers 404; a missing identifier
     * answers 404 and a malformed one 400, and neither changes anything.
     */
    method Delete(param: IdParam) returns (o: Outcome<()>)
      requires Valid()
      modifies this
      ensures Valid() && nextId == old(nextId)
      ensures o.BadRequest? <==> param.Malformed?
      ensures o.NotFound? <==> param.Wellformed? && forall u :: u in old(users) ==> u.id != param.id
      ensures o.Done? ==>
        var k := IndexOfId(old(users), param.id);
        k < |old(users)| && users == old(users)[..k] + old(users)[k + 1..] &&
        GetUser(users, param).NotFound?
      ensures !o.Done? ==> users == old(users)
    {
      if param.Malformed? {
        return BadRequest(MalformedId);
      }
      var k := IndexOfId(users, param.id);
      if k == |users| {
        return NotFound;
      }
      RemoveKeepsTable(users, nextId, k);
      users := users[..k] + users[k + 1..];
      o := Done(());
    }
  }

  // ---------------------------------------------------------------------------
  // Request sequences on a fresh store

  /** Creating the same valid user twice: the first succeeds, the second hits the unique email index. */
  method CreateTwice(body: Fields, file: Option<string>) returns (first: Outcome<User>, second: Outcome<User>)
    requires DocumentValid(NewDocument(body, file))
    ensures first.Done? && first.value.id == 0 && StatusCode(first, 201) == 201
    ensures second == BadRequest(DuplicateEmail) && StatusCode(second, 201) == 400
  {
    var store := new Store();
    first := store.Create(body, file);
    assert first.Done? by {
      assert !EmailTaken([], FieldAt(NewDocument(body, file), "email").value, -1);
    }
    assert store.users == [first.value];
    second := store.Create(body, file);
    var doc := NewDocument(body, file);
    assert Snapshot(first.value) == doc;
    assert FieldAt(doc, "email") == doc.email == Some(first.value.email);
    assert [first.value][0].email == FieldAt(doc, "email").value;
    assert EmailTaken([first.value], FieldAt(doc, "email").value, -1);
  }

  /** Create, delete, then get: the deleted user answers 404, and deleting it again does too. */
  method CreateDeleteGet(body: Fields, file: Option<string>)
    returns (created: Outcome<User>, deleted: Outcome<()>, fetched: Outcome<User>, again: Outcome<()>)
    requires DocumentValid(NewDocument(body, file))
    ensures created.Done? && deleted.Done?
    ensures fetched == NotFound
    ensures again == NotFound
  {
    var store := new Store();
    created := store.Create(body, file);
    assert created.Done? by {
      assert !EmailTaken([], FieldAt(NewDocument(body, file), "email").value, -1);
    }
    var u := created.value;
    var id := Wellformed(u.id);
    assert store.users == [u];
    assert IndexOfId(store.users, u.id) == 0;
    deleted := store.Delete(id);
    assert store.users == [] by {
      assert deleted.Done?;
    }
    fetched := GetUser(store.users, id);
    again := store.Delete(id);
  }
}

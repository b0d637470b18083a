/** The handlers of kings_server/views.py over an in-memory store: the "user" and "cars"
    collections are sequences of documents in insertion order inside one `Store` object.
    Request parsing, responses and templates are left to the caller: each handler takes the
    posted values it reads and returns what the source would put in its response. */
module Views {
  import opened Wrappers
  import opened Utf8
  import opened Schema
  import opened Collections
  import Security

  /** A document of the "user" collection. */
  datatype User = User(id: Id, username: string, password: string)

  /** The three statuses of `check_login`. */
  datatype LoginStatus = UserNotMatch | Nice | IncorrectPass

  /** What the POST branch of `main` answers: the VIN error, the validation errors keyed by
      field, or the car listing rendered after the insert. */
  datatype MainOutcome = VinNotUnique | Invalid(errors: map<string, FieldError>) | Listed(cars: seq<Document>)

  /** `users[i]` is the first user named `username`. */
  predicate IsFirstNamed(users: seq<User>, i: int, username: string) {
    0 <= i < |users| && users[i].username == username &&
    forall j :: 0 <= j < i ==> users[j].username != username
  }

  /** `find_one({'username': username})`: the first user with that name. */
  function FindUser(users: seq<User>, username: string): (r: Option<User>)
    ensures r.None? <==> forall u :: u in users ==> u.username != username
    ensures r.Some? ==> exists i :: IsFirstNamed(users, i, username) && users[i] == r.value
  {
    if users == [] then None
    else if users[0].username == username then Some(users[0])
    else
      var r := FindUser(users[1..], username);
      if r.Some? then
        var i :| IsFirstNamed(users[1..], i, username) && users[1..][i] == r.value;
        assert IsFirstNamed(users, i + 1, username);
        r
      else r
  }

  /** Every stored password is a hash `check_password_hash` can process. */
  predicate HashesStored(b: Security.Bcrypt, users: seq<User>) {
    forall u :: u in users ==> Security.IsStoredHash(b, u.password)
  }

  /** `check_login`: no user of that name, or the first such user's hash accepts the password,
      or it does not. */
  function Login(b: Security.Bcrypt, users: seq<User>, username: string, password: string): (r: LoginStatus)
    requires HashesStored(b, users)
    ensures r == UserNotMatch <==> forall u :: u in users ==> u.username != username
    ensures r == Nice <==>
      exists i :: IsFirstNamed(users, i, username) && Security.CheckPasswordHash(b, users[i].password, password)
    ensures r == IncorrectPass <==>
      exists i :: IsFirstNamed(users, i, username) && !Security.CheckPasswordHash(b, users[i].password, password)
  {
    var user := FindUser(users, username);
    if user.None? then UserNotMatch
    else if Security.CheckPasswordHash(b, user.value.password, password) then Nice
    else IncorrectPass
  }

  lemma {:induction false} FindUserAppend(users: seq<User>, u: User, username: string)
    ensures FindUser(users + [u], username) ==
      if FindUser(users, username).Some? then FindUser(users, username)
      else if u.username == username then Some(u) else None
  {
    if users != [] {
      assert (users + [u])[1..] == users[1..] + [u];
      FindUserAppend(users[1..], u, username);
    } else {
      assert [u][1..] == [];
    }
  }

  /** A user who registers under a new name can log in with that password. */
  lemma RegisteredUserLogsIn(b: Security.Bcrypt, users: seq<User>, id: Id, username: string, password: string, entropy: seq<Byte>)
    requires Security.Laws(b) && HashesStored(b, users)
    requires forall u :: u in users ==> u.username != username
    ensures var added := User(id, username, Security.GeneratePasswordHash(b, password, entropy));
      HashesStored(b, users + [added]) && Login(b, users + [added], username, password) == Nice
  {
    var added := User(id, username, Security.GeneratePasswordHash(b, password, entropy));
    Security.CheckAfterGenerate(b, password, entropy, Security.DefaultSaltRounds);
    FindUserAppend(users, added, username);
  }

  /** `new_user` does not look for an existing name, and `find_one` returns the first match,
      so registering a taken name changes no login outcome. */
  lemma TakenNameIsShadowed(b: Security.Bcrypt, users: seq<User>, added: User, password: string)
    requires HashesStored(b, users + [added])
    requires exists u :: u in users && u.username == added.username
    ensures HashesStored(b, users)
    ensures Login(b, users + [added], added.username, password) == Login(b, users, added.username, password)
  {
    FindUserAppend(users, added, added.username);
  }

  /** The "vin" of an added car is one no stored car has, so VINs stay unique. */
  lemma AppendKeepsVinsUnique(docs: seq<Document>, d: Document)
    requires VinsUnique(docs) && "vin" in d.fields && FindByVin(docs, d.fields["vin"]).None?
    ensures VinsUnique(docs + [d])
  {
    var r := docs + [d];
    forall i, j | 0 <= i < j < |r| && "vin" in r[i].fields && "vin" in r[j].fields
      ensures r[i].fields["vin"] != r[j].fields["vin"]
    {
      if j == |docs| {
        assert !HasField(docs[i], "vin", d.fields["vin"]);
      } else {
        assert r[i] == docs[i] && r[j] == docs[j];
      }
    }
  }

  /** A document with an id above every stored one keeps ids unique. */
  lemma AppendKeepsIdsUnique(docs: seq<Document>, d: Document, bound: Id)
    requires IdsUnique(docs) && (forall x :: x in docs ==> x.id < bound) && d.id == bound
    ensures IdsUnique(docs + [d]) && forall x :: x in docs + [d] ==> x.id < bound + 1
  {
    var r := docs + [d];
    forall i, j | 0 <= i < j < |r| ensures r[i].id != r[j].id {
      assert r[i] == docs[i];
      if j < |docs| { assert r[j] == docs[j]; }
    }
  }

  lemma RemoveAtIds(docs: seq<Document>, n: nat)
    requires IdsUnique(docs) && n < |docs|
    ensures IdsUnique(docs[..n] + docs[n + 1..])
  {
    var r := docs[..n] + docs[n + 1..];
    forall i, j | 0 <= i < j < |r| ensures r[i].id != r[j].id {
      assert r[i] == docs[if i < n then i else i + 1];
      assert r[j] == docs[if j < n then j else j + 1];
    }
  }

  lemma RemoveAtMembers(docs: seq<Document>, n: nat)
    requires IdsUnique(docs) && n < |docs|
    ensures forall d :: d in docs[..n] + docs[n + 1..] <==> d in docs && d.id != docs[n].id
  {
    var r := docs[..n] + docs[n + 1..];
    forall d ensures d in r <==> d in docs && d.id != docs[n].id {
      if d in r {
        var i :| 0 <= i < |r| && r[i] == d;
        assert d == docs[if i < n then i else i + 1];
      }
      if d in docs && d.id != docs[n].id {
        var i :| 0 <= i < |docs| && docs[i] == d;
        if i < n { assert r[i] == d; } else { assert r[i - 1] == d; }
      }
    }
  }

  /** Deleting by id keeps the other documents and, ids being unique, drops exactly the one. */
  lemma DeleteKeepsOthers(docs: seq<Document>, id: Id)
    requires IdsUnique(docs)
    ensures IdsUnique(DeleteOne(docs, id))
    ensures forall d :: d in DeleteOne(docs, id) <==> d in docs && d.id != id
  {
    var k := IndexOf(docs, id);
    if k.Some? {
      RemoveAtIds(docs, k.value);
      RemoveAtMembers(docs, k.value);
    }
  }

  class Store {
    /** The bcrypt library the store hashes with. */
    const bcrypt: Security.Bcrypt
    /** `db.user`, in insertion order. */
    var users: seq<User>
    /** `db.cars`, in insertion order. */
    var cars: seq<Document>
    /** Every id handed out so far is below this one; it stands for ObjectId generation. */
    var nextId: Id

    ghost predicate Valid()
      reads this
    {
      && Security.Laws(bcrypt)
      && HashesStored(bcrypt, users)
      && IdsUnique(cars)
      && (forall d :: d in cars ==> d.id < nextId)
    }

    constructor (bcrypt: Security.Bcrypt)
      requires Security.Laws(bcrypt)
      ensures Valid() && this.bcrypt == bcrypt && users == [] && cars == []
    {
      this.bcrypt := bcrypt;
      users, cars, nextId := [], [], 0;
    }

    /** `new_user`: store the name with the hash of the password (cost 10), never the
        password; an existing user of that name is not looked for. */
    method NewUser(username: string, password: string, entropy: seq<Byte>) returns (id: Id)
      requires Valid()
      modifies this
      ensures Valid() && cars == old(cars) && id == old(nextId)
      ensures users == old(users) + [User(id, username, Security.GeneratePasswordHash(bcrypt, password, entropy))]
    {
      Security.GeneratedIsStored(bcrypt, password, entropy, Security.DefaultSaltRounds);
      var document := User(nextId, username, Security.GeneratePasswordHash(bcrypt, password, entropy));
      users := users + [document];
      id := nextId;
      nextId := nextId + 1;
    }

    /** `check_login`: exactly one of three statuses. */
    function CheckLogin(username: string, password: string): (r: LoginStatus)
      reads this
      requires Valid()
      ensures r == UserNotMatch <==> forall u :: u in users ==> u.username != username
      ensures r == Nice <==>
        exists i :: IsFirstNamed(users, i, username) && Security.CheckPasswordHash(bcrypt, users[i].password, password)
      ensures r == IncorrectPass <==>
        exists i :: IsFirstNamed(users, i, username) && !Security.CheckPasswordHash(bcrypt, users[i].password, password)
    {
      Login(bcrypt, users, username, password)
    }

    /** `db_fetch_all`: at most 100 cars, earliest timestamps first. */
    function FetchAll(): (r: seq<Document>)
      reads this
      ensures |r| == if |cars| < Limit then |cars| else Limit
      ensures Sorted(r) && multiset(r) <= multiset(cars)
      ensures forall x, y :: x in r && y in multiset(cars) - multiset(r) ==> Key(x) <= Key(y)
    {
      Listing(cars)
    }

    /** The POST branch of `main`: the VIN pre-check first, then validation, then the insert of
        the validated car with a "timestamp"; on success the answer is the listing. */
    method MainPost(post: map<string, Value>, now: nat) returns (outcome: MainOutcome)
      requires Valid() && "vin" in post
      modifies this
      ensures Valid() && users == old(users)
      ensures FindByVin(old(cars), post["vin"]).Some? ==> outcome == VinNotUnique && cars == old(cars)
      ensures FindByVin(old(cars), post["vin"]).None? && ValidateCar(post).Failure? ==>
        outcome == Invalid(ValidateCar(post).error) && cars == old(cars)
      ensures FindByVin(old(cars), post["vin"]).None? && ValidateCar(post).Success? ==>
        && cars == old(cars) + [Document(old(nextId), post["timestamp" := Time(now)])]
        && outcome == Listed(Listing(cars))
      ensures VinsUnique(old(cars)) ==> VinsUnique(cars)
    {
      var preCheck := FindByVin(cars, post["vin"]);
      if preCheck.Some? {
        return VinNotUnique;
      }
      var checked := ValidateCar(post);
      if checked.Failure? {
        return Invalid(checked.error);
      }
      var document := Fields(checked.value);
      assert document == post;
      document := document["timestamp" := Time(now)];
      if VinsUnique(cars) {
        AppendKeepsVinsUnique(cars, Document(nextId, document));
      }
      AppendKeepsIdsUnique(cars, Document(nextId, document), nextId);
      cars := cars + [Document(nextId, document)];
      nextId := nextId + 1;
      outcome := Listed(FetchAll());
    }

    /** `delete_car`: remove the car with that id and nothing else. */
    method DeleteCar(id: Id)
      requires Valid()
      modifies this
      ensures Valid() && users == old(users) && nextId == old(nextId)
      ensures cars == DeleteOne(old(cars), id)
      ensures forall d :: d in cars <==> d in old(cars) && d.id != id
    {
      DeleteKeepsOthers(cars, id);
      cars := DeleteOne(cars, id);
    }

    /** `edit_car`: the car with that id, if any. */
    function EditCar(id: Id): (r: Option<Document>)
      reads this
      requires Valid()
      ensures r.None? <==> forall d :: d in cars ==> d.id != id
      ensures r.Some? ==> r.value in cars && r.value.id == id
      ensures forall d :: d in cars && d.id == id ==> r == Some(d)
    {
      FindById(cars, id)
    }

    /** `save_edit`: `$set` every posted key, "car_id" included, on the car with that id; no
        validation and no VIN check. `id` is the ObjectId of `data["car_id"]`. A posted "_id"
        on an existing car makes MongoDB raise, which the source does not catch. */
    method SaveEdit(id: Id, data: map<string, Value>)
      requires Valid() && "car_id" in data
      requires "_id" in data ==> IndexOf(cars, id).None?
      modifies this
      ensures Valid() && users == old(users) && nextId == old(nextId)
      ensures cars == UpdateOne(old(cars), id, data)
    {
      cars := UpdateOne(cars, id, data);
    }

    /** `search`: the cars whose field `field` is the text `query`, at most 100, earliest
        first; all of them when there are no more than 100. */
    function Search(field: string, query: string): (r: seq<Document>)
      reads this
      ensures Sorted(r) && multiset(r) <= multiset(cars)
      ensures forall d :: d in r ==> d in cars && HasField(d, field, Str(query))
      ensures var matching := Filter(cars, field, query);
        && |r| == (if |matching| < Limit then |matching| else Limit)
        && forall x, y :: x in r && y in multiset(matching) - multiset(r) ==> Key(x) <= Key(y)
      ensures |Filter(cars, field, query)| <= Limit ==>
        forall d :: d in cars && HasField(d, field, Str(query)) ==> d in r
    {
      var matching := Filter(cars, field, query);
      var r := Listing(matching);
      assert forall d :: d in r ==> d in multiset(matching);
      assert multiset(matching) <= multiset(cars);
      r
    }
  }
}

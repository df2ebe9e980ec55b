/** The users collection of app/api/users/route.js: a process-wide list of
    records, a filtering list handler, and create, partial update and
    delete handlers that validate their input and then change the list. */
module Users {
  import opened Values
  import opened Text
  import opened Sequences
  import opened Email

  /** A stored user. `name` keeps whatever JSON value a request supplied, as
      no handler checks its type; `email` has passed the address check and
      `age` the positive-number check, so they are a string and a number. */
  datatype User = User(id: int, name: Value, email: string, age: real)

  /** The records the collection holds when the process starts, numbered
      by position as the create handler numbers them. */
  function Seed(): (r: seq<User>)
    ensures |r| == 3 && forall i :: 0 <= i < |r| ==> r[i].id == i + 1 && r[i].age > 0.0
  {
    [ User(1, Str("Juan Pérez"), ExampleAddress("juan"), 25.0),
      User(2, Str("María García"), ExampleAddress("maria"), 30.0),
      User(3, Str("Carlos López"), ExampleAddress("carlos"), 28.0) ]
  }

  /** `local@example.com` */
  function ExampleAddress(local: string): string
  {
    local + "@" + "example" + "." + "com"
  }

  function EmailOf(u: User): string { u.email }

  function IdOf(u: User): int { u.id }

  ghost predicate EmailsDistinct(users: seq<User>) { KeysDistinct(users, EmailOf) }

  ghost predicate IdsDistinct(users: seq<User>) { KeysDistinct(users, IdOf) }

  /** What the handlers guarantee of every record they store. */
  ghost predicate WellFormed(u: User)
  {
    MatchesPattern(u.email) && u.age > 0.0
  }

  // ---------------------------------------------------------------- listing

  /** Query parameters of the list handler. A bound is `None` when its
      parameter is missing or empty, otherwise what `parseInt` made of it;
      an empty `name` or `email` means no such filter. */
  datatype UserQuery = UserQuery(minAge: Option<Parsed>, maxAge: Option<Parsed>, name: string, email: string)

  const NoFilters := UserQuery(None, None, "", "")

  predicate InAgeRange(u: User, q: UserQuery)
  {
    (q.minAge.Some? ==> AtLeast(u.age, q.minAge.value)) &&
    (q.maxAge.Some? ==> AtMost(u.age, q.maxAge.value))
  }

  /** The name test of the list handler; calling `toLowerCase` on a name that
      is not a string throws. */
  function NameTest(u: User, term: string): Option<bool>
  {
    if u.name.Str? then Some(Mentions(u.name.s, term)) else None
  }

  /** The name filter, when active, keeps string names that mention the term. */
  predicate NamePasses(u: User, q: UserQuery)
  {
    q.name != "" ==> u.name.Str? && Mentions(u.name.s, q.name)
  }

  /** A user is listed exactly when it passes every active filter. */
  predicate Matches(u: User, q: UserQuery)
  {
    InAgeRange(u, q) && NamePasses(u, q) && (q.email != "" ==> Mentions(u.email, q.email))
  }

  /** The two age filters of the chain, each applied only when its bound
      was given. */
  function AgeFiltered(users: seq<User>, q: UserQuery): (r: seq<User>)
    ensures IsSubsequence(r, users)
    ensures forall u :: u in r <==> u in users && InAgeRange(u, q)
    ensures forall u :: multiset(r)[u] == if InAgeRange(u, q) then multiset(users)[u] else 0
    ensures q.minAge.None? && q.maxAge.None? ==> r == users
  {
    var byMin := match q.minAge
      case None => users
      case Some(lo) => Filter(users, (u: User) => AtLeast(u.age, lo));
    assert IsSubsequence(byMin, users) by {
      if q.minAge.None? { SubsequenceReflexive(users); }
    }
    var byMax := match q.maxAge
      case None => byMin
      case Some(hi) => Filter(byMin, (u: User) => AtMost(u.age, hi));
    assert IsSubsequence(byMax, users) by {
      if q.maxAge.Some? { SubsequenceTransitive(byMax, byMin, users); }
    }
    byMax
  }

  /** The age filters followed by the name filter, which throws on a
      remaining user whose name is not a string. */
  function AgeAndNameFiltered(users: seq<User>, q: UserQuery): (r: Option<seq<User>>)
    ensures r.None? <==> q.name != "" && exists u :: u in users && InAgeRange(u, q) && !u.name.Str?
    ensures r.Some? ==> IsSubsequence(r.value, users)
    ensures r.Some? ==> forall u :: u in r.value <==> u in users && InAgeRange(u, q) && NamePasses(u, q)
    ensures r.Some? ==>
      forall u :: multiset(r.value)[u] == if InAgeRange(u, q) && NamePasses(u, q) then multiset(users)[u] else 0
    ensures q.name == "" ==> r == Some(AgeFiltered(users, q))
  {
    var aged := AgeFiltered(users, q);
    if q.name == "" then Some(aged)
    else
      var byName := TryFilter(aged, (u: User) => NameTest(u, q.name));
      if byName.None? then
        assert exists u :: u in users && InAgeRange(u, q) && !u.name.Str? by {
          var i :| 0 <= i < |aged| && NameTest(aged[i], q.name).None?;
          assert aged[i] in aged;
        }
        None
      else
        assert forall u :: u in users && InAgeRange(u, q) ==> u.name.Str? by {
          forall u | u in users && InAgeRange(u, q)
            ensures u.name.Str?
          {
            var i :| 0 <= i < |aged| && aged[i] == u;
          }
        }
        SubsequenceTransitive(byName.value, aged, users);
        byName
  }

  /** GET: the filter chain over a copy of the collection. It throws when a
      name filter meets a record, still in the running after the age
      filters, whose name is not a string. */
  function ListUsers(users: seq<User>, q: UserQuery): (r: Listing<User>)
    ensures r.Crashed? <==> q.name != "" && exists u :: u in users && InAgeRange(u, q) && !u.name.Str?
    ensures r.Listed? ==> IsSubsequence(r.items, users)
    ensures r.Listed? ==> forall u :: u in r.items <==> u in users && Matches(u, q)
    ensures r.Listed? ==> forall u :: multiset(r.items)[u] == if Matches(u, q) then multiset(users)[u] else 0
    ensures q == NoFilters ==> r == Listed(users)
  {
    match AgeAndNameFiltered(users, q)
    case None => Crashed
    case Some(named) =>
      if q.email == "" then Listed(named)
      else
        var byEmail := Filter(named, (u: User) => Mentions(u.email, q.email));
        SubsequenceTransitive(byEmail, named, users);
        Listed(byEmail)
  }

  // ------------------------------------------------------------- mutations

  /** The fields of a request body the handlers read; `None` is `undefined`. */
  datatype UserBody = UserBody(id: Option<Value>, name: Option<Value>, email: Option<Value>, age: Option<Value>)

  /** Why a request was turned down with status 400. */
  datatype Reason = MissingFields | InvalidEmail | InvalidAge | MissingId

  datatype UserOutcome =
    | Ok(user: User)              // 200 with the updated record
    | Created(user: User)         // 201 with the new record
    | Deleted                     // 200 with a confirmation message
    | ValidationError(reason: Reason)
    | DuplicateEmail
    | NotFound
    | MalformedRequest

  function Status(r: UserOutcome): int
  {
    match r
    case Ok(_) => 200
    case Created(_) => 201
    case Deleted => 200
    case NotFound => 404
    case _ => 400
  }

  function Message(r: UserOutcome): string
  {
    match r
    case ValidationError(MissingFields) => "Los campos name, email y age son requeridos"
    case ValidationError(InvalidEmail) => "Formato de email inválido"
    case ValidationError(InvalidAge) => "La edad debe ser un número positivo"
    case ValidationError(MissingId) => "Se requiere el ID del usuario"
    case DuplicateEmail => "El email ya está registrado"
    case NotFound => "Usuario no encontrado"
    case Deleted => "Usuario eliminado correctamente"
    case MalformedRequest => "Error al procesar la solicitud"
    case _ => ""
  }

  /** `emailRegex.test(v)`. The value is converted to a string first, and a
      number, a boolean or null never converts to one holding `@`. */
  predicate EmailTest(v: Value)
    ensures EmailTest(v) <==> v.Str? && MatchesPattern(v.s)
  {
    v.Str? && IsEmail(v.s)
  }

  /** `u.id === v`: strict equality, so only a number equal to the id
      matches; a string such as `"3"` never does. */
  predicate HasId(u: User, v: Value)
    ensures HasId(u, v) <==> v == Num(u.id as real)
  {
    v.Num? && v.n == u.id as real
  }

  /** `users.findIndex(u => u.id === v)` */
  function IndexOfId(users: seq<User>, v: Value): (k: int)
    ensures -1 <= k < |users|
    ensures 0 <= k ==> HasId(users[k], v) && forall i :: 0 <= i < k ==> !HasId(users[i], v)
    ensures k == -1 <==> forall i :: 0 <= i < |users| ==> !HasId(users[i], v)
  {
    if users == [] then -1
    else if HasId(users[0], v) then 0
    else
      var k := IndexOfId(users[1..], v);
      assert forall i :: 1 <= i < |users| ==> users[i] == users[1..][i - 1];
      if k == -1 then -1 else k + 1
  }

  /** `users.some(u => u.email === e)` */
  predicate EmailTaken(users: seq<User>, e: string)
    ensures EmailTaken(users, e) <==> exists i :: 0 <= i < |users| && EmailOf(users[i]) == e
  {
    exists u :: u in users && u.email == e
  }

  /** `users.some(u => u.email === e && u.id !== id)`: the create check
      narrowed to other ids; the two agree when no record carries `id`. */
  predicate EmailTakenByOther(users: seq<User>, e: string, id: Value)
    ensures EmailTakenByOther(users, e, id) ==> EmailTaken(users, e)
    ensures IndexOfId(users, id) == -1 ==> (EmailTakenByOther(users, e, id) <==> EmailTaken(users, e))
  {
    exists u :: u in users && u.email == e && !HasId(u, id)
  }

  /** `users.filter(u => u.id !== id)`: it keeps, in order, exactly the
      records with another id, and is shorter whenever some record has it. */
  function WithoutId(users: seq<User>, id: real): (r: seq<User>)
    ensures IsSubsequence(r, users)
    ensures forall u :: u in r <==> u in users && u.id as real != id
    ensures forall u :: multiset(r)[u] == if u.id as real != id then multiset(users)[u] else 0
    ensures IndexOfId(users, Num(id)) != -1 ==> |r| < |users|
  {
    var keep := (u: User) => u.id as real != id;
    var k := IndexOfId(users, Num(id));
    assert k != -1 ==> |Filter(users, keep)| < |users| by {
      if k != -1 { FilterDrops(users, keep, k); }
    }
    Filter(users, keep)
  }

  predicate AllGiven(b: UserBody)
  {
    Given(b.name) && Given(b.email) && Given(b.age)
  }

  /** The update request's email, when present, passes the format and the
      uniqueness checks. */
  predicate EmailUpdateOk(users: seq<User>, b: UserBody)
    requires b.id.Some?
  {
    b.email.Some? ==> EmailTest(b.email.value) && !EmailTakenByOther(users, b.email.value.s, b.id.value)
  }

  /** `local@example.com` matches the pattern for a non-empty lower-case `local`. */
  lemma ExampleAddressMatches(local: string)
    requires local != [] && forall i :: 0 <= i < |local| ==> 'a' <= local[i] <= 'z'
    ensures MatchesPattern(ExampleAddress(local))
  {
    LettersArePlain("example");
    LettersArePlain("com");
    LettersArePlain(local);
    AddressFromParts(local, "example", "com");
  }

  /** Writing a well-formed record into one slot keeps every record well-formed. */
  lemma ReplaceKeepsWellFormed(users: seq<User>, k: int, updated: User)
    requires 0 <= k < |users| && WellFormed(updated)
    requires forall u :: u in users ==> WellFormed(u)
    ensures forall u :: u in users[k := updated] ==> WellFormed(u)
  {
    forall u | u in users[k := updated]
      ensures WellFormed(u)
    {
      var i :| 0 <= i < |users| && users[k := updated][i] == u;
      if i != k {
        assert users[i] in users;
      }
    }
  }

  /** Writing into slot `k` a record with that slot's id keeps emails
      distinct when ids were distinct and the written email is either the
      old one or held by no record with another id. */
  lemma ReplaceKeepsEmailsDistinct(users: seq<User>, k: int, updated: User)
    requires 0 <= k < |users| && updated.id == users[k].id
    requires IdsDistinct(users) && EmailsDistinct(users)
    requires updated.email == users[k].email || forall u :: u in users && u.email == updated.email ==> u.id == updated.id
    ensures EmailsDistinct(users[k := updated])
  {
    var after := users[k := updated];
    forall i, j | 0 <= i < j < |after|
      ensures EmailOf(after[i]) != EmailOf(after[j])
    {
      if (i == k || j == k) && updated.email != users[k].email {
        var other := if i == k then j else i;
        assert IdOf(users[other]) != IdOf(users[k]);
        assert users[other] in users;
      }
    }
  }

  lemma SeedWellFormed()
    ensures forall u :: u in Seed() ==> WellFormed(u)
  {
    forall u | u in Seed()
      ensures WellFormed(u)
    {
      if u == Seed()[0] {
        ExampleAddressMatches("juan");
      } else if u == Seed()[1] {
        ExampleAddressMatches("maria");
      } else {
        ExampleAddressMatches("carlos");
      }
    }
  }

  class UserStore {
    var users: seq<User>

    ghost predicate Valid()
      reads this
    {
      forall u :: u in users ==> WellFormed(u)
    }

    constructor ()
      ensures Valid() && users == Seed()
      ensures EmailsDistinct(users) && IdsDistinct(users)
    {
      users := Seed();
      SeedWellFormed();
    }

    /** GET /users */
    method List(q: UserQuery) returns (r: Listing<User>)
      ensures r == ListUsers(users, q)
    {
      r := ListUsers(users, q);
    }

    /** POST /users: validate, then append a record numbered one past the
        current length. */
    method Create(request: Request<UserBody>) returns (r: UserOutcome)
      requires Valid()
      modifies this
      ensures Valid()
      ensures r == MalformedRequest <==> request.Unparseable?
      ensures r == ValidationError(MissingFields) <==> request.Body? && !AllGiven(request.fields)
      ensures r == ValidationError(InvalidEmail) <==>
        request.Body? && AllGiven(request.fields) && !EmailTest(request.fields.email.value)
      ensures r == ValidationError(InvalidAge) <==>
        request.Body? && AllGiven(request.fields) && EmailTest(request.fields.email.value) &&
        !PositiveNumber(request.fields.age.value)
      ensures r == DuplicateEmail <==>
        request.Body? && AllGiven(request.fields) && EmailTest(request.fields.email.value) &&
        PositiveNumber(request.fields.age.value) && EmailTaken(old(users), request.fields.email.value.s)
      ensures r.Created? <==>
        request.Body? && AllGiven(request.fields) && EmailTest(request.fields.email.value) &&
        PositiveNumber(request.fields.age.value) && !EmailTaken(old(users), request.fields.email.value.s)
      ensures r.Created? ==>
        r.user == User(|old(users)| + 1, request.fields.name.value, request.fields.email.value.s, request.fields.age.value.n) &&
        users == old(users) + [r.user]
      ensures !r.Created? ==> users == old(users)
      ensures EmailsDistinct(old(users)) ==> EmailsDistinct(users)
    {
      if request.Unparseable? {
        return MalformedRequest;
      }
      var body := request.fields;
      if !AllGiven(body) {
        return ValidationError(MissingFields);
      }
      if !EmailTest(body.email.value) {
        return ValidationError(InvalidEmail);
      }
      if !PositiveNumber(body.age.value) {
        return ValidationError(InvalidAge);
      }
      var email := body.email.value.s;
      if EmailTaken(users, email) {
        return DuplicateEmail;
      }
      var user := User(|users| + 1, body.name.value, email, body.age.value.n);
      ghost var before := users;
      users := users + [user];
      if EmailsDistinct(before) {
        forall i, j | 0 <= i < j < |users|
          ensures EmailOf(users[i]) != EmailOf(users[j])
        {
          if j == |before| {
            assert users[i] in before;
          } else {
            assert users[i] == before[i] && users[j] == before[j];
          }
        }
      }
      r := Created(user);
    }

    /** PUT /users: find the record named by `body.id`, merge the fields the
        body carries into it, re-check a new email and a new age, and write
        the merged record back into the same slot. */
    method Update(request: Request<UserBody>) returns (r: UserOutcome)
      requires Valid()
      modifies this
      ensures Valid()
      ensures r == MalformedRequest <==> request.Unparseable?
      ensures r == ValidationError(MissingId) <==> request.Body? && !Given(request.fields.id)
      ensures r == NotFound <==>
        request.Body? && Given(request.fields.id) && IndexOfId(old(users), request.fields.id.value) == -1
      ensures r == ValidationError(InvalidEmail) <==>
        request.Body? && Given(request.fields.id) && IndexOfId(old(users), request.fields.id.value) != -1 &&
        request.fields.email.Some? && !EmailTest(request.fields.email.value)
      ensures r == DuplicateEmail <==>
        request.Body? && Given(request.fields.id) && IndexOfId(old(users), request.fields.id.value) != -1 &&
        request.fields.email.Some? && EmailTest(request.fields.email.value) &&
        EmailTakenByOther(old(users), request.fields.email.value.s, request.fields.id.value)
      ensures r == ValidationError(InvalidAge) <==>
        request.Body? && Given(request.fields.id) && IndexOfId(old(users), request.fields.id.value) != -1 &&
        EmailUpdateOk(old(users), request.fields) &&
        request.fields.age.Some? && !PositiveNumber(request.fields.age.value)
      ensures r.Ok? <==>
        request.Body? && Given(request.fields.id) && IndexOfId(old(users), request.fields.id.value) != -1 &&
        EmailUpdateOk(old(users), request.fields) &&
        (request.fields.age.Some? ==> PositiveNumber(request.fields.age.value))
      ensures r.Ok? ==>
        var b := request.fields;
        var k := IndexOfId(old(users), b.id.value);
        var current := old(users)[k];
        users == old(users)[k := r.user] &&
        r.user.id == current.id &&
        r.user.name == (if b.name.Some? then b.name.value else current.name) &&
        (if b.email.Some? then Str(r.user.email) == b.email.value else r.user.email == current.email) &&
        (if b.age.Some? then Num(r.user.age) == b.age.value else r.user.age == current.age)
      ensures !r.Ok? ==> users == old(users)
      ensures IdsDistinct(old(users)) && EmailsDistinct(old(users)) ==> EmailsDistinct(users)
    {
      if request.Unparseable? {
        return MalformedRequest;
      }
      var body := request.fields;
      if !Given(body.id) {
        return ValidationError(MissingId);
      }
      var id := body.id.value;
      var k := IndexOfId(users, id);
      if k == -1 {
        return NotFound;
      }
      var current := users[k];
      if body.email.Some? {
        if !EmailTest(body.email.value) {
          return ValidationError(InvalidEmail);
        }
        if EmailTakenByOther(users, body.email.value.s, id) {
          return DuplicateEmail;
        }
      }
      if body.age.Some? && !PositiveNumber(body.age.value) {
        return ValidationError(InvalidAge);
      }
      var updated := User(
        current.id,
        if body.name.Some? then body.name.value else current.name,
        if body.email.Some? then body.email.value.s else current.email,
        if body.age.Some? then body.age.value.n else current.age);
      ghost var before := users;
      users := users[k := updated];
      assert current in before;
      ReplaceKeepsWellFormed(before, k, updated);
      if IdsDistinct(before) && EmailsDistinct(before) {
        ReplaceKeepsEmailsDistinct(before, k, updated);
      }
      r := Ok(updated);
    }

    /** DELETE /users?id=...: remove every record carrying that id. */
    method Delete(id: Parsed) returns (r: UserOutcome)
      requires Valid()
      modifies this
      ensures Valid()
      ensures r == ValidationError(MissingId) <==> id == NotANumber || id == Number(0.0)
      ensures r == NotFound <==> id.Number? && id.v != 0.0 && IndexOfId(old(users), Num(id.v)) == -1
      ensures r == Deleted <==> id.Number? && id.v != 0.0 && IndexOfId(old(users), Num(id.v)) != -1
      ensures r == Deleted ==>
        IsSubsequence(users, old(users)) && |users| < |old(users)| &&
        (forall u :: u in users <==> u in old(users) && u.id as real != id.v) &&
        forall u :: multiset(users)[u] == if u.id as real != id.v then multiset(old(users))[u] else 0
      ensures r != Deleted ==> users == old(users)
      ensures EmailsDistinct(old(users)) ==> EmailsDistinct(users)
    {
      if id == NotANumber || id == Number(0.0) {
        return ValidationError(MissingId);
      }
      var k := IndexOfId(users, Num(id.v));
      if k == -1 {
        return NotFound;
      }
      ghost var before := users;
      users := WithoutId(users, id.v);
      if EmailsDistinct(before) {
        SubsequenceKeepsKeysDistinct(users, before, EmailOf);
      }
      r := Deleted;
    }
  }

  // ------------------------------------------------------------- scenarios

  /** On the seed records, `minAge=28` lists María and Carlos, in that order,
      and not Juan. */
  lemma SeedMinAgeScenario()
    ensures ListUsers(Seed(), UserQuery(Some(Number(28.0)), None, "", "")) == Listed([Seed()[1], Seed()[2]])
  {
    var s, q := Seed(), UserQuery(Some(Number(28.0)), None, "", "");
    assert AgeFiltered(s, q) == [s[1], s[2]];
  }

  /** Numbering by length collides as soon as some record already carries
      the id one past the length: a successful create then stores a second
      record with that id. */
  method CreateCollides(store: UserStore, name: Value, email: string, age: real) returns (r: UserOutcome)
    requires store.Valid()
    requires exists u :: u in store.users && u.id == |store.users| + 1
    requires Truthy(name) && IsEmail(email) && age > 0.0 && !EmailTaken(store.users, email)
    modifies store
    ensures store.Valid() && r.Created? && store.users == old(store.users) + [r.user]
    ensures r.user == User(|old(store.users)| + 1, name, email, age)
    ensures EmailsDistinct(old(store.users)) ==> EmailsDistinct(store.users)
    ensures !IdsDistinct(store.users)
  {
    ghost var before := store.users;
    ghost var u :| u in before && u.id == |before| + 1;
    r := store.Create(Body(UserBody(None, Some(name), Some(Str(email)), Some(Num(age)))));
    ghost var k :| 0 <= k < |before| && before[k] == u;
    assert store.users[k] == u && store.users[|before|].id == u.id;
  }

  /** When two records share an id, an update addressed to that id may take
      the email of the later one: the email checks pass, because the only
      holder of that email carries the same id, and the first record with
      the id is written with it, so two records end up with one email. */
  method UpdateDuplicatesEmail(store: UserStore, id: int, j: int) returns (r: UserOutcome)
    requires store.Valid() && EmailsDistinct(store.users)
    requires 0 <= j < |store.users| && store.users[j].id == id && id != 0
    requires IndexOfId(store.users, Num(id as real)) != j
    modifies store
    ensures store.Valid() && r.Ok?
    ensures !EmailsDistinct(store.users)
  {
    ghost var before := store.users;
    var email := store.users[j].email;
    ghost var k := IndexOfId(before, Num(id as real));
    assert before[j] in before;
    assert !EmailTakenByOther(before, email, Num(id as real)) by {
      forall i | 0 <= i < |before| && before[i].email == email
        ensures HasId(before[i], Num(id as real))
      {
        assert EmailOf(before[i]) == EmailOf(before[j]);
      }
    }
    r := store.Update(Body(UserBody(Some(Num(id as real)), None, Some(Str(email)), None)));
    assert EmailOf(store.users[k]) == EmailOf(store.users[j]);
  }

  /** Deleting an id that some record carries removes it and keeps any two
      different records with other ids, so at least two records remain. */
  method DeleteKeepsOthers(store: UserStore, id: real, a: User, b: User) returns (r: UserOutcome)
    requires store.Valid() && id != 0.0 && IndexOfId(store.users, Num(id)) != -1
    requires a in store.users && b in store.users && a != b && a.id as real != id && b.id as real != id
    modifies store
    ensures store.Valid() && r == Deleted
    ensures a in store.users && b in store.users && 2 <= |store.users| < |old(store.users)|
    ensures forall u :: u in store.users ==> u in old(store.users)
    ensures EmailsDistinct(old(store.users)) ==> EmailsDistinct(store.users)
  {
    r := store.Delete(Number(id));
    TwoMembers(store.users, a, b);
  }

  /** On the seed, deleting id 2 succeeds and keeps the other two records. */
  method DeleteSecondSeedUser(store: UserStore) returns (r: UserOutcome)
    requires store.Valid() && store.users == Seed()
    modifies store
    ensures store.Valid() && r == Deleted && EmailsDistinct(store.users)
    ensures |store.users| == 2 && Seed()[2] in store.users
    ensures forall u :: u in store.users ==> u in Seed()
  {
    var seed := store.users;
    assert HasId(seed[1], Num(2.0));
    r := DeleteKeepsOthers(store, 2.0, seed[0], seed[2]);
  }

  /** Starting from the seed, deleting user 2 and creating any new user
      leaves two records with id 3 (ids are reused); an update of id 3 to
      the new user's email then succeeds and leaves two records sharing an
      email, although every create and update checks emails for uniqueness. */
  method DeleteThenCreateReusesId(name: Value, email: string, age: real) returns (created: seq<User>, updated: seq<User>)
    requires Truthy(name) && IsEmail(email) && age > 0.0
    requires forall u :: u in Seed() ==> u.email != email
    ensures !IdsDistinct(created)
    ensures !EmailsDistinct(updated)
  {
    var store := new UserStore();
    var outcome := DeleteSecondSeedUser(store);
    ghost var kept := store.users;
    assert Seed()[2].id == |kept| + 1;
    outcome := CreateCollides(store, name, email, age);
    created := store.users;
    assert IndexOfId(created, Num(3.0)) != 2 by {
      var i :| 0 <= i < 2 && kept[i] == Seed()[2];
      assert HasId(created[i], Num(3.0));
    }
    outcome := UpdateDuplicatesEmail(store, 3, 2);
    updated := store.users;
  }
}

/** The user service over the users table: registration guarded by email
    uniqueness, and the lookups by id and by email. */
module Users {
  import opened Domain

  /** The key a user lookup goes by. */
  datatype UserKey = ById(id: UserId) | ByEmail(email: string)

  predicate KeyMatches(k: UserKey, u: User) {
    match k
    case ById(id) => u.id == id
    case ByEmail(e) => u.email == e
  }

  /** `u` shares neither its id nor its email with a row of `users`. */
  predicate Distinct(users: seq<User>, u: User) {
    forall v :: v in users ==> v.id != u.id && v.email != u.email
  }

  /** The primary key and the unique email column: each row's id and email
      differ from those of all rows after it. */
  predicate UniqueUsers(users: seq<User>) {
    users == [] || (Distinct(users[1..], users[0]) && UniqueUsers(users[1..]))
  }

  /** The first row matching key `k`, if any. */
  function FindUser(users: seq<User>, k: UserKey): (r: Option<User>)
    ensures r.Some? ==> r.value in users && KeyMatches(k, r.value)
    ensures r.None? <==> forall u :: u in users ==> !KeyMatches(k, u)
  {
    if users == [] then None
    else if KeyMatches(k, users[0]) then Some(users[0])
    else FindUser(users[1..], k)
  }

  /** Under the key constraints, a stored user is what both of its keys find. */
  lemma {:induction false} FindUserUnique(users: seq<User>, u: User)
    requires UniqueUsers(users)
    requires u in users
    ensures FindUser(users, ById(u.id)) == Some(u)
    ensures FindUser(users, ByEmail(u.email)) == Some(u)
  {
    if users[0] != u {
      assert u in users[1..];
      FindUserUnique(users[1..], u);
    }
  }

  /** Appending a user with a new id and a new email keeps the key constraints. */
  lemma {:induction false} AppendKeepsUniqueUsers(users: seq<User>, u: User)
    requires UniqueUsers(users)
    requires Distinct(users, u)
    ensures UniqueUsers(users + [u])
  {
    if users == [] {
      assert [] + [u] == [u];
    } else {
      assert (users + [u])[1..] == users[1..] + [u];
      AppendKeepsUniqueUsers(users[1..], u);
      assert users[0] in users;
    }
  }

  /** UserServiceImpl with the users table it reaches through its repository. */
  class UserService {
    var users: seq<User>
    /** The next value of the identity column. */
    var nextId: UserId
    /** PasswordEncoder.encode. */
    const encode: string -> string

    ghost predicate Valid()
      reads this
    {
      UniqueUsers(users) && forall u :: u in users ==> u.id < nextId
    }

    constructor (encode: string -> string)
      ensures Valid() && users == [] && this.encode == encode
    {
      users := [];
      nextId := 1;
      this.encode := encode;
    }

    /** existsByEmail. */
    predicate ExistsByEmail(email: string)
      reads this
      ensures ExistsByEmail(email) <==> exists u :: u in users && u.email == email
    {
      FindUser(users, ByEmail(email)).Some?
    }

    /** getUserById: the stored user with that id, or none. */
    function GetUserById(id: UserId): (r: Option<User>)
      reads this
      requires Valid()
      ensures r.Some? ==> r.value in users && r.value.id == id
      ensures forall u :: u in users && u.id == id ==> r == Some(u)
      ensures r.None? <==> forall u :: u in users ==> u.id != id
    {
      assert forall u | u in users && u.id == id :: FindUser(users, ById(id)) == Some(u) by {
        forall u | u in users && u.id == id ensures FindUser(users, ById(id)) == Some(u) {
          FindUserUnique(users, u);
        }
      }
      FindUser(users, ById(id))
    }

    /** getUserByEmail: the stored user with that email, or none. */
    function GetUserByEmail(email: string): (r: Option<User>)
      reads this
      requires Valid()
      ensures r.Some? ==> r.value in users && r.value.email == email
      ensures forall u :: u in users && u.email == email ==> r == Some(u)
      ensures r.None? <==> !ExistsByEmail(email)
    {
      assert forall u | u in users && u.email == email :: FindUser(users, ByEmail(email)) == Some(u) by {
        forall u | u in users && u.email == email ensures FindUser(users, ByEmail(email)) == Some(u) {
          FindUserUnique(users, u);
        }
      }
      FindUser(users, ByEmail(email))
    }

    /** createUser: an email already in use is rejected and nothing is added;
        otherwise one user is added with the next id, the request's email, the
        encoded password and no role. */
    method CreateUser(request: AuthRequest) returns (r: Result<User>)
      requires Valid()
      modifies this
      ensures Valid()
      ensures old(ExistsByEmail(request.email)) ==>
                r == Err(UserAlreadyExists) && users == old(users) && nextId == old(nextId)
      ensures !old(ExistsByEmail(request.email)) ==>
                && r == Ok(User(old(nextId), request.email, encode(request.password), None))
                && users == old(users) + [r.value]
                && nextId == old(nextId) + 1
      ensures r.Ok? ==> ExistsByEmail(request.email) && GetUserByEmail(request.email) == Some(r.value)
    {
      if ExistsByEmail(request.email) {
        return Err(UserAlreadyExists);
      }
      var user := User(nextId, request.email, encode(request.password), None);
      AppendKeepsUniqueUsers(users, user);
      users := users + [user];
      nextId := nextId + 1;
      r := Ok(user);
    }
  }
}

/** The user store: registration, password authentication and lookups.
    The password digest (SHA-256 then Base64 in the source) is the parameter
    `hashPassword`, any deterministic function from strings to strings. */
module UserService {
  import opened Wrappers
  import opened Seqs
  import opened Models

  /** The Users table, in storage order, and the next value of its identity column. */
  datatype UserStore = UserStore(users: seq<User>, nextId: int)

  function EmptyUserStore(): UserStore
  {
    UserStore([], 1)
  }

  function UserIdOf(u: User): int { u.userId }
  function UserNameOf(u: User): string { u.userName }
  function RoleOf(u: User): string { u.role }
  function DtoRoleOf(d: UserDto): string { d.role }

  ghost predicate WellFormed(s: UserStore)
  {
    DistinctKeys(s.users, UserIdOf) && KeysBelow(s.users, UserIdOf, s.nextId)
  }

  ghost predicate UniqueUserNames(s: UserStore)
  {
    DistinctKeys(s.users, UserNameOf)
  }

  ghost predicate HasUserName(s: UserStore, userName: string)
  {
    exists i :: 0 <= i < |s.users| && s.users[i].userName == userName
  }

  /** A password matches a stored digest when its own digest equals it. */
  function VerifyPassword(password: string, hashed: string, hashPassword: string -> string): (ok: bool)
    ensures ok <==> hashed == hashPassword(password)
  {
    hashPassword(password) == hashed
  }

  /** Every password verifies against its own digest, whatever the digest
      function is. */
  lemma VerifyOwnDigest(password: string, hashPassword: string -> string)
    ensures VerifyPassword(password, hashPassword(password), hashPassword)
  {
  }

  /** The public views of `users`, position by position. */
  function Views(users: seq<User>): (r: seq<UserDto>)
    ensures |r| == |users|
    ensures forall i :: 0 <= i < |users| ==> r[i] == ToDto(users[i])
  {
    if users == [] then [] else [ToDto(users[0])] + Views(users[1..])
  }

  /** Registers a user unless the user name is taken (ordinal string
      equality). The role is stored as given, whatever it is. */
  function Register(s: UserStore, dto: UserRegisterDto, hashPassword: string -> string): (r: Step<Option<UserDto>, UserStore>)
    ensures r.result.None? <==> HasUserName(s, dto.userName)
    ensures r.result.None? ==> r.state == s
    ensures r.result.Some? ==>
      var u := User(s.nextId, dto.userName, hashPassword(dto.userPassword), dto.fullName, dto.role);
      && r.state == UserStore(s.users + [u], s.nextId + 1)
      && r.result.value == UserDto(s.nextId, dto.userName, dto.fullName, dto.role)
  {
    if IndexOf(s.users, UserNameOf, dto.userName).Some? then
      Step(None, s)
    else
      var u := User(s.nextId, dto.userName, hashPassword(dto.userPassword), dto.fullName, dto.role);
      Step(Some(ToDto(u)), UserStore(s.users + [u], s.nextId + 1))
  }

  /** Looks up the first user with exactly this name and accepts the
      password when its digest matches the stored one. */
  function Authenticate(s: UserStore, userName: string, password: string, hashPassword: string -> string): (r: Option<User>)
    ensures r.Some? ==> r.value in s.users && r.value.userName == userName && hashPassword(password) == r.value.userPassword
    ensures UniqueUserNames(s) ==>
      (r.Some? <==> exists i :: 0 <= i < |s.users| && s.users[i].userName == userName && hashPassword(password) == s.users[i].userPassword)
  {
    match IndexOf(s.users, UserNameOf, userName)
    case None => None
    case Some(i) =>
      if VerifyPassword(password, s.users[i].userPassword, hashPassword) then Some(s.users[i]) else None
  }

  /** Every user's public view, in storage order. */
  function GetAll(s: UserStore): (r: seq<UserDto>)
    ensures |r| == |s.users|
    ensures forall i :: 0 <= i < |r| ==> r[i] == ToDto(s.users[i])
    ensures forall role :: CountWhere(r, DtoRoleOf, role) == CountWhere(s.users, RoleOf, role)
  {
    forall role
      ensures CountWhere(Views(s.users), DtoRoleOf, role) == CountWhere(s.users, RoleOf, role)
    {
      ViewsCountRoles(s.users, role);
    }
    Views(s.users)
  }

  /** The public view of the user with this id, if there is one. */
  function GetById(s: UserStore, id: int): (r: Option<UserDto>)
    ensures r.None? <==> forall i :: 0 <= i < |s.users| ==> s.users[i].userId != id
    ensures r.Some? ==> exists i :: 0 <= i < |s.users| && s.users[i].userId == id && r.value == ToDto(s.users[i])
  {
    match IndexOf(s.users, UserIdOf, id)
    case None => None
    case Some(i) => Some(ToDto(s.users[i]))
  }

  lemma RegisterPreservesWellFormed(s: UserStore, dto: UserRegisterDto, hashPassword: string -> string)
    requires WellFormed(s)
    ensures WellFormed(Register(s, dto, hashPassword).state)
  {
    var r := Register(s, dto, hashPassword);
    if r.result.Some? {
      assert forall i :: 0 <= i < |s.users| ==> r.state.users[i] == s.users[i];
    }
  }

  /** No two users ever share a user name. */
  lemma RegisterPreservesUniqueUserNames(s: UserStore, dto: UserRegisterDto, hashPassword: string -> string)
    requires UniqueUserNames(s)
    ensures UniqueUserNames(Register(s, dto, hashPassword).state)
  {
    var r := Register(s, dto, hashPassword);
    if r.result.Some? {
      assert forall i :: 0 <= i < |s.users| ==> r.state.users[i] == s.users[i];
    }
  }

  /** A fresh user name is accepted whatever role comes with it. */
  lemma RegisterAcceptsAnyRole(s: UserStore, dto: UserRegisterDto, hashPassword: string -> string)
    requires !HasUserName(s, dto.userName)
    ensures var r := Register(s, dto, hashPassword);
      && r.result.Some?
      && r.result.value.role == dto.role
      && r.state.users[|s.users|].role == dto.role
  {
  }

  /** Right after a successful registration the same name and password
      authenticate as the new user. */
  lemma RegisterThenAuthenticate(s: UserStore, dto: UserRegisterDto, hashPassword: string -> string)
    requires Register(s, dto, hashPassword).result.Some?
    ensures var r := Register(s, dto, hashPassword);
      var a := Authenticate(r.state, dto.userName, dto.userPassword, hashPassword);
      && a.Some?
      && ToDto(a.value) == r.result.value
      && a.value.userPassword == hashPassword(dto.userPassword)
  {
    var r := Register(s, dto, hashPassword);
    var t := r.state.users;
    assert forall i :: 0 <= i < |s.users| ==> t[i] == s.users[i];
    assert UserNameOf(t[|s.users|]) == dto.userName;
    assert IndexOf(t, UserNameOf, dto.userName) == Some(|s.users|);
  }

  /** An unknown user name and a wrong password give the same answer. */
  lemma AuthenticateFailsUniformly(s: UserStore, unknown: string, known: string, password: string, wrong: string, hashPassword: string -> string)
    requires UniqueUserNames(s)
    requires !HasUserName(s, unknown)
    requires exists i :: 0 <= i < |s.users| && s.users[i].userName == known && s.users[i].userPassword != hashPassword(wrong)
    ensures Authenticate(s, unknown, password, hashPassword) == Authenticate(s, known, wrong, hashPassword) == None
  {
  }

  /** Counting roles over the public views counts them over the stored users. */
  lemma {:induction false} ViewsCountRoles(users: seq<User>, role: string)
    ensures CountWhere(Views(users), DtoRoleOf, role) == CountWhere(users, RoleOf, role)
    decreases |users|
  {
    if users != [] {
      ViewsCountRoles(users[1..], role);
      assert Views(users)[1..] == Views(users[1..]);
    }
  }

  /** A registered user is found by the id the registration returned. */
  lemma RegisterThenGetById(s: UserStore, dto: UserRegisterDto, hashPassword: string -> string)
    requires WellFormed(s)
    requires Register(s, dto, hashPassword).result.Some?
    ensures var r := Register(s, dto, hashPassword);
      GetById(r.state, r.result.value.userId) == r.result
  {
    var r := Register(s, dto, hashPassword);
    RegisterPreservesWellFormed(s, dto, hashPassword);
    IndexOfDistinct(r.state.users, UserIdOf, |s.users|);
  }

  /** "alice" registers as a Student; a second "alice" is refused and the
      store still holds the first one only, with role Student. */
  lemma RegisterDuplicateScenario(hashPassword: string -> string)
    ensures var r1 := Register(EmptyUserStore(), UserRegisterDto("alice", "pw1", "Alice A", Student), hashPassword);
      var r2 := Register(r1.state, UserRegisterDto("alice", "pw2", "Alice B", Instructor), hashPassword);
      && r1.result.Some?
      && r2.result.None?
      && r2.state.users == [User(1, "alice", hashPassword("pw1"), "Alice A", Student)]
  {
    var r1 := Register(EmptyUserStore(), UserRegisterDto("alice", "pw1", "Alice A", Student), hashPassword);
    assert r1.state.users[0].userName == "alice";
  }
}

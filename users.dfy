/**
  * Users: the User entity, the UserRepository queries the services use, and
  * UserService (registration, lookups, password change, DTO conversion).
  */
module Users {
  import opened Common
  import opened Rows

  datatype Role = USER | ADMIN

  /**
    * A row of the users table. `emailVerified` is the flag that the email
    * verification flow reads and sets.
    */
  datatype User = User(
    id: int,
    nome: string,
    cognome: string,
    email: string,
    password: string,
    ruolo: Role,
    emailVerified: bool)

  /** UserDTO: every field may be left unset (null). */
  datatype UserDTO = UserDTO(
    id: Option<int>,
    nome: Option<string>,
    cognome: Option<string>,
    email: Option<string>,
    ruolo: Option<Role>,
    emailVerified: Option<bool>)

  datatype UserRegistration = UserRegistration(nome: string, cognome: string, email: string, password: string)

  datatype UserError =
    | UserAlreadyExists
    | UserNotFound
      /** the plain RuntimeException of findByEmail */
    | UnknownEmail

  // ---------------------------------------------------------------------------
  // UserRepository queries
  // ---------------------------------------------------------------------------

  function FindById(users: seq<User>, id: int): (o: Option<User>)
    ensures o.Some? ==> o.value in users && o.value.id == id
    ensures o.None? <==> forall k :: 0 <= k < |users| ==> users[k].id != id
  {
    if users == [] then None
    else if users[0].id == id then Some(users[0])
    else
      var o := FindById(users[1..], id);
      assert forall k :: 1 <= k < |users| ==> users[k] == users[1..][k - 1];
      o
  }

  function FindByEmail(users: seq<User>, email: string): (o: Option<User>)
    ensures o.Some? ==> o.value in users && o.value.email == email
    ensures o.None? <==> forall k :: 0 <= k < |users| ==> users[k].email != email
  {
    FindFirst(users, (u: User) => u.email == email)
  }

  predicate ExistsByEmail(users: seq<User>, email: string) {
    FindByEmail(users, email).Some?
  }

  ghost predicate UniqueIds(users: seq<User>) {
    forall i, j :: 0 <= i < j < |users| ==> users[i].id != users[j].id
  }

  /** The unique constraint on the email column. */
  ghost predicate UniqueEmails(users: seq<User>) {
    forall i, j :: 0 <= i < j < |users| ==> users[i].email != users[j].email
  }

  /** In a table with unique ids, findById returns the one row with that id. */
  lemma {:induction false} FindByIdUnique(users: seq<User>, k: nat)
    requires UniqueIds(users) && k < |users|
    ensures FindById(users, users[k].id) == Some(users[k])
  {
    if k > 0 {
      var rest := users[1..];
      assert rest[k - 1] == users[k];
      assert UniqueIds(rest) by {
        forall i, j | 0 <= i < j < |rest| ensures rest[i].id != rest[j].id {
          assert rest[i] == users[i + 1] && rest[j] == users[j + 1];
        }
      }
      FindByIdUnique(rest, k - 1);
    }
  }

  /** In a table with unique emails, findByEmail returns the one row with that email. */
  lemma FindByEmailUnique(users: seq<User>, k: nat)
    requires UniqueEmails(users) && k < |users|
    ensures FindByEmail(users, users[k].email) == Some(users[k])
  {
    FindFirstOnly(users, (u: User) => u.email == users[k].email, k);
  }

  /** Adding a user whose email is not yet registered keeps emails unique. */
  lemma RegistrationKeepsEmailsUnique(users: seq<User>, u: User)
    requires UniqueEmails(users) && !ExistsByEmail(users, u.email)
    ensures UniqueEmails(users + [u])
  {
  }

  /** Saving over the row with u's id, keeping that row's email, keeps ids and emails unique. */
  lemma SaveKeepsUnique(users: seq<User>, u: User, k: nat)
    requires UniqueIds(users) && UniqueEmails(users)
    requires k < |users| && users[k].id == u.id && users[k].email == u.email
    ensures var r := ReplaceWhere(users, (x: User) => x.id == u.id, u);
      UniqueIds(r) && UniqueEmails(r) && r == users[k := u]
  {
    var r := ReplaceWhere(users, (x: User) => x.id == u.id, u);
    assert forall i :: 0 <= i < |users| ==> r[i].id == users[i].id && r[i].email == users[i].email;
    ReplaceOnly(users, (x: User) => x.id == u.id, u, k);
  }

  class UserRepository {
    var users: seq<User>
    /** the IDENTITY column's next value */
    var nextId: int

    ghost predicate Valid()
      reads this
    {
      && UniqueIds(users)
      && UniqueEmails(users)
      && (forall k :: 0 <= k < |users| ==> users[k].id < nextId)
    }

    constructor ()
      ensures Valid() && users == []
    {
      users, nextId := [], 1;
    }

    /** save(u) of a new user: the database assigns the id; the email must be free. */
    method Insert(u: User) returns (saved: User)
      requires Valid() && !ExistsByEmail(users, u.email)
      modifies this
      ensures Valid()
      ensures saved == u.(id := old(nextId))
      ensures users == old(users) + [saved] && nextId == old(nextId) + 1
    {
      saved := u.(id := nextId);
      RegistrationKeepsEmailsUnique(users, saved);
      users := users + [saved];
      nextId := nextId + 1;
    }

    /** save(u) of a loaded user whose email is unchanged: overwrites its row. */
    method Update(u: User)
      requires Valid()
      requires FindById(users, u.id).Some? && FindById(users, u.id).value.email == u.email
      modifies this
      ensures Valid() && nextId == old(nextId)
      ensures users == ReplaceWhere(old(users), (x: User) => x.id == u.id, u)
      ensures exists k :: 0 <= k < |old(users)| && old(users)[k].id == u.id && users == old(users)[k := u]
    {
      var k :| 0 <= k < |users| && users[k] == FindById(users, u.id).value;
      SaveKeepsUnique(users, u, k);
      users := ReplaceWhere(users, (x: User) => x.id == u.id, u);
    }
  }

  /** UserService.convertToDTO: only the name, surname and email are copied. */
  function ConvertToDTO(u: User): (dto: UserDTO)
    ensures dto.nome == Some(u.nome) && dto.cognome == Some(u.cognome) && dto.email == Some(u.email)
    ensures dto.id.None? && dto.ruolo.None? && dto.emailVerified.None?
  {
    UserDTO(None, Some(u.nome), Some(u.cognome), Some(u.email), None, None)
  }

  /** The DTO reveals nothing beyond name, surname and email: not the id, role, password or flag. */
  lemma ConvertToDTOHidesRest(u: User, v: User)
    requires u.nome == v.nome && u.cognome == v.cognome && u.email == v.email
    ensures ConvertToDTO(u) == ConvertToDTO(v)
  {
  }

  class UserService {
    const repository: UserRepository
    /** PasswordEncoder.encode, left uninterpreted */
    const encode: string -> string

    constructor (repository: UserRepository, encode: string -> string)
      ensures this.repository == repository && this.encode == encode
    {
      this.repository := repository;
      this.encode := encode;
    }

    method RegisterUser(registration: UserRegistration) returns (result: Result<UserDTO, UserError>)
      requires repository.Valid()
      modifies repository
      ensures repository.Valid()
      ensures result.Err? <==> ExistsByEmail(old(repository.users), registration.email)
      ensures result.Err? ==> result.error == UserAlreadyExists && unchanged(repository)
      ensures result.Ok? ==>
        var saved := User(old(repository.nextId), registration.nome, registration.cognome,
                          registration.email, encode(registration.password), USER, false);
        && repository.users == old(repository.users) + [saved]
        && result.value == ConvertToDTO(saved)
    {
      if ExistsByEmail(repository.users, registration.email) {
        return Err(UserAlreadyExists);
      }
      var newUser := User(0, registration.nome, registration.cognome, registration.email,
                          encode(registration.password), USER, false);
      newUser := repository.Insert(newUser);
      result := Ok(ConvertToDTO(newUser));
    }

    method FindUserById(id: int) returns (result: Result<User, UserError>)
      requires repository.Valid()
      ensures result.Err? <==> forall k :: 0 <= k < |repository.users| ==> repository.users[k].id != id
      ensures result.Err? ==> result.error == UserNotFound
      ensures result.Ok? ==> result.value in repository.users && result.value.id == id
    {
      var found := FindById(repository.users, id);
      if found.None? {
        return Err(UserNotFound);
      }
      result := Ok(found.value);
    }

    method FindUserByEmail(email: string) returns (result: Result<User, UserError>)
      requires repository.Valid()
      ensures result.Err? <==> forall k :: 0 <= k < |repository.users| ==> repository.users[k].email != email
      ensures result.Err? ==> result.error == UnknownEmail
      ensures result.Ok? ==> result.value in repository.users && result.value.email == email
    {
      var found := FindByEmail(repository.users, email);
      if found.None? {
        return Err(UnknownEmail);
      }
      result := Ok(found.value);
    }

    method GetUserById(id: int) returns (result: Result<UserDTO, UserError>)
      requires repository.Valid()
      ensures result.Err? <==> forall k :: 0 <= k < |repository.users| ==> repository.users[k].id != id
      ensures result.Err? ==> result.error == UserNotFound
      ensures result.Ok? ==> exists k ::
                && 0 <= k < |repository.users| && repository.users[k].id == id
                && result.value == ConvertToDTO(repository.users[k])
    {
      var found := FindById(repository.users, id);
      if found.None? {
        return Err(UserNotFound);
      }
      result := Ok(ConvertToDTO(found.value));
    }

    method ChangePassword(userId: int, newPassword: string) returns (result: Result<string, UserError>)
      requires repository.Valid()
      modifies repository
      ensures repository.Valid()
      ensures result.Err? <==> forall k :: 0 <= k < |old(repository.users)| ==> old(repository.users)[k].id != userId
      ensures result.Err? ==> result.error == UserNotFound && unchanged(repository)
      ensures result.Ok? ==> result.value == "password cambiata"
      ensures result.Ok? ==> exists k ::
                && 0 <= k < |old(repository.users)| && old(repository.users)[k].id == userId
                && repository.users == old(repository.users)[k := old(repository.users)[k].(password := encode(newPassword))]
    {
      var found := FindById(repository.users, userId);
      if found.None? {
        return Err(UserNotFound);
      }
      var user := found.value.(password := encode(newPassword));
      repository.Update(user);
      result := Ok("password cambiata");
    }
  }
}

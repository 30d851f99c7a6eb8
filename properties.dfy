/**
  Properties of the account service that relate several requests, or a
  request and the credential lookup.
 */
module AccountProperties {

  import opened Wrappers
  import opened JavaText
  import opened PasswordPattern
  import opened Domain
  import opened PersonService
  import opened Controller
  import opened DetailsService

  /** A sign-up with a bad login length is answered 400 whatever the password, and saves nothing. */
  lemma SignUpBadLoginIsBadRequest(s: Store, dto: PersonDto, encode: JString -> JString)
    requires Wellformed(s)
    requires dto.login.Some? && !ValidLogin(dto.login.value)
    ensures var r := CreateStep(s, dto, encode);
            r.store == s && Respond(r.outcome) == ErrorResponse(BadRequest, InvalidLoginMessage)
  {
  }

  /** With a good login, a password outside the policy is answered 400 and saves nothing. */
  lemma SignUpBadPasswordIsBadRequest(s: Store, dto: PersonDto, encode: JString -> JString)
    requires Wellformed(s)
    requires dto.login.Some? && ValidLogin(dto.login.value)
    requires dto.password.Some? && !PasswordPolicy(dto.password.value)
    ensures var r := CreateStep(s, dto, encode);
            r.store == s && Respond(r.outcome) == ErrorResponse(BadRequest, InvalidPasswordMessage)
  {
  }

  /** A null login or password is not turned into 400: nothing handles the NullPointerException. */
  lemma SignUpNullFieldIsUnhandled(s: Store, dto: PersonDto, encode: JString -> JString)
    requires Wellformed(s)
    requires dto.login.None? || (ValidLogin(dto.login.value) && dto.password.None?)
    ensures var r := CreateStep(s, dto, encode);
            r.store == s && Respond(r.outcome) == Unhandled(NullPointer(None))
  {
  }

  /** A successful sign-up adds exactly one person, which a later GET by its id returns. */
  lemma SignUpThenFindById(s: Store, dto: PersonDto, encode: JString -> JString)
    requires Wellformed(s) && SignUpAccepted(dto)
    ensures var r := CreateStep(s, dto, encode);
            && r.outcome.Returned? && r.outcome.body.Some?
            && |r.store.persons| == |s.persons| + 1
            && FindByIdOf(r.store, r.outcome.body.value.id) == Returned(Ok, r.outcome.body)
  {
  }

  /**
    If no one held the login before, the credential lookup then finds it:
    the principal carries the login, the encoded password that sign-up
    stored and no authorities.
   */
  lemma SignUpOfNewLoginThenLoadUser(s: Store, dto: PersonDto, encode: JString -> JString)
    requires Wellformed(s) && SignUpAccepted(dto)
    requires forall id :: id in s.persons ==> s.persons[id].login != dto.login.value
    ensures var r := CreateStep(s, dto, encode);
            var found := LoadUserByUsername(r.store.persons, dto.login.value);
            && found.Found?
            && found.user.username == dto.login.value
            && found.user.password == encode(dto.password.value)
            && found.user.authorities == []
  {
    var r := CreateStep(s, dto, encode);
    var p := r.outcome.body.value;
    assert r.store.persons[p.id].login == dto.login.value;
    var found := LoadUserByUsername(r.store.persons, dto.login.value);
    var id :| id in r.store.persons && r.store.persons[id].login == dto.login.value
              && r.store.persons[id].password == found.user.password;
    assert id == p.id;
  }

  /** "Passw0rd" meets the password rule. */
  lemma ExamplePasswordFollowsPolicy()
    ensures PasswordPolicy(FromAscii("Passw0rd"))
  {
    var pw := FromAscii("Passw0rd");
    assert |pw| == 8 && pw[0] == 0x50 && pw[1] == 0x61 && pw[5] == 0x30;
    assert forall i :: 0 <= i < |pw| ==> pw[i] < 128;
  }

  /** The sign-up body {"login": "bob12", "password": "Passw0rd"} is accepted and stored under a new, non-zero id. */
  lemma SignUpExample(s: Store, encode: JString -> JString)
    requires Wellformed(s)
    ensures var dto := PersonDto(Some(FromAscii("bob12")), Some(FromAscii("Passw0rd")));
            var r := CreateStep(s, dto, encode);
            && Respond(r.outcome).Entity? && Respond(r.outcome).status == Created
            && var p := r.outcome.body.value;
            && p.id != 0 && p.id !in s.persons
            && p.login == FromAscii("bob12") && p.password == encode(FromAscii("Passw0rd"))
  {
    var dto := PersonDto(Some(FromAscii("bob12")), Some(FromAscii("Passw0rd")));
    assert |dto.login.value| == 5;
    ExamplePasswordFollowsPolicy();
    assert SignUpAccepted(dto);
  }

  /** Changing a password keeps id and login, and a later GET returns the encoded new password. */
  lemma UpdatePasswordThenFindById(s: Store, id: int, newPassword: JString, encode: JString -> JString)
    requires Wellformed(s) && id in s.persons
    ensures var r := UpdatePasswordStep(s, id, newPassword, encode);
            && r.store.persons.Keys == s.persons.Keys
            && FindByIdOf(r.store, id) == Returned(Ok, Some(Person(id, s.persons[id].login, encode(newPassword))))
            && forall k :: k in s.persons && k != id ==> r.store.persons[k] == s.persons[k]
  {
  }

  /** PUT stores the body as sent: a later GET returns it with its password not encoded. */
  lemma UpdateThenFindById(s: Store, p: Person)
    requires Wellformed(s) && p.id in s.persons
    ensures var r := UpdateStep(s, Some(p));
            && Respond(r.outcome) == Entity(Ok, None)
            && FindByIdOf(r.store, p.id) == Returned(Ok, Some(p))
  {
  }

  /** PUT of a person that was never saved (id 0) is 404 and changes nothing. */
  lemma UpdateOfUnsavedPersonIsNotFound(s: Store, p: Person)
    requires Wellformed(s) && p.id == 0
    ensures UpdateStep(s, Some(p)) == Step(s, Returned(NotFound, None))
  {
  }

  /** Deleting twice: the second request is 404 and leaves the store as the first left it. */
  lemma DeleteTwiceIsNotFound(s: Store, id: int)
    requires Wellformed(s)
    ensures var first := DeleteStep(s, id);
            DeleteStep(first.store, id) == Step(first.store, Returned(NotFound, None))
  {
  }

  /** After a successful delete a GET of the id is 404. */
  lemma DeleteThenFindByIdIsNotFound(s: Store, id: int)
    requires Wellformed(s) && id in s.persons
    ensures var r := DeleteStep(s, id);
            && Respond(r.outcome) == Entity(Ok, None)
            && |r.store.persons| == |s.persons| - 1
            && Respond(FindByIdOf(r.store, id)) == ErrorResponse(NotFound, NotFoundReason)
  {
  }
}

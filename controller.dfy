/**
  The `/person` request handlers. Each handler is first given as a function
  from the store before the request to the store after it and the handler's
  outcome; the class PersonController then performs the same steps on its
  own store fields and is proved to follow those functions.
 */
module Controller {

  import opened Wrappers
  import opened JavaText
  import opened PasswordPattern
  import opened Domain
  import opened PersonService

  const InvalidLoginMessage: string := "Invalid login. Login length should be 3 - 15 characters."
  const InvalidPasswordMessage: string :=
    "Password should contain only characters (at least 1 LowerCase and UpperCase"
    + " and  at least one number. Also length can't be less than 4 symbols."
  const NullFieldsMessage: string := "Login and password can't be empty."
  const EmptyPersonMessage: string := "Person cannot be empty."
  const NotFoundReason: string := "User with this id wasn't found. Please, check the input."

  predicate ValidLogin(login: JString) { 3 <= |login| <= 15 }

  /** The sign-up bodies `create` accepts. */
  predicate SignUpAccepted(dto: PersonDto)
  {
    && dto.login.Some?
    && dto.password.Some?
    && ValidLogin(dto.login.value)
    && PasswordPolicy(dto.password.value)
  }

  /**
    The checks `create` runs before saving, in their order; None when all
    pass, otherwise the exception thrown. A null login or password is
    dereferenced before the explicit null test, which therefore never fires.
   */
  function SignUpCheck(login: Option<JString>, password: Option<JString>): (r: Option<Exception>)
    ensures login.None? ==> r == Some(NullPointer(None))
    ensures login.Some? && !ValidLogin(login.value) ==> r == Some(IllegalArgument(InvalidLoginMessage))
    ensures login.Some? && ValidLogin(login.value) && password.None? ==> r == Some(NullPointer(None))
    ensures login.Some? && ValidLogin(login.value) && password.Some? && !PasswordPolicy(password.value) ==>
              r == Some(IllegalArgument(InvalidPasswordMessage))
    ensures r.None? <==> SignUpAccepted(PersonDto(login, password))
    ensures r != Some(NullPointer(Some(NullFieldsMessage)))
  {
    if login.None? then Some(NullPointer(None))
    else if |login.value| < 3 || |login.value| > 15 then Some(IllegalArgument(InvalidLoginMessage))
    else if password.None? then Some(NullPointer(None))
    else
      MatchesIffPolicy(password.value);
      MatchImpliesLengthAtLeastFour(password.value);
      if !Matches(password.value) || |password.value| < 4 then Some(IllegalArgument(InvalidPasswordMessage))
      else if login.None? || password.None? then Some(NullPointer(Some(NullFieldsMessage)))
      else None
  }

  /**
    How a handler's outcome reaches the client. The controller's exception
    handler answers IllegalArgumentException with 400 and the exception's
    message; Spring's resolver answers ResponseStatusException with its
    status (whether the reason reaches the client's body is a Spring Boot
    setting, not modelled); nothing here answers a NullPointerException.
   */
  function Respond<T>(o: Outcome<T>): (r: Reply<T>)
    ensures o.Returned? ==> r == Entity(o.status, o.body)
    ensures r.ErrorResponse? && r.status == BadRequest <==> o.Threw? && o.e.IllegalArgument?
    ensures o.Threw? && o.e.IllegalArgument? ==> r.message == o.e.message
    ensures r.ErrorResponse? && r.status == NotFound <==> o.Threw? && o.e.NotFoundStatus?
    ensures r.Unhandled? <==> o.Threw? && o.e.NullPointer?
  {
    match o
    case Returned(status, body) => Entity(status, body)
    case Threw(IllegalArgument(message)) => ErrorResponse(BadRequest, message)
    case Threw(NotFoundStatus(reason)) => ErrorResponse(NotFound, reason)
    case Threw(e) => Unhandled(e)
  }

  /** The store after a request together with the handler's outcome. */
  datatype Step<T> = Step(store: Store, outcome: Outcome<T>)

  /** GET /person/all */
  function FindAllOf(s: Store): (o: Outcome<set<Person>>)
    ensures o.Returned? && o.status == Ok && o.body.Some?
    ensures forall p :: p in o.body.value <==> exists id :: id in s.persons && s.persons[id] == p
  {
    Returned(Ok, Some(set id | id in s.persons :: s.persons[id]))
  }

  /** GET /person/{id} */
  function FindByIdOf(s: Store, id: int): (o: Outcome<Person>)
    ensures o.Returned? <==> id in s.persons
    ensures o.Returned? ==> o.status == Ok && o.body == Some(s.persons[id])
    ensures o.Threw? ==> Respond(o) == ErrorResponse(NotFound, NotFoundReason)
  {
    if id in s.persons then Returned(Ok, Some(s.persons[id]))
    else Threw(NotFoundStatus(NotFoundReason))
  }

  /** PATCH /person/changePassword/{id}; the new password is not checked. */
  function UpdatePasswordStep(s: Store, id: int, newPassword: JString, encode: JString -> JString)
    : (r: Step<Person>)
    requires Wellformed(s)
    ensures Wellformed(r.store) && r.store.nextId == s.nextId
    ensures id !in s.persons ==> r == Step(s, Returned(NotFound, None))
    ensures id in s.persons ==>
              && r.outcome.Returned? && r.outcome.status == Ok && r.outcome.body.Some?
              && var p := r.outcome.body.value;
              && p.id == id
              && p.login == s.persons[id].login
              && p.password == encode(newPassword)
              && r.store.persons == s.persons[id := p]
  {
    if id !in s.persons then Step(s, Returned(NotFound, None))
    else
      var person := s.persons[id].(password := encode(newPassword));
      var (s', _) := Save(s, person);
      Step(s', Returned(Ok, Some(person)))
  }

  /** POST /person/sign-up */
  function CreateStep(s: Store, dto: PersonDto, encode: JString -> JString): (r: Step<Person>)
    requires Wellformed(s)
    ensures Wellformed(r.store)
    ensures r.outcome.Returned? <==> SignUpAccepted(dto)
    ensures r.outcome.Threw? ==> r.store == s && Some(r.outcome.e) == SignUpCheck(dto.login, dto.password)
    ensures r.outcome.Returned? ==>
              && r.outcome.status == Created && r.outcome.body.Some?
              && var p := r.outcome.body.value;
              && p.id != 0 && p.id !in s.persons
              && p.login == dto.login.value
              && p.password == encode(dto.password.value)
              && r.store.persons == s.persons[p.id := p]
  {
    var check := SignUpCheck(dto.login, dto.password);
    if check.Some? then Step(s, Threw(check.value))
    else
      var (s', saved) := Save(s, Person(0, dto.login.value, encode(dto.password.value)));
      Step(s', Returned(Created, Some(saved)))
  }

  /**
    PUT /person: the body is stored as sent, its password included. The
    null-body branch mirrors the handler's own test; Spring already refuses
    a missing or null required body before the handler runs, so that test
    never fires in the running service.
   */
  function UpdateStep(s: Store, body: Option<Person>): (r: Step<()>)
    requires Wellformed(s)
    ensures Wellformed(r.store) && r.store.nextId == s.nextId
    ensures body.None? ==> r == Step(s, Threw(IllegalArgument(EmptyPersonMessage)))
    ensures body.Some? && body.value.id !in s.persons ==> r == Step(s, Returned(NotFound, None))
    ensures body.Some? && body.value.id in s.persons ==>
              r.outcome == Returned(Ok, None) && r.store.persons == s.persons[body.value.id := body.value]
  {
    if body.None? then Step(s, Threw(IllegalArgument(EmptyPersonMessage)))
    else if body.value.id !in s.persons then Step(s, Returned(NotFound, None))
    else
      var (s', _) := Save(s, body.value);
      Step(s', Returned(Ok, None))
  }

  /** DELETE /person/{id} */
  function DeleteStep(s: Store, id: int): (r: Step<()>)
    requires Wellformed(s)
    ensures Wellformed(r.store) && r.store.nextId == s.nextId
    ensures id !in s.persons ==> r == Step(s, Returned(NotFound, None))
    ensures id in s.persons ==>
              && r.outcome == Returned(Ok, None)
              && id !in r.store.persons
              && r.store.persons.Keys == s.persons.Keys - {id}
              && forall k :: k in r.store.persons ==> r.store.persons[k] == s.persons[k]
  {
    if id !in s.persons then Step(s, Returned(NotFound, None))
    else Step(s.(persons := s.persons - {id}), Returned(Ok, None))
  }

  /** The controller object: the store it works on and the password encoder it was given. */
  class PersonController {
    var persons: map<int, Person>
    var nextId: int
    const encode: JString -> JString

    ghost predicate Valid()
      reads this
    {
      Wellformed(State())
    }

    function State(): Store
      reads this
    {
      Store(persons, nextId)
    }

    /** The controller is handed the person store as it stands and the encoder. */
    constructor (s: Store, encode: JString -> JString)
      requires Wellformed(s)
      ensures Valid()
      ensures State() == s && this.encode == encode
    {
      persons := s.persons;
      nextId := s.nextId;
      this.encode := encode;
    }

    /** `persons.save(person)` */
    method Save(person: Person) returns (saved: Person)
      requires Valid()
      requires person.id == 0 || person.id in persons
      modifies this
      ensures Valid()
      ensures (State(), saved) == PersonService.Save(old(State()), person)
    {
      if person.id == 0 {
        saved := person.(id := nextId);
        persons := persons[nextId := saved];
        nextId := nextId + 1;
      } else {
        saved := person;
        persons := persons[person.id := person];
      }
    }

    method FindAll() returns (o: Outcome<set<Person>>)
      ensures o == FindAllOf(State())
    {
      o := Returned(Ok, Some(set id | id in persons :: persons[id]));
    }

    method FindById(id: int) returns (o: Outcome<Person>)
      ensures o == FindByIdOf(State(), id)
    {
      if id in persons {
        o := Returned(Ok, Some(persons[id]));
      } else {
        o := Threw(NotFoundStatus(NotFoundReason));
      }
    }

    method UpdatePassword(id: int, newPassword: JString) returns (o: Outcome<Person>)
      requires Valid()
      modifies this
      ensures Valid()
      ensures Step(State(), o) == UpdatePasswordStep(old(State()), id, newPassword, encode)
    {
      if id !in persons {
        return Returned(NotFound, None);
      }
      var person := persons[id];
      person := person.(password := encode(newPassword));
      var _ := Save(person);
      o := Returned(Ok, Some(person));
    }

    method Create(dto: PersonDto) returns (o: Outcome<Person>)
      requires Valid()
      modifies this
      ensures Valid()
      ensures Step(State(), o) == CreateStep(old(State()), dto, encode)
    {
      var check := SignUpCheck(dto.login, dto.password);
      if check.Some? {
        return Threw(check.value);
      }
      var person := Person(0, dto.login.value, encode(dto.password.value));
      var saved := Save(person);
      o := Returned(Created, Some(saved));
    }

    method Update(body: Option<Person>) returns (o: Outcome<()>)
      requires Valid()
      modifies this
      ensures Valid()
      ensures Step(State(), o) == UpdateStep(old(State()), body)
    {
      if body.None? {
        return Threw(IllegalArgument(EmptyPersonMessage));
      }
      if body.value.id !in persons {
        return Returned(NotFound, None);
      }
      var _ := Save(body.value);
      o := Returned(Ok, None);
    }

    method Delete(id: int) returns (o: Outcome<()>)
      requires Valid()
      modifies this
      ensures Valid()
      ensures Step(State(), o) == DeleteStep(old(State()), id)
    {
      if id !in persons {
        return Returned(NotFound, None);
      }
      persons := persons - {id};
      o := Returned(Ok, None);
    }
  }
}

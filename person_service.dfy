/**
  The person store the controller and the credential lookup both use,
  reduced to a map from id to Person. Ids are handed out by the store
  (an identity column): they start at 1 and are never reused, so id 0
  marks a Person that has not been saved yet.
 */
module PersonService {

  import opened Wrappers
  import opened JavaText
  import opened Domain

  datatype Store = Store(persons: map<int, Person>, nextId: int)

  /** Every stored person sits under its own id, and every id was handed out. */
  ghost predicate Wellformed(s: Store)
  {
    && s.nextId >= 1
    && forall id :: id in s.persons ==> 1 <= id < s.nextId && s.persons[id].id == id
  }

  /**
    `save(person)`: a Person with id 0 is new and gets a fresh id; any
    other replaces the stored Person with that id.
   */
  function Save(s: Store, p: Person): (r: (Store, Person))
    requires Wellformed(s)
    requires p.id == 0 || p.id in s.persons
    ensures Wellformed(r.0)
    ensures r.1.login == p.login && r.1.password == p.password
    ensures p.id != 0 ==> r.1 == p
    ensures p.id == 0 ==> r.1.id != 0 && r.1.id !in s.persons
    ensures r.0.persons == s.persons[r.1.id := r.1]
  {
    if p.id == 0 then
      var saved := p.(id := s.nextId);
      (Store(s.persons[s.nextId := saved], s.nextId + 1), saved)
    else
      (s.(persons := s.persons[p.id := p]), p)
  }

  /**
    `findByLogin(login)`: some stored Person with that login, if there is
    one. Which one, when several share the login, is the store's choice.
   */
  ghost function FindByLogin(persons: map<int, Person>, login: JString): (r: Option<Person>)
    ensures r.None? <==> forall id :: id in persons ==> persons[id].login != login
    ensures r.Some? ==> r.value.login == login && exists id :: id in persons && persons[id] == r.value
  {
    if exists id :: id in persons && persons[id].login == login then
      var id :| id in persons && persons[id].login == login;
      Some(persons[id])
    else
      None
  }
}

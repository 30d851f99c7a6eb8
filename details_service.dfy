/**
  The credential lookup the authentication framework calls: find the
  person with the given login and hand back its login, its stored
  (already encoded) password and no authorities.
 */
module DetailsService {

  import opened Wrappers
  import opened JavaText
  import opened Domain
  import opened PersonService

  datatype GrantedAuthority = GrantedAuthority(authority: JString)

  /** The principal handed to the authentication framework. */
  datatype UserDetails = User(username: JString, password: JString, authorities: seq<GrantedAuthority>)

  /** A principal, or UsernameNotFoundException carrying the requested login. */
  datatype Lookup = Found(user: UserDetails) | UsernameNotFound(login: JString)

  /** `loadUserByUsername(login)`; it only reads the store it is given. */
  ghost function LoadUserByUsername(persons: map<int, Person>, login: JString): (r: Lookup)
    ensures r.UsernameNotFound? <==> forall id :: id in persons ==> persons[id].login != login
    ensures r.UsernameNotFound? ==> r.login == login
    ensures r.Found? ==>
              && r.user.username == login
              && r.user.authorities == []
              && exists id :: id in persons && persons[id].login == login && persons[id].password == r.user.password
  {
    var user := FindByLogin(persons, login);
    if user.None? then UsernameNotFound(login)
    else Found(User(user.value.login, user.value.password, []))
  }
}

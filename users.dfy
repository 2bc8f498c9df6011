/**
 * The user store the core reads but never changes: appointment owners and team supervisors.
 * The User entity itself is not part of this model; it is reduced to the fields the core uses.
 */
module Users {
  import opened Results
  import opened Seqs

  datatype User = User(id: int, username: string, firstName: string, lastName: string,
                       role: string, isActive: bool)

  /** UserRepository.findByUsername over the users in store order. */
  function FindByUsername(users: seq<User>, username: string): (r: Option<User>)
    ensures r.Some? ==> r.value in users && r.value.username == username
    ensures r.None? <==> forall i :: 0 <= i < |users| ==> users[i].username != username
  {
    FirstWhere(users, (u: User) => u.username == username)
  }

  /** UserRepository.findById over the users in store order. */
  function FindById(users: seq<User>, id: int): (r: Option<User>)
    ensures r.Some? ==> r.value in users && r.value.id == id
    ensures r.None? <==> forall i :: 0 <= i < |users| ==> users[i].id != id
  {
    FirstWhere(users, (u: User) => u.id == id)
  }
}

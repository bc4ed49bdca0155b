/** The server's user table: an append-only, process-local sequence of
    user records, searched front to back like `Array.prototype.find`. */
module CredentialStore {
  import opened Wrappers

  /** One registered account. `passwordHash` is the bcrypt output (the
      plaintext is never kept); `createdAt` is the ISO timestamp string
      taken when the record was made. */
  datatype User = User(id: int, name: string, email: string, passwordHash: string, createdAt: string)

  type Store = seq<User>

  /** The part of a record the server sends back: no password hash. */
  datatype PublicUser = PublicUser(id: int, name: string, email: string)

  function PublicView(u: User): PublicUser {
    PublicUser(u.id, u.name, u.email)
  }

  /** `users.find(matches)`, returning the position of the record found:
      the first record the predicate accepts, or nothing if none does. */
  function Find(users: Store, matches: User -> bool): (r: Option<nat>)
    ensures r.Some? ==> r.value < |users| && matches(users[r.value])
    ensures r.Some? ==> forall k | 0 <= k < r.value :: !matches(users[k])
    ensures r.None? ==> forall k | 0 <= k < |users| :: !matches(users[k])
    decreases |users|
  {
    if |users| == 0 then None
    else if matches(users[0]) then Some(0)
    else match Find(users[1..], matches)
      case None => None
      case Some(k) => Some(k + 1)
  }

  predicate HasEmail(users: Store, email: string) {
    exists k | 0 <= k < |users| :: users[k].email == email
  }

  /** `findUserByEmail`: exact, case-sensitive comparison of the whole string. */
  function FindByEmail(users: Store, email: string): (r: Option<nat>)
    ensures r.Some? ==> r.value < |users| && users[r.value].email == email
    ensures r.Some? ==> forall k | 0 <= k < r.value :: users[k].email != email
    ensures r.None? <==> !HasEmail(users, email)
  {
    Find(users, (u: User) => u.email == email)
  }

  /** The profile route's `users.find(u => u.id === req.userId)`. */
  function FindById(users: Store, id: int): (r: Option<nat>)
    ensures r.Some? ==> r.value < |users| && users[r.value].id == id
    ensures r.Some? ==> forall k | 0 <= k < r.value :: users[k].id != id
    ensures r.None? <==> forall k | 0 <= k < |users| :: users[k].id != id
  {
    Find(users, (u: User) => u.id == id)
  }

  /** The store invariant that registration maintains: ids are assigned
      1, 2, 3, ... in insertion order, and no two records share an email. */
  predicate Valid(users: Store) {
    && (forall k | 0 <= k < |users| :: users[k].id == k + 1)
    && (forall j, k | 0 <= j < k < |users| :: users[j].email != users[k].email)
  }

  /** In a valid store the email lookup finds the one record with that email. */
  lemma FindByEmailUnique(users: Store, email: string, k: nat)
    requires Valid(users)
    requires k < |users| && users[k].email == email
    ensures FindByEmail(users, email) == Some(k)
  {
  }

  /** In a valid store the record with id `n` is the `n`-th one, and ids
      outside 1..|users| resolve to nothing. */
  lemma FindByIdValid(users: Store, id: int)
    requires Valid(users)
    ensures FindById(users, id) == if 1 <= id <= |users| then Some(id - 1) else None
  {
    if 1 <= id <= |users| {
      assert users[id - 1].id == id;
    }
  }

  /** Appending a record whose id is the next position and whose email is new keeps the store valid. */
  lemma AppendValid(users: Store, u: User)
    requires Valid(users)
    requires u.id == |users| + 1 && !HasEmail(users, u.email)
    ensures Valid(users + [u])
  {
    var s := users + [u];
    forall j, k | 0 <= j < k < |s|
      ensures s[j].email != s[k].email
    {
      if k == |users| {
        assert s[j] == users[j];
      }
    }
  }
}

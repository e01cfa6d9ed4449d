/** The credential record kept for each account, and the invariants the user table
    keeps: every stored record has an id, and usernames and emails are each unique. */
module UserEntity {
  import opened Platform

  datatype Role = USER | ADMIN

  /** `User`: the id is assigned by the store when the record is saved, so a record
      not yet saved has none; `password` holds the encoded digest; the role column
      may be null. */
  datatype User = User(id: Option<nat>, username: string, password: string, email: string, role: Option<Role>)

  /** The table as `findAll` lists it. */
  type UserTable = seq<User>

  predicate UniqueUsernames(users: UserTable) {
    forall i, j :: 0 <= i < j < |users| ==> users[i].username != users[j].username
  }

  predicate UniqueEmails(users: UserTable) {
    forall i, j :: 0 <= i < j < |users| ==> users[i].email != users[j].email
  }

  /** Every stored record has an id, and no two share one. */
  predicate IdsAssigned(users: UserTable) {
    && (forall i :: 0 <= i < |users| ==> users[i].id.Some?)
    && (forall i, j :: 0 <= i < j < |users| ==> users[i].id != users[j].id)
  }

  predicate TableInvariant(users: UserTable) {
    UniqueUsernames(users) && UniqueEmails(users) && IdsAssigned(users)
  }

  /** No stored record carries `id`: the store may hand it to the next record. */
  predicate IdUnused(users: UserTable, id: nat) {
    forall i :: 0 <= i < |users| ==> users[i].id != Some(id)
  }

  /** `existsByUsername` */
  predicate ExistsByUsername(users: UserTable, username: string) {
    exists i :: 0 <= i < |users| && users[i].username == username
  }

  /** `existsByEmail` */
  predicate ExistsByEmail(users: UserTable, email: string) {
    exists i :: 0 <= i < |users| && users[i].email == email
  }

  /** `findByUsername`: the first record with that username, if any. */
  function FindByUsername(users: UserTable, username: string): (r: Option<User>)
    ensures r.Some? <==> ExistsByUsername(users, username)
    ensures r.Some? ==> r.value in users && r.value.username == username
  {
    if users == [] then None
    else if users[0].username == username then Some(users[0])
    else
      var r := FindByUsername(users[1..], username);
      assert ExistsByUsername(users, username) ==> ExistsByUsername(users[1..], username) by {
        if ExistsByUsername(users, username) {
          var i :| 0 <= i < |users| && users[i].username == username;
          assert users[1..][i - 1] == users[i];
        }
      }
      r
  }

  /** With unique usernames the record found is the one with that username. */
  lemma FindByUsernameUnique(users: UserTable, k: nat)
    requires UniqueUsernames(users)
    requires k < |users|
    ensures FindByUsername(users, users[k].username) == Some(users[k])
  {
    var r := FindByUsername(users, users[k].username);
    var i :| 0 <= i < |users| && users[i] == r.value;
    assert i == k by {
      if i < k {} else if k < i {}
    }
  }

  /** `save` of a record that has no id yet: the store assigns `id` and appends it. */
  function Save(users: UserTable, user: User, id: nat): (r: UserTable)
    ensures |r| == |users| + 1 && r[..|users|] == users
    ensures r[|users|] == user.(id := Some(id))
  {
    users + [user.(id := Some(id))]
  }

  /** Saving a record whose username and email are both new, under an unused id, keeps
      the table invariant. */
  lemma SaveKeepsInvariant(users: UserTable, user: User, id: nat)
    requires TableInvariant(users)
    requires !ExistsByUsername(users, user.username) && !ExistsByEmail(users, user.email)
    requires IdUnused(users, id)
    ensures TableInvariant(Save(users, user, id))
  {
    var r := Save(users, user, id);
    forall i, j | 0 <= i < j < |r|
      ensures r[i].username != r[j].username && r[i].email != r[j].email && r[i].id != r[j].id
    {
      if j == |users| {
        assert r[i] == users[i];
      } else {
        assert r[i] == users[i] && r[j] == users[j];
      }
    }
  }
}

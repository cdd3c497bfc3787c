/** The user service: five handlers over the user table.
    The table is a map from id to the visible rows plus the soft-deleted
    rows; GORM's soft delete hides a row from every query but keeps it,
    and with it its email, under the table's unique email index. */
module Users {
  import opened Rpc
  import Store

  datatype User = User(id: nat, name: string, email: string, isCafeOwner: bool)

  const UserNotFound := Status(NotFound, "user not found")
  const CreateFailed := Status(Internal, "failed to create user")
  const ListFailed := Status(Internal, "failed to get users")
  const UpdateFailed := Status(Internal, "failed to update user")
  const DeleteFailed := Status(Internal, "failed to delete user")

  /** A row's own id, the key a listing is ordered by. */
  function UserId(row: User): nat {
    row.id
  }

  /** The email stored in row `k`. */
  function EmailOf(rows: map<nat, User>, k: nat): string
    requires k in rows
  {
    rows[k].email
  }

  /** No two rows share an email. */
  ghost predicate EmailsUnique(rows: map<nat, User>) {
    forall a, b :: a in rows && b in rows && EmailOf(rows, a) == EmailOf(rows, b) ==> a == b
  }

  /** Some row other than `id` holds `email`. */
  ghost predicate HeldByOther(rows: map<nat, User>, id: nat, email: string) {
    exists k :: k in rows && k != id && rows[k].email == email
  }

  /** `index` is a unique index on the email column of `rows`: it maps each
      stored email to the one row holding it, and holds nothing else. A table
      with such an index never holds two rows with one email. */
  ghost predicate Indexes(index: map<string, nat>, rows: map<nat, User>)
    ensures Indexes(index, rows) ==> EmailsUnique(rows)
  {
    && (forall k :: k in rows ==> rows[k].email in index && index[rows[k].email] == k)
    && (forall e :: e in index ==> index[e] in rows && rows[index[e]].email == e)
  }

  /** The index answers "does another row hold this email" exactly. */
  lemma IndexFindsOther(index: map<string, nat>, rows: map<nat, User>, id: nat, email: string)
    requires Indexes(index, rows)
    ensures HeldByOther(rows, id, email) <==> email in index && index[email] != id
  {
  }

  /** Writing row `u` under its own id keeps the index exact once the index
      forgets the email the row had and maps the new one to it. */
  lemma IndexAfterWrite(index: map<string, nat>, rows: map<nat, User>, u: User)
    requires Indexes(index, rows)
    requires u.email in index ==> index[u.email] == u.id
    ensures u.id in rows ==> Indexes((index - {rows[u.id].email})[u.email := u.id], rows[u.id := u])
    ensures u.id !in rows ==> Indexes(index[u.email := u.id], rows[u.id := u])
  {
  }

  class UserServer {
    /** Rows every query sees, by id. */
    var users: map<nat, User>
    /** Soft-deleted rows: invisible to queries, still in the email index. */
    var deleted: map<nat, User>
    /** The id the next inserted row receives. */
    var nextId: nat
    /** The table's unique index on email, over every stored row, deleted or not. */
    var index: map<string, nat>

    ghost predicate Valid()
      reads this
    {
      && 0 < nextId
      && users.Keys !! deleted.Keys
      && (forall k :: k in users ==> 0 < k < nextId && users[k].id == k)
      && (forall k :: k in deleted ==> 0 < k < nextId && deleted[k].id == k)
      && Indexes(index, users + deleted)
    }

    /** Every row the store holds, visible or soft-deleted. */
    function Rows(): map<nat, User>
      reads this
    {
      users + deleted
    }

    /** An empty, freshly migrated table. */
    constructor ()
      ensures Valid()
      ensures users == map[] && deleted == map[] && nextId == 1 && index == map[]
    {
      users := map[];
      deleted := map[];
      nextId := 1;
      index := map[];
    }

    /** `CreateUser`: inserts one row with a fresh id. The insert is rejected
        when `storeFails` or when the email is already in the index. */
    method CreateUser(name: string, email: string, isCafeOwner: bool, storeFails: bool)
      returns (r: Result<User>)
      requires Valid()
      modifies this
      ensures Valid()
      ensures r.Err? <==> storeFails || email in old(index)
      ensures r.Err? ==> r.status == CreateFailed
      ensures r.Err? ==> users == old(users) && deleted == old(deleted) && nextId == old(nextId) && index == old(index)
      ensures r.Ok? ==> r.value == User(old(nextId), name, email, isCafeOwner)
      ensures r.Ok? ==> r.value.id != 0 && r.value.id !in old(Rows())
      ensures r.Ok? ==> users == old(users)[r.value.id := r.value] && |users| == |old(users)| + 1
      ensures r.Ok? ==> deleted == old(deleted) && nextId == old(nextId) + 1
      ensures r.Ok? ==> index == old(index)[email := r.value.id]
    {
      if storeFails || email in index {
        return Err(CreateFailed);
      }
      var u := User(nextId, name, email, isCafeOwner);
      ghost var before := Rows();
      assert nextId !in before;
      IndexAfterWrite(index, before, u);
      users := users[nextId := u];
      index := index[email := nextId];
      nextId := nextId + 1;
      assert Rows() == before[u.id := u];
      r := Ok(u);
    }

    /** `GetUser`: any failure of the lookup, a missing row included, is NotFound. */
    method GetUser(id: nat, lookupFails: bool) returns (r: Result<User>)
      requires Valid()
      ensures r.Err? <==> lookupFails || id !in users
      ensures r.Err? ==> r.status == UserNotFound
      ensures r.Ok? ==> r.value.id == id && r.value == users[id]
    {
      if lookupFails || id !in users {
        return Err(UserNotFound);
      }
      r := Ok(users[id]);
    }

    /** `GetUsers`: every visible row once, in increasing id order. */
    method GetUsers(storeFails: bool) returns (r: Result<seq<User>>)
      requires Valid()
      ensures r.Err? <==> storeFails
      ensures r.Err? ==> r.status == ListFailed
      ensures r.Ok? ==> Store.ListsTable(r.value, UserId, users)
    {
      if storeFails {
        return Err(ListFailed);
      }
      var listed: seq<User> := [];
      var id := 1;
      Store.ListsBelowFirst(UserId, users, nextId);
      while id < nextId
        invariant 1 <= id <= nextId
        invariant Store.ListsBelow(listed, UserId, users, id)
        invariant |listed| == |Store.KeysBelow(users, id)|
      {
        Store.ListsBelowStep(listed, UserId, users, id);
        if id in users {
          listed := listed + [users[id]];
        }
        id := id + 1;
      }
      Store.ListsBelowAll(listed, UserId, users, nextId);
      r := Ok(listed);
    }

    /** `UpdateUser`: overwrites name, email and cafe-owner flag of an existing
        row. The save is rejected when `saveFails` or when another row holds
        the new email. */
    method UpdateUser(id: nat, name: string, email: string, isCafeOwner: bool, lookupFails: bool, saveFails: bool)
      returns (r: Result<User>)
      requires Valid()
      modifies this
      ensures Valid()
      ensures deleted == old(deleted) && nextId == old(nextId)
      ensures (lookupFails || id !in old(users)) ==> r == Err(UserNotFound) && users == old(users)
      ensures !lookupFails && id in old(users) && (saveFails || HeldByOther(old(Rows()), id, email)) ==>
                r == Err(UpdateFailed) && users == old(users)
      ensures r.Ok? <==> !lookupFails && id in old(users) && !saveFails && !HeldByOther(old(Rows()), id, email)
      ensures r.Ok? ==> r.value == User(id, name, email, isCafeOwner) && users == old(users)[id := r.value]
      ensures r.Ok? ==> index == (old(index) - {old(users[id].email)})[email := id]
      ensures r.Err? ==> index == old(index)
    {
      if lookupFails || id !in users {
        return Err(UserNotFound);
      }
      IndexFindsOther(index, Rows(), id, email);
      if saveFails || (email in index && index[email] != id) {
        return Err(UpdateFailed);
      }
      var u := User(id, name, email, isCafeOwner);
      ghost var before := Rows();
      IndexAfterWrite(index, before, u);
      index := (index - {users[id].email})[email := id];
      users := users[id := u];
      assert Rows() == before[id := u];
      r := Ok(u);
    }

    /** `DeleteUser`: a soft delete. A store error is Internal; a delete that
        matches no visible row is NotFound. */
    method DeleteUser(id: nat, storeFails: bool) returns (r: Result<bool>)
      requires Valid()
      modifies this
      ensures Valid()
      ensures nextId == old(nextId)
      ensures storeFails ==> r == Err(DeleteFailed)
      ensures !storeFails && id !in old(users) ==> r == Err(UserNotFound)
      ensures r.Err? ==> users == old(users) && deleted == old(deleted)
      ensures r.Ok? <==> !storeFails && id in old(users)
      ensures r.Ok? ==> r.value && users == old(users) - {id} && deleted == old(deleted)[id := old(users)[id]]
      ensures Rows() == old(Rows()) && index == old(index)
    {
      if storeFails {
        return Err(DeleteFailed);
      }
      if id !in users {
        return Err(UserNotFound);
      }
      ghost var before := Rows();
      deleted := deleted[id := users[id]];
      users := users - {id};
      assert Rows() == before;
      r := Ok(true);
    }
  }
}

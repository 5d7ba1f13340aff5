/**
 * The `users` table (src/Models/User.php) with the constraints its schema
 * declares: `id` an AUTOINCREMENT key, `email` UNIQUE, `role` CHECKed to be
 * one of the three roles.
 */
module Users {
  import opened Wrappers
  import opened Strings
  import opened Sorting

  const RoleAdmin := "admin"
  const RoleManager := "manager"
  const RoleUser := "user"

  predicate IsRole(role: string) {
    role == RoleAdmin || role == RoleManager || role == RoleUser
  }

  datatype UserRecord = UserRecord(
    id: int,
    email: string,
    passwordHash: string,
    role: string,
    createdAt: string,
    updatedAt: string)

  /** A row of the admin listing: every column but `password_hash`. */
  datatype UserSummary = UserSummary(id: int, email: string, role: string, createdAt: string)

  /** The entries `update` may find in its `$data` argument; each may be absent. */
  datatype UserChanges = UserChanges(email: Option<string>, password: Option<string>, role: Option<string>)

  /** What `update` does: writes, returns false, or throws a constraint violation. */
  datatype UpdateResult = Updated | NothingToUpdate | Raised

  /** The schema's constraints, and the AUTOINCREMENT counter above every id. */
  ghost predicate Consistent(rows: seq<UserRecord>, nextId: int) {
    && nextId >= 1
    && (forall i, j :: 0 <= i < j < |rows| ==> rows[i].id != rows[j].id && rows[i].email != rows[j].email)
    && (forall i :: 0 <= i < |rows| ==> 0 < rows[i].id < nextId && IsRole(rows[i].role))
  }

  /** `!empty($data[...])`: the entry is there and is not a falsy string. */
  predicate Supplied(v: Option<string>) {
    v.Some? && !Empty(v.value)
  }

  /** Some column is left to write once the empty entries are skipped. */
  predicate AnySupplied(c: UserChanges) {
    Supplied(c.email) || Supplied(c.password) || Supplied(c.role)
  }

  /** The row `UPDATE users SET ...` leaves: supplied columns replaced, the others kept. */
  function Changed(u: UserRecord, c: UserChanges, hash: string -> string): (r: UserRecord)
    ensures r.id == u.id && r.createdAt == u.createdAt && r.updatedAt == u.updatedAt
    ensures r.email == (if Supplied(c.email) then c.email.value else u.email)
    ensures r.passwordHash == (if Supplied(c.password) then hash(c.password.value) else u.passwordHash)
    ensures r.role == (if Supplied(c.role) then c.role.value else u.role)
  {
    u.(email := if Supplied(c.email) then c.email.value else u.email,
       passwordHash := if Supplied(c.password) then hash(c.password.value) else u.passwordHash,
       role := if Supplied(c.role) then c.role.value else u.role)
  }

  /** The UNIQUE constraint on `email` rejects writing `c` to the user `id`: another user has that email. */
  predicate EmailClash(rows: seq<UserRecord>, id: int, c: UserChanges)
  {
    Supplied(c.email) && exists u :: u in rows && u.email == c.email.value && u.id != id
  }

  /** The table after `UPDATE users SET ... WHERE id = ?`: the row with that id changed, the others kept. */
  function Rewritten(rows: seq<UserRecord>, id: int, c: UserChanges, hash: string -> string): (r: seq<UserRecord>)
    ensures |r| == |rows|
    ensures forall i :: 0 <= i < |rows| ==> r[i] == if rows[i].id == id then Changed(rows[i], c, hash) else rows[i]
  {
    seq(|rows|, i requires 0 <= i < |rows| => if rows[i].id == id then Changed(rows[i], c, hash) else rows[i])
  }

  /** An update the constraints accept (a free email, a role among the three) keeps the table consistent. */
  lemma RewrittenConsistent(rows: seq<UserRecord>, nextId: int, id: int, c: UserChanges, hash: string -> string)
    requires Consistent(rows, nextId)
    requires !EmailClash(rows, id, c) && (Supplied(c.role) ==> IsRole(c.role.value))
    ensures Consistent(Rewritten(rows, id, c, hash), nextId)
  {
    var r := Rewritten(rows, id, c, hash);
    forall i, j | 0 <= i < j < |r| ensures r[i].id != r[j].id && r[i].email != r[j].email {
      if rows[i].id == id {
        assert rows[j].id != id && rows[j] in rows;
      } else if rows[j].id == id {
        assert rows[i] in rows;
      }
    }
  }

  function Summary(u: UserRecord): UserSummary {
    UserSummary(u.id, u.email, u.role, u.createdAt)
  }

  /** `ORDER BY role, email`. */
  function RoleEmailKey(s: UserSummary): Key {
    (s.role, s.email)
  }

  /** `SELECT COUNT(*) FROM users WHERE role = ?`. */
  function CountOf(rows: seq<UserRecord>, role: string): (n: nat)
    ensures n <= |rows|
  {
    if rows == [] then 0
    else CountOf(rows[..|rows| - 1], role) + (if rows[|rows| - 1].role == role then 1 else 0)
  }

  /** Under the CHECK on `role` the three per-role counts add up to the number of users. */
  lemma {:induction false} CountsAddUp(rows: seq<UserRecord>)
    requires forall i :: 0 <= i < |rows| ==> IsRole(rows[i].role)
    ensures CountOf(rows, RoleAdmin) + CountOf(rows, RoleManager) + CountOf(rows, RoleUser) == |rows|
  {
    if rows != [] {
      CountsAddUp(rows[..|rows| - 1]);
    }
  }

  /** A role no user holds is counted zero times. */
  lemma {:induction false} CountOfAbsent(rows: seq<UserRecord>, role: string)
    ensures CountOf(rows, role) > 0 <==> exists i :: 0 <= i < |rows| && rows[i].role == role
  {
    if rows != [] {
      var init := rows[..|rows| - 1];
      CountOfAbsent(init, role);
      if exists i :: 0 <= i < |init| && init[i].role == role {
        var i :| 0 <= i < |init| && init[i].role == role;
        assert rows[i].role == role;
      }
      if exists i :: 0 <= i < |rows| && rows[i].role == role {
        var i :| 0 <= i < |rows| && rows[i].role == role;
        if i < |init| {
          assert init[i].role == role;
        }
      }
    }
  }

  class UserStore {
    /** The rows of the table, in insertion order. */
    var rows: seq<UserRecord>
    /** The id SQLite's AUTOINCREMENT gives the next inserted row. */
    var nextId: int

    ghost predicate Valid()
      reads this
    {
      Consistent(rows, nextId)
    }

    constructor ()
      ensures Valid() && rows == [] && nextId == 1
    {
      rows := [];
      nextId := 1;
    }

    /** `findByEmail`: the user with exactly that email, or null. */
    function FindByEmail(email: string): (r: Option<UserRecord>)
      reads this
      ensures r.Some? ==> r.value in rows && r.value.email == email
      ensures r.None? <==> forall u :: u in rows ==> u.email != email
    {
      FirstWhere(rows, (u: UserRecord) => u.email == email)
    }

    /** `findById`: the user with that id, or null. */
    function FindById(id: int): (r: Option<UserRecord>)
      reads this
      ensures r.Some? ==> r.value in rows && r.value.id == id
      ensures r.None? <==> forall u :: u in rows ==> u.id != id
    {
      FirstWhere(rows, (u: UserRecord) => u.id == id)
    }

    /**
     * `create`: inserts a user with the digest `hash` (the stand-in for
     * `password_hash`) gives the password and with the given role, and
     * returns its new id; returns null, inserting nothing, when the email is
     * taken (UNIQUE) or the role is not one of the three (CHECK).
     */
    method Create(email: string, password: string, role: string, hash: string -> string, now: string)
      returns (id: Option<int>)
      requires Valid()
      modifies this
      ensures Valid()
      ensures id.None? <==> old(FindByEmail(email)).Some? || !IsRole(role)
      ensures id.None? ==> rows == old(rows) && nextId == old(nextId)
      ensures id.Some? ==> id.value == old(nextId) && nextId == old(nextId) + 1
                           && rows == old(rows) + [UserRecord(id.value, email, hash(password), role, now, now)]
    {
      if FindByEmail(email).Some? || !IsRole(role) {
        id := None;
      } else {
        rows := rows + [UserRecord(nextId, email, hash(password), role, now, now)];
        id := Some(nextId);
        nextId := nextId + 1;
      }
    }

    /**
     * `update`: writes the non-empty entries of `c` to the user `id`, the
     * password as its digest under `hash`. Nothing supplied: false and
     * no write. A taken email or a role outside the three: the statement
     * throws and nothing is written. No row with that id: nothing is written
     * and the statement still succeeds.
     */
    method Update(id: int, c: UserChanges, hash: string -> string) returns (r: UpdateResult)
      requires Valid()
      modifies this
      ensures Valid() && nextId == old(nextId) && |rows| == |old(rows)|
      ensures r == NothingToUpdate <==> !AnySupplied(c)
      ensures r == Raised <==>
                AnySupplied(c) && old(FindById(id)).Some?
                && (EmailClash(old(rows), id, c) || (Supplied(c.role) && !IsRole(c.role.value)))
      ensures r == Updated ==>
                forall i :: 0 <= i < |rows| ==>
                  rows[i] == if old(rows[i]).id == id then Changed(old(rows[i]), c, hash) else old(rows[i])
      ensures r != Updated ==> rows == old(rows)
    {
      if !AnySupplied(c) {
        return NothingToUpdate;
      }
      if FindById(id).None? {
        return Updated;
      }
      if EmailClash(rows, id, c) || (Supplied(c.role) && !IsRole(c.role.value)) {
        return Raised;
      }
      RewrittenConsistent(rows, nextId, id, c, hash);
      rows := Rewritten(rows, id, c, hash);
      r := Updated;
    }

    /** `delete`: removes the user with that id, if any; the others stay as they were. */
    method Delete(id: int) returns (ok: bool)
      requires Valid()
      modifies this
      ensures Valid() && ok && nextId == old(nextId)
      ensures rows == Where(old(rows), (u: UserRecord) => u.id != id)
      ensures forall u :: u in rows <==> u in old(rows) && u.id != id
    {
      WhereKeepsPairwise(rows, (u: UserRecord) => u.id != id,
                         (a: UserRecord, b: UserRecord) => a.id != b.id && a.email != b.email);
      rows := Where(rows, (u: UserRecord) => u.id != id);
      ok := true;
    }

    /**
     * `verifyCredentials`: the user with that email when `verify` (the
     * stand-in for `password_verify`) accepts the password against its
     * stored digest; null otherwise.
     */
    function VerifyCredentials(email: string, password: string, verify: (string, string) -> bool): (r: Option<UserRecord>)
      reads this
      ensures r.Some? <==> (exists u :: u in rows && u.email == email && verify(password, u.passwordHash)
                                          && FindByEmail(email) == Some(u))
      ensures r.Some? ==> r == FindByEmail(email)
    {
      var user := FindByEmail(email);
      if user.Some? && verify(password, user.value.passwordHash) then user else None
    }

    /** `getAll`: every user without the password digest, by role and then email. */
    function GetAll(): (r: seq<UserSummary>)
      reads this
      ensures multiset(r) == multiset(Summaries(rows))
      ensures SortedBy(r, RoleEmailKey)
    {
      SortBy(Summaries(rows), RoleEmailKey)
    }

    /**
     * `countByRole`: for each role some user holds, how many users hold it.
     * The database groups the rows; the loop here tallies them one by one.
     */
    method CountByRole() returns (counts: map<string, int>)
      ensures forall role :: role in counts <==> CountOf(rows, role) > 0
      ensures forall role :: role in counts ==> counts[role] == CountOf(rows, role)
    {
      counts := map[];
      for i := 0 to |rows|
        invariant forall role :: role in counts <==> CountOf(rows[..i], role) > 0
        invariant forall role :: role in counts ==> counts[role] == CountOf(rows[..i], role)
      {
        var role := rows[i].role;
        assert rows[..i + 1][..i] == rows[..i];
        counts := counts[role := if role in counts then counts[role] + 1 else 1];
      }
      assert rows[..|rows|] == rows;
    }
  }

  function Summaries(rows: seq<UserRecord>): (r: seq<UserSummary>)
    ensures |r| == |rows|
    ensures forall i :: 0 <= i < |rows| ==> r[i] == Summary(rows[i])
  {
    seq(|rows|, i requires 0 <= i < |rows| => Summary(rows[i]))
  }
}

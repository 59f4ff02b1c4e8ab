/** The two tables the handlers touch, `users` and `student_profiles`, held in
    memory one row after another in storage order. The database issues user
    ids itself (`RETURNING id`); here a counter stands for that. */
module Tables {

  import opened Wrappers

  datatype Role = Admin | Instructor | Student

  datatype User = User(
    id: nat,
    matricule: string,
    email: Option<string>,
    passwordHash: string,
    role: Role,
    isFirstLogin: bool,
    lastLoginAt: Option<int>)

  datatype StudentProfile = StudentProfile(userId: nat, firstName: string, lastName: string, batch: string)

  predicate DistinctIds(users: seq<User>)
  {
    forall i, j :: 0 <= i < j < |users| ==> users[i].id != users[j].id
  }

  /** `SELECT ... FROM users WHERE matricule = $1`, first row: the index of the
      first user whose matricule is exactly the given text. */
  function FindByMatricule(users: seq<User>, matricule: string): (r: Option<nat>)
    ensures r.Some? ==> r.value < |users| && users[r.value].matricule == matricule
    ensures r.Some? ==> forall k :: 0 <= k < r.value ==> users[k].matricule != matricule
    ensures r.None? ==> forall k :: 0 <= k < |users| ==> users[k].matricule != matricule
    decreases |users|
  {
    if |users| == 0 then None
    else if users[0].matricule == matricule then Some(0)
    else
      match FindByMatricule(users[1..], matricule)
      case None => None
      case Some(i) => Some(i + 1)
  }

  /** The rows after `UPDATE users SET last_login_at = NOW() WHERE id = $1`. */
  function WithLastLogin(users: seq<User>, id: nat, now: int): (r: seq<User>)
    ensures |r| == |users|
    ensures forall k :: 0 <= k < |users| ==> r[k].(lastLoginAt := users[k].lastLoginAt) == users[k]
    ensures forall k :: 0 <= k < |users| ==>
      r[k].lastLoginAt == if users[k].id == id then Some(now) else users[k].lastLoginAt
  {
    seq(|users|, k requires 0 <= k < |users| =>
      if users[k].id == id then users[k].(lastLoginAt := Some(now)) else users[k])
  }

  /** With distinct ids the update touches exactly one row, and only its
      `last_login_at` column. */
  lemma LastLoginTouchesOneRow(users: seq<User>, i: nat, now: int)
    requires DistinctIds(users) && i < |users|
    ensures WithLastLogin(users, users[i].id, now) == users[i := users[i].(lastLoginAt := Some(now))]
  {
    var r := WithLastLogin(users, users[i].id, now);
    forall k | 0 <= k < |users| ensures r[k] == users[i := users[i].(lastLoginAt := Some(now))][k] {
      if k != i {
        assert users[k].id != users[i].id by {
          if k < i { assert users[k].id != users[i].id; } else { assert users[i].id != users[k].id; }
        }
      }
    }
  }

  class Database {
    var users: seq<User>
    var profiles: seq<StudentProfile>
    var nextUserId: nat

    ghost predicate Valid()
      reads this
    {
      DistinctIds(users) && forall i :: 0 <= i < |users| ==> users[i].id < nextUserId
    }

    constructor ()
      ensures Valid()
      ensures users == [] && profiles == []
    {
      users := [];
      profiles := [];
      nextUserId := 0;
    }

    /** `INSERT INTO users (...) VALUES (...) RETURNING id`; a new user has no
        last login yet. */
    method InsertUser(matricule: string, email: Option<string>, passwordHash: string, role: Role, isFirstLogin: bool)
      returns (id: nat)
      requires Valid()
      modifies this
      ensures Valid()
      ensures id == old(nextUserId)
      ensures forall i :: 0 <= i < |old(users)| ==> old(users)[i].id != id
      ensures users == old(users) + [User(id, matricule, email, passwordHash, role, isFirstLogin, None)]
      ensures profiles == old(profiles)
    {
      id := nextUserId;
      users := users + [User(id, matricule, email, passwordHash, role, isFirstLogin, None)];
      nextUserId := nextUserId + 1;
    }

    /** `INSERT INTO student_profiles (...) VALUES (...)`. */
    method InsertProfile(profile: StudentProfile)
      requires Valid()
      modifies this
      ensures Valid()
      ensures profiles == old(profiles) + [profile]
      ensures users == old(users) && nextUserId == old(nextUserId)
    {
      profiles := profiles + [profile];
    }

    /** `UPDATE users SET last_login_at = NOW() WHERE id = $1`. */
    method SetLastLogin(id: nat, now: int)
      requires Valid()
      modifies this
      ensures Valid()
      ensures users == WithLastLogin(old(users), id, now)
      ensures profiles == old(profiles) && nextUserId == old(nextUserId)
    {
      users := WithLastLogin(users, id, now);
    }
  }
}

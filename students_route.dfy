/** The administrator's student endpoint. GET lists student accounts, optionally
    restricted to one batch. POST creates a student: it validates the body,
    takes the next number in the batch from the existing matricules, issues
    an initial password, and inserts a `users` row and then a
    `student_profiles` row, with no transaction around the two inserts. */
module StudentsRoute {

  import opened Wrappers
  import opened Text
  import opened Encoding
  import opened Sql
  import opened Tables
  import Matricule
  import Auth

  /** JavaScript truthiness of a string field of a request: present, not null,
      and not empty. */
  predicate Present(v: Option<string>)
  {
    v.Some? && v.value != ""
  }

  // ---------------------------------------------------------------------
  // GET

  const ListSelect := "SELECT u.id, u.matricule, u.email, u.role, u.created_at, sp.batch, sp.first_name, sp.last_name FROM users u LEFT JOIN student_profiles sp ON u.id = sp.user_id WHERE u.role = 'student'"
  const BatchFilter := " AND sp.batch = $1"
  const FetchFailedMessage := "Failed to fetch students"

  /** The columns of `users` that the handlers and the administrator script
      name (the table's definition is not part of this model). */
  const UsersColumns: set<string> :=
    {"id", "matricule", "email", "password_hash", "role", "is_first_login", "last_login_at", "created_at"}

  /** The sort column as written, `u.createdAt`, and the column the statement
      selects, `u.created_at`. */
  const OrderColumnAsWritten := "createdAt"
  const OrderColumn := "created_at"

  function ListOrder(column: string): string
  {
    " ORDER BY u." + column + " DESC"
  }

  /** What the listing query yields when sorted on `column`: an unquoted
      name is folded to lower case, and a name that is no column of `users`
      makes the statement fail. */
  function ListOutcome(users: seq<User>, profiles: seq<StudentProfile>, filter: Option<string>, column: string): ListResponse
  {
    if FoldIdentifier(column) !in UsersColumns then ListFailure(500, FetchFailedMessage)
    else Students(StudentRows(users, profiles, filter))
  }

  /** As written the sort column is `createdat`, which `users` does not have,
      so every listing request fails whatever the tables hold. */
  lemma ListAsWrittenAlwaysFails(users: seq<User>, profiles: seq<StudentProfile>, filter: Option<string>)
    ensures ListOutcome(users, profiles, filter, OrderColumnAsWritten) == ListFailure(500, FetchFailedMessage)
  {
    OrderColumnAsWrittenFolds();
  }

  lemma OrderColumnAsWrittenFolds()
    ensures FoldIdentifier(OrderColumnAsWritten) == "createdat"
  {
    var r := FoldIdentifier(OrderColumnAsWritten);
    assert r[0] == 'c' && r[1] == 'r' && r[2] == 'e' && r[3] == 'a' && r[4] == 't';
    assert r[5] == 'e' && r[6] == 'd' && r[7] == 'a' && r[8] == 't';
  }

  /** Sorting on `created_at` lets the listing through. */
  lemma ListCorrectedSucceeds(users: seq<User>, profiles: seq<StudentProfile>, filter: Option<string>)
    ensures ListOutcome(users, profiles, filter, OrderColumn) == Students(StudentRows(users, profiles, filter))
  {
    FoldIdentifierOfLowerCase(OrderColumn);
  }

  /** Builds the statement text and its parameters: the batch filter and one
      parameter exactly when the `batch` query parameter is non-empty; an
      empty parameter list is passed as `undefined`. */
  method BuildListQuery(batch: Option<string>) returns (sql: string, params: seq<string>, bound: Option<seq<string>>)
    ensures Present(batch) ==> params == [batch.value] && sql == ListSelect + BatchFilter + ListOrder(OrderColumn)
    ensures !Present(batch) ==> params == [] && sql == ListSelect + ListOrder(OrderColumn)
    ensures bound.Some? <==> |params| > 0
    ensures bound.Some? ==> bound.value == params
  {
    sql := ListSelect;
    params := [];
    if Present(batch) {
      sql := sql + BatchFilter;
      params := params + [batch.value];
    }
    sql := sql + ListOrder(OrderColumn);
    bound := if |params| > 0 then Some(params) else None;
  }

  /** One row of the listing: the user's columns and the profile's, NULL when
      the user has no profile (the creation time is not modelled). */
  datatype StudentListing = StudentListing(
    id: nat, matricule: string, email: Option<string>, role: Role,
    batch: Option<string>, firstName: Option<string>, lastName: Option<string>)

  function Listing(u: User, p: Option<StudentProfile>): StudentListing
  {
    StudentListing(u.id, u.matricule, u.email, u.role,
      if p.Some? then Some(p.value.batch) else None,
      if p.Some? then Some(p.value.firstName) else None,
      if p.Some? then Some(p.value.lastName) else None)
  }

  /** The inner part of the LEFT JOIN for one user: one row per profile of
      that user. */
  function ProfileRows(u: User, profiles: seq<StudentProfile>): (r: seq<StudentListing>)
    ensures forall k :: 0 <= k < |r| ==> r[k].id == u.id && r[k].role == u.role && r[k].batch.Some?
    ensures forall j :: 0 <= j < |profiles| && profiles[j].userId == u.id ==> Listing(u, Some(profiles[j])) in r
    ensures |r| == 0 ==> forall j :: 0 <= j < |profiles| ==> profiles[j].userId != u.id
    decreases |profiles|
  {
    if |profiles| == 0 then []
    else
      var rest := ProfileRows(u, profiles[1..]);
      assert forall j :: 1 <= j < |profiles| ==> profiles[j] == profiles[1..][j - 1];
      if profiles[0].userId == u.id then [Listing(u, Some(profiles[0]))] + rest else rest
  }

  /** `users u LEFT JOIN student_profiles sp ON u.id = sp.user_id` for one user. */
  function JoinedRows(u: User, profiles: seq<StudentProfile>): seq<StudentListing>
  {
    var rows := ProfileRows(u, profiles);
    if |rows| == 0 then [Listing(u, None)] else rows
  }

  /** `sp.batch = $1`: a NULL batch never equals the parameter. */
  function KeepBatch(rows: seq<StudentListing>, batch: string): (r: seq<StudentListing>)
    ensures forall k :: 0 <= k < |r| ==> r[k] in rows && r[k].batch == Some(batch)
    ensures forall k :: 0 <= k < |rows| && rows[k].batch == Some(batch) ==> rows[k] in r
    decreases |rows|
  {
    if |rows| == 0 then []
    else
      var rest := KeepBatch(rows[1..], batch);
      assert forall k :: 1 <= k < |rows| ==> rows[k] == rows[1..][k - 1];
      if rows[0].batch == Some(batch) then [rows[0]] + rest else rest
  }

  /** The rows one user contributes: none for a non-student, otherwise its
      joined rows that pass the batch filter. */
  function UserRows(u: User, profiles: seq<StudentProfile>, batch: Option<string>): (r: seq<StudentListing>)
    ensures forall k :: 0 <= k < |r| ==> r[k].role == Student && r[k].id == u.id
    ensures batch.Some? ==> forall k :: 0 <= k < |r| ==> r[k].batch == batch
  {
    if u.role != Student then []
    else
      var joined := JoinedRows(u, profiles);
      if batch.Some? then KeepBatch(joined, batch.value) else joined
  }

  /** A student keeps every joined row with a matching profile, and without a
      filter it always contributes a row. */
  lemma UserRowsComplete(u: User, profiles: seq<StudentProfile>, batch: Option<string>)
    requires u.role == Student
    ensures forall j ::
              0 <= j < |profiles| && profiles[j].userId == u.id && (batch.None? || profiles[j].batch == batch.value)
              ==> Listing(u, Some(profiles[j])) in UserRows(u, profiles, batch)
    ensures batch.None? ==> |UserRows(u, profiles, batch)| > 0
  {
    var joined := JoinedRows(u, profiles);
    assert forall j :: 0 <= j < |profiles| && profiles[j].userId == u.id ==> Listing(u, Some(profiles[j])) in joined;
    if batch.Some? {
      forall j | 0 <= j < |profiles| && profiles[j].userId == u.id && profiles[j].batch == batch.value
        ensures Listing(u, Some(profiles[j])) in UserRows(u, profiles, batch)
      {
        var row := Listing(u, Some(profiles[j]));
        var k :| 0 <= k < |joined| && joined[k] == row;
        assert joined[k].batch == Some(batch.value);
      }
    }
  }

  /** The rows of the listing query, in table order (the ORDER BY is not
      modelled): every student joined with its profiles, kept when the batch
      filter is absent or matches. */
  function StudentRows(users: seq<User>, profiles: seq<StudentProfile>, batch: Option<string>): (r: seq<StudentListing>)
    ensures forall k :: 0 <= k < |r| ==> r[k].role == Student
    ensures batch.Some? ==> forall k :: 0 <= k < |r| ==> r[k].batch == batch
    decreases |users|
  {
    if |users| == 0 then []
    else UserRows(users[0], profiles, batch) + StudentRows(users[1..], profiles, batch)
  }

  /** Every pair of a student and one of its profiles that passes the filter
      is listed. */
  lemma {:induction false} StudentRowsComplete(users: seq<User>, profiles: seq<StudentProfile>, batch: Option<string>)
    ensures forall i, j ::
              0 <= i < |users| && 0 <= j < |profiles| && users[i].role == Student
              && profiles[j].userId == users[i].id && (batch.None? || profiles[j].batch == batch.value)
              ==> Listing(users[i], Some(profiles[j])) in StudentRows(users, profiles, batch)
    decreases |users|
  {
    if |users| > 0 {
      var u := users[0];
      var mine, rest := UserRows(u, profiles, batch), StudentRows(users[1..], profiles, batch);
      assert StudentRows(users, profiles, batch) == mine + rest;
      StudentRowsComplete(users[1..], profiles, batch);
      if u.role == Student {
        UserRowsComplete(u, profiles, batch);
      }
      forall i | 1 <= i < |users| ensures users[i] == users[1..][i - 1] { }
    }
  }

  /** Some row of the listing belongs to the user `id`. */
  predicate Lists(rows: seq<StudentListing>, id: nat) {
    exists k :: 0 <= k < |rows| && rows[k].id == id
  }

  /** Without a filter every student is listed. */
  lemma {:induction false} StudentRowsListEveryStudent(users: seq<User>, profiles: seq<StudentProfile>)
    ensures forall i :: 0 <= i < |users| && users[i].role == Student ==> Lists(StudentRows(users, profiles, None), users[i].id)
    decreases |users|
  {
    if |users| > 0 {
      var u := users[0];
      var mine, rest := UserRows(u, profiles, None), StudentRows(users[1..], profiles, None);
      var all := StudentRows(users, profiles, None);
      assert all == mine + rest;
      StudentRowsListEveryStudent(users[1..], profiles);
      forall i | 0 <= i < |users| && users[i].role == Student
        ensures Lists(all, users[i].id)
      {
        if i == 0 {
          UserRowsComplete(u, profiles, None);
          assert all[0] == mine[0];
        } else {
          assert users[i] == users[1..][i - 1];
          var k :| 0 <= k < |rest| && rest[k].id == users[i].id;
          assert all[|mine| + k] == rest[k];
        }
      }
    }
  }

  /** `row` comes from the user `u`: joined with one of its profiles that
      passes the filter, or, with no filter, on its own when it has no
      profile. */
  predicate JoinsTo(row: StudentListing, u: User, profiles: seq<StudentProfile>, batch: Option<string>)
  {
    || (exists j :: 0 <= j < |profiles| && profiles[j].userId == u.id && (batch.None? || profiles[j].batch == batch.value)
                   && row == Listing(u, Some(profiles[j])))
    || (batch.None? && (forall j :: 0 <= j < |profiles| ==> profiles[j].userId != u.id) && row == Listing(u, None))
  }

  /** `row` pairs `u` with one of its own profiles. */
  predicate FromOwnProfile(row: StudentListing, u: User, profiles: seq<StudentProfile>)
  {
    exists j :: 0 <= j < |profiles| && profiles[j].userId == u.id && row == Listing(u, Some(profiles[j]))
  }

  /** Every joined row of a user pairs it with one of its own profiles. */
  lemma {:induction false} ProfileRowsSound(u: User, profiles: seq<StudentProfile>)
    ensures forall k :: 0 <= k < |ProfileRows(u, profiles)| ==> FromOwnProfile(ProfileRows(u, profiles)[k], u, profiles)
    decreases |profiles|
  {
    if |profiles| > 0 {
      var rest := profiles[1..];
      ProfileRowsSound(u, rest);
      var r := ProfileRows(u, profiles);
      forall k | 0 <= k < |r| ensures FromOwnProfile(r[k], u, profiles) {
        var off := if profiles[0].userId == u.id then 1 else 0;
        if k >= off {
          var rr := ProfileRows(u, rest);
          assert r[k] == rr[k - off];
          assert FromOwnProfile(rr[k - off], u, rest);
          var j :| 0 <= j < |rest| && rest[j].userId == u.id && rr[k - off] == Listing(u, Some(rest[j]));
          assert profiles[j + 1] == rest[j];
        } else {
          assert r[k] == Listing(u, Some(profiles[0]));
        }
      }
    } else {
      assert ProfileRows(u, profiles) == [];
    }
  }

  /** Every row a user contributes comes from that user, and it is a student. */
  lemma UserRowsSound(u: User, profiles: seq<StudentProfile>, batch: Option<string>)
    ensures forall k :: 0 <= k < |UserRows(u, profiles, batch)| ==>
              u.role == Student && JoinsTo(UserRows(u, profiles, batch)[k], u, profiles, batch)
  {
    if u.role == Student {
      ProfileRowsSound(u, profiles);
      var rows := ProfileRows(u, profiles);
      var joined := JoinedRows(u, profiles);
      var r := UserRows(u, profiles, batch);
      forall k | 0 <= k < |r| ensures JoinsTo(r[k], u, profiles, batch) {
        if |rows| == 0 {
          assert joined == [Listing(u, None)];
          assert r[k] in joined;
        } else {
          assert r[k] in rows;
          var k' :| 0 <= k' < |rows| && rows[k'] == r[k];
          var j :| 0 <= j < |profiles| && profiles[j].userId == u.id && rows[k'] == Listing(u, Some(profiles[j]));
          assert batch.None? || profiles[j].batch == batch.value;
        }
      }
    } else {
      assert UserRows(u, profiles, batch) == [];
    }
  }

  /** `row` comes from one of the students of `users`. */
  predicate FromStudent(row: StudentListing, users: seq<User>, profiles: seq<StudentProfile>, batch: Option<string>)
  {
    exists i :: 0 <= i < |users| && users[i].role == Student && JoinsTo(row, users[i], profiles, batch)
  }

  /** Every listed row is a student joined with one of its profiles that
      passes the filter, or, without a filter, a student with no profile. */
  lemma {:induction false} StudentRowsSound(users: seq<User>, profiles: seq<StudentProfile>, batch: Option<string>)
    ensures forall k :: 0 <= k < |StudentRows(users, profiles, batch)| ==>
              FromStudent(StudentRows(users, profiles, batch)[k], users, profiles, batch)
    decreases |users|
  {
    if |users| > 0 {
      var mine, rest := UserRows(users[0], profiles, batch), StudentRows(users[1..], profiles, batch);
      var all := StudentRows(users, profiles, batch);
      assert all == mine + rest;
      StudentRowsSound(users[1..], profiles, batch);
      UserRowsSound(users[0], profiles, batch);
      forall k | 0 <= k < |all| ensures FromStudent(all[k], users, profiles, batch) {
        if k < |mine| {
          assert all[k] == mine[k];
          assert users[0].role == Student && JoinsTo(all[k], users[0], profiles, batch);
        } else {
          assert all[k] == rest[k - |mine|];
          var i :| 0 <= i < |users[1..]| && users[1..][i].role == Student && JoinsTo(rest[k - |mine|], users[1..][i], profiles, batch);
          assert users[i + 1] == users[1..][i];
        }
      }
    } else {
      assert StudentRows(users, profiles, batch) == [];
    }
  }

  datatype ListResponse = Students(students: seq<StudentListing>) | ListFailure(status: nat, error: string)

  /** `GET`, sorted on `created_at`: the students, restricted to the batch
      when one is given, or 500 when the query throws for a reason outside
      the model (`queryFails`). */
  method Get(db: Database, batch: Option<string>, queryFails: bool) returns (resp: ListResponse)
    ensures queryFails ==> resp == ListFailure(500, FetchFailedMessage)
    ensures !queryFails ==> resp == Students(StudentRows(db.users, db.profiles, if Present(batch) then batch else None))
  {
    var sql, params, bound := BuildListQuery(batch);
    if queryFails {
      return ListFailure(500, FetchFailedMessage);
    }
    var filter := if bound.Some? then Some(bound.value[0]) else None;
    resp := ListOutcome(db.users, db.profiles, filter, OrderColumn);
    ListCorrectedSucceeds(db.users, db.profiles, filter);
  }

  // ---------------------------------------------------------------------
  // POST: the next number in a batch

  /** `matricule LIKE 'K48' || batch || '%' AND role = 'student'`. */
  predicate InBatch(u: User, batch: string)
  {
    u.role == Student && LikeMatch(u.matricule, BatchPattern(batch))
  }

  /** `K48${batch}%`, the pattern bound to `$2`: the batch goes in without
      escaping. */
  function BatchPattern(batch: string): string
  {
    Matricule.Prefix + batch + "%"
  }

  /** `CAST(SUBSTRING(matricule FROM LENGTH(CONCAT('K48', batch)) + 1) AS INTEGER)`. */
  function SuffixValue(u: User, batch: string): Option<int>
  {
    CastInteger(SubstringFrom(u.matricule, |Matricule.Prefix + batch| + 1))
  }

  datatype MaxOutcome = CastFails | NoRows | MaxOf(value: int)

  /** The suffixes of the rows the `WHERE` clause selects, in table order;
      `None` for a suffix the cast rejects. */
  function SelectedSuffixes(users: seq<User>, batch: string): (r: seq<Option<int>>)
    decreases |users|
  {
    if |users| == 0 then []
    else if InBatch(users[0], batch) then [SuffixValue(users[0], batch)] + SelectedSuffixes(users[1..], batch)
    else SelectedSuffixes(users[1..], batch)
  }

  /** Every selected row contributes its suffix, and every suffix comes from
      a selected row. */
  lemma {:induction false} SelectedSuffixesMeaning(users: seq<User>, batch: string)
    ensures forall i :: 0 <= i < |users| && InBatch(users[i], batch) ==> SuffixValue(users[i], batch) in SelectedSuffixes(users, batch)
    ensures forall v :: v in SelectedSuffixes(users, batch) ==>
      exists i :: 0 <= i < |users| && InBatch(users[i], batch) && SuffixValue(users[i], batch) == v
    ensures |SelectedSuffixes(users, batch)| == 0 <==> forall i :: 0 <= i < |users| ==> !InBatch(users[i], batch)
    decreases |users|
  {
    if |users| > 0 {
      var rest := users[1..];
      SelectedSuffixesMeaning(rest, batch);
      forall i | 1 <= i < |users| ensures users[i] == rest[i - 1] { }
      forall v | v in SelectedSuffixes(users, batch)
        ensures exists i :: 0 <= i < |users| && InBatch(users[i], batch) && SuffixValue(users[i], batch) == v
      {
        if v in SelectedSuffixes(rest, batch) {
          var k :| 0 <= k < |rest| && InBatch(rest[k], batch) && SuffixValue(rest[k], batch) == v;
          assert users[k + 1] == rest[k];
        }
      }
    }
  }

  /** `MAX` over the selected suffixes: the statement fails when one of them
      is no integer, and the maximum is NULL over no rows. */
  function MaxOfSuffixes(vs: seq<Option<int>>): MaxOutcome
    decreases |vs|
  {
    if |vs| == 0 then NoRows
    else
      match vs[0]
      case None => CastFails
      case Some(v) =>
        match MaxOfSuffixes(vs[1..])
        case CastFails => CastFails
        case NoRows => MaxOf(v)
        case MaxOf(m) => MaxOf(if v > m then v else m)
  }

  lemma {:induction false} MaxOfSuffixesMeaning(vs: seq<Option<int>>)
    ensures MaxOfSuffixes(vs).CastFails? <==> None in vs
    ensures MaxOfSuffixes(vs).NoRows? <==> |vs| == 0
    ensures MaxOfSuffixes(vs).MaxOf? ==> forall v :: v in vs ==> v.Some? && v.value <= MaxOfSuffixes(vs).value
    ensures MaxOfSuffixes(vs).MaxOf? ==> Some(MaxOfSuffixes(vs).value) in vs
    decreases |vs|
  {
    if |vs| > 0 {
      MaxOfSuffixesMeaning(vs[1..]);
      assert vs == [vs[0]] + vs[1..];
    }
  }

  /** The `MAX(...)` aggregate of the allocation query. */
  function MaxSuffix(users: seq<User>, batch: string): MaxOutcome
  {
    MaxOfSuffixes(SelectedSuffixes(users, batch))
  }

  /** The aggregate fails exactly when a selected suffix is no integer. */
  lemma MaxSuffixFails(users: seq<User>, batch: string)
    ensures MaxSuffix(users, batch).CastFails?
      <==> exists i :: 0 <= i < |users| && InBatch(users[i], batch) && SuffixValue(users[i], batch).None?
  {
    SelectedSuffixesMeaning(users, batch);
    MaxOfSuffixesMeaning(SelectedSuffixes(users, batch));
  }

  /** The aggregate is NULL exactly when no row is selected. */
  lemma MaxSuffixNoRows(users: seq<User>, batch: string)
    ensures MaxSuffix(users, batch).NoRows? <==> forall i :: 0 <= i < |users| ==> !InBatch(users[i], batch)
  {
    SelectedSuffixesMeaning(users, batch);
    MaxOfSuffixesMeaning(SelectedSuffixes(users, batch));
  }

  /** A maximum bounds every selected suffix. */
  lemma MaxSuffixIsUpperBound(users: seq<User>, batch: string)
    ensures MaxSuffix(users, batch).MaxOf? ==>
      forall i :: 0 <= i < |users| && InBatch(users[i], batch) ==>
        SuffixValue(users[i], batch).Some? && SuffixValue(users[i], batch).value <= MaxSuffix(users, batch).value
  {
    SelectedSuffixesMeaning(users, batch);
    MaxOfSuffixesMeaning(SelectedSuffixes(users, batch));
  }

  /** A maximum is the suffix of some selected row. */
  lemma MaxSuffixIsAttained(users: seq<User>, batch: string)
    ensures MaxSuffix(users, batch).MaxOf? ==>
      exists i :: 0 <= i < |users| && InBatch(users[i], batch) && SuffixValue(users[i], batch) == Some(MaxSuffix(users, batch).value)
  {
    SelectedSuffixesMeaning(users, batch);
    MaxOfSuffixesMeaning(SelectedSuffixes(users, batch));
  }

  /** The column name PostgreSQL gives the alias of the allocation query. */
  const MaxIdColumn := FoldIdentifier("maxId")

  /** The unquoted alias is reported in lower case. */
  lemma MaxIdColumnIsLowerCase()
    ensures MaxIdColumn == "maxid"
  {
    var r := MaxIdColumn;
    assert r[0] == 'm' && r[1] == 'a' && r[2] == 'x' && r[3] == 'i' && r[4] == 'd';
  }

  /** The result row of the allocation query as a JavaScript object: the
      alias `maxId` is not quoted, so PostgreSQL reports the column as
      `maxid`. */
  function MaxQueryRow(m: MaxOutcome): map<string, Option<int>>
  {
    map[MaxIdColumn := if m.MaxOf? then Some(m.value) else None]
  }

  /** Reading a property of a row object; a missing one is `undefined`. */
  function RowProperty(row: map<string, Option<int>>, name: string): Option<int>
  {
    if name in row then row[name] else None
  }

  /** Where a parameter of the allocation statement occurs. The client sends
      parameters without a type, so PostgreSQL infers each one from its
      context: an operand of `LIKE` against the text column `matricule`, or an
      explicit `::text`, gives it the type `text`; an argument of `concat`,
      declared `VARIADIC "any"`, gives it none. */
  datatype ParamUse = AnyArgument | TextOperand | TextCast

  predicate ParameterTyped(uses: seq<ParamUse>)
  {
    exists k :: 0 <= k < |uses| && uses[k] != AnyArgument
  }

  /** A statement with a parameter of undetermined type is refused before it
      runs ("could not determine data type of parameter"). */
  predicate ParametersTyped(params: seq<seq<ParamUse>>)
  {
    forall i :: 0 <= i < |params| ==> ParameterTyped(params[i])
  }

  /** As written, `$1` occurs only in `CONCAT('K48', $1)` and `$2` only in
      `matricule LIKE $2`. */
  const AllocationParamsAsWritten: seq<seq<ParamUse>> := [[AnyArgument], [TextOperand]]

  /** With `CONCAT('K48', $1::text)`. */
  const AllocationParams: seq<seq<ParamUse>> := [[TextCast], [TextOperand]]

  /** The statement as written is refused; with the cast it is accepted. */
  lemma AllocationParamsTyping()
    ensures !ParametersTyped(AllocationParamsAsWritten)
    ensures ParametersTyped(AllocationParams)
  {
    assert !ParameterTyped(AllocationParamsAsWritten[0]) by {
      assert forall k :: 0 <= k < |AllocationParamsAsWritten[0]| ==> AllocationParamsAsWritten[0][k] == AnyArgument;
    }
    assert ParameterTyped(AllocationParams[0]) by { assert AllocationParams[0][0] != AnyArgument; }
    assert ParameterTyped(AllocationParams[1]) by { assert AllocationParams[1][0] != AnyArgument; }
  }

  /** `getNextStudentId(batchResult.rows[0]?.<column>)` after the allocation
      statement with parameters used as `params`; `None` when the statement
      throws, at parse or because a suffix is no integer. */
  function AllocationOutcome(params: seq<seq<ParamUse>>, column: string, users: seq<User>, batch: string): Option<int>
  {
    if !ParametersTyped(params) then None
    else
      var m := MaxSuffix(users, batch);
      if m.CastFails? then None
      else Some(Matricule.GetNextStudentId(RowProperty(MaxQueryRow(m), column)))
  }

  /** As written: the untyped `$1`, and the property `maxId`. The statement
      always throws, so every request that passes validation is answered 500. */
  function NextStudentIdAsWritten(users: seq<User>, batch: string): (r: Option<int>)
    ensures r.None?
  {
    AllocationParamsTyping();
    AllocationOutcome(AllocationParamsAsWritten, "maxId", users, batch)
  }

  /** As intended: `$1::text`, and the maximum read under the name the row
      carries, plus 1, or 1 when the batch has no students; `None` when the
      query fails. */
  function NextStudentId(users: seq<User>, batch: string): (r: Option<int>)
    ensures r.None? <==> MaxSuffix(users, batch).CastFails?
    ensures MaxSuffix(users, batch).NoRows? ==> r == Some(1)
    ensures MaxSuffix(users, batch).MaxOf? ==> r == Some(MaxSuffix(users, batch).value + 1)
  {
    AllocationParamsTyping();
    AllocationOutcome(AllocationParams, MaxIdColumn, users, batch)
  }

  /** Once the statement is accepted, the property name `maxId` is still never
      a key of the row, so the identifier counter restarts at 1 on every
      request. */
  lemma NextStudentIdAsWrittenIsOne(users: seq<User>, batch: string)
    requires !MaxSuffix(users, batch).CastFails?
    ensures AllocationOutcome(AllocationParams, "maxId", users, batch) == Some(1)
  {
    AllocationParamsTyping();
    assert IsUpper("maxId"[3]) && !IsUpper(MaxIdColumn[3]);
  }

  /** A student whose matricule is the batch prefix followed by `t` is
      selected, and its suffix is `t` cast to an integer. */
  lemma SuffixOfMatricule(u: User, batch: string, t: string)
    requires HasNoLikeEscape(batch)
    requires u.role == Student && u.matricule == Matricule.Prefix + batch + t
    ensures InBatch(u, batch) && SuffixValue(u, batch) == CastInteger(t)
  {
    var p := Matricule.Prefix + batch;
    assert HasNoLikeEscape(p) by {
      assert forall i :: 0 <= i < |batch| ==> p[3 + i] == batch[i];
    }
    LikeMatchesOwnText(p, t);
    assert u.matricule[..|p|] == p;
    assert u.matricule[|p|..] == t;
  }

  lemma MaxSuffixSingle(u: User, batch: string)
    requires InBatch(u, batch) && SuffixValue(u, batch).Some?
    ensures MaxSuffix([u], batch) == MaxOf(SuffixValue(u, batch).value)
  {
    assert [u][1..] == [];
    assert SelectedSuffixes([u], batch) == [SuffixValue(u, batch)];
    var vs := [SuffixValue(u, batch)];
    assert vs[1..] == [];
    assert MaxOfSuffixes(vs[1..]) == NoRows;
    assert MaxOfSuffixes(vs) == MaxOf(SuffixValue(u, batch).value);
  }

  /** With the statement accepted but the property read as `maxId`, a batch
      with one student already holding number 1 is given that same matricule
      again. */
  lemma AsWrittenReissuesMatricule()
    ensures var users := [User(0, "K48B11", None, "", Student, true, None)];
      && AllocationOutcome(AllocationParams, "maxId", users, "B1") == Some(1)
      && Matricule.GenerateMatricule(Matricule.MatriculeMeta("B1", 1)) == users[0].matricule
  {
    var u := User(0, "K48B11", None, "", Student, true, None);
    assert IntToString(1) == "1" by { assert NatToDecimal(1) == "1"; }
    assert u.matricule == Matricule.Prefix + "B1" + "1";
    SuffixOfMatricule(u, "B1", "1");
    CastIntegerOfString(1);
    MaxSuffixSingle(u, "B1");
    NextStudentIdAsWrittenIsOne([u], "B1");
  }

  /** The matricule issued for `n` is selected by the allocation query, and
      its suffix reads back as `n` when `n` fits in 32 bits. */
  lemma IssuedMatriculeSuffix(u: User, batch: string, n: int)
    requires HasNoLikeEscape(batch)
    requires u.role == Student && u.matricule == Matricule.GenerateMatricule(Matricule.MatriculeMeta(batch, n))
    ensures InBatch(u, batch)
    ensures SuffixValue(u, batch) == if MinInt4 <= n <= MaxInt4 then Some(n) else None
  {
    SuffixOfMatricule(u, batch, IntToString(n));
    CastIntegerOfString(n);
  }

  /** The corrected rule never reissues a matricule: the new one differs from
      that of every existing student, in the batch or not, as long as the
      batch holds no `\`, the one character that makes the pattern stop
      matching the batch's own matricules. */
  lemma NextMatriculeIsFresh(users: seq<User>, batch: string)
    requires HasNoLikeEscape(batch)
    requires NextStudentId(users, batch).Some?
    ensures var m := Matricule.GenerateMatricule(Matricule.MatriculeMeta(batch, NextStudentId(users, batch).value));
      forall i :: 0 <= i < |users| && users[i].role == Student ==> users[i].matricule != m
  {
    var n := NextStudentId(users, batch).value;
    var m := Matricule.GenerateMatricule(Matricule.MatriculeMeta(batch, n));
    MaxSuffixFails(users, batch);
    MaxSuffixNoRows(users, batch);
    MaxSuffixIsUpperBound(users, batch);
    forall i | 0 <= i < |users| && users[i].role == Student ensures users[i].matricule != m {
      if users[i].matricule == m {
        IssuedMatriculeSuffix(users[i], batch, n);
      }
    }
  }

  /** Matching is on the text prefix, not on the batch: with batch `B1`, the
      batch-`B12` matricule `K48B125` counts as number 25. */
  lemma PrefixMatchingAcrossBatches()
    ensures MaxSuffix([User(0, "K48B125", None, "", Student, true, None)], "B1") == MaxOf(25)
  {
    var u := User(0, "K48B125", None, "", Student, true, None);
    assert IntToString(25) == "25" by { assert NatToDecimal(2) == "2"; }
    assert u.matricule == Matricule.Prefix + "B1" + "25";
    SuffixOfMatricule(u, "B1", "25");
    CastIntegerOfString(25);
    MaxSuffixSingle(u, "B1");
  }

  /** With batch `B`, the batch-`B1` matricule `K48B1144` counts as 1144. */
  lemma PrefixMatchingShorterBatch()
    ensures MaxSuffix([User(0, "K48B1144", None, "", Student, true, None)], "B") == MaxOf(1144)
  {
    var u := User(0, "K48B1144", None, "", Student, true, None);
    assert IntToString(1144) == "1144" by {
      assert NatToDecimal(1) == "1";
      assert NatToDecimal(11) == "11";
      assert NatToDecimal(114) == "114";
    }
    assert u.matricule == Matricule.Prefix + "B" + "1144";
    SuffixOfMatricule(u, "B", "1144");
    CastIntegerOfString(1144);
    MaxSuffixSingle(u, "B");
  }

  /** With the batch `\A`, the pattern `K48\A%` reads as `K48A%`, so the
      batch's own student `K48\A1` is not counted and its matricule is issued
      again. */
  lemma EscapeInBatchReissuesMatricule()
    ensures var users := [User(0, "K48\\A1", None, "", Student, true, None)];
      && NextStudentId(users, "\\A") == Some(1)
      && Matricule.GenerateMatricule(Matricule.MatriculeMeta("\\A", 1)) == users[0].matricule
  {
    var u := User(0, "K48\\A1", None, "", Student, true, None);
    assert IntToString(1) == "1" by { assert NatToDecimal(1) == "1"; }
    assert BatchPattern("\\A") == "K48\\A%";
    assert !LikeMatch("\\A1", "\\A%");
    assert !LikeMatch(u.matricule, BatchPattern("\\A"));
    assert [u][1..] == [];
  }

  // ---------------------------------------------------------------------
  // POST

  const RequiredMessage := "First name, last name, and batch are required"
  const CreateFailedMessage := "Failed to create student"

  /** The fields taken from the parsed request body; an absent or `null`
      field is `None`. */
  datatype CreateBody = CreateBody(
    firstName: Option<string>, lastName: Option<string>, batch: Option<string>, email: Option<string>)

  /** The body of a 201 response: the new student and its initial password in
      clear. */
  datatype CreatedStudent = CreatedStudent(
    id: nat, matricule: string, firstName: string, lastName: string, batch: string, password: string)

  datatype CreateResponse = Created(student: CreatedStudent) | CreateFailure(status: nat, error: string)

  /** Which database statement throws, if any. */
  datatype Fault = NoFault | MaxQueryFault | UserInsertFault | ProfileInsertFault

  /** `!firstName || !lastName || !batch` is false. */
  predicate Complete(b: CreateBody)
  {
    Present(b.firstName) && Present(b.lastName) && Present(b.batch)
  }

  /** `email || null`. */
  function EmailOrNull(email: Option<string>): (r: Option<string>)
    ensures r.Some? <==> Present(email)
    ensures r.Some? ==> r == email
  {
    if Present(email) then email else None
  }

  /** The request gets as far as the inserts: a complete body, a batch whose
      selected suffixes are all integers, and a successful hash. */
  predicate PassesChecks(users: seq<User>, body: Option<CreateBody>, kdf: Auth.Kdf, nowMs: int,
                         passwordRandom: seq<byte>, saltRandom: seq<byte>)
  {
    && body.Some? && Complete(body.value)
    && NextStudentId(users, body.value.batch.value).Some?
    && |passwordRandom| == Auth.PasswordRandomLength && |saltRandom| == Auth.SaltLength
    && Auth.HashPassword(kdf, Auth.GenerateInitialPassword(nowMs, passwordRandom), saltRandom).Some?
  }

  /** The `users` rows a request inserts under `id` when its user insert does
      not throw: the new student when the checks pass, nothing otherwise. */
  function Inserted(id: nat, users: seq<User>, b: CreateBody, kdf: Auth.Kdf, nowMs: int,
                    passwordRandom: seq<byte>, saltRandom: seq<byte>): (r: seq<User>)
    ensures |r| <= 1
    ensures |r| == 1 <==> PassesChecks(users, Some(b), kdf, nowMs, passwordRandom, saltRandom)
  {
    if !PassesChecks(users, Some(b), kdf, nowMs, passwordRandom, saltRandom) then []
    else
      var batch := b.batch.value;
      [User(id, Matricule.GenerateMatricule(Matricule.MatriculeMeta(batch, NextStudentId(users, batch).value)),
        EmailOrNull(b.email),
        Auth.HashPassword(kdf, Auth.GenerateInitialPassword(nowMs, passwordRandom), saltRandom).value,
        Student, true, None)]
  }

  /** What a request leaves behind: the answer and the two tables. */
  datatype Written = Written(resp: CreateResponse, users: seq<User>, profiles: seq<StudentProfile>)

  /** `POST` once the body passed validation, from tables `users` and
      `profiles` whose next issued id is `id`: allocate the number, issue and
      hash the password, insert the user row, then its profile. Any throw is
      the one 500 answer; there is no transaction, so a user row inserted
      before the profile insert throws stays. */
  function CreateOutcome(id: nat, users: seq<User>, profiles: seq<StudentProfile>, b: CreateBody,
                         kdf: Auth.Kdf, nowMs: int, passwordRandom: seq<byte>, saltRandom: seq<byte>,
                         fault: Fault): Written
    requires Complete(b)
    requires |passwordRandom| == Auth.PasswordRandomLength && |saltRandom| == Auth.SaltLength
  {
    var batch := b.batch.value;
    var failed := Written(CreateFailure(500, CreateFailedMessage), users, profiles);
    if fault == MaxQueryFault then failed
    else match NextStudentId(users, batch)
      case None => failed
      case Some(n) =>
        var matricule := Matricule.GenerateMatricule(Matricule.MatriculeMeta(batch, n));
        var password := Auth.GenerateInitialPassword(nowMs, passwordRandom);
        match Auth.HashPassword(kdf, password, saltRandom)
        case None => failed
        case Some(hash) =>
          if fault == UserInsertFault then failed
          else
            var withUser := users + [User(id, matricule, EmailOrNull(b.email), hash, Student, true, None)];
            if fault == ProfileInsertFault then Written(CreateFailure(500, CreateFailedMessage), withUser, profiles)
            else
              Written(Created(CreatedStudent(id, matricule, b.firstName.value, b.lastName.value, batch, password)),
                withUser, profiles + [StudentProfile(id, b.firstName.value, b.lastName.value, batch)])
  }

  /** `POST` from its parsed body: `None` (JSON `null`, or text that is not
      JSON) throws at the destructuring and is a 500; a body missing a
      required field is the 400 answer. */
  function PostOutcome(id: nat, users: seq<User>, profiles: seq<StudentProfile>, body: Option<CreateBody>,
                       kdf: Auth.Kdf, nowMs: int, passwordRandom: seq<byte>, saltRandom: seq<byte>,
                       fault: Fault): Written
    requires |passwordRandom| == Auth.PasswordRandomLength && |saltRandom| == Auth.SaltLength
  {
    if body.None? then Written(CreateFailure(500, CreateFailedMessage), users, profiles)
    else if !Complete(body.value) then Written(CreateFailure(400, RequiredMessage), users, profiles)
    else CreateOutcome(id, users, profiles, body.value, kdf, nowMs, passwordRandom, saltRandom, fault)
  }

  /** Validation: 400 exactly for a body missing a required field, and then
      nothing is written; every other failure is the one 500 answer. */
  lemma PostValidation(id: nat, users: seq<User>, profiles: seq<StudentProfile>, body: Option<CreateBody>,
                       kdf: Auth.Kdf, nowMs: int, passwordRandom: seq<byte>, saltRandom: seq<byte>, fault: Fault)
    requires |passwordRandom| == Auth.PasswordRandomLength && |saltRandom| == Auth.SaltLength
    ensures var w := PostOutcome(id, users, profiles, body, kdf, nowMs, passwordRandom, saltRandom, fault);
      && (w.resp.CreateFailure? && w.resp.status == 400 <==> body.Some? && !Complete(body.value))
      && (w.resp.CreateFailure? && w.resp.status == 400 ==>
            w.resp.error == RequiredMessage && w.users == users && w.profiles == profiles)
      && (w.resp.CreateFailure? && w.resp.status != 400 ==> w.resp == CreateFailure(500, CreateFailedMessage))
      && (body.None? ==> w.users == users && w.profiles == profiles)
  {
  }

  /** A request is answered 201 exactly when every step passes and no
      statement throws. */
  lemma PostSucceedsIff(id: nat, users: seq<User>, profiles: seq<StudentProfile>, body: Option<CreateBody>,
                        kdf: Auth.Kdf, nowMs: int, passwordRandom: seq<byte>, saltRandom: seq<byte>, fault: Fault)
    requires |passwordRandom| == Auth.PasswordRandomLength && |saltRandom| == Auth.SaltLength
    ensures PostOutcome(id, users, profiles, body, kdf, nowMs, passwordRandom, saltRandom, fault).resp.Created?
        <==> PassesChecks(users, body, kdf, nowMs, passwordRandom, saltRandom) && fault == NoFault
  {
  }

  /** The rows written: after a complete body the new user row is there
      whenever its insert ran (on a 201, and when only the profile insert
      throws); a profile is added only on a 201, and it and the answer
      describe that row. */
  lemma PostRows(id: nat, users: seq<User>, profiles: seq<StudentProfile>, body: Option<CreateBody>,
                 kdf: Auth.Kdf, nowMs: int, passwordRandom: seq<byte>, saltRandom: seq<byte>, fault: Fault)
    requires |passwordRandom| == Auth.PasswordRandomLength && |saltRandom| == Auth.SaltLength
    ensures var w := PostOutcome(id, users, profiles, body, kdf, nowMs, passwordRandom, saltRandom, fault);
      && (body.Some? && Complete(body.value) ==>
            w.users == users +
              if w.resp.Created? || fault == ProfileInsertFault
              then Inserted(id, users, body.value, kdf, nowMs, passwordRandom, saltRandom)
              else [])
      && (w.resp.CreateFailure? ==> w.profiles == profiles)
      && (w.resp.Created? ==>
            var b := body.value;
            var st := w.resp.student;
            && st == CreatedStudent(id, w.users[|w.users| - 1].matricule, b.firstName.value, b.lastName.value,
                 b.batch.value, Auth.GenerateInitialPassword(nowMs, passwordRandom))
            && w.profiles == profiles + [StudentProfile(id, st.firstName, st.lastName, st.batch)])
  {
  }

  /** The password handed back on a 201 opens the account just written. */
  lemma PostPasswordOpensAccount(id: nat, users: seq<User>, profiles: seq<StudentProfile>, body: Option<CreateBody>,
                                 kdf: Auth.Kdf, nowMs: int, passwordRandom: seq<byte>, saltRandom: seq<byte>,
                                 fault: Fault)
    requires |passwordRandom| == Auth.PasswordRandomLength && |saltRandom| == Auth.SaltLength
    ensures var w := PostOutcome(id, users, profiles, body, kdf, nowMs, passwordRandom, saltRandom, fault);
      w.resp.Created? ==>
        Auth.VerifyPassword(kdf, w.resp.student.password, w.users[|w.users| - 1].passwordHash) == Auth.Accepted
  {
    var w := PostOutcome(id, users, profiles, body, kdf, nowMs, passwordRandom, saltRandom, fault);
    if w.resp.Created? {
      var password := Auth.GenerateInitialPassword(nowMs, passwordRandom);
      assert w.resp.student.password == password;
      assert w.users[|w.users| - 1].passwordHash == Auth.HashPassword(kdf, password, saltRandom).value;
      Auth.VerifyRoundTrip(kdf, password, saltRandom);
    }
  }

  /** The matricule of a 201 is held by no existing student, for a batch
      free of `\`. */
  lemma PostMatriculeIsFresh(id: nat, users: seq<User>, profiles: seq<StudentProfile>, body: Option<CreateBody>,
                             kdf: Auth.Kdf, nowMs: int, passwordRandom: seq<byte>, saltRandom: seq<byte>,
                             fault: Fault)
    requires |passwordRandom| == Auth.PasswordRandomLength && |saltRandom| == Auth.SaltLength
    ensures var w := PostOutcome(id, users, profiles, body, kdf, nowMs, passwordRandom, saltRandom, fault);
      w.resp.Created? && HasNoLikeEscape(w.resp.student.batch) ==>
        forall i :: 0 <= i < |users| && users[i].role == Student ==> users[i].matricule != w.resp.student.matricule
  {
    var w := PostOutcome(id, users, profiles, body, kdf, nowMs, passwordRandom, saltRandom, fault);
    if w.resp.Created? && HasNoLikeEscape(w.resp.student.batch) {
      NextMatriculeIsFresh(users, body.value.batch.value);
    }
  }

  /** `POST`: creates a student. `body` is `None` when the request body is
      JSON `null` or not JSON at all (any other JSON value that is not an
      object gives absent fields); `passwordRandom` and `saltRandom` stand
      for the random bytes drawn for the password and the salt, `nowMs` for the
      clock, `kdf` for the key derivation, `fault` for a statement that throws. */
  method Post(db: Database, body: Option<CreateBody>, kdf: Auth.Kdf, nowMs: int,
              passwordRandom: seq<byte>, saltRandom: seq<byte>, fault: Fault)
    returns (resp: CreateResponse)
    requires db.Valid()
    requires |passwordRandom| == Auth.PasswordRandomLength && |saltRandom| == Auth.SaltLength
    modifies db
    ensures db.Valid()
    ensures Written(resp, db.users, db.profiles) ==
      PostOutcome(old(db.nextUserId), old(db.users), old(db.profiles), body, kdf, nowMs, passwordRandom, saltRandom, fault)
    ensures resp.CreateFailure? && resp.status == 400 ==> unchanged(db)
    ensures body.None? ==> unchanged(db)
  {
    if body.None? {
      return CreateFailure(500, CreateFailedMessage);
    }
    var b := body.value;
    if !Complete(b) {
      return CreateFailure(400, RequiredMessage);
    }
    resp := Create(db, b, kdf, nowMs, passwordRandom, saltRandom, fault);
  }

  /** `POST` once the body passed validation. */
  method Create(db: Database, b: CreateBody, kdf: Auth.Kdf, nowMs: int,
                passwordRandom: seq<byte>, saltRandom: seq<byte>, fault: Fault)
    returns (resp: CreateResponse)
    requires db.Valid() && Complete(b)
    requires |passwordRandom| == Auth.PasswordRandomLength && |saltRandom| == Auth.SaltLength
    modifies db
    ensures db.Valid()
    ensures Written(resp, db.users, db.profiles) ==
      CreateOutcome(old(db.nextUserId), old(db.users), old(db.profiles), b, kdf, nowMs, passwordRandom, saltRandom, fault)
  {
    var batch := b.batch.value;
    if fault == MaxQueryFault {
      return CreateFailure(500, CreateFailedMessage);
    }
    var nextId := NextStudentId(db.users, batch);
    if nextId.None? {
      return CreateFailure(500, CreateFailedMessage);
    }
    var matricule := Matricule.GenerateMatricule(Matricule.MatriculeMeta(batch, nextId.value));
    var initialPassword := Auth.GenerateInitialPassword(nowMs, passwordRandom);
    var passwordHash := Auth.HashPassword(kdf, initialPassword, saltRandom);
    if passwordHash.None? {
      return CreateFailure(500, CreateFailedMessage);
    }
    resp := InsertStudent(db, matricule, EmailOrNull(b.email), passwordHash.value,
      b.firstName.value, b.lastName.value, batch, initialPassword,
      fault == UserInsertFault, fault == ProfileInsertFault);
  }

  /** The two inserts, with no transaction around them: the user row, with
      the id the database issues, then its profile. A throwing insert is a
      500, and a user row inserted before it stays. */
  method InsertStudent(db: Database, matricule: string, email: Option<string>, passwordHash: string,
                       firstName: string, lastName: string, batch: string, password: string,
                       userInsertFails: bool, profileInsertFails: bool)
    returns (resp: CreateResponse)
    requires db.Valid()
    modifies db
    ensures db.Valid()
    ensures userInsertFails ==> resp == CreateFailure(500, CreateFailedMessage) && unchanged(db)
    ensures !userInsertFails ==>
      db.users == old(db.users) + [User(old(db.nextUserId), matricule, email, passwordHash, Student, true, None)]
    ensures !userInsertFails && profileInsertFails ==>
      resp == CreateFailure(500, CreateFailedMessage) && db.profiles == old(db.profiles)
    ensures !userInsertFails && !profileInsertFails ==>
      && resp == Created(CreatedStudent(old(db.nextUserId), matricule, firstName, lastName, batch, password))
      && db.profiles == old(db.profiles) + [StudentProfile(old(db.nextUserId), firstName, lastName, batch)]
  {
    if userInsertFails {
      return CreateFailure(500, CreateFailedMessage);
    }
    var userId := db.InsertUser(matricule, email, passwordHash, Student, true);
    if profileInsertFails {
      return CreateFailure(500, CreateFailedMessage);
    }
    db.InsertProfile(StudentProfile(userId, firstName, lastName, batch));
    resp := Created(CreatedStudent(userId, matricule, firstName, lastName, batch, password));
  }

  /** With a batch free of `LIKE` metacharacters, the allocation query selects
      exactly the students whose matricule starts with `K48` and the batch. */
  lemma InBatchIsPrefix(u: User, batch: string)
    requires HasNoLikeMetachars(batch)
    ensures InBatch(u, batch) <==> u.role == Student && StartsWith(u.matricule, Matricule.Prefix + batch)
  {
    var p := Matricule.Prefix + batch;
    assert HasNoLikeMetachars(p) by {
      assert forall i :: 0 <= i < |batch| ==> p[3 + i] == batch[i];
    }
    LikeLiteralPrefix(u.matricule, p);
  }
}

/**
 * The three tables of the course-management store as sequences of rows, and the
 * read-only queries of back/database.py over them.
 *
 * The tables are kept as rows rather than as maps keyed by their identities: the
 * schema's uniqueness constraints are not part of this model, so "at most one
 * enrollment row per (user, course) pair" is an invariant (`UniquePairs`) that the
 * operations are proved to keep, not something the representation gives for free.
 */
module Tables {
  import opened Wrappers

  /** The `status` column of `enrollments`. */
  datatype Status = Enrolled | Finished

  /**
   * The status a row gets from `INSERT INTO enrollments (user_id, course_id,
   * enrollment_date)`, which leaves `status` to the column default. The schema is not
   * part of this model: that the default is 'enrolled' is an ASSUMPTION.
   */
  const InsertedStatus: Status := Enrolled

  /** A row of `users`. `passwordHash` is whatever the hashing function produced. */
  datatype UserRow = UserRow(id: int, email: string, name: string, passwordHash: string)

  /** A row of `courses`. */
  datatype Course = Course(id: int, name: string, description: string)

  /** A row of `enrollments`; the enrollment date (`NOW()`) is not modelled. */
  datatype Enrollment = Enrollment(userId: int, courseId: int, status: Status)

  predicate IsPair(e: Enrollment, userId: int, courseId: int) {
    e.userId == userId && e.courseId == courseId
  }

  /** The central invariant: no two rows of the ledger are for the same (user, course) pair. */
  ghost predicate UniquePairs(rows: seq<Enrollment>) {
    forall i, j :: 0 <= i < j < |rows| ==>
      rows[i].userId != rows[j].userId || rows[i].courseId != rows[j].courseId
  }

  /** No two users share an email, and none share an id. */
  ghost predicate UniqueUsers(users: seq<UserRow>) {
    forall i, j :: 0 <= i < j < |users| ==>
      users[i].email != users[j].email && users[i].id != users[j].id
  }

  // ----- check_if_enrolled and the status SELECT of mark_enrollment_as_finished -----

  /** `SELECT 1 FROM enrollments WHERE user_id = u AND course_id = c LIMIT 1` found a row. */
  function CheckIfEnrolled(rows: seq<Enrollment>, userId: int, courseId: int): (r: bool)
    ensures r <==> exists s :: Enrollment(userId, courseId, s) in rows
  {
    exists e | e in rows :: IsPair(e, userId, courseId)
  }

  /** `SELECT status FROM enrollments WHERE user_id = u AND course_id = c`, first row. */
  function StatusOf(rows: seq<Enrollment>, userId: int, courseId: int): (r: Option<Status>)
    ensures r.Some? ==> Enrollment(userId, courseId, r.value) in rows
    ensures r.None? ==> forall s :: Enrollment(userId, courseId, s) !in rows
  {
    if rows == [] then None
    else if IsPair(rows[0], userId, courseId) then Some(rows[0].status)
    else StatusOf(rows[1..], userId, courseId)
  }

  /** check_if_enrolled is true exactly when a row exists for the pair, whatever its status. */
  lemma CheckIfEnrolledAnyStatus(rows: seq<Enrollment>, userId: int, courseId: int)
    ensures CheckIfEnrolled(rows, userId, courseId) <==> StatusOf(rows, userId, courseId).Some?
    ensures CheckIfEnrolled(rows, userId, courseId) <==>
      Enrollment(userId, courseId, Enrolled) in rows || Enrollment(userId, courseId, Finished) in rows
  {
    var enrolled, finished := Enrollment(userId, courseId, Enrolled), Enrollment(userId, courseId, Finished);
    if CheckIfEnrolled(rows, userId, courseId) {
      var e :| e in rows && IsPair(e, userId, courseId);
      if e.status == Enrolled {
        assert e == enrolled;
      } else {
        assert e == finished;
      }
    }
    if enrolled in rows {
      assert IsPair(enrolled, userId, courseId);
    }
    if finished in rows {
      assert IsPair(finished, userId, courseId);
    }
    var r := StatusOf(rows, userId, courseId);
    if r.Some? {
      assert IsPair(Enrollment(userId, courseId, r.value), userId, courseId);
    }
  }

  /** With unique pairs, the first row's status is the one status the pair has. */
  lemma StatusOfUnique(rows: seq<Enrollment>, userId: int, courseId: int, s: Status)
    requires UniquePairs(rows)
    ensures StatusOf(rows, userId, courseId) == Some(s) <==> Enrollment(userId, courseId, s) in rows
  {
    var r := StatusOf(rows, userId, courseId);
    if r.Some? && Enrollment(userId, courseId, s) in rows {
      var i :| 0 <= i < |rows| && rows[i] == Enrollment(userId, courseId, s);
      var j :| 0 <= j < |rows| && rows[j] == Enrollment(userId, courseId, r.value);
      SamePairSameRow(rows, i, j);
    }
  }

  lemma SamePairSameRow(rows: seq<Enrollment>, i: int, j: int)
    requires UniquePairs(rows) && 0 <= i < |rows| && 0 <= j < |rows|
    requires IsPair(rows[i], rows[j].userId, rows[j].courseId)
    ensures i == j
  {
  }

  // ----- the course lists of one user -----

  /** get_enrolled_courses: courses joined with the user's rows whose status is 'enrolled'. */
  function EnrolledCourses(rows: seq<Enrollment>, catalog: seq<Course>, userId: int): (r: set<Course>)
    ensures forall c :: c in r ==> c in catalog && CheckIfEnrolled(rows, userId, c.id)
    ensures forall c :: c in r ==> StatusOf(rows, userId, c.id).Some?
  {
    set c | c in catalog && Enrollment(userId, c.id, Enrolled) in rows
  }

  /** get_finished_courses: courses joined with the user's rows whose status is 'finished'. */
  function FinishedCourses(rows: seq<Enrollment>, catalog: seq<Course>, userId: int): (r: set<Course>)
    ensures forall c :: c in r ==> c in catalog && CheckIfEnrolled(rows, userId, c.id)
    ensures forall c :: c in r ==> StatusOf(rows, userId, c.id).Some?
  {
    set c | c in catalog && Enrollment(userId, c.id, Finished) in rows
  }

  /**
   * With unique pairs, the enrolled list holds exactly the catalog courses whose row is
   * 'enrolled', and the finished list exactly those whose row is 'finished'.
   */
  lemma CourseListsByStatus(rows: seq<Enrollment>, catalog: seq<Course>, userId: int)
    requires UniquePairs(rows)
    ensures forall c :: c in EnrolledCourses(rows, catalog, userId) <==>
      c in catalog && StatusOf(rows, userId, c.id) == Some(Enrolled)
    ensures forall c :: c in FinishedCourses(rows, catalog, userId) <==>
      c in catalog && StatusOf(rows, userId, c.id) == Some(Finished)
  {
    forall c | c in catalog
      ensures StatusOf(rows, userId, c.id) == Some(Enrolled) <==> Enrollment(userId, c.id, Enrolled) in rows
      ensures StatusOf(rows, userId, c.id) == Some(Finished) <==> Enrollment(userId, c.id, Finished) in rows
    {
      StatusOfUnique(rows, userId, c.id, Enrolled);
      StatusOfUnique(rows, userId, c.id, Finished);
    }
  }

  /** The `enrolled_ids` of get_available_courses: the course of every row of the user, any status. */
  function EnrolledIds(rows: seq<Enrollment>, userId: int): set<int> {
    set e | e in rows && e.userId == userId :: e.courseId
  }

  /**
   * get_available_courses: with no row for the user, every course; otherwise the courses
   * whose id is `NOT IN` the user's `enrolled_ids`. Both branches are the same set difference.
   */
  function AvailableCourses(rows: seq<Enrollment>, catalog: seq<Course>, userId: int): (r: set<Course>)
    ensures forall c :: c in r <==> c in catalog && !CheckIfEnrolled(rows, userId, c.id)
  {
    var ids := EnrolledIds(rows, userId);
    assert forall id :: id in ids <==> CheckIfEnrolled(rows, userId, id);
    if ids == {} then
      set c | c in catalog
    else
      set c | c in catalog && c.id !in ids
  }

  /**
   * For every user, the enrolled, finished and available lists partition the catalog:
   * together they hold every course, and no course is in two of them.
   */
  lemma {:induction false} CourseListsPartitionCatalog(rows: seq<Enrollment>, catalog: seq<Course>, userId: int)
    requires UniquePairs(rows)
    ensures EnrolledCourses(rows, catalog, userId) + FinishedCourses(rows, catalog, userId)
            + AvailableCourses(rows, catalog, userId) == set c | c in catalog
    ensures EnrolledCourses(rows, catalog, userId) !! FinishedCourses(rows, catalog, userId)
    ensures EnrolledCourses(rows, catalog, userId) !! AvailableCourses(rows, catalog, userId)
    ensures FinishedCourses(rows, catalog, userId) !! AvailableCourses(rows, catalog, userId)
  {
    var enrolled := EnrolledCourses(rows, catalog, userId);
    var finished := FinishedCourses(rows, catalog, userId);
    var available := AvailableCourses(rows, catalog, userId);
    forall c | c in catalog
      ensures c in enrolled || c in finished || c in available
    {
      CheckIfEnrolledAnyStatus(rows, userId, c.id);
    }
    forall c | c in enrolled
      ensures c !in finished && c !in available
    {
      StatusOfUnique(rows, userId, c.id, Enrolled);
      StatusOfUnique(rows, userId, c.id, Finished);
      CheckIfEnrolledAnyStatus(rows, userId, c.id);
    }
    forall c | c in finished
      ensures c !in available
    {
      CheckIfEnrolledAnyStatus(rows, userId, c.id);
    }
  }

  /** A user with no row at all sees the whole catalog as available. */
  lemma NoRowsAllAvailable(rows: seq<Enrollment>, catalog: seq<Course>, userId: int)
    requires forall e :: e in rows ==> e.userId != userId
    ensures AvailableCourses(rows, catalog, userId) == set c | c in catalog
    ensures EnrolledCourses(rows, catalog, userId) == {} && FinishedCourses(rows, catalog, userId) == {}
  {
  }

  // ----- the row updates of enroll, disenroll and finish -----

  /** The rows `DELETE FROM enrollments WHERE user_id = u AND course_id = c` keeps. */
  function Without(rows: seq<Enrollment>, userId: int, courseId: int): (r: seq<Enrollment>)
    ensures forall e :: e in r <==> e in rows && !IsPair(e, userId, courseId)
    ensures |r| <= |rows| && (|r| < |rows| <==> CheckIfEnrolled(rows, userId, courseId))
  {
    if rows == [] then []
    else if IsPair(rows[0], userId, courseId) then Without(rows[1..], userId, courseId)
    else [rows[0]] + Without(rows[1..], userId, courseId)
  }

  /** Finishes one row if `WHERE user_id = u AND course_id = c AND status = 'enrolled'` selects it. */
  function FinishRow(e: Enrollment, userId: int, courseId: int): Enrollment {
    if IsPair(e, userId, courseId) && e.status == Enrolled then e.(status := Finished) else e
  }

  /** The table after `UPDATE enrollments SET status = 'finished' WHERE ... AND status = 'enrolled'`. */
  function MarkFinished(rows: seq<Enrollment>, userId: int, courseId: int): (r: seq<Enrollment>)
    ensures |r| == |rows|
    ensures forall i :: 0 <= i < |rows| ==> r[i] == FinishRow(rows[i], userId, courseId)
  {
    if rows == [] then [] else [FinishRow(rows[0], userId, courseId)] + MarkFinished(rows[1..], userId, courseId)
  }

  /** The UPDATE's `rowcount` is positive exactly when an 'enrolled' row exists for the pair. */
  lemma MarkFinishedChanges(rows: seq<Enrollment>, userId: int, courseId: int)
    ensures MarkFinished(rows, userId, courseId) != rows <==> Enrollment(userId, courseId, Enrolled) in rows
  {
    var r := MarkFinished(rows, userId, courseId);
    if Enrollment(userId, courseId, Enrolled) in rows {
      var i :| 0 <= i < |rows| && rows[i] == Enrollment(userId, courseId, Enrolled);
      assert r[i] != rows[i];
    } else {
      assert forall i :: 0 <= i < |rows| ==> r[i] == rows[i];
    }
  }

  /** Inserting a pair that has no row keeps the pairs unique. */
  lemma InsertKeepsUnique(rows: seq<Enrollment>, e: Enrollment)
    requires UniquePairs(rows) && !CheckIfEnrolled(rows, e.userId, e.courseId)
    ensures UniquePairs(rows + [e])
  {
    var r := rows + [e];
    forall i, j | 0 <= i < j < |r|
      ensures r[i].userId != r[j].userId || r[i].courseId != r[j].courseId
    {
      if j == |rows| {
        assert r[i] in rows;
      }
    }
  }

  /** Inserting a pair that already has a row breaks uniqueness. */
  lemma DuplicateInsertBreaksUniqueness(rows: seq<Enrollment>, e: Enrollment)
    requires CheckIfEnrolled(rows, e.userId, e.courseId)
    ensures !UniquePairs(rows + [e])
  {
    var d :| d in rows && IsPair(d, e.userId, e.courseId);
    var i :| 0 <= i < |rows| && rows[i] == d;
    var r := rows + [e];
    assert r[i] == d && r[|rows|] == e;
  }

  lemma {:induction false} WithoutKeepsUnique(rows: seq<Enrollment>, userId: int, courseId: int)
    requires UniquePairs(rows)
    ensures UniquePairs(Without(rows, userId, courseId))
  {
    if rows != [] {
      var tail := rows[1..];
      assert UniquePairs(tail) by {
        forall i, j | 0 <= i < j < |tail|
          ensures tail[i].userId != tail[j].userId || tail[i].courseId != tail[j].courseId
        {
          assert tail[i] == rows[i + 1] && tail[j] == rows[j + 1];
        }
      }
      WithoutKeepsUnique(tail, userId, courseId);
      if !IsPair(rows[0], userId, courseId) {
        var w := Without(tail, userId, courseId);
        var r := [rows[0]] + w;
        forall i, j | 0 <= i < j < |r|
          ensures r[i].userId != r[j].userId || r[i].courseId != r[j].courseId
        {
          if i == 0 {
            assert r[j] in tail;
            var k :| 0 <= k < |tail| && tail[k] == r[j];
            assert rows[k + 1] == r[j];
          } else {
            assert r[i] == w[i - 1] && r[j] == w[j - 1];
          }
        }
      }
    }
  }

  lemma MarkFinishedKeepsUnique(rows: seq<Enrollment>, userId: int, courseId: int)
    requires UniquePairs(rows)
    ensures UniquePairs(MarkFinished(rows, userId, courseId))
  {
    var r := MarkFinished(rows, userId, courseId);
    assert forall i :: 0 <= i < |rows| ==> r[i].userId == rows[i].userId && r[i].courseId == rows[i].courseId;
  }

  /** After the UPDATE, the pair's status is 'finished' if it had a row, and every other pair keeps its status. */
  lemma {:induction false} MarkFinishedStatus(rows: seq<Enrollment>, userId: int, courseId: int, u: int, c: int)
    ensures StatusOf(MarkFinished(rows, userId, courseId), u, c) ==
      if u == userId && c == courseId && StatusOf(rows, u, c).Some? then Some(Finished)
      else StatusOf(rows, u, c)
  {
    if rows != [] {
      MarkFinishedStatus(rows[1..], userId, courseId, u, c);
      assert MarkFinished(rows, userId, courseId)[1..] == MarkFinished(rows[1..], userId, courseId);
    }
  }

  /** After the DELETE, the pair has no row, and every other pair keeps its status. */
  lemma {:induction false} WithoutStatus(rows: seq<Enrollment>, userId: int, courseId: int, u: int, c: int)
    ensures StatusOf(Without(rows, userId, courseId), u, c) ==
      if u == userId && c == courseId then None else StatusOf(rows, u, c)
  {
    if rows != [] {
      WithoutStatus(rows[1..], userId, courseId, u, c);
      if !IsPair(rows[0], userId, courseId) {
        assert ([rows[0]] + Without(rows[1..], userId, courseId))[1..] == Without(rows[1..], userId, courseId);
      }
    }
  }

  /** After an INSERT, the new pair's status is the inserted one if it had no row, and other pairs keep theirs. */
  lemma {:induction false} InsertStatus(rows: seq<Enrollment>, e: Enrollment, u: int, c: int)
    ensures StatusOf(rows + [e], u, c) ==
      if StatusOf(rows, u, c).None? && IsPair(e, u, c) then Some(e.status) else StatusOf(rows, u, c)
  {
    if rows != [] {
      InsertStatus(rows[1..], e, u, c);
      assert (rows + [e])[1..] == rows[1..] + [e];
    }
  }

  // ----- users and courses -----

  /**
   * find_user_by_email: the first row whose email is exactly `email` (no normalisation).
   * `WHERE email = %s` compares exactly only under a binary collation of `users.email`;
   * the schema is not part of this model, so that collation is an ASSUMPTION.
   */
  function FindUserByEmail(users: seq<UserRow>, email: string): (r: Option<UserRow>)
    ensures r.Some? ==> r.value in users && r.value.email == email
    ensures r.None? ==> forall row :: row in users ==> row.email != email
  {
    if users == [] then None
    else if users[0].email == email then Some(users[0])
    else FindUserByEmail(users[1..], email)
  }

  /** find_user_by_id: the first row whose id is `userId`. */
  function FindUserById(users: seq<UserRow>, userId: int): (r: Option<UserRow>)
    ensures r.Some? ==> r.value in users && r.value.id == userId
    ensures r.None? ==> forall row :: row in users ==> row.id != userId
  {
    if users == [] then None
    else if users[0].id == userId then Some(users[0])
    else FindUserById(users[1..], userId)
  }

  /** With unique emails, find_user_by_email returns the one row that has the email. */
  lemma FindUserByEmailUnique(users: seq<UserRow>, row: UserRow)
    requires UniqueUsers(users) && row in users
    ensures FindUserByEmail(users, row.email) == Some(row)
  {
    var r := FindUserByEmail(users, row.email).value;
    var i :| 0 <= i < |users| && users[i] == row;
    var j :| 0 <= j < |users| && users[j] == r;
    assert i == j;
  }

  /** get_course_details: the first course row whose id is `courseId`. */
  function CourseDetails(catalog: seq<Course>, courseId: int): (r: Option<Course>)
    ensures r.Some? ==> r.value in catalog && r.value.id == courseId
    ensures r.None? ==> forall c :: c in catalog ==> c.id != courseId
  {
    if catalog == [] then None
    else if catalog[0].id == courseId then Some(catalog[0])
    else CourseDetails(catalog[1..], courseId)
  }
}

/**
 * The state-changing operations of back/database.py: each opens a connection, runs its
 * statements, then commits or rolls back. A `Store` holds the three tables; its methods
 * are those operations.
 *
 * Storage failure is an input, `Fault`: the connection may be missing, or one of the
 * call's statements (or its commit) may raise. Every statement failure inside one call
 * ends in the same `except` branch and the same rollback, so one flag per call is enough.
 * The driver's own errors on a pair with several rows (a row left unread by `fetchone()`)
 * are not part of this model.
 */
module Database {
  import opened Wrappers
  import opened Tables

  datatype Fault =
    | Healthy
    | NoConnection                     // get_db_connection() returned None
    | StatementError(detail: string)   // a statement or the commit raised mysql.connector.Error

  const ConnectionErrorMessage := "Database connection error."

  /** The `f"Database error: {e}"` message of a statement failure. */
  function StatementErrorMessage(detail: string): string { "Database error: " + detail }

  class Store {
    var users: seq<UserRow>
    var nextUserId: int   // the AUTO_INCREMENT counter of users.user_id
    var courses: seq<Course>
    var enrollments: seq<Enrollment>

    /**
     * Users are unique by email and by id, and every id is below the AUTO_INCREMENT counter.
     * It concerns `users` only: the enrollment methods neither read nor change those fields.
     * The invariant of `enrollments`, `UniquePairs`, is stated on each method instead.
     */
    ghost predicate Valid()
      reads this
    {
      && UniqueUsers(users)
      && 0 < nextUserId
      && forall row :: row in users ==> 0 < row.id < nextUserId
    }

    /** A store with no users and no enrollments over a fixed course catalog. */
    constructor (catalog: seq<Course>)
      ensures Valid()
      ensures users == [] && courses == catalog && enrollments == []
    {
      users := [];
      nextUserId := 1;
      courses := catalog;
      enrollments := [];
    }

    /**
     * create_user: refuses an email that some row already has (compared exactly, as under a
     * binary collation, with no normalisation), and otherwise inserts one row holding
     * `hash(password)`, whatever the password's length. Returns (success, message).
     */
    method CreateUser(name: string, email: string, password: string, hash: string -> string, fault: Fault)
      returns (ok: bool, message: string)
      requires Valid()
      modifies this`users, this`nextUserId
      ensures Valid()
      ensures fault == NoConnection ==>
        !ok && message == ConnectionErrorMessage && users == old(users)
      ensures fault.StatementError? ==>
        !ok && message == StatementErrorMessage(fault.detail) && users == old(users)
      ensures fault == Healthy && FindUserByEmail(old(users), email).Some? ==>
        !ok && message == "Email already exists." && users == old(users)
      ensures fault == Healthy && FindUserByEmail(old(users), email).None? ==>
        && ok && message == "User created successfully."
        && users == old(users) + [UserRow(old(nextUserId), email, name, hash(password))]
        && FindUserByEmail(users, email) == Some(UserRow(old(nextUserId), email, name, hash(password)))
      ensures ok <==> fault == Healthy && FindUserByEmail(old(users), email).None?
    {
      if fault == NoConnection {
        return false, ConnectionErrorMessage;
      }
      if fault.StatementError? {
        // conn.rollback(): nothing was committed
        return false, StatementErrorMessage(fault.detail);
      }
      if FindUserByEmail(users, email).Some? {
        return false, "Email already exists.";
      }
      var row := UserRow(nextUserId, email, name, hash(password));
      users := users + [row];
      nextUserId := nextUserId + 1;
      FindUserByEmailUnique(users, row);
      return true, "User created successfully.";
    }

    /**
     * enroll_user_in_course: an unconditional INSERT of one row for the pair with the
     * column-default status. It checks nothing itself; on any failure nothing is committed.
     */
    method EnrollUserInCourse(userId: int, courseId: int, fault: Fault) returns (ok: bool)
      modifies this`enrollments
      ensures ok <==> fault == Healthy
      ensures ok ==> enrollments == old(enrollments) + [Enrollment(userId, courseId, InsertedStatus)]
      ensures !ok ==> enrollments == old(enrollments)
      ensures ok ==> (StatusOf(enrollments, userId, courseId) ==
        if CheckIfEnrolled(old(enrollments), userId, courseId)
        then StatusOf(old(enrollments), userId, courseId) else Some(InsertedStatus))
      ensures ok && UniquePairs(old(enrollments)) ==>
        (UniquePairs(enrollments) <==> !CheckIfEnrolled(old(enrollments), userId, courseId))
    {
      if fault != Healthy {
        return false;
      }
      var row := Enrollment(userId, courseId, InsertedStatus);
      CheckIfEnrolledAnyStatus(enrollments, userId, courseId);
      InsertStatus(enrollments, row, userId, courseId);
      if CheckIfEnrolled(enrollments, userId, courseId) {
        DuplicateInsertBreaksUniqueness(enrollments, row);
      } else if UniquePairs(enrollments) {
        InsertKeepsUnique(enrollments, row);
      }
      enrollments := enrollments + [row];
      return true;
    }

    /**
     * disenroll_user_from_course: no row for the pair is a success that changes nothing;
     * otherwise every row of the pair is deleted, whatever its status.
     */
    method DisenrollUserFromCourse(userId: int, courseId: int, fault: Fault) returns (ok: bool, message: string)
      modifies this`enrollments
      ensures fault == NoConnection ==>
        !ok && message == ConnectionErrorMessage && enrollments == old(enrollments)
      ensures fault.StatementError? ==>
        !ok && message == StatementErrorMessage(fault.detail) && enrollments == old(enrollments)
      ensures fault == Healthy && !CheckIfEnrolled(old(enrollments), userId, courseId) ==>
        ok && message == "User was not enrolled or already disenrolled." && enrollments == old(enrollments)
      ensures fault == Healthy && CheckIfEnrolled(old(enrollments), userId, courseId) ==>
        && ok && message == "Successfully disenrolled."
        && enrollments == Without(old(enrollments), userId, courseId)
      ensures ok <==> fault == Healthy
      ensures !CheckIfEnrolled(enrollments, userId, courseId) || enrollments == old(enrollments)
      ensures forall u, c :: u != userId || c != courseId ==>
        StatusOf(enrollments, u, c) == StatusOf(old(enrollments), u, c)
      ensures UniquePairs(old(enrollments)) ==> UniquePairs(enrollments)
    {
      if fault == NoConnection {
        return false, ConnectionErrorMessage;
      }
      if fault.StatementError? {
        return false, StatementErrorMessage(fault.detail);
      }
      if !CheckIfEnrolled(enrollments, userId, courseId) {
        return true, "User was not enrolled or already disenrolled.";
      }
      var remaining := Without(enrollments, userId, courseId);
      var rowcount := |enrollments| - |remaining|;
      if rowcount > 0 {
        forall u, c ensures StatusOf(remaining, u, c) == if u == userId && c == courseId then None else StatusOf(enrollments, u, c) {
          WithoutStatus(enrollments, userId, courseId, u, c);
        }
        if UniquePairs(enrollments) {
          WithoutKeepsUnique(enrollments, userId, courseId);
        }
        enrollments := remaining;
        return true, "Successfully disenrolled.";
      } else {
        // "No active enrollment found to remove.": only a concurrent delete between the
        // check and the DELETE leads here, which sequential calls cannot do.
        assert false;
      }
    }

    /**
     * mark_enrollment_as_finished: the UPDATE moves 'enrolled' rows of the pair to
     * 'finished'. When it changes nothing, an existing 'finished' row is a success and a
     * missing pair is a failure; neither creates a row.
     */
    method MarkEnrollmentAsFinished(userId: int, courseId: int, fault: Fault) returns (ok: bool, message: string)
      modifies this`enrollments
      ensures fault == NoConnection ==>
        !ok && message == ConnectionErrorMessage && enrollments == old(enrollments)
      ensures fault.StatementError? ==>
        !ok && message == StatementErrorMessage(fault.detail) && enrollments == old(enrollments)
      ensures fault == Healthy && Enrollment(userId, courseId, Enrolled) in old(enrollments) ==>
        && ok && message == "Course marked as finished."
        && enrollments == MarkFinished(old(enrollments), userId, courseId)
      ensures fault == Healthy && Enrollment(userId, courseId, Enrolled) !in old(enrollments) ==>
        enrollments == old(enrollments)
      ensures (&& fault == Healthy && Enrollment(userId, courseId, Enrolled) !in old(enrollments)
               && StatusOf(old(enrollments), userId, courseId) == Some(Finished)) ==>
        ok && message == "Course was already marked as finished."
      ensures fault == Healthy && !CheckIfEnrolled(old(enrollments), userId, courseId) ==>
        !ok && message == "Course not found or not currently enrolled."
      ensures fault == Healthy ==>
        StatusOf(enrollments, userId, courseId) ==
          if CheckIfEnrolled(old(enrollments), userId, courseId) then Some(Finished) else None
      ensures forall u, c :: u != userId || c != courseId ==>
        StatusOf(enrollments, u, c) == StatusOf(old(enrollments), u, c)
      ensures UniquePairs(old(enrollments)) ==> UniquePairs(enrollments)
    {
      if fault == NoConnection {
        return false, ConnectionErrorMessage;
      }
      if fault.StatementError? {
        return false, StatementErrorMessage(fault.detail);
      }
      CheckIfEnrolledAnyStatus(enrollments, userId, courseId);
      forall u, c ensures StatusOf(MarkFinished(enrollments, userId, courseId), u, c) ==
        if u == userId && c == courseId && StatusOf(enrollments, u, c).Some? then Some(Finished) else StatusOf(enrollments, u, c)
      {
        MarkFinishedStatus(enrollments, userId, courseId, u, c);
      }
      if UniquePairs(enrollments) {
        MarkFinishedKeepsUnique(enrollments, userId, courseId);
      }
      var updated := MarkFinished(enrollments, userId, courseId);
      MarkFinishedChanges(enrollments, userId, courseId);
      if updated != enrollments {
        enrollments := updated;
        return true, "Course marked as finished.";
      }
      var status := StatusOf(enrollments, userId, courseId);
      if status == Some(Finished) {
        return true, "Course was already marked as finished.";
      }
      return false, "Course not found or not currently enrolled.";
    }
  }
}

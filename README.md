# Enrollment ledger of the student course-management backend

This project is a Dafny model of the enrollment core of a small Flask/MySQL backend. Students
enroll in courses, mark them finished and disenroll. It covers two layers.

- The database layer (`back/database.py`) holds three tables: `users`, `courses` and
  `enrollments`. Each enrollment row links one user to one course with a status, `enrolled` or
  `finished`.
- The request handlers (`back/app.py`) turn those operations into HTTP answers.

Every table is a sequence of rows. The schema's constraints are not part of the model, so
"at most one enrollment row per (user, course) pair" is the invariant `UniquePairs`, proved
to hold across the operations. The representation does not give it for free. A pair moves
through the states none → enrolled → finished → none.

- `wrappers.dfy` (`Wrappers`): `Option`.
- `tables.dfy` (`Tables`): the row types and the read-only queries. These are
  `check_if_enrolled`, the status `SELECT`, the three course lists, `get_course_details`,
  `find_user_by_email` and `find_user_by_id`. The file also holds the row updates done by
  `DELETE` and `UPDATE`, and the lemmas about all of these.
- `database.dfy` (`Database`): class `Store` holds the tables. Its methods are the
  state-changing operations: `create_user`, `enroll_user_in_course`,
  `disenroll_user_from_course` and `mark_enrollment_as_finished`. Storage failure is an input
  of type `Fault`: no connection, or a statement that raises and is rolled back.
- `conversions.dfy` (`Conversions`): Python's `int()` on text and `str()` on integers, as
  the handlers use them.
- `app.dfy` (`App`): the handlers `enroll_course`, `login`, `get_dashboard` and `load_user`.
  It also holds one full enroll → finish → finish → disenroll run.

The model works under these assumptions and parameters:

- **New user id.** The `INSERT` of `create_user` names no `user_id`, so a new user's id
  comes from the schema too. The model ASSUMES `users.user_id` is AUTO_INCREMENT: the
  counter `Store.nextUserId` gives each new row the next id. The distinct ids of
  `Store.Valid`, which `LoadUser` relies on, rest on this assumption.
- **New row status.** The `INSERT` of `enroll_user_in_course` names no status, so a new
  row's status comes from a column default that the schema sets. The model ASSUMES that
  default is `enrolled` (`Tables.InsertedStatus`).
- **Email comparison.** `WHERE email = %s` in `create_user` and `find_user_by_email` is
  modelled as an exact comparison. That holds only if the schema gives `users.email` a
  binary collation, which the model ASSUMES. MySQL's default collations compare without
  regard to letter case.
- **Passwords.** Hashing and checking are foreign library calls. They are parameters: a
  function `hash` for `create_user` and a predicate `passwordMatches` for `login`.
- **Email.** How sending the confirmation email ends is an input of `EnrollCourse`
  (`EmailOutcome`): sent, not sent, or an exception the sender does not catch. A True or
  False result only gets logged, so the answer stays 200. An uncaught exception gives
  Flask's 500 after the new row is committed. The email that would be sent is returned as
  `EnrollmentMail`.
- **Failed check.** `check_if_enrolled` answers False when its own query fails. This is the
  input `checkFails` of `EnrollCourse`. After such a failure the handler inserts even when
  the pair already has a row. `Tables.DuplicateInsertBreaksUniqueness` shows that this
  breaks `UniquePairs`. So the "at most one row" guarantee of `EnrollCourse` holds only when
  the check succeeds.

Where the code and the intended design differ, the model follows the code:

- no email normalisation, and no minimum password length, in `create_user`;
- 400, not 409, for a second enroll;
- a second enroll is rejected even when the existing row is `finished`;
- the dashboard has no finished list;
- `app.py` has no signup, disenroll or finish route.

## Model

| member | source | states |
|---|---|---|
| Tables.CheckIfEnrolled | back/database.py:194-214 | check_if_enrolled is true exactly when a row of the pair exists, whatever its status |
| Tables.CheckIfEnrolledAnyStatus | back/database.py:194-207 | check_if_enrolled is true exactly when the pair has a row with either status, and exactly when the status SELECT finds a row |
| Tables.StatusOf | back/database.py:381-386 | a status found is the status of some row of the pair; none is found only when no row of the pair exists |
| Tables.StatusOfUnique | back/database.py:381-388 | with unique pairs, the status found is the one status the pair's row has |
| Tables.EnrolledCourses | back/database.py:128-154 | every course in the enrolled list is a catalog course that has a row for the user (its status is given by CourseListsByStatus) |
| Tables.FinishedCourses | back/database.py:317-340 | every course in the finished list is a catalog course that has a row for the user (its status is given by CourseListsByStatus) |
| Tables.CourseListsByStatus | back/database.py:128-154 | with unique pairs, the enrolled list is exactly the catalog courses whose status reads 'enrolled', and the finished list (database.py:317-340) exactly those whose status reads 'finished' |
| Tables.AvailableCourses | back/database.py:157-184 | both branches (no enrolled ids, or NOT IN the ids) give the catalog courses whose pair has no row of any status |
| Tables.NoRowsAllAvailable | back/database.py:178-181 | a user with no rows sees the whole catalog as available and nothing as enrolled or finished |
| Tables.CourseListsPartitionCatalog | back/database.py:128-191 | with unique pairs, the enrolled, finished and available lists of a user are pairwise disjoint and together are the whole catalog |
| Tables.Without | back/database.py:270-277 | the DELETE keeps exactly the rows of other pairs; its rowcount is positive exactly when the pair had a row |
| Tables.MarkFinished | back/database.py:357-362 | the UPDATE keeps the table's length and changes exactly the 'enrolled' rows of the pair, each to 'finished' |
| Tables.MarkFinishedChanges | back/database.py:357-366 | the UPDATE changes the table (rowcount > 0) exactly when the pair has an 'enrolled' row |
| Tables.MarkFinishedStatus | back/database.py:357-362 | after the UPDATE a pair that had a row is 'finished', a pair without one still has none, and every other pair keeps its status |
| Tables.WithoutStatus | back/database.py:270-273 | after the DELETE the pair has no row and every other pair keeps its status |
| Tables.InsertStatus | back/database.py:224-229 | after the INSERT a pair that had no row has the inserted status; every other pair, and a pair that had a row, keeps its first status |
| Tables.InsertKeepsUnique | back/app.py:145-156 | inserting a pair only after the check found no row keeps the pairs unique |
| Tables.DuplicateInsertBreaksUniqueness | back/database.py:208-210 | inserting a pair that already has a row (what follows a failed check) leaves two rows for one pair |
| Tables.WithoutKeepsUnique | back/database.py:270-273 | the DELETE keeps the pairs unique |
| Tables.MarkFinishedKeepsUnique | back/database.py:357-362 | the UPDATE keeps the pairs unique |
| Tables.FindUserByEmail | back/database.py:89-97 | a row found has exactly the given email (no normalisation, binary collation assumed); none is found only if no row has that email |
| Tables.FindUserByEmailUnique | back/database.py:89-97 | with unique emails, find_user_by_email returns the one row with that email |
| Tables.FindUserById | back/database.py:107-117 | a row found has the given id; none is found only if no row has that id |
| Tables.CourseDetails | back/database.py:408-421 | a course found is a catalog row with the given id; none is found only if no course has that id |
| Database.Store.CreateUser | back/database.py:33-75 | no connection, or a statement error, gives its message and no change. An existing email gives (False, "Email already exists.") and no change. Otherwise exactly one row is appended with the next id and the hashed password, find_user_by_email then returns that row, and the users stay unique |
| Database.Store.EnrollUserInCourse | back/database.py:217-239 | success exactly without a fault: one row (user, course, default status) is appended and nothing else changes. On failure the table is unchanged and the result is False. The pairs stay unique exactly when the pair had no row |
| Database.Store.DisenrollUserFromCourse | back/database.py:242-314 | a missing pair gives (True, "User was not enrolled or already disenrolled.") and no change. An existing pair loses every row of it, enrolled or finished, with (True, "Successfully disenrolled."). Other pairs keep their status, faults change nothing, and uniqueness is kept |
| Database.Store.MarkEnrollmentAsFinished | back/database.py:343-405 | an 'enrolled' row becomes 'finished' with (True, "Course marked as finished."). An already finished row gives (True, "Course was already marked as finished.") and no change. A missing pair gives (False, "Course not found or not currently enrolled.") and creates no row. Other pairs and uniqueness are kept |
| Conversions.ParseIntLiteral | back/app.py:138-141 | text that int() accepts contains at least one decimal digit |
| Conversions.ParseDecimalString | back/app.py:139 | int(str(n)) == n for every integer n |
| Conversions.PaddingIgnored | back/app.py:139 | whitespace before the text and whitespace after it, each chosen on its own (one side may be empty), never changes what int() reads |
| App.PyInt | back/app.py:138-141 | int() of a JSON number is that number, of a bool 0 or 1; null, arrays and objects are the uncaught TypeError; among the modelled JSON values only text can be a ValueError, and text read as a number holds a digit |
| App.ReadCourseId | back/app.py:134-141 | a missing body or a body without courseId is "Missing courseId."; otherwise the result is int() of the courseId value |
| App.ReadCourseIdRoundTrip | back/app.py:134-141 | a courseId sent as a JSON number, or as its decimal text with any whitespace before and any whitespace after it, each side on its own, is read as that id |
| App.ReadCourseIdRejectsNonNumeric | back/app.py:138-141 | a courseId text without a digit is a ValueError, answered 400 "Invalid courseId format." |
| App.CourseNameForEmail | back/app.py:164-169 | the email names the catalog course with that id, or says "Course ID <id>" when there is none |
| App.EnrollCourse | back/app.py:132-196 | a missing courseId gives 400 "Missing courseId." and an unparsable one 400 "Invalid courseId format.", each with no table change. A pair with any row gives 400 "Already enrolled in this course." and no insert. Otherwise a good insert appends one row and gives 200 "Enrollment successful" when the email was sent or not sent, and 500 "Internal Server Error" with the row kept when the send raised an exception it does not catch. A failed insert gives 500 "Enrollment failed due to a server error." with no change. Without a failed check, uniqueness is kept |
| App.Login | back/app.py:70-96 | a missing or empty email or password gives 400. A 200 carries the public fields of a row with that exact email whose hash the password matches. An unknown email and a wrong password give the identical 401 "Invalid credentials" |
| App.LoginAcceptsMatchingUser | back/app.py:79-92 | with unique emails, the right password for an existing email always logs in as that user |
| App.GetDashboard | back/app.py:111-127 | the dashboard carries the current user; the available list is exactly the catalog courses with no row for the user, and every enrolled course has a row, so the two lists are disjoint |
| App.DashboardOmitsFinished | back/app.py:111-127 | with unique pairs, the enrolled and available lists are disjoint and together hold exactly the catalog courses that are not finished |
| App.UserOfIgnoresHash | back/models.py:16-18 | the User built from a row is the same whatever the row's password hash: it never carries the hash |
| App.LoadUser | back/app.py:42-47 | None exactly when no row has the session's id; otherwise the User built from a row with that id |
| App.EnrollFinishDisenroll | back/app.py:132-196 | enroll shows the course as enrolled only. Finish moves it out of both lists, and a second finish reports "already finished". Disenroll shows it as available again |

## Left out

- Connection set-up, cursors, commit/rollback plumbing and logging are left out. A failed call is the `Fault` input, and it leaves the tables unchanged.
- The error paths of the read queries are not modelled. They return `[]` or `None`, and the queries are modelled as always answering. The one exception is `check_if_enrolled`, whose failure feeds a decision and is the `checkFails` input.
- The connection-failure path of `find_user_by_email` is left out. It dereferences a `None` connection and crashes, which is a plumbing fault.
- Password hashing (`generate_password_hash`) and checking (`check_password_hash`) are foreign library calls. They are function parameters.
- Sending the email over SMTP, and its configuration, are network I/O. Only the arguments of the send and how it ends (`EmailOutcome`) are modelled.
- The Flask-Login session, cookies, CORS and routing are left out. So are the health, logout and unauthorized handlers and the development-only `/create_hash` route. None of them holds ledger logic.
- Races between requests are left out, such as a check and an insert interleaved with another request. The model is sequential. So the "No active enrollment found to remove." branch of `disenroll_user_from_course` cannot be reached, and it is an `assert false` branch.
- The `NOW()` enrollment date is a server clock value and is left out.
- The schema is left out: its foreign keys and any uniqueness constraint. A database-side rejection of a statement is a `StatementError` fault.
- The course lists are sets of course rows, so their order is left out. With unique pairs there is one row per course anyway.
- App.EnrollCourse: JSON numbers that decode to Python floats are not modelled. Neither are bodies that are not JSON objects, or Flask's content-type checks in `get_json()`.
- App.PyInt: float values are not modelled. This covers numbers with a fraction or an exponent, which `int()` truncates when finite. It also covers `NaN`, whose ValueError is answered 400 "Invalid courseId format.". And it covers `Infinity`, `-Infinity` and overflowing numbers such as `1e400`, whose uncaught OverflowError gives 500.
- Conversions.ParseIntLiteral: only ASCII text is modelled. The whitespace it strips is space and tab through carriage return, as `int()` does for ASCII text. Python also accepts other Unicode whitespace and digits, which the model rejects. Python's limit on the number of digits is not modelled.
- Tables.FindUserByEmail: compares emails exactly, assuming a binary collation on `users.email`. Under a case-insensitive collation the duplicate check of `create_user` and the lookup of `login` also match other letter cases, which the model does not capture.
- App.Login: the email and password values are taken to be strings. A JSON number or other non-string value in those fields is not modelled.
- App.LoadUser: takes the session's user id as an integer. The `int()` of the id string that Flask-Login stores is not modelled.
- Database.Store.DisenrollUserFromCourse: for a pair with two or more rows (reachable only after a failed check in `enroll_course`), the model deletes every row of it. The cursor is unbuffered, and `fetchone()` of the existence check leaves a row unread. The driver may then refuse the `DELETE` with an "Unread result found" error, which would give (False, "Database error: …") and delete nothing. The driver's behaviour is not part of this model.
- Database.Store.MarkEnrollmentAsFinished: for a pair with two or more rows and no 'enrolled' one, the model returns "Course was already marked as finished." or "Course not found or not currently enrolled.". In that case the status `SELECT` leaves a row unread, and `cursor.close()` in the `finally` may raise. The function would then throw instead of returning, outside its `except` branch. The driver's behaviour is not part of this model.
- `models.User` falls back to the name "User" when the row has no name key. Both user queries always select `name`, so this fallback never applies. A NULL name is not modelled.

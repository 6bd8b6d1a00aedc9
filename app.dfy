/**
 * The decision logic of the request handlers in back/app.py: `enroll_course`, `login`,
 * `get_dashboard` and `load_user`, over the tables of a `Store`.
 *
 * What the handlers get from outside is a parameter: the JSON request body, the
 * logged-in user (Flask-Login's `current_user`), the result of the password check, the
 * outcome of the confirmation email, and the storage faults of each database call.
 */
module App {
  import opened Wrappers
  import opened Conversions
  import opened Tables
  import opened Database

  /** A JSON value as `request.get_json()` decodes it; values that decode to a float are not modelled. */
  datatype JsonValue = JNull | JBool(b: bool) | JInt(i: int) | JString(s: string) | JArray | JObject

  /** The `models.User` built from a user row: id, email and name, never the hash. */
  datatype User = User(id: int, email: string, name: string)

  function UserOf(row: UserRow): User { User(row.id, row.email, row.name) }

  /** The User built from a row never depends on the row's password hash. */
  lemma UserOfIgnoresHash(row: UserRow, hash: string)
    ensures UserOf(row.(passwordHash := hash)) == UserOf(row)
  {
  }

  /** An HTTP status code and the message of its JSON body (or of `abort`'s description). */
  datatype Response = Response(code: int, message: string)

  /** The arguments `enroll_course` passes to `send_enrollment_email`. */
  datatype EnrollmentMail = EnrollmentMail(recipient: string, studentName: string, courseName: string)

  /**
   * How `send_enrollment_email` ends: True, False (an SMTP, SSL or connection error it
   * catches), or an exception it does not catch (another OSError such as a DNS failure or
   * a timeout), which `enroll_course` does not catch either.
   */
  datatype EmailOutcome = EmailSent | EmailNotSent | EmailRaised

  // ----- enroll_course -----

  /** How `int(data["courseId"])` ends, after the `not data or "courseId" not in data` test. */
  datatype CourseIdRequest =
    | MissingCourseId           // abort(400, "Missing courseId.")
    | MalformedCourseId         // int() raised ValueError: abort(400, "Invalid courseId format.")
    | UnconvertibleCourseId     // int() raised TypeError, which nothing catches: Flask answers 500
    | CourseId(id: int)

  /** Python's `int(v)` on a decoded JSON value: `bool` is an `int`, `None` and containers are a TypeError. */
  function PyInt(v: JsonValue): (r: CourseIdRequest)
    ensures r != MissingCourseId
    ensures v.JInt? ==> r == CourseId(v.i)
    ensures v.JBool? ==> r == CourseId(if v.b then 1 else 0)
    ensures r == UnconvertibleCourseId <==> v.JNull? || v.JArray? || v.JObject?
    ensures r == MalformedCourseId ==> v.JString?
    ensures r.CourseId? && v.JString? ==> exists i :: 0 <= i < |v.s| && IsDigit(v.s[i])
  {
    match v
    case JInt(i) => CourseId(i)
    case JBool(b) => CourseId(if b then 1 else 0)
    case JString(s) =>
      (match ParseIntLiteral(s)
       case Some(i) => CourseId(i)
       case None => MalformedCourseId)
    case _ => UnconvertibleCourseId
  }

  /** `not data or "courseId" not in data`, then `int(data["courseId"])`. */
  function ReadCourseId(body: Option<map<string, JsonValue>>): (r: CourseIdRequest)
    ensures r == MissingCourseId <==> body.None? || "courseId" !in body.value
    ensures r != MissingCourseId ==> r == PyInt(body.value["courseId"])
  {
    if body.None? || body.value == map[] || "courseId" !in body.value then MissingCourseId
    else PyInt(body.value["courseId"])
  }

  /**
   * A course id sent as a number, or as its decimal text with any ASCII whitespace before
   * and after it (each side on its own), is read back as that id.
   */
  lemma ReadCourseIdRoundTrip(n: int, left: string, right: string)
    requires forall i :: 0 <= i < |left| ==> IsSpace(left[i])
    requires forall i :: 0 <= i < |right| ==> IsSpace(right[i])
    ensures ReadCourseId(Some(map["courseId" := JInt(n)])) == CourseId(n)
    ensures ReadCourseId(Some(map["courseId" := JString(left + DecimalString(n) + right)])) == CourseId(n)
  {
    var text := left + DecimalString(n) + right;
    ParseDecimalString(n);
    PaddingIgnored(DecimalString(n), left, right);
    assert ParseIntLiteral(text) == Some(n);
    ReadSingleField(JInt(n));
    ReadSingleField(JString(text));
  }

  lemma ReadSingleField(v: JsonValue)
    ensures ReadCourseId(Some(map["courseId" := v])) == PyInt(v)
  {
    var body := map["courseId" := v];
    assert "courseId" in body && body != map[];
  }

  /** Text without a single digit is never a course id. */
  lemma ReadCourseIdRejectsNonNumeric(body: map<string, JsonValue>)
    requires "courseId" in body && body["courseId"].JString?
    requires forall i :: 0 <= i < |body["courseId"].s| ==> !IsDigit(body["courseId"].s[i])
    ensures ReadCourseId(Some(body)) == MalformedCourseId
  {
  }

  /** The course name put in the confirmation email: the catalog name, or "Course ID <id>". */
  function CourseNameForEmail(catalog: seq<Course>, courseId: int): (name: string)
    ensures CourseDetails(catalog, courseId).None? ==> name == "Course ID " + DecimalString(courseId)
    ensures CourseDetails(catalog, courseId).Some? ==>
      exists c :: c in catalog && c.id == courseId && name == c.name
  {
    match CourseDetails(catalog, courseId)
    case Some(course) => course.name
    case None => "Course ID " + DecimalString(courseId)
  }

  /**
   * enroll_course: reads `courseId`, rejects any pair that already has a row (enrolled or
   * finished), inserts otherwise, and on success asks for the confirmation email.
   * `checkFails` is check_if_enrolled failing, which it reports as "not enrolled";
   * `email` is how the send ended: its True or False result only gets logged, but an
   * exception it lets through turns the answer into a 500 after the row is committed.
   */
  method EnrollCourse(store: Store, current: User, body: Option<map<string, JsonValue>>,
                      checkFails: bool, insertFault: Fault, email: EmailOutcome)
    returns (response: Response, mail: Option<EnrollmentMail>)
    modifies store`enrollments
    ensures ReadCourseId(body) == MissingCourseId ==>
      response == Response(400, "Missing courseId.") && mail.None? && store.enrollments == old(store.enrollments)
    ensures ReadCourseId(body) == MalformedCourseId ==>
      response == Response(400, "Invalid courseId format.") && mail.None? && store.enrollments == old(store.enrollments)
    ensures ReadCourseId(body) == UnconvertibleCourseId ==>
      response == Response(500, "Internal Server Error") && mail.None? && store.enrollments == old(store.enrollments)
    ensures (&& ReadCourseId(body).CourseId? && !checkFails
             && CheckIfEnrolled(old(store.enrollments), current.id, ReadCourseId(body).id)) ==>
      && response == Response(400, "Already enrolled in this course.") && mail.None?
      && store.enrollments == old(store.enrollments)
    ensures (&& ReadCourseId(body).CourseId?
             && (checkFails || !CheckIfEnrolled(old(store.enrollments), current.id, ReadCourseId(body).id))) ==>
      if insertFault == Healthy then
        && response == (if email == EmailRaised then Response(500, "Internal Server Error")
                        else Response(200, "Enrollment successful"))
        && store.enrollments == old(store.enrollments) + [Enrollment(current.id, ReadCourseId(body).id, InsertedStatus)]
        && mail == Some(EnrollmentMail(current.email, current.name,
                                       CourseNameForEmail(store.courses, ReadCourseId(body).id)))
      else
        && response == Response(500, "Enrollment failed due to a server error.") && mail.None?
        && store.enrollments == old(store.enrollments)
    ensures !checkFails && UniquePairs(old(store.enrollments)) ==> UniquePairs(store.enrollments)
  {
    var request := ReadCourseId(body);
    if request == MissingCourseId {
      return Response(400, "Missing courseId."), None;
    }
    if request == MalformedCourseId {
      return Response(400, "Invalid courseId format."), None;
    }
    if request == UnconvertibleCourseId {
      return Response(500, "Internal Server Error"), None;
    }
    var courseId := request.id;
    var userId := current.id;

    // 1. check_if_enrolled, which answers False when its own query fails
    var enrolled := if checkFails then false else CheckIfEnrolled(store.enrollments, userId, courseId);
    if enrolled {
      return Response(400, "Already enrolled in this course."), None;
    }

    // 2. the INSERT
    var success := store.EnrollUserInCourse(userId, courseId, insertFault);
    if success {
      // 3. the email is requested; its True or False result is only logged
      mail := Some(EnrollmentMail(current.email, current.name, CourseNameForEmail(store.courses, courseId)));
      if email == EmailRaised {
        // the exception escapes the handler: Flask answers 500, the INSERT stays committed
        response := Response(500, "Internal Server Error");
      } else {
        response := Response(200, "Enrollment successful");
      }
    } else {
      response := Response(500, "Enrollment failed due to a server error.");
      mail := None;
    }
  }

  // ----- login -----

  /** The body of a 200 answer carries the user's public fields; the other answers carry none. */
  datatype LoginResponse = LoginResponse(code: int, message: string, user: Option<User>)

  const InvalidCredentials := LoginResponse(401, "Invalid credentials", None)

  /** `data.get(key)` is truthy: the body has the key and its text is not empty. */
  predicate HasText(body: Option<map<string, string>>, key: string) {
    body.Some? && key in body.value && body.value[key] != ""
  }

  /**
   * login: 400 when email or password is missing or empty; otherwise the row with exactly
   * that email, and 200 only if the password check accepts its hash. An unknown email and a
   * wrong password give the very same 401.
   */
  function Login(users: seq<UserRow>, body: Option<map<string, string>>,
                 passwordMatches: (string, string) -> bool): (r: LoginResponse)
    ensures r.code in {200, 400, 401}
    ensures r.code == 400 <==> !HasText(body, "email") || !HasText(body, "password")
    ensures r.code == 400 ==> r == LoginResponse(400, "Missing email or password.", None)
    ensures r.code == 401 ==> r == InvalidCredentials
    ensures r.code == 200 ==>
      && HasText(body, "email") && HasText(body, "password")
      && exists row :: && row in users && row.email == body.value["email"]
                       && passwordMatches(row.passwordHash, body.value["password"])
                       && r == LoginResponse(200, "Login successful", Some(UserOf(row)))
    ensures (&& HasText(body, "email") && HasText(body, "password")
             && forall row :: row in users ==> row.email != body.value["email"]) ==>
      r == InvalidCredentials
    ensures (&& HasText(body, "email") && HasText(body, "password")
             && forall row :: row in users && row.email == body.value["email"] ==>
                  !passwordMatches(row.passwordHash, body.value["password"])) ==>
      r == InvalidCredentials
  {
    if !HasText(body, "email") || !HasText(body, "password") then
      LoginResponse(400, "Missing email or password.", None)
    else
      var email, password := body.value["email"], body.value["password"];
      match FindUserByEmail(users, email)
      case Some(row) =>
        if passwordMatches(row.passwordHash, password) then
          LoginResponse(200, "Login successful", Some(UserOf(row)))
        else InvalidCredentials
      case None => InvalidCredentials
  }

  /** With emails unique, the right password for an existing email always logs in as that user. */
  lemma LoginAcceptsMatchingUser(users: seq<UserRow>, row: UserRow, password: string,
                                 passwordMatches: (string, string) -> bool)
    requires UniqueUsers(users) && row in users && row.email != "" && password != ""
    requires passwordMatches(row.passwordHash, password)
    ensures Login(users, Some(map["email" := row.email, "password" := password]), passwordMatches)
            == LoginResponse(200, "Login successful", Some(User(row.id, row.email, row.name)))
  {
    FindUserByEmailUnique(users, row);
  }

  // ----- get_dashboard and load_user -----

  /** The dashboard's JSON: the student's public fields, the enrolled list and the available list. */
  datatype Dashboard = Dashboard(student: User, enrolled: set<Course>, available: set<Course>)

  /** get_dashboard: the current user's public fields, enrolled courses and available courses. */
  function GetDashboard(rows: seq<Enrollment>, catalog: seq<Course>, current: User): (d: Dashboard)
    ensures d.student == current
    ensures d.enrolled !! d.available
    ensures forall c :: c in d.available <==> c in catalog && !CheckIfEnrolled(rows, current.id, c.id)
    ensures forall c :: c in d.enrolled ==> c in catalog && StatusOf(rows, current.id, c.id).Some?
  {
    Dashboard(current, EnrolledCourses(rows, catalog, current.id), AvailableCourses(rows, catalog, current.id))
  }

  /**
   * The dashboard shows exactly the catalog courses that are not finished, each in one list:
   * a finished course is in neither list.
   */
  lemma DashboardOmitsFinished(rows: seq<Enrollment>, catalog: seq<Course>, current: User)
    requires UniquePairs(rows)
    ensures var d := GetDashboard(rows, catalog, current);
      && d.enrolled !! d.available
      && d.enrolled + d.available == (set c | c in catalog) - FinishedCourses(rows, catalog, current.id)
  {
    CourseListsPartitionCatalog(rows, catalog, current.id);
  }

  /** load_user: the user whose row has the session's id, or None when no row has it. */
  function LoadUser(users: seq<UserRow>, userId: int): (r: Option<User>)
    ensures r.None? <==> forall row :: row in users ==> row.id != userId
    ensures r.Some? ==> r.value.id == userId && exists row :: row in users && r.value == UserOf(row)
  {
    match FindUserById(users, userId)
    case Some(row) => Some(UserOf(row))
    case None => None
  }

  // ----- a whole lifecycle -----

  /**
   * One student and one course through enroll, finish, finish again, disenroll, with the
   * dashboard read after each step: the course moves from the enrolled list, to neither
   * list (finished), back to the available list.
   */
  method EnrollFinishDisenroll(student: User, course: Course)
    returns (afterEnroll: Dashboard, afterFinish: Dashboard, secondFinish: string, afterDisenroll: Dashboard)
    ensures course in afterEnroll.enrolled && course !in afterEnroll.available
    ensures course !in afterFinish.enrolled && course !in afterFinish.available
    ensures secondFinish == "Course was already marked as finished."
    ensures course !in afterDisenroll.enrolled && course in afterDisenroll.available
  {
    var store := new Store([course]);
    var body := map["courseId" := JInt(course.id)];
    assert "courseId" in body && body != map[];
    assert ReadCourseId(Some(body)) == CourseId(course.id);
    var response, mail := EnrollCourse(store, student, Some(body), false, Healthy, EmailSent);
    assert store.enrollments == [Enrollment(student.id, course.id, Enrolled)];
    afterEnroll := GetDashboard(store.enrollments, store.courses, student);
    assert CheckIfEnrolled(store.enrollments, student.id, course.id) by {
      assert IsPair(store.enrollments[0], student.id, course.id);
    }

    var ok, message := store.MarkEnrollmentAsFinished(student.id, course.id, Healthy);
    assert store.enrollments == [Enrollment(student.id, course.id, Finished)];
    afterFinish := GetDashboard(store.enrollments, store.courses, student);
    assert IsPair(store.enrollments[0], student.id, course.id);

    ok, secondFinish := store.MarkEnrollmentAsFinished(student.id, course.id, Healthy);

    ok, message := store.DisenrollUserFromCourse(student.id, course.id, Healthy);
    assert store.enrollments == [];
    afterDisenroll := GetDashboard(store.enrollments, store.courses, student);
  }
}

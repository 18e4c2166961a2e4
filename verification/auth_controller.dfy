/** The login/registration, password-reset and current-user handlers, over the
    student and teacher collections. Password hashing is a stand-in function and
    the signed session token is represented by the user id it carries. */
module AuthController {
  import opened Seqs
  import opened Text

  /** A user document id. */
  type Id = string

  /** A student or teacher document: roll number and stored password text. */
  datatype User = User(rollno: string, password: string)

  /** A handler's answer: HTTP status, `success`, `message`, the user id put in the
      session cookie (if one is set) and the user document sent back (if any). */
  datatype Reply = Reply(status: int, success: bool, message: string, cookie: Option<Id>, user: Option<User>)

  /** Both collections after a request, with the reply. */
  datatype Outcome = Outcome(reply: Reply, students: map<Id, User>, teachers: map<Id, User>)

  const HashTag := "$2a$10$"

  /** Stand-in for `bcrypt.hash(p, 10)`: an injective function whose results are
      marked by the bcrypt prefix. Salting is not modelled. */
  function Hash(p: string): string {
    HashTag + p
  }

  /** Stand-in for `bcrypt.compare(p, stored)`: `stored` is the hash of `p`. */
  predicate Compare(p: string, stored: string) {
    stored == Hash(p)
  }

  /** `compare(p, hash(q))` holds exactly when `p == q`. */
  lemma CompareHash(p: string, q: string)
    ensures Compare(p, Hash(q)) <==> p == q
  {
    if Compare(p, Hash(q)) {
      assert p == Hash(p)[|HashTag|..] == Hash(q)[|HashTag|..] == q;
    }
  }

  /** The teachers' login test and the password-reset test: the hash compares, or
      the given text equals the stored text. */
  predicate MatchesWithFallback(p: string, stored: string) {
    Compare(p, stored) || p == stored
  }

  /** With the plain-text fallback, a stored value is always accepted as itself —
      including a stored hash; a student's login has no fallback, so a stored
      value that is not a hash never lets a student in. */
  lemma FallbackAcceptsStoredText(stored: string, p: string)
    ensures MatchesWithFallback(stored, stored)
    ensures !StartsWith(stored, HashTag) ==> !Compare(p, stored)
  {
  }

  /** After a reset the new password, and only it, passes both tests. */
  lemma {:induction false} ResetPasswordAccepted(p: string, newPassword: string)
    ensures Compare(p, Hash(newPassword)) <==> p == newPassword
    ensures MatchesWithFallback(p, Hash(newPassword)) <==> p == newPassword || p == Hash(newPassword)
  {
    CompareHash(p, newPassword);
  }

  /** Roll numbers identify users within a collection. */
  ghost predicate UniqueRollnos(m: map<Id, User>) {
    forall a, b :: a in m && b in m && m[a].rollno == m[b].rollno ==> a == b
  }

  /** `Model.findOne({rollno})` */
  ghost function Lookup(m: map<Id, User>, rollno: string): (r: Option<Id>)
    ensures r.Some? ==> r.value in m && m[r.value].rollno == rollno
    ensures r.None? ==> forall id :: id in m ==> m[id].rollno != rollno
  {
    if exists id :: id in m && m[id].rollno == rollno then
      var id :| id in m && m[id].rollno == rollno; Some(id)
    else None
  }

  /** `Model.findOne({rollno})`, as the handlers run it. */
  method FindByRollno(m: map<Id, User>, rollno: string) returns (found: Option<Id>)
    ensures found.Some? ==> found.value in m && m[found.value].rollno == rollno
    ensures found.None? ==> forall id :: id in m ==> m[id].rollno != rollno
    ensures UniqueRollnos(m) ==> found == Lookup(m, rollno)
  {
    if exists id :: id in m && m[id].rollno == rollno {
      var id :| id in m && m[id].rollno == rollno;
      found := Some(id);
    } else {
      found := None;
    }
  }

  /** `activeTab === "Student" ? studentModel : teacherModel` */
  function UsesStudentStore(activeTab: string): bool {
    activeTab == "Student"
  }

  /** The reply when a request lacks a field. */
  const MissingFields := Reply(400, false, "Please provide all fields", None, None)

  /** The reply when creating a document fails because its id is taken. */
  const DuplicateKey := Reply(500, false, "duplicate key", None, None)

  /** `register`: log a teacher in; log a student in, or register a new student
      whose password is their roll number. A tab other than "Student" or "Teacher"
      takes the student path against the teacher collection. */
  ghost function RegisterSpec(students: map<Id, User>, teachers: map<Id, User>,
                              activeTab: string, rollno: string, password: string, newId: Id): Outcome
  {
    if rollno == "" || password == "" then Outcome(MissingFields, students, teachers)
    else
      var store := if UsesStudentStore(activeTab) then students else teachers;
      var existing := Lookup(store, rollno);
      if activeTab == "Teacher" then
        if existing.None? then Outcome(Reply(404, false, "Teacher not found. Please contact admin.", None, None), students, teachers)
        else if !MatchesWithFallback(password, store[existing.value].password) then
          Outcome(Reply(400, false, "Invalid teacher credentials", None, None), students, teachers)
        else
          Outcome(Reply(200, true, "Teacher logged in successfully", existing, Some(store[existing.value])), students, teachers)
      else if existing.Some? then
        if !Compare(password, store[existing.value].password) then
          Outcome(Reply(400, false, "Invalid student credentials", None, None), students, teachers)
        else
          Outcome(Reply(200, true, "Student logged in successfully", existing, Some(store[existing.value])), students, teachers)
      else if password != rollno then
        Outcome(Reply(200, true, "incorrect password", None, None), students, teachers)
      else if newId in store then Outcome(DuplicateKey, students, teachers)
      else
        var created := User(rollno, Hash(password));
        var reply := Reply(200, true, "Student registered successfully", Some(newId), Some(created));
        if UsesStudentStore(activeTab) then Outcome(reply, students[newId := created], teachers)
        else Outcome(reply, students, teachers[newId := created])
  }

  /** `resetPassword`: the caller's password changes to the hash of the new one
      when the old one matches, by hash or as plain text. The student collection
      is searched first. */
  function ResetSpec(students: map<Id, User>, teachers: map<Id, User>,
                     userId: Option<Id>, oldPassword: string, newPassword: string): Outcome
  {
    if oldPassword == "" || newPassword == "" then Outcome(MissingFields, students, teachers)
    else if userId.None? || (userId.value !in students && userId.value !in teachers) then
      Outcome(Reply(404, false, "User not found", None, None), students, teachers)
    else
      var id := userId.value;
      var isStudent := id in students;
      var user := if isStudent then students[id] else teachers[id];
      if !MatchesWithFallback(oldPassword, user.password) then
        Outcome(Reply(400, false, "Old password is incorrect", None, None), students, teachers)
      else
        var updated := user.(password := Hash(newPassword));
        if isStudent then
          Outcome(Reply(200, true, "Student password reset successfully", None, None), students[id := updated], teachers)
        else
          Outcome(Reply(200, true, "Teacher password reset successfully", None, None), students, teachers[id := updated])
  }

  /** Missing fields are refused before anything is looked up: no user, no cookie. */
  lemma {:induction false} RegisterMissingFields(students: map<Id, User>, teachers: map<Id, User>,
                                                 tab: string, rollno: string, password: string, newId: Id)
    requires rollno == "" || password == ""
    ensures var o := RegisterSpec(students, teachers, tab, rollno, password, newId);
      o.reply.status == 400 && o.reply.cookie.None? && o.students == students && o.teachers == teachers
  {
  }

  /** On the teacher tab nothing is ever created; an unknown roll number is a 404,
      and a known one is let in exactly when the password matches by hash or as
      plain text. */
  lemma {:induction false} TeacherLogin(students: map<Id, User>, teachers: map<Id, User>,
                                        rollno: string, password: string, newId: Id)
    requires rollno != "" && password != ""
    ensures var o := RegisterSpec(students, teachers, "Teacher", rollno, password, newId);
      o.students == students && o.teachers == teachers &&
      ((o.reply.status == 404) <==> forall id :: id in teachers ==> teachers[id].rollno != rollno) &&
      ((o.reply.status == 200) <==>
        exists id :: id in teachers && teachers[id].rollno == rollno && o.reply.cookie == Some(id) &&
                     MatchesWithFallback(password, teachers[id].password))
  {
    var existing := Lookup(teachers, rollno);
    if existing.Some? {
      var id := existing.value;
      assert teachers[id].rollno == rollno;
    }
  }

  /** An existing student is let in only by the hash comparison, never by plain text. */
  lemma {:induction false} StudentLoginHashOnly(students: map<Id, User>, teachers: map<Id, User>,
                                                rollno: string, password: string, newId: Id, id: Id)
    requires UniqueRollnos(students)
    requires rollno != "" && password != ""
    requires id in students && students[id].rollno == rollno
    ensures var o := RegisterSpec(students, teachers, "Student", rollno, password, newId);
      o.students == students && o.teachers == teachers &&
      (o.reply.cookie.Some? <==> Compare(password, students[id].password)) &&
      (o.reply.cookie.Some? ==> o.reply.cookie == Some(id)) &&
      (!Compare(password, students[id].password) ==> o.reply.status == 400)
  {
    assert Lookup(students, rollno) == Some(id);
  }

  /** A new student is registered exactly when the password equals the roll number;
      the stored password is its hash. Otherwise the reply claims success with
      "incorrect password" and nothing is created. */
  lemma {:induction false} NewStudentRegistration(students: map<Id, User>, teachers: map<Id, User>,
                                                  rollno: string, password: string, newId: Id)
    requires rollno != "" && password != ""
    requires forall id :: id in students ==> students[id].rollno != rollno
    requires newId !in students
    ensures var o := RegisterSpec(students, teachers, "Student", rollno, password, newId);
      o.teachers == teachers &&
      (password == rollno ==>
        o.students == students[newId := User(rollno, Hash(password))] && o.reply.cookie == Some(newId)) &&
      (password != rollno ==>
        o.students == students && o.reply.cookie.None? &&
        o.reply.success && o.reply.message == "incorrect password")
  {
    assert Lookup(students, rollno).None?;
  }

  /** The student collection is used exactly on the "Student" tab: any other tab
      leaves it untouched, and a tab other than "Teacher" registers into the
      teacher collection. */
  lemma {:induction false} StoreFollowsTab(students: map<Id, User>, teachers: map<Id, User>,
                                           tab: string, rollno: string, password: string, newId: Id)
    requires tab != "Student"
    ensures RegisterSpec(students, teachers, tab, rollno, password, newId).students == students
    ensures tab != "Teacher" && rollno != "" && password == rollno && newId !in teachers &&
            (forall id :: id in teachers ==> teachers[id].rollno != rollno) ==>
            RegisterSpec(students, teachers, tab, rollno, password, newId).teachers ==
            teachers[newId := User(rollno, Hash(password))]
  {
    if tab != "Teacher" && rollno != "" && password == rollno && (forall id :: id in teachers ==> teachers[id].rollno != rollno) {
      assert Lookup(teachers, rollno).None?;
    }
  }

  /** A successful reset changes that one user's password to the hash of the new
      one, in the collection the user was found in (students first); every other
      outcome changes nothing. */
  lemma {:induction false} ResetChangesOnlyCaller(students: map<Id, User>, teachers: map<Id, User>,
                                                  userId: Option<Id>, oldPassword: string, newPassword: string)
    ensures var o := ResetSpec(students, teachers, userId, oldPassword, newPassword);
      (o.reply.status == 200 <==>
        oldPassword != "" && newPassword != "" && userId.Some? &&
        ((userId.value in students && MatchesWithFallback(oldPassword, students[userId.value].password)) ||
         (userId.value !in students && userId.value in teachers &&
          MatchesWithFallback(oldPassword, teachers[userId.value].password)))) &&
      (o.reply.status == 200 && userId.value in students ==>
        o.teachers == teachers && o.students.Keys == students.Keys &&
        o.students[userId.value] == User(students[userId.value].rollno, Hash(newPassword)) &&
        (forall k :: k in students && k != userId.value ==> o.students[k] == students[k])) &&
      (o.reply.status == 200 && userId.value !in students ==>
        o.students == students && o.teachers.Keys == teachers.Keys &&
        o.teachers[userId.value] == User(teachers[userId.value].rollno, Hash(newPassword)) &&
        (forall k :: k in teachers && k != userId.value ==> o.teachers[k] == teachers[k])) &&
      (o.reply.status != 200 ==> o.students == students && o.teachers == teachers)
  {
  }

  /** A user as `getUser` sends it: without the password, with a role. */
  datatype UserView = UserView(id: Id, rollno: string, role: string)

  class Auth {
    var students: map<Id, User>
    var teachers: map<Id, User>

    ghost predicate Valid()
      reads this
    {
      UniqueRollnos(students) && UniqueRollnos(teachers)
    }

    constructor (students: map<Id, User>, teachers: map<Id, User>)
      requires UniqueRollnos(students) && UniqueRollnos(teachers)
      ensures Valid() && this.students == students && this.teachers == teachers
    {
      this.students := students;
      this.teachers := teachers;
    }

    /** `register` */
    method Register(activeTab: string, rollno: string, password: string, newId: Id) returns (reply: Reply)
      requires Valid()
      modifies this
      ensures Valid()
      ensures Outcome(reply, students, teachers) ==
              RegisterSpec(old(students), old(teachers), activeTab, rollno, password, newId)
    {
      if rollno == "" || password == "" {
        return MissingFields;
      }
      var useStudents := activeTab == "Student";
      var store := if useStudents then students else teachers;
      var existingUser := FindByRollno(store, rollno);

      if activeTab == "Teacher" {
        if existingUser.None? {
          return Reply(404, false, "Teacher not found. Please contact admin.", None, None);
        }
        var stored := store[existingUser.value];
        var isMatch := Compare(password, stored.password) || password == stored.password;
        if !isMatch {
          return Reply(400, false, "Invalid teacher credentials", None, None);
        }
        return Reply(200, true, "Teacher logged in successfully", existingUser, Some(stored));
      }

      if existingUser.Some? {
        var stored := store[existingUser.value];
        var isMatch := Compare(password, stored.password);
        if !isMatch {
          return Reply(400, false, "Invalid student credentials", None, None);
        }
        return Reply(200, true, "Student logged in successfully", existingUser, Some(stored));
      }

      if password != rollno {
        return Reply(200, true, "incorrect password", None, None);
      }
      if newId in store {
        return DuplicateKey;
      }
      var newUser := User(rollno, Hash(password));
      if useStudents {
        students := students[newId := newUser];
      } else {
        teachers := teachers[newId := newUser];
      }
      reply := Reply(200, true, "Student registered successfully", Some(newId), Some(newUser));
    }

    /** `resetPassword` */
    method ResetPassword(userId: Option<Id>, oldPassword: string, newPassword: string) returns (reply: Reply)
      requires Valid()
      modifies this
      ensures Valid()
      ensures Outcome(reply, students, teachers) ==
              ResetSpec(old(students), old(teachers), userId, oldPassword, newPassword)
    {
      if oldPassword == "" || newPassword == "" {
        return MissingFields;
      }
      var isStudent := userId.Some? && userId.value in students;
      if !isStudent && (userId.None? || userId.value !in teachers) {
        return Reply(404, false, "User not found", None, None);
      }
      var id := userId.value;
      var user := if isStudent then students[id] else teachers[id];
      var isMatch := Compare(oldPassword, user.password) || oldPassword == user.password;
      if !isMatch {
        return Reply(400, false, "Old password is incorrect", None, None);
      }
      var updated := user.(password := Hash(newPassword));
      if isStudent {
        students := students[id := updated];
        reply := Reply(200, true, "Student password reset successfully", None, None);
      } else {
        teachers := teachers[id := updated];
        reply := Reply(200, true, "Teacher password reset successfully", None, None);
      }
    }

    /** `getUser`: 401 without a user id; otherwise the user, without the password,
        with role "Student" when found among students, else "Teacher" when found
        among teachers, else 404. */
    method GetUser(userId: Option<Id>) returns (status: int, user: Option<UserView>)
      ensures userId.None? ==> status == 401 && user.None?
      ensures userId.Some? && userId.value in students ==>
        status == 200 && user == Some(UserView(userId.value, students[userId.value].rollno, "Student"))
      ensures userId.Some? && userId.value !in students && userId.value in teachers ==>
        status == 200 && user == Some(UserView(userId.value, teachers[userId.value].rollno, "Teacher"))
      ensures userId.Some? && userId.value !in students && userId.value !in teachers ==>
        status == 404 && user.None?
    {
      if userId.None? {
        return 401, None;
      }
      var id := userId.value;
      user := None;
      if id in students {
        user := Some(UserView(id, students[id].rollno, "Student"));
      }
      if user.None? && id in teachers {
        user := Some(UserView(id, teachers[id].rollno, "Teacher"));
      }
      if user.None? {
        return 404, None;
      }
      status := 200;
    }
  }
}

/** The four collections the routes read and write, as one value, and the
    constraints the schemas' unique indexes and the routes' checks keep. */
module Database {
  import opened Common
  import opened UserModel
  import opened ClassModel
  import Text
  import AM = AttendanceModel
  import RM = ResultModel

  /** Users and classes by ObjectId; attendance records and results as the
      collections' documents in insertion order. New ObjectIds come from
      `nextId`. */
  datatype Db = Db(
    users: map<Id, User>,
    classes: map<Id, Class>,
    attendance: seq<AM.AttendanceRecord>,
    results: seq<RM.ResultRecord>,
    nextId: nat)

  /** A write handler's new database and response. */
  datatype Reply<T> = Reply(db: Db, out: Outcome<T>)

  /** The unique indexes on username and email, and the sparse one on studentId. */
  ghost predicate UsersUnique(users: map<Id, User>)
  {
    forall a, b :: a in users && b in users && a != b ==>
      && users[a].username != users[b].username
      && users[a].email != users[b].email
      && (users[a].studentId.Some? ==> users[a].studentId != users[b].studentId)
  }

  /** The unique index on code. */
  ghost predicate CodesUnique(classes: map<Id, Class>)
  {
    forall a, b :: a in classes && b in classes && a != b ==> classes[a].code != classes[b].code
  }

  /** Some class other than `except` already has this code. */
  predicate CodeInUse(classes: map<Id, Class>, code: string, except: Option<Id>)
  {
    exists id :: id in classes && classes[id].code == code && except != Some(id)
  }

  /** `{ username }` as a clause of a duplicate check, after the path's
      setter: some user other than `except` has it. An absent value is sent
      as null and matches no one, since every stored user has a username. */
  predicate UsernameTaken(users: map<Id, User>, except: Option<Id>, username: Option<string>)
  {
    username.Some? && exists id :: id in users && except != Some(id) && users[id].username == Text.Trim(username.value)
  }

  /** `{ email }` as a clause of a duplicate check, after the path's setters. */
  predicate EmailTaken(users: map<Id, User>, except: Option<Id>, email: Option<string>)
  {
    email.Some? && exists id :: id in users && except != Some(id) && users[id].email == NormalizeEmail(email.value)
  }

  /** `{ studentId }` as a clause of a duplicate check. An absent value is
      sent as null, which matches every user that has no studentId. */
  predicate StudentIdTaken(users: map<Id, User>, except: Option<Id>, studentId: Option<string>)
  {
    exists id :: id in users && except != Some(id) && users[id].studentId == studentId
  }

  /** A stored user: its password is the digest of a plaintext of a valid length. */
  predicate WellFormed(u: User)
  {
    StoredPassword(u.password)
  }

  /** The users table: ids drawn from the counter, every user well formed,
      the unique indexes respected. */
  ghost predicate UsersValid(users: map<Id, User>, nextId: nat)
  {
    && (forall id :: id in users ==> id < nextId && WellFormed(users[id]))
    && UsersUnique(users)
  }

  /** The classes table: ids drawn from the counter, the code index respected. */
  ghost predicate ClassesValid(classes: map<Id, Class>, nextId: nat)
  {
    && (forall id :: id in classes ==> id < nextId)
    && CodesUnique(classes)
  }

  ghost predicate Valid(db: Db)
  {
    && UsersValid(db.users, db.nextId)
    && ClassesValid(db.classes, db.nextId)
    && AM.UniqueKeys(db.attendance)
    && RM.OnePerPair(db.results)
  }

  const Empty := Db(map[], map[], [], [], 0)

  lemma EmptyValid()
    ensures Valid(Empty)
  {
  }

  /** Two user tables that agree on the ids and on every indexed path and password. */
  predicate SameIdentities(before: map<Id, User>, after: map<Id, User>)
  {
    && after.Keys == before.Keys
    && forall id :: id in after ==>
         && after[id].username == before[id].username
         && after[id].email == before[id].email
         && after[id].studentId == before[id].studentId
         && after[id].password == before[id].password
  }

  /** Two class tables that agree on the ids and on every code. */
  predicate SameCodes(before: map<Id, Class>, after: map<Id, Class>)
  {
    after.Keys == before.Keys && forall id :: id in after ==> after[id].code == before[id].code
  }

  /** A write that leaves every unique path, every password, the counter and
      the two record tables alone keeps the database valid. */
  lemma ValidWhenIdentitiesKept(db: Db, db': Db)
    requires Valid(db)
    requires SameIdentities(db.users, db'.users) && SameCodes(db.classes, db'.classes)
    requires db'.nextId == db.nextId && db'.attendance == db.attendance && db'.results == db.results
    ensures Valid(db')
  {
    assert UsersValid(db'.users, db'.nextId) by {
      forall id | id in db'.users ensures id < db'.nextId && WellFormed(db'.users[id]) {
        assert WellFormed(db.users[id]);
      }
      assert UsersUnique(db'.users) by {
        forall a, b | a in db'.users && b in db'.users && a != b
          ensures db'.users[a].username != db'.users[b].username
        {
        }
      }
    }
    assert ClassesValid(db'.classes, db'.nextId) by {
      assert ClassesValid(db.classes, db.nextId);
    }
  }

  /** Replacing the attendance table by one that keeps its unique index keeps the database valid. */
  lemma ValidWithAttendance(db: Db, table: seq<AM.AttendanceRecord>)
    requires Valid(db) && AM.UniqueKeys(table)
    ensures Valid(db.(attendance := table))
  {
    var db' := db.(attendance := table);
    assert db'.users == db.users && db'.classes == db.classes && db'.nextId == db.nextId;
  }

  /** Inserting a well-formed user under the next id keeps the database valid
      when no stored user has its username, its email or its student id. */
  lemma ValidWithNewUser(db: Db, u: User)
    requires Valid(db) && WellFormed(u)
    requires forall id :: id in db.users ==>
      && db.users[id].username != u.username
      && db.users[id].email != u.email
      && (u.studentId.Some? ==> db.users[id].studentId != u.studentId)
    ensures Valid(db.(users := db.users[db.nextId := u], nextId := db.nextId + 1))
  {
    var db' := db.(users := db.users[db.nextId := u], nextId := db.nextId + 1);
    assert UsersValid(db'.users, db'.nextId) by {
      forall id | id in db'.users ensures id < db'.nextId && WellFormed(db'.users[id]) {
        if id != db.nextId {
          assert WellFormed(db.users[id]);
        }
      }
      assert UsersUnique(db'.users) by {
        forall a, b | a in db'.users && b in db'.users && a != b
          ensures && db'.users[a].username != db'.users[b].username
                  && db'.users[a].email != db'.users[b].email
                  && (db'.users[a].studentId.Some? ==> db'.users[a].studentId != db'.users[b].studentId)
        {
          assert UsersUnique(db.users);
        }
      }
    }
    assert ClassesValid(db'.classes, db'.nextId) by {
      assert ClassesValid(db.classes, db.nextId);
    }
  }
}

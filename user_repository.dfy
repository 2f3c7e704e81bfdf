/**
 * The `users` collection, keyed by e-mail address. A document is a map from field
 * names to values; `update` merges fields into an existing document and fails on a
 * missing one, `create` writes a whole document.
 */
module UserRepo {
  import opened Prelude

  /** A stored field value. Server and local timestamps are both the clock reading `now`. */
  datatype Value = Str(s: string) | Bool(b: bool) | Num(n: int) | Time(t: int) | Strs(items: seq<string>) | Null

  type Doc = map<string, Value>

  /** Python truthiness of a stored value. */
  predicate Truthy(v: Value) {
    match v
    case Str(s) => s != ""
    case Bool(b) => b
    case Num(n) => n != 0
    case Time(_) => true
    case Strs(items) => items != []
    case Null => false
  }

  /** `data.get(key, default)`. */
  function GetOr(d: Doc, key: string, default: Value): (v: Value)
    ensures key in d ==> v == d[key]
    ensures key !in d ==> v == default
  {
    if key in d then d[key] else default
  }

  /** The fields the existing-user branch of `create_or_update_user` writes. */
  function LoginUpdate(userData: Doc, now: int): (u: Doc)
    ensures u.Keys == {"lastLoginAt", "photoURL"} + (if "displayName" in userData && Truthy(userData["displayName"]) then {"displayName"} else {})
    ensures u["lastLoginAt"] == Time(now) && u["photoURL"] == GetOr(userData, "photoURL", Str(""))
    ensures "displayName" in u ==> u["displayName"] == userData["displayName"]
  {
    var base := map["lastLoginAt" := Time(now), "photoURL" := GetOr(userData, "photoURL", Str(""))];
    if "displayName" in userData && Truthy(userData["displayName"]) then base["displayName" := userData["displayName"]]
    else base
  }

  /** The document the new-user branch writes: the given data with the four timestamps. */
  function NewUserDoc(userData: Doc, now: int): (d: Doc)
    ensures d.Keys == userData.Keys + {"createdAt", "lastLoginAt", "created_at", "updated_at"}
    ensures forall k <- userData :: k !in {"createdAt", "lastLoginAt", "created_at", "updated_at"} ==> d[k] == userData[k]
    ensures d["createdAt"] == Time(now) && d["lastLoginAt"] == Time(now)
  {
    userData["createdAt" := Time(now)]["lastLoginAt" := Time(now)]["created_at" := Time(now)]["updated_at" := Time(now)]
  }

  /** A list with `courseId` appended when it is not already there. */
  function Enrolled(courses: seq<string>, courseId: string): (r: seq<string>)
    ensures courseId in r
    ensures courseId in courses ==> r == courses
    ensures courseId !in courses ==> r == courses + [courseId]
  {
    if courseId in courses then courses else courses + [courseId]
  }

  /** Enrolling twice is enrolling once, and every earlier course is kept in order. */
  lemma EnrolIdempotent(courses: seq<string>, courseId: string)
    ensures Enrolled(Enrolled(courses, courseId), courseId) == Enrolled(courses, courseId)
    ensures courses <= Enrolled(courses, courseId)
  {
  }

  /** `user.get('coursesEnrolled', []) if user else []`; a stored list is read as it is. */
  function CoursesOf(user: Option<Doc>): (cs: seq<string>)
    ensures user.None? || user.value == map[] || "coursesEnrolled" !in user.value ==> cs == []
  {
    if user.Some? && user.value != map[] && "coursesEnrolled" in user.value && user.value["coursesEnrolled"].Strs? then
      user.value["coursesEnrolled"].items
    else []
  }

  /** With no stored user the enrolment list is just the course. */
  lemma EnrolMissingUser(courseId: string)
    ensures Enrolled(CoursesOf(None), courseId) == [courseId]
  {
  }

  class UserRepository {
    var users: map<string, Doc>

    constructor()
      ensures users == map[]
    {
      users := map[];
    }

    /** `get` / `get_by_email`: the document stored under the e-mail address. */
    function Get(email: string): (d: Option<Doc>)
      reads this
      ensures d.Some? <==> email in users
      ensures d.Some? ==> d.value == users[email]
    {
      if email in users then Some(users[email]) else None
    }

    /** `create`: write the whole document with both local timestamps. */
    method Create(id: string, data: Doc, now: int) returns (written: Doc)
      modifies this
      ensures written == data["created_at" := Time(now)]["updated_at" := Time(now)]
      ensures users == old(users)[id := written]
    {
      written := data["created_at" := Time(now)]["updated_at" := Time(now)];
      users := users[id := written];
    }

    /**
     * `update`: merge `data` and the local update time into an existing document; a
     * missing document is an error and nothing changes.
     */
    method Update(id: string, data: Doc, now: int) returns (r: Result<Doc>)
      modifies this
      ensures r.Err? <==> id !in old(users)
      ensures r.Err? ==> users == old(users)
      ensures r.Ok? ==> r.value == data["updated_at" := Time(now)]
      ensures r.Ok? ==> users == old(users)[id := old(users)[id] + r.value]
    {
      if id !in users {
        return Err("No document to update: " + id);
      }
      var written := data["updated_at" := Time(now)];
      users := users[id := users[id] + written];
      return Ok(written);
    }

    /**
     * `create_or_update_user`: a stored, non-empty user gets only the login fields
     * updated; otherwise the given data is written as a new user.
     */
    method CreateOrUpdateUser(email: string, userData: Doc, now: int) returns (r: Result<Doc>)
      modifies this
      ensures var existing := old(Get(email));
        existing.Some? && existing.value != map[] ==>
          r == Ok(LoginUpdate(userData, now)["updated_at" := Time(now)])
          && users == old(users)[email := old(users)[email] + LoginUpdate(userData, now)["updated_at" := Time(now)]]
      ensures var existing := old(Get(email));
        existing.None? || existing.value == map[] ==>
          r == Ok(NewUserDoc(userData, now)) && users == old(users)[email := NewUserDoc(userData, now)]
    {
      var existing := Get(email);
      if existing.Some? && existing.value != map[] {
        r := Update(email, LoginUpdate(userData, now), now);
      } else {
        var data := userData["createdAt" := Time(now)]["lastLoginAt" := Time(now)];
        var written := Create(email, data, now);
        r := Ok(written);
      }
    }

    /** `update_profile`. */
    method UpdateProfile(email: string, profile: Doc, now: int) returns (r: Result<Doc>)
      modifies this
      ensures r.Err? <==> email !in old(users)
      ensures r.Err? ==> users == old(users)
      ensures r.Ok? ==> users == old(users)[email := old(users)[email] + profile["updated_at" := Time(now)]]
    {
      r := Update(email, profile, now);
    }

    /** `update_wallet`: only the wallet address (and the update time) changes. */
    method UpdateWallet(email: string, walletAddress: string, now: int) returns (r: Result<Doc>)
      modifies this
      ensures r.Err? <==> email !in old(users)
      ensures r.Err? ==> users == old(users)
      ensures r.Ok? ==> users == old(users)[email := old(users)[email]
        + map["phantomWalletAddress" := Str(walletAddress), "updated_at" := Time(now)]]
    {
      r := Update(email, map["phantomWalletAddress" := Str(walletAddress)], now);
    }

    /** `enroll_course`: the stored list with the course appended once. */
    method EnrollCourse(email: string, courseId: string, now: int) returns (r: Result<Doc>)
      modifies this
      ensures r.Err? <==> email !in old(users)
      ensures r.Err? ==> users == old(users)
      ensures r.Ok? ==> users == old(users)[email := old(users)[email]
        + map["coursesEnrolled" := Strs(Enrolled(old(CoursesOf(Get(email))), courseId)), "updated_at" := Time(now)]]
    {
      var user := Get(email);
      var courses := CoursesOf(user);
      if courseId !in courses {
        courses := courses + [courseId];
      }
      r := Update(email, map["coursesEnrolled" := Strs(courses)], now);
    }

    /** `soft_delete`: the document is kept and marked deleted. */
    method SoftDelete(email: string, now: int) returns (r: Result<Doc>)
      modifies this
      ensures r.Err? <==> email !in old(users)
      ensures r.Err? ==> users == old(users)
      ensures r.Ok? ==> users == old(users)[email := SoftDeleted(old(users)[email], now)]
    {
      r := Update(email, map["isDeleted" := Bool(true), "deletedAt" := Time(now)], now);
    }
  }

  /** A user document after `soft_delete`. */
  function SoftDeleted(stored: Doc, now: int): (d: Doc)
    ensures d.Keys == stored.Keys + {"isDeleted", "deletedAt", "updated_at"}
    ensures d["isDeleted"] == Bool(true) && d["deletedAt"] == Time(now) && d["updated_at"] == Time(now)
    ensures forall k <- stored :: k !in {"isDeleted", "deletedAt", "updated_at"} ==> d[k] == stored[k]
  {
    stored + map["isDeleted" := Bool(true), "deletedAt" := Time(now), "updated_at" := Time(now)]
  }

  /**
   * Logging in again changes nothing but the login time, the photo, the display name
   * (only when a non-empty one is given) and the update time.
   */
  lemma LoginKeepsOtherFields(stored: Doc, userData: Doc, now: int)
    ensures var after := stored + LoginUpdate(userData, now)["updated_at" := Time(now)];
      after.Keys >= stored.Keys
      && forall k <- stored :: k !in {"lastLoginAt", "photoURL", "displayName", "updated_at"} ==> after[k] == stored[k]
  {
  }

  /** A blank display name never overwrites the stored one. */
  lemma BlankDisplayNameKept(stored: Doc, userData: Doc, now: int)
    requires "displayName" in stored
    requires "displayName" !in userData || !Truthy(userData["displayName"])
    ensures (stored + LoginUpdate(userData, now)["updated_at" := Time(now)])["displayName"] == stored["displayName"]
  {
  }
}

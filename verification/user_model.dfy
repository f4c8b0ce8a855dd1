/** The `users` table and its queries: sign-up with a one-time password,
    look-ups that hide the password hash, and the guarded OTP updates.
    Time is an integer count of milliseconds. */
module UserModel {
  import opened Wrappers
  import opened Numerals

  /** An OTP stays valid for ten minutes. */
  const OtpLifetimeMs := 10 * 60 * 1000

  /** `Math.floor(Math.random() * 900000)`: the random part of an OTP. */
  type OtpDraw = d: int | 0 <= d < 900000

  datatype User = User(
    id: int,
    name: string,
    email: string,
    passwordHash: string,
    isVerified: bool,
    otp: Option<string>,
    otpExpiresAt: Option<int>,
    createdAt: int)

  datatype UserTable = UserTable(users: seq<User>, nextId: int)

  predicate DistinctIds(s: seq<User>) {
    forall i, j :: 0 <= i < j < |s| ==> s[i].id != s[j].id
  }

  /** The `email` column is unique. */
  predicate DistinctEmails(s: seq<User>) {
    forall i, j :: 0 <= i < j < |s| ==> s[i].email != s[j].email
  }

  /** The serial `id` has only handed out ids below `nextId`; ids and
      emails are unique. */
  predicate Valid(t: UserTable) {
    && t.nextId >= 1
    && (forall k :: 0 <= k < |t.users| ==> 1 <= t.users[k].id < t.nextId)
    && DistinctIds(t.users)
    && DistinctEmails(t.users)
  }

  /** What `create` returns: the inserted row's id, name, email and
      creation time, plus the OTP. */
  datatype NewUser = NewUser(id: int, name: string, email: string, createdAt: int, otp: string)

  /** The columns `findById` and `getAll` select. */
  datatype PublicUser = PublicUser(id: int, name: string, email: string, isVerified: bool)

  function Public(u: User): PublicUser {
    PublicUser(u.id, u.name, u.email, u.isVerified)
  }

  datatype UserError =
    | EmptyPassword      // thrown by the password hasher
    | UniqueViolation    // SQLSTATE 23505 on the email column
    | NoSuchUser         // reading `otp` from a missing row

  /** The `code` property of the error, when it has one. */
  function ErrorCode(e: UserError): Option<string> {
    if e.UniqueViolation? then Some("23505") else None
  }

  /** The OTP text: `Math.floor(100000 + draw).toString()`, six decimal
      digits with a value in [100000, 999999]. */
  function OtpText(d: OtpDraw): (r: string)
    ensures |r| == 6 && AllDigits(r, 10)
    ensures 100000 <= Value(r, 10) <= 999999 && Value(r, 10) == 100000 + d
  {
    var n := 100000 + d;
    assert Pow10(5) == 100000 && Pow10(6) == 1000000;
    NatToStringLength(n, 6);
    NatToStringValue(n);
    NatToString(n)
  }

  /** Different draws give different codes. */
  lemma OtpTextInjective(a: OtpDraw, b: OtpDraw)
    requires OtpText(a) == OtpText(b)
    ensures a == b
  {
  }

  /** The column a lookup matches: `WHERE email = $1` or `WHERE id = $1`. */
  datatype UserKey = EmailKey(email: string) | IdKey(id: int)

  predicate HasKey(u: User, key: UserKey) {
    match key
    case EmailKey(email) => u.email == email
    case IdKey(id) => u.id == id
  }

  /** The first user row with the key (`rows[0]`), if any. */
  function FindUser(s: seq<User>, key: UserKey): (r: Option<User>)
    ensures r.Some? ==> r.value in s && HasKey(r.value, key)
    ensures r.None? <==> forall k :: 0 <= k < |s| ==> !HasKey(s[k], key)
  {
    if |s| == 0 then None
    else if HasKey(s[0], key) then Some(s[0])
    else
      var r := FindUser(s[1..], key);
      assert forall k :: 1 <= k < |s| ==> s[k] == s[1..][k - 1];
      r
  }

  /** `create`: hashes the password, draws an OTP valid for ten minutes and
      inserts an unverified user; a taken email violates the unique key.
      The insert draws its id from the sequence before the key is checked,
      and a failed insert does not give the value back. */
  function Create(t: UserTable, name: string, email: string, password: string,
                  hash: string -> string, draw: OtpDraw, now: int)
    : (r: (UserTable, Result<NewUser, UserError>))
    ensures password == "" ==> r == (t, Err(EmptyPassword))
    ensures password != "" ==>
      (r.1 == Err(UniqueViolation) <==> exists k :: 0 <= k < |t.users| && t.users[k].email == email)
    ensures password != "" ==> r.0.nextId == t.nextId + 1
    ensures r.1.Err? ==> r.0.users == t.users
    ensures r.1.Err? ==> r.1.error == EmptyPassword || r.1.error == UniqueViolation
    ensures r.1.Ok? ==>
      var u := User(t.nextId, name, email, hash(password), false, Some(OtpText(draw)), Some(now + OtpLifetimeMs), now);
      && r.0 == UserTable(t.users + [u], t.nextId + 1)
      && r.1.value == NewUser(t.nextId, name, email, now, OtpText(draw))
  {
    if password == "" then (t, Err(EmptyPassword))
    else if FindUser(t.users, EmailKey(email)).Some? then (t.(nextId := t.nextId + 1), Err(UniqueViolation))
    else
      var otp := OtpText(draw);
      var u := User(t.nextId, name, email, hash(password), false, Some(otp), Some(now + OtpLifetimeMs), now);
      (UserTable(t.users + [u], t.nextId + 1), Ok(NewUser(t.nextId, name, email, now, otp)))
  }

  /** Sign-up keeps the table's keys unique, whether or not the insert
      succeeds. */
  lemma CreatePreservesValid(t: UserTable, name: string, email: string, password: string,
                             hash: string -> string, draw: OtpDraw, now: int)
    requires Valid(t)
    ensures Valid(Create(t, name, email, password, hash, draw, now).0)
  {
  }

  /** `findByEmail`: the whole row, hash and OTP included, or nothing. */
  function FindByEmail(t: UserTable, email: string): (r: Option<User>)
    ensures r.Some? ==> r.value in t.users && r.value.email == email
    ensures r.None? <==> forall k :: 0 <= k < |t.users| ==> t.users[k].email != email
  {
    FindUser(t.users, EmailKey(email))
  }

  /** `findById`: the public columns of the user with that id. */
  function FindById(t: UserTable, id: int): (r: Option<PublicUser>)
    ensures r.Some? <==> exists k :: 0 <= k < |t.users| && t.users[k].id == id
    ensures r.Some? ==> exists u :: u in t.users && u.id == id && r.value == Public(u)
  {
    var u := FindUser(t.users, IdKey(id));
    if u.Some? then Some(Public(u.value)) else None
  }

  /** `getAll`: the public columns of every user, in table order. */
  function GetAll(t: UserTable): (r: seq<PublicUser>)
    ensures |r| == |t.users|
    ensures forall k :: 0 <= k < |r| ==> r[k] == Public(t.users[k])
  {
    seq(|t.users|, k requires 0 <= k < |t.users| => Public(t.users[k]))
  }

  /** The user list and the lookup by id agree: a user found by id is
      listed, and a listed user is found by its id when ids are unique. */
  lemma GetAllListsFound(t: UserTable, id: int)
    requires Valid(t)
    ensures FindById(t, id).Some? ==> FindById(t, id).value in GetAll(t)
    ensures forall k :: 0 <= k < |t.users| && t.users[k].id == id ==> FindById(t, id) == Some(GetAll(t)[k])
  {
    var found := FindUser(t.users, IdKey(id));
    if found.Some? {
      var j :| 0 <= j < |t.users| && t.users[j] == found.value;
      assert FindById(t, id).value == GetAll(t)[j];
      forall k | 0 <= k < |t.users| && t.users[k].id == id
        ensures FindById(t, id) == Some(GetAll(t)[k])
      {
        assert k == j;
      }
    }
  }

  /** A user found through the public projection shows exactly its
      record's id, name, email and verification flag, and two records that
      differ only in hash or OTP look the same. */
  lemma PublicHidesSecrets(u: User, hash: string, otp: Option<string>, expiry: Option<int>)
    ensures Public(u.(passwordHash := hash, otp := otp, otpExpiresAt := expiry)) == Public(u)
    ensures Public(u).id == u.id && Public(u).email == u.email && Public(u).isVerified == u.isVerified
  {
  }

  // ---------------------------------------------------------------------
  // One-time passwords

  /** The `WHERE` clause of `verifyOtp`: the id matches, the stored code
      equals the given one (a NULL on either side never does) and the code
      has not expired yet. */
  predicate OtpAccepts(u: User, userId: int, otp: Option<string>, now: int) {
    && u.id == userId
    && otp.Some? && u.otp == otp
    && u.otpExpiresAt.Some? && u.otpExpiresAt.value > now
  }

  /** The row after a successful verification. */
  function Verified(u: User): User {
    u.(isVerified := true, otp := None, otpExpiresAt := None)
  }

  function VerifyRows(s: seq<User>, userId: int, otp: Option<string>, now: int): (r: seq<User>)
    ensures |r| == |s|
    ensures forall k :: 0 <= k < |s| ==>
      r[k] == if OtpAccepts(s[k], userId, otp, now) then Verified(s[k]) else s[k]
  {
    if |s| == 0 then []
    else
      var head := if OtpAccepts(s[0], userId, otp, now) then Verified(s[0]) else s[0];
      [head] + VerifyRows(s[1..], userId, otp, now)
  }

  function FirstAccepted(s: seq<User>, userId: int, otp: Option<string>, now: int): (r: Option<User>)
    ensures r.Some? ==> r.value in s && OtpAccepts(r.value, userId, otp, now)
    ensures r.None? <==> forall k :: 0 <= k < |s| ==> !OtpAccepts(s[k], userId, otp, now)
  {
    if |s| == 0 then None
    else if OtpAccepts(s[0], userId, otp, now) then Some(s[0])
    else
      var r := FirstAccepted(s[1..], userId, otp, now);
      assert forall k :: 1 <= k < |s| ==> s[k] == s[1..][k - 1];
      r
  }

  /** `verifyOtp`: marks the user verified and clears the code when the code
      is accepted; otherwise changes nothing and returns nothing. */
  function VerifyOtp(t: UserTable, userId: int, otp: Option<string>, now: int): (r: (UserTable, Option<PublicUser>))
    ensures r.1.Some? <==> exists k :: 0 <= k < |t.users| && OtpAccepts(t.users[k], userId, otp, now)
    ensures r.1.None? ==> r.0 == t
    ensures r.1.Some? ==> r.1.value.id == userId && r.1.value.isVerified
    ensures r.0.nextId == t.nextId && |r.0.users| == |t.users|
    ensures forall k :: 0 <= k < |t.users| ==>
      r.0.users[k] == if OtpAccepts(t.users[k], userId, otp, now) then Verified(t.users[k]) else t.users[k]
  {
    var first := FirstAccepted(t.users, userId, otp, now);
    if first.None? then
      assert VerifyRows(t.users, userId, otp, now) == t.users;
      (t, None)
    else
      (t.(users := VerifyRows(t.users, userId, otp, now)), Some(Public(Verified(first.value))))
  }

  /** Verification keeps the table valid. */
  lemma VerifyOtpPreservesValid(t: UserTable, userId: int, otp: Option<string>, now: int)
    requires Valid(t)
    ensures Valid(VerifyOtp(t, userId, otp, now).0)
  {
    var t' := VerifyOtp(t, userId, otp, now).0;
    assert forall k :: 0 <= k < |t.users| ==> t'.users[k].id == t.users[k].id && t'.users[k].email == t.users[k].email;
  }

  /** A code works once: after it has been accepted, presenting it again
      (at the same time or later) is refused, because the stored code is
      now NULL. */
  lemma {:induction false} VerifyOtpOnce(t: UserTable, userId: int, otp: Option<string>, now: int, later: int)
    requires now <= later
    requires VerifyOtp(t, userId, otp, now).1.Some?
    ensures VerifyOtp(VerifyOtp(t, userId, otp, now).0, userId, otp, later).1.None?
  {
    var t' := VerifyOtp(t, userId, otp, now).0;
    forall k | 0 <= k < |t'.users| ensures !OtpAccepts(t'.users[k], userId, otp, later) {
      if OtpAccepts(t.users[k], userId, otp, now) {
        assert t'.users[k].otp.None?;
      } else {
        assert t'.users[k] == t.users[k];
      }
    }
  }

  function ReplaceOtp(s: seq<User>, userId: int, otp: string, expiry: int): (r: seq<User>)
    ensures |r| == |s|
    ensures forall k :: 0 <= k < |s| ==>
      r[k] == if s[k].id == userId then s[k].(otp := Some(otp), otpExpiresAt := Some(expiry)) else s[k]
  {
    if |s| == 0 then []
    else
      var head := if s[0].id == userId then s[0].(otp := Some(otp), otpExpiresAt := Some(expiry)) else s[0];
      [head] + ReplaceOtp(s[1..], userId, otp, expiry)
  }

  /** `updateOtp`: a fresh code valid for ten minutes replaces the user's
      code; the verification flag is untouched. With no such user there is
      no returned row to read the code from. */
  function UpdateOtp(t: UserTable, userId: int, draw: OtpDraw, now: int): (r: Result<(UserTable, string), UserError>)
    ensures r.Err? <==> forall k :: 0 <= k < |t.users| ==> t.users[k].id != userId
    ensures r.Err? ==> r.error == NoSuchUser
    ensures r.Ok? ==> r.value.1 == OtpText(draw) && r.value.0.nextId == t.nextId
    ensures r.Ok? ==> |r.value.0.users| == |t.users| && forall k :: 0 <= k < |t.users| ==>
      r.value.0.users[k] == if t.users[k].id == userId
        then t.users[k].(otp := Some(OtpText(draw)), otpExpiresAt := Some(now + OtpLifetimeMs))
        else t.users[k]
  {
    if FindUser(t.users, IdKey(userId)).None? then Err(NoSuchUser)
    else
      var otp := OtpText(draw);
      Ok((t.(users := ReplaceOtp(t.users, userId, otp, now + OtpLifetimeMs)), otp))
  }

  /** A freshly sent code is accepted until it expires and refused from
      then on. */
  lemma UpdatedOtpAccepted(t: UserTable, userId: int, draw: OtpDraw, now: int, at: int)
    requires UpdateOtp(t, userId, draw, now).Ok?
    ensures var t' := UpdateOtp(t, userId, draw, now).value.0;
      VerifyOtp(t', userId, Some(OtpText(draw)), at).1.Some? <==> at < now + OtpLifetimeMs
  {
    var t' := UpdateOtp(t, userId, draw, now).value.0;
    var k :| 0 <= k < |t.users| && t.users[k].id == userId;
    assert t'.users[k].id == userId;
    if at < now + OtpLifetimeMs {
      assert OtpAccepts(t'.users[k], userId, Some(OtpText(draw)), at);
    } else {
      forall j | 0 <= j < |t'.users| ensures !OtpAccepts(t'.users[j], userId, Some(OtpText(draw)), at) {
        if t.users[j].id == userId {
          assert t'.users[j].otpExpiresAt == Some(now + OtpLifetimeMs);
        }
      }
    }
  }

  /** A user fresh from sign-up verifies with the emailed code before it
      expires, and not after. */
  lemma CreatedOtpAccepted(t: UserTable, name: string, email: string, password: string,
                           hash: string -> string, draw: OtpDraw, now: int, at: int)
    requires Valid(t)
    requires Create(t, name, email, password, hash, draw, now).1.Ok?
    ensures var (t', created) := Create(t, name, email, password, hash, draw, now);
      VerifyOtp(t', created.value.id, Some(created.value.otp), at).1.Some? <==> at < now + OtpLifetimeMs
  {
    var (t', created) := Create(t, name, email, password, hash, draw, now);
    var nu := created.value;
    var n := |t.users|;
    assert t'.users[n].id == nu.id;
    if at >= now + OtpLifetimeMs {
      forall j | 0 <= j < |t'.users| ensures !OtpAccepts(t'.users[j], nu.id, Some(nu.otp), at) {
        if j < n { assert t'.users[j] == t.users[j]; }
      }
    }
  }

  /** `verifyPassword`: the password hasher's comparison. */
  function VerifyPassword(compare: (string, string) -> bool, plain: string, hash: string): (r: bool)
    ensures r == compare(plain, hash)
  {
    compare(plain, hash)
  }
}

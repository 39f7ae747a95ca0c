/** utils/sendOtp.js: drawing a six-digit code, and checking a submitted
    code against a record, which makes the record verified and spends the
    code. */
module SendOtp {
  import opened Js
  import opened UserModel
  import opened Http

  /** `generateOtp()`, where `k` stands for `Math.floor(Math.random() * 900000)`:
      the decimal form of a number in [100000, 999999], so six digits with
      no leading zero. */
  function GenerateOtp(k: nat): (otp: string)
    requires k < 900000
    ensures |otp| == 6 && otp[0] != '0' && IsDigits(otp)
    ensures DecimalValue(otp) == 100000 + k
  {
    var n := k + 100000;
    assert Pow10(5) == 100000 && Pow10(6) == 1000000 by {
      assert Pow10(1) == 10 && Pow10(2) == 100 && Pow10(3) == 1000 && Pow10(4) == 10000;
    }
    DecimalLength(n, 6);
    NoLeadingZero(n);
    DecimalRoundTrip(n);
    NatToDecimal(n)
  }

  /** The code as the Number-typed `otp` field stores it. */
  function StoredOtp(k: nat): (n: int)
    requires k < 900000
    ensures 100000 <= n <= 999999
    ensures NatToDecimal(n) == GenerateOtp(k)
  {
    DecimalValue(GenerateOtp(k))
  }

  /** verifyUser's result `{ success, message, user }`. */
  datatype Verification = Verification(success: bool, message: Message, user: Option<User>)

  /** A verifyUser call: its result and the collection afterwards. */
  datatype VerifyStep = VerifyStep(result: Verification, users: map<Id, User>)

  /** The record verifyUser saves on a match: verified, with the code and
      its expiry cleared. */
  function Consumed(u: User): User {
    u.(verified := true, otp := None, otpExpiry := None)
  }

  /** `verifyUser(userId, otp)`: look the record up, compare the code with
      `!==`, and on a match mark the record verified and clear the code; a
      failed save is caught and reported as a failure. */
  function VerifyUserSpec(users: map<Id, User>, userId: Id, otp: Json): (s: VerifyStep)
    ensures !s.result.success ==> s.users == users && s.result.user.None?
    ensures s.result.success ==> userId in users && StrictEqualsNumber(users[userId].otp, otp)
    ensures s.result.success ==> s.result.user == Some(Consumed(users[userId]))
    ensures s.result.success ==> s.users == users[userId := Consumed(users[userId])]
  {
    if userId !in users then
      VerifyStep(Verification(false, Text("User not found"), None), users)
    else if !StrictEqualsNumber(users[userId].otp, otp) then
      VerifyStep(Verification(false, Text("Invalid OTP"), None), users)
    else
      var w := Consumed(users[userId]);
      match SaveCheck(users, w)
      case Threw(f) => VerifyStep(Verification(false, Thrown(f), None), users)
      case Done => VerifyStep(Verification(true, Text("Account Verified"), Some(w)), users[userId := w])
  }

  /** Saving a record whose email and sub-users did not change always
      succeeds in a valid collection. */
  lemma ResaveSucceeds(users: map<Id, User>, u: User)
    requires StoreValid(users) && u.id in users
    requires u.email == users[u.id].email && u.subUsers == users[u.id].subUsers
    ensures SaveCheck(users, u).Done?
  {
    assert RecordValid(users[u.id]);
  }

  /** The three outcomes of verifyUser on a valid collection. */
  lemma VerifyUserOutcomes(users: map<Id, User>, userId: Id, otp: Json)
    requires StoreValid(users)
    ensures var s := VerifyUserSpec(users, userId, otp);
      && (userId !in users ==> s == VerifyStep(Verification(false, Text("User not found"), None), users))
      && (userId in users && !StrictEqualsNumber(users[userId].otp, otp) ==>
            s == VerifyStep(Verification(false, Text("Invalid OTP"), None), users))
      && (userId in users && StrictEqualsNumber(users[userId].otp, otp) ==>
            s.result == Verification(true, Text("Account Verified"), Some(Consumed(users[userId]))))
      && StoreValid(s.users)
  {
    if userId in users && StrictEqualsNumber(users[userId].otp, otp) {
      var w := Consumed(users[userId]);
      ResaveSucceeds(users, w);
      SavePreservesValid(users, w);
    }
  }

  /** A code verifies once: the same (non-null) code fails the second time
      with "Invalid OTP", because the first success cleared it. */
  lemma CodeIsSingleUse(users: map<Id, User>, userId: Id, otp: Json)
    requires otp != Null
    requires VerifyUserSpec(users, userId, otp).result.success
    ensures var after := VerifyUserSpec(users, userId, otp).users;
      VerifyUserSpec(after, userId, otp) == VerifyStep(Verification(false, Text("Invalid OTP"), None), after)
  {
  }

  /** The comparison is strict: the code as a string never verifies, even
      though it is the very text that was mailed. */
  lemma StringCodeNeverVerifies(users: map<Id, User>, userId: Id, code: string)
    ensures !VerifyUserSpec(users, userId, Str(code)).result.success
  {
  }

  /** verifyUser itself: it loads the record, changes it in place and saves. */
  method VerifyUser(store: Store, userId: Id, otp: Json) returns (v: Verification)
    requires store.Valid()
    modifies store
    ensures store.Valid()
    ensures VerifyStep(v, store.users) == VerifyUserSpec(old(store.users), userId, otp)
  {
    var found := store.FindById(userId);
    if found.None? {
      return Verification(false, Text("User not found"), None);
    }
    var user := found.value;
    if !StrictEqualsNumber(user.otp, otp) {
      return Verification(false, Text("Invalid OTP"), None);
    }
    user := Consumed(user);
    var saved := store.Save(user);
    match saved {
      case Threw(f) => v := Verification(false, Thrown(f), None);
      case Done => v := Verification(true, Text("Account Verified"), Some(user));
    }
  }
}

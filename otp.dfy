/** Registration and one-time-password login of users/views.py. Users and OTP rows live in
    an `AuthStore`; the clock and the random draw are parameters of each request, and
    timestamps are whole seconds. */
module Otp {
  import opened Text

  /** A CustomUser row; the user's identity is its position in the table. */
  datatype User = User(email: string, firstName: string, lastName: string, phoneNumber: string, password: string)

  /** An OTP row. */
  datatype OtpRow = OtpRow(user: nat, code: string, createdAt: int, isUsed: bool)

  datatype Failure =
    | AllFieldsRequired
    | EmailExists
    | EmailRequired
    | EmailAndOtpRequired
    | UserNotFound
    | InvalidOrExpired

  function HttpStatus(f: Failure): (code: int)
    ensures code == 404 <==> f == UserNotFound
    ensures code == 400 <==> f != UserNotFound
  {
    if f == UserNotFound then 404 else 400
  }

  datatype Response = Ok | Fail(failure: Failure)

  /** How long a code stays valid after it was created: five minutes. */
  const ValiditySeconds := 300

  /** The bounds of `random.randint(100000, 999999)`. */
  const LeastCode := 100000
  const GreatestCode := 999999

  /** A request field is present when it is given and not the empty string. */
  predicate Given(field: Option<string>) {
    field.Some? && field.value != []
  }

  /** is_otp_valid: the code matches, is unused and has not expired (the bound is inclusive). */
  predicate IsOtpValid(otp: OtpRow, code: string, now: int) {
    otp.code == code && !otp.isUsed && now <= otp.createdAt + ValiditySeconds
  }

  /** The decimal text of a draw from [100000, 999999] is a six-digit code. */
  lemma OtpCodeShape(draw: int)
    requires LeastCode <= draw <= GreatestCode
    ensures |NatToString(draw)| == 6
    ensures forall i :: 0 <= i < 6 ==> IsDigit(NatToString(draw)[i])
    ensures NatToString(draw)[0] != '0'
    ensures ParseInt(NatToString(draw)) == Some(draw)
  {
    assert Pow10(5) == 100000 && Pow10(6) == 1000000;
    NatToStringLength(draw, 5);
    ParseIntOfNatToString(draw);
  }

  /** The first user whose email is `email`, as `filter(email=...).first()`. */
  function FindUser(users: seq<User>, email: string): (r: Option<nat>)
    ensures r.Some? ==> r.value < |users| && users[r.value].email == email
    ensures r.Some? ==> forall j :: 0 <= j < r.value ==> users[j].email != email
    ensures r.None? <==> forall j :: 0 <= j < |users| ==> users[j].email != email
  {
    if users == [] then None
    else if users[0].email == email then Some(0)
    else match FindUser(users[1..], email)
      case None => None
      case Some(k) => Some(k + 1)
  }

  /** `filter(user=...).order_by("-created_at").first()`: the user's OTP with the latest
      creation time; among equal times, the one created last. */
  function LatestOtp(otps: seq<OtpRow>, user: nat): (r: Option<nat>)
    ensures r.Some? ==> r.value < |otps| && otps[r.value].user == user
    ensures r.Some? ==> forall j :: 0 <= j < |otps| && otps[j].user == user ==> otps[j].createdAt <= otps[r.value].createdAt
    ensures r.Some? ==> forall j :: r.value < j < |otps| && otps[j].user == user ==> otps[j].createdAt < otps[r.value].createdAt
    ensures r.None? <==> forall j :: 0 <= j < |otps| ==> otps[j].user != user
  {
    if otps == [] then None
    else
      var last := |otps| - 1;
      var earlier := LatestOtp(otps[..last], user);
      if otps[last].user != user then earlier
      else if earlier.None? || otps[earlier.value].createdAt <= otps[last].createdAt then Some(last)
      else earlier
  }

  /** Which OTP is the latest depends only on the owners and creation times. */
  lemma {:induction false} LatestByTimes(a: seq<OtpRow>, b: seq<OtpRow>, user: nat)
    requires |a| == |b|
    requires forall j :: 0 <= j < |a| ==> a[j].user == b[j].user && a[j].createdAt == b[j].createdAt
    ensures LatestOtp(a, user) == LatestOtp(b, user)
    decreases |a|
  {
    if a != [] {
      var last := |a| - 1;
      LatestByTimes(a[..last], b[..last], user);
    }
  }

  /** Marking an OTP used does not change which OTP is the latest. */
  lemma LatestIgnoresUse(otps: seq<OtpRow>, k: nat, user: nat)
    requires k < |otps|
    ensures LatestOtp(otps[k := otps[k].(isUsed := true)], user) == LatestOtp(otps, user)
  {
    LatestByTimes(otps[k := otps[k].(isUsed := true)], otps, user);
  }

  /** A code created no earlier than every other OTP of its user is the latest one. */
  lemma NewestIsLatest(otps: seq<OtpRow>, row: OtpRow)
    requires forall j :: 0 <= j < |otps| && otps[j].user == row.user ==> otps[j].createdAt <= row.createdAt
    ensures LatestOtp(otps + [row], row.user) == Some(|otps|)
  {
    assert (otps + [row])[..|otps|] == otps;
  }

  class AuthStore {
    var users: seq<User>
    var otps: seq<OtpRow>

    /** Every OTP belongs to a registered user. */
    predicate Valid()
      reads this
    {
      forall k :: 0 <= k < |otps| ==> otps[k].user < |users|
    }

    constructor ()
      ensures users == [] && otps == [] && Valid()
    {
      users := [];
      otps := [];
    }

    /** generate_otp: a new unused OTP for `user`, coded by the random draw. */
    method GenerateOtp(user: nat, draw: int, now: int) returns (otp: OtpRow)
      requires user < |users| && Valid()
      requires LeastCode <= draw <= GreatestCode
      modifies this`otps
      ensures otp == OtpRow(user, NatToString(draw), now, false)
      ensures otps == old(otps) + [otp] && Valid()
    {
      otp := OtpRow(user, NatToString(draw), now, false);
      otps := otps + [otp];
    }

    /** register_user: every field must be present and the email unused. */
    method RegisterUser(email: Option<string>, firstName: Option<string>, lastName: Option<string>,
                        phoneNumber: Option<string>, password: Option<string>) returns (res: Response)
      requires Valid()
      modifies this`users
      ensures Valid()
      ensures !(Given(email) && Given(firstName) && Given(lastName) && Given(phoneNumber) && Given(password))
        ==> res == Fail(AllFieldsRequired) && users == old(users)
      ensures Given(email) && Given(firstName) && Given(lastName) && Given(phoneNumber) && Given(password)
        && FindUser(old(users), email.value).Some?
        ==> res == Fail(EmailExists) && users == old(users)
      ensures res.Ok? <==> (Given(email) && Given(firstName) && Given(lastName) && Given(phoneNumber) && Given(password)
        && FindUser(old(users), email.value).None?)
      ensures res.Ok? ==> users == old(users) + [User(email.value, firstName.value, lastName.value, phoneNumber.value, password.value)]
    {
      if !(Given(email) && Given(firstName) && Given(lastName) && Given(phoneNumber) && Given(password)) {
        return Fail(AllFieldsRequired);
      }
      if FindUser(users, email.value).Some? {
        return Fail(EmailExists);
      }
      users := users + [User(email.value, firstName.value, lastName.value, phoneNumber.value, password.value)];
      res := Ok;
    }

    /** request_otp: a known email gets a fresh OTP; sending the mail is not modelled. */
    method RequestOtp(email: Option<string>, draw: int, now: int) returns (res: Response)
      requires Valid()
      requires LeastCode <= draw <= GreatestCode
      modifies this`otps
      ensures Valid()
      ensures !Given(email) ==> res == Fail(EmailRequired) && otps == old(otps)
      ensures Given(email) && FindUser(users, email.value).None? ==> res == Fail(UserNotFound) && otps == old(otps)
      ensures res.Ok? <==> Given(email) && FindUser(users, email.value).Some?
      ensures res.Ok? ==> otps == old(otps) + [OtpRow(FindUser(users, email.value).value, NatToString(draw), now, false)]
    {
      if !Given(email) {
        return Fail(EmailRequired);
      }
      var user := FindUser(users, email.value);
      if user.None? {
        return Fail(UserNotFound);
      }
      var _ := GenerateOtp(user.value, draw, now);
      res := Ok;
    }

    /** verify_otp: only the user's latest OTP is checked; on success it is marked used. */
    method VerifyOtp(email: Option<string>, code: Option<string>, now: int) returns (res: Response)
      requires Valid()
      modifies this`otps
      ensures Valid() && |otps| == |old(otps)|
      ensures !(Given(email) && Given(code)) ==> res == Fail(EmailAndOtpRequired) && otps == old(otps)
      ensures Given(email) && Given(code) && FindUser(users, email.value).None?
        ==> res == Fail(UserNotFound) && otps == old(otps)
      ensures res.Ok? <==> (Given(email) && Given(code) && FindUser(users, email.value).Some?
        && var k := LatestOtp(old(otps), FindUser(users, email.value).value);
           k.Some? && IsOtpValid(old(otps)[k.value], code.value, now))
      ensures res.Fail? ==> otps == old(otps)
      ensures res.Ok? ==>
        var k := LatestOtp(old(otps), FindUser(users, email.value).value).value;
        otps == old(otps)[k := old(otps)[k].(isUsed := true)]
    {
      if !(Given(email) && Given(code)) {
        return Fail(EmailAndOtpRequired);
      }
      var user := FindUser(users, email.value);
      if user.None? {
        return Fail(UserNotFound);
      }
      var k := LatestOtp(otps, user.value);
      if k.None? || !IsOtpValid(otps[k.value], code.value, now) {
        return Fail(InvalidOrExpired);
      }
      otps := otps[k.value := otps[k.value].(isUsed := true)];
      res := Ok;
    }
  }

  // ---------------------------------------------------------------------------
  // Properties relating several requests

  /** A code is accepted up to and including five minutes after creation, and never after. */
  lemma ExpiryBoundary(otp: OtpRow, code: string)
    requires otp.code == code && !otp.isUsed
    ensures IsOtpValid(otp, code, otp.createdAt + ValiditySeconds)
    ensures !IsOtpValid(otp, code, otp.createdAt + ValiditySeconds + 1)
  {
  }

  /** Once the latest OTP has been verified, the same code (or any code) fails until a new OTP
      is requested: the latest OTP is now used. */
  lemma VerifiedCodeIsSpent(otps: seq<OtpRow>, user: nat, code: string, now: int)
    requires LatestOtp(otps, user).Some?
    ensures var k := LatestOtp(otps, user).value;
      var after := otps[k := otps[k].(isUsed := true)];
      LatestOtp(after, user) == Some(k) && !IsOtpValid(after[k], code, now)
  {
    var k := LatestOtp(otps, user).value;
    LatestIgnoresUse(otps, k, user);
  }

  /** An older OTP is never what verification looks at, even if it is itself still valid: only
      the latest OTP decides. */
  lemma OlderCodeIgnored(otps: seq<OtpRow>, row: OtpRow, code: string, now: int)
    requires forall j :: 0 <= j < |otps| && otps[j].user == row.user ==> otps[j].createdAt <= row.createdAt
    requires row.code != code
    ensures var k := LatestOtp(otps + [row], row.user);
      k == Some(|otps|) && !IsOtpValid((otps + [row])[k.value], code, now)
  {
    NewestIsLatest(otps, row);
  }

  /** A freshly requested code verifies within five minutes, provided the clock has not gone
      backwards since the user's earlier OTPs were made. */
  lemma FreshCodeVerifies(otps: seq<OtpRow>, user: nat, draw: nat, created: int, now: int)
    requires forall j :: 0 <= j < |otps| && otps[j].user == user ==> otps[j].createdAt <= created
    requires created <= now <= created + ValiditySeconds
    ensures var after := otps + [OtpRow(user, NatToString(draw), created, false)];
      LatestOtp(after, user) == Some(|otps|) && IsOtpValid(after[|otps|], NatToString(draw), now)
  {
    NewestIsLatest(otps, OtpRow(user, NatToString(draw), created, false));
  }
}

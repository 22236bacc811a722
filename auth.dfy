/** The email-code authentication router: issuing one-time codes, consuming
    them, registering and logging in users, and profile updates. */
module AuthRouter {
  import opened Common
  import opened Store
  import Decimal

  /** `10 * 60 * 1000` milliseconds: a code is live for ten minutes. */
  const CodeLifetime: int := 10 * 60 * 1000

  const DeliveryFailedWarning: string := "Email delivery failed. Please try again or contact support."
  const DeliveryThrewWarning: string := "Email delivery failed. Please try again."

  // ---------------------------------------------------------------------
  // Code generation

  /** `Math.floor(100000 + Math.random() * 900000).toString()`, where
      `offset` is `Math.floor(Math.random() * 900000)`, the random part. */
  function GenerateCode(offset: nat): (code: string)
    requires offset < 900000
    ensures |code| == 6
    ensures Decimal.AllDigits(code) && code[0] != '0'
    ensures Decimal.Value(code) == 100000 + offset
  {
    Decimal.DecimalLength(100000 + offset, 5);
    Decimal.ToDecimal(100000 + offset)
  }

  // ---------------------------------------------------------------------
  // The verification-code table

  /** A row the lookup `{ email, code, expiresAt: { gt: now } }` matches. */
  predicate Live(row: CodeRow, email: string, code: string, now: int) {
    row.email == email && row.code == code && row.expiresAt > now
  }

  /** `emailVerification.findFirst` for a live (email, code) pair: the first matching row. */
  function FindCode(codes: seq<CodeRow>, email: string, code: string, now: int): (r: Option<nat>)
    ensures r.Some? ==> r.value < |codes| && Live(codes[r.value], email, code, now)
    ensures r.Some? ==> forall j :: 0 <= j < r.value ==> !Live(codes[j], email, code, now)
    ensures r.None? <==> forall i :: 0 <= i < |codes| ==> !Live(codes[i], email, code, now)
  {
    FirstIndex(codes, (row: CodeRow) => Live(row, email, code, now))
  }

  /** The rows of one email, in table order. */
  function RowsFor(codes: seq<CodeRow>, email: string): (r: seq<CodeRow>)
    ensures forall row :: row in r <==> row in codes && row.email == email
  {
    if codes == [] then []
    else if codes[0].email == email then [codes[0]] + RowsFor(codes[1..], email)
    else RowsFor(codes[1..], email)
  }

  /** `emailVerification.deleteMany({ where: { email } })`: the table without that email's rows. */
  function WithoutEmail(codes: seq<CodeRow>, email: string): (r: seq<CodeRow>)
    ensures forall row :: row in r <==> row in codes && row.email != email
  {
    if codes == [] then []
    else if codes[0].email == email then WithoutEmail(codes[1..], email)
    else [codes[0]] + WithoutEmail(codes[1..], email)
  }

  /** The table after `sendCode`: old rows of that email deleted, the new row appended. */
  function ReplaceCode(codes: seq<CodeRow>, row: CodeRow): (r: seq<CodeRow>)
    ensures |r| > 0 && r[|r| - 1] == row
    ensures forall x :: x in r <==> (x in codes && x.email != row.email) || x == row
  {
    WithoutEmail(codes, row.email) + [row]
  }

  lemma {:induction false} RowsForAppend(a: seq<CodeRow>, b: seq<CodeRow>, email: string)
    ensures RowsFor(a + b, email) == RowsFor(a, email) + RowsFor(b, email)
  {
    if a != [] {
      assert (a + b)[1..] == a[1..] + b;
      RowsForAppend(a[1..], b, email);
    } else {
      assert a + b == b;
    }
  }

  lemma {:induction false} RowsForWithout(codes: seq<CodeRow>, email: string, other: string)
    ensures RowsFor(WithoutEmail(codes, email), other) == if other == email then [] else RowsFor(codes, other)
  {
    if codes != [] {
      RowsForWithout(codes[1..], email, other);
      if codes[0].email != email {
        assert ([codes[0]] + WithoutEmail(codes[1..], email))[1..] == WithoutEmail(codes[1..], email);
      }
    }
  }

  /** After `sendCode(email)` the email has exactly one row, the new one, and
      every other email keeps exactly the rows it had. */
  lemma ReplaceCodeRows(codes: seq<CodeRow>, row: CodeRow, other: string)
    ensures RowsFor(ReplaceCode(codes, row), row.email) == [row]
    ensures other != row.email ==> RowsFor(ReplaceCode(codes, row), other) == RowsFor(codes, other)
  {
    var without := WithoutEmail(codes, row.email);
    RowsForAppend(without, [row], row.email);
    RowsForAppend(without, [row], other);
    RowsForWithout(codes, row.email, row.email);
    RowsForWithout(codes, row.email, other);
    assert RowsFor([row], row.email) == [row];
    assert other != row.email ==> RowsFor([row], other) == [];
  }

  /** Only the newest code of an email works, and only until it expires. */
  lemma ReplaceCodeWindow(codes: seq<CodeRow>, email: string, code: string, issuedAt: int, attempt: string, t: int)
    ensures var table := ReplaceCode(codes, CodeRow(email, code, issuedAt + CodeLifetime));
      FindCode(table, email, attempt, t).Some? <==> attempt == code && t < issuedAt + CodeLifetime
  {
    var row := CodeRow(email, code, issuedAt + CodeLifetime);
    var table := ReplaceCode(codes, row);
    assert table[|table| - 1] == row;
    if FindCode(table, email, attempt, t).Some? {
      var i := FindCode(table, email, attempt, t).value;
      assert table[i] in WithoutEmail(codes, email) || table[i] == row;
    }
  }

  lemma {:induction false} WithoutEmailKeepsOne(codes: seq<CodeRow>, email: string)
    requires OneCodePerEmail(codes)
    ensures OneCodePerEmail(WithoutEmail(codes, email))
  {
    if codes != [] {
      assert OneCodePerEmail(codes[1..]);
      WithoutEmailKeepsOne(codes[1..], email);
      var rest := WithoutEmail(codes[1..], email);
      if codes[0].email != email {
        forall j | 0 <= j < |rest| ensures codes[0].email != rest[j].email {
          assert rest[j] in codes[1..];
        }
        assert WithoutEmail(codes, email) == [codes[0]] + rest;
      }
    }
  }

  /** `sendCode` keeps the one-row-per-email invariant. */
  lemma ReplaceCodeKeepsOne(codes: seq<CodeRow>, row: CodeRow)
    requires OneCodePerEmail(codes)
    ensures OneCodePerEmail(ReplaceCode(codes, row))
  {
    WithoutEmailKeepsOne(codes, row.email);
    var without := WithoutEmail(codes, row.email);
    forall i | 0 <= i < |without| ensures without[i].email != row.email {
      assert without[i] in without;
    }
  }

  /** Deleting a row keeps the one-row-per-email invariant. */
  lemma RemoveKeepsOne(codes: seq<CodeRow>, i: nat)
    requires i < |codes| && OneCodePerEmail(codes)
    ensures OneCodePerEmail(RemoveAt(codes, i))
  {
  }

  /** A consumed code cannot be used again, at any later time: the row that
      matched was the email's only row. */
  lemma ConsumedCodeIsGone(codes: seq<CodeRow>, email: string, code: string, now: int, t: int)
    requires OneCodePerEmail(codes)
    requires FindCode(codes, email, code, now).Some?
    ensures FindCode(RemoveAt(codes, FindCode(codes, email, code, now).value), email, code, t).None?
  {
  }

  // ---------------------------------------------------------------------
  // Procedures

  /** What `sendVerificationCode` did: reported success, reported failure, or threw
      (with the `message` of the thrown value, if it had one). */
  datatype MailOutcome = Delivered | NotDelivered | Threw(message: Option<string>)

  datatype SendCodeResponse = SendCodeResponse(success: bool, warning: Option<string>)

  /** The reply of `sendCode` once the code is stored: always a success, with a
      warning exactly when the mail did not go out. */
  function SendCodeReply(mail: MailOutcome): (r: SendCodeResponse)
    ensures r.success
    ensures r.warning.None? <==> mail.Delivered?
    ensures mail.NotDelivered? ==> r.warning == Some(DeliveryFailedWarning)
    ensures mail.Threw? && Truthy(mail.message) ==> r.warning == mail.message
    ensures mail.Threw? && !Truthy(mail.message) ==> r.warning == Some(DeliveryThrewWarning)
  {
    match mail
    case Delivered => SendCodeResponse(true, None)
    case NotDelivered => SendCodeResponse(true, Some(DeliveryFailedWarning))
    case Threw(message) =>
      SendCodeResponse(true, Some(if Truthy(message) then message.value else DeliveryThrewWarning))
  }

  /** `auth.sendCode`: replace the email's codes with one fresh code, then report. */
  method SendCode(db: Db, email: string, offset: nat, mail: MailOutcome) returns (r: SendCodeResponse)
    requires db.Valid()
    requires offset < 900000
    modifies db`codes
    ensures db.Valid()
    ensures db.codes == ReplaceCode(old(db.codes), CodeRow(email, GenerateCode(offset), db.now + CodeLifetime))
    ensures r == SendCodeReply(mail)
  {
    var code := GenerateCode(offset);
    var expiresAt := db.now + CodeLifetime;
    ReplaceCodeKeepsOne(db.codes, CodeRow(email, code, expiresAt));
    db.codes := WithoutEmail(db.codes, email);
    db.codes := db.codes + [CodeRow(email, code, expiresAt)];
    r := SendCodeReply(mail);
  }

  /** `auth.verifyCode`: consume a live (email, code) pair. */
  method VerifyCode(db: Db, email: string, code: string) returns (r: Result<bool, Error>)
    requires db.Valid()
    modifies db`codes
    ensures db.Valid()
    ensures r.Success? <==> FindCode(old(db.codes), email, code, db.now).Some?
    ensures r.Success? ==> r.value && db.codes == RemoveAt(old(db.codes), FindCode(old(db.codes), email, code, db.now).value)
    ensures r.Failure? ==> r.error == InvalidCode && db.codes == old(db.codes)
    ensures r.Success? ==> forall t :: FindCode(db.codes, email, code, t).None?
  {
    var found := FindCode(db.codes, email, code, db.now);
    if found.None? {
      return Failure(InvalidCode);
    }
    RemoveKeepsOne(db.codes, found.value);
    forall t ensures FindCode(RemoveAt(db.codes, found.value), email, code, t).None? {
      ConsumedCodeIsGone(db.codes, email, code, db.now, t);
    }
    db.codes := RemoveAt(db.codes, found.value);
    r := Success(true);
  }

  /** The session payload a token is minted for; the token itself is opaque. */
  datatype Session = Session(userId: Id, email: string)

  /** The result of a successful login or registration: the user returned to the
      client and the session issued for it. */
  datatype Authenticated = Authenticated(user: User, session: Session)

  /** `auth.register`: code, then country, then uniqueness of the email. */
  method Register(db: Db, email: string, code: string, fullName: string, countryName: string,
                  isValidCountry: string -> bool, newId: Id) returns (r: Result<Authenticated, Error>)
    requires db.Valid()
    requires !UserIdInUse(db.users, newId)
    modifies db`codes, db`users
    ensures db.Valid()
    ensures r == Failure(InvalidCode) <==> FindCode(old(db.codes), email, code, db.now).None?
    ensures r == Failure(InvalidCountry) <==>
      FindCode(old(db.codes), email, code, db.now).Some? && !isValidCountry(countryName)
    ensures r == Failure(UserExists) <==>
      FindCode(old(db.codes), email, code, db.now).Some? && isValidCountry(countryName)
      && FindUserByEmail(old(db.users), email).Some?
    ensures r.Success? <==>
      FindCode(old(db.codes), email, code, db.now).Some? && isValidCountry(countryName)
      && FindUserByEmail(old(db.users), email).None?
    ensures r.Failure? ==> db.codes == old(db.codes) && db.users == old(db.users)
    ensures r.Success? ==>
      var user := User(newId, email, fullName, countryName);
      && r.value == Authenticated(user, Session(newId, email))
      && db.users == old(db.users) + [user]
      && db.codes == RemoveAt(old(db.codes), FindCode(old(db.codes), email, code, db.now).value)
  {
    var found := FindCode(db.codes, email, code, db.now);
    if found.None? {
      return Failure(InvalidCode);
    }
    if !isValidCountry(countryName) {
      return Failure(InvalidCountry);
    }
    if FindUserByEmail(db.users, email).Some? {
      return Failure(UserExists);
    }
    var user := User(newId, email, fullName, countryName);
    db.users := db.users + [user];
    RemoveKeepsOne(db.codes, found.value);
    db.codes := RemoveAt(db.codes, found.value);
    r := Success(Authenticated(user, Session(user.id, user.email)));
  }

  /** `auth.login`: code, then existence of the user; the code is consumed only on success. */
  method Login(db: Db, email: string, code: string) returns (r: Result<Authenticated, Error>)
    requires db.Valid()
    modifies db`codes
    ensures db.Valid()
    ensures r == Failure(InvalidCode) <==> FindCode(old(db.codes), email, code, db.now).None?
    ensures r == Failure(UserNotFound) <==>
      FindCode(old(db.codes), email, code, db.now).Some? && FindUserByEmail(db.users, email).None?
    ensures r.Success? <==>
      FindCode(old(db.codes), email, code, db.now).Some? && FindUserByEmail(db.users, email).Some?
    ensures r.Failure? ==> db.codes == old(db.codes)
    ensures r.Success? ==>
      var user := db.users[FindUserByEmail(db.users, email).value];
      && r.value == Authenticated(user, Session(user.id, user.email))
      && db.codes == RemoveAt(old(db.codes), FindCode(old(db.codes), email, code, db.now).value)
  {
    var found := FindCode(db.codes, email, code, db.now);
    if found.None? {
      return Failure(InvalidCode);
    }
    var u := FindUserByEmail(db.users, email);
    if u.None? {
      return Failure(UserNotFound);
    }
    RemoveKeepsOne(db.codes, found.value);
    db.codes := RemoveAt(db.codes, found.value);
    var user := db.users[u.value];
    r := Success(Authenticated(user, Session(user.id, user.email)));
  }

  /** `auth.me`: the caller's public profile, or null for an anonymous caller. */
  function Me(contextUser: Option<User>): (r: Option<User>)
    ensures r.None? <==> contextUser.None?
    ensures r.Some? ==> r.value.id == contextUser.value.id && r.value.email == contextUser.value.email
    ensures r.Some? ==> r.value.fullName == contextUser.value.fullName
    ensures r.Some? ==> r.value.countryName == contextUser.value.countryName
  {
    match contextUser
    case None => None
    case Some(u) => Some(User(u.id, u.email, u.fullName, u.countryName))
  }

  /** `getUserFromSession` once the token has been checked: no valid session
      (absent, tampered or expired token) gives no user; otherwise the user with
      the session's id, if that user still exists. */
  function ResolveSession(users: seq<User>, session: Option<Session>): (r: Option<User>)
    ensures r.Some? ==> session.Some? && r.value in users && r.value.id == session.value.userId
    ensures r.None? <==> session.None? || !UserIdInUse(users, session.value.userId)
  {
    if session.None? then None
    else
      var i := FindUserById(users, session.value.userId);
      if i.None? then None else Some(users[i.value])
  }

  /** The session issued for a user resolves back to that user. */
  lemma SessionRoundTrip(users: seq<User>, user: User)
    requires UniqueUsers(users)
    requires user in users
    ensures ResolveSession(users, Some(Session(user.id, user.email))) == Some(user)
  {
  }

  /** The profile after `updateProfile`: each non-empty given field replaces the old value. */
  function ApplyProfile(user: User, fullName: Option<string>, countryName: Option<string>): (r: User)
    ensures r.id == user.id && r.email == user.email
    ensures r.fullName == if Truthy(fullName) then fullName.value else user.fullName
    ensures r.countryName == if Truthy(countryName) then countryName.value else user.countryName
  {
    user.(fullName := if Truthy(fullName) then fullName.value else user.fullName,
          countryName := if Truthy(countryName) then countryName.value else user.countryName)
  }

  /** `auth.updateProfile` for the authenticated caller. */
  method UpdateProfile(db: Db, caller: Id, fullName: Option<string>, countryName: Option<string>,
                       isValidCountry: string -> bool) returns (r: Result<User, Error>)
    requires db.Valid()
    requires UserIdInUse(db.users, caller)
    modifies db`users
    ensures db.Valid()
    ensures r.Failure? <==> Truthy(countryName) && !isValidCountry(countryName.value)
    ensures r.Failure? ==> r.error == InvalidCountry && db.users == old(db.users)
    ensures r.Success? ==>
      var i := FindUserById(old(db.users), caller).value;
      && r.value == ApplyProfile(old(db.users)[i], fullName, countryName)
      && db.users == old(db.users)[i := r.value]
  {
    if Truthy(countryName) && !isValidCountry(countryName.value) {
      return Failure(InvalidCountry);
    }
    var i := FindUserById(db.users, caller).value;
    var updated := ApplyProfile(db.users[i], fullName, countryName);
    db.users := db.users[i := updated];
    r := Success(updated);
  }
}

/** The local record store: users, feedback entries and the session, with the form handlers
    of the feedback and auth views as transitions on an in-memory snapshot of the storage. */
module Records {
  import opened Wrappers
  import opened Escape
  import opened Validate

  /** A registered user, stored with escaped fields. */
  datatype User = User(name: string, email: string, mobile: string)

  /** A feedback entry, stored with escaped fields and a display-formatted date. */
  datatype Feedback = Feedback(name: string, email: string, message: string, date: string)

  /** The session key: missing, holding a readable user record, or holding text that does
      not parse. */
  datatype SessionSlot = Absent | Present(user: User) | Unreadable

  /** Everything the handlers read and write in local storage. */
  datatype State = State(users: seq<User>, feedbacks: seq<Feedback>, session: SessionSlot)

  /** The inline message a form shows: with the error style or without it. */
  datatype Reply = Error(text: string) | Success(text: string)

  /** What a submit handler shows, and the storage it leaves behind. */
  datatype Step = Step(reply: Reply, next: State)

  const AllFieldsRequired := "All fields are required."
  const InvalidEmail := "Invalid email address."
  const InvalidMobile := "Invalid mobile number."
  const EmailTaken := "Email already registered."
  const Registered := "Registration successful!"
  const LoggedIn := "Login successful!"
  const InvalidCredentials := "Invalid credentials."
  const FeedbackThanks := "Thank you for your feedback!"

  /** Fresh storage: no users, no feedback, no session. */
  const Empty := State([], [], Absent)

  /** getCurrentUser: an unreadable session counts as no session. */
  function CurrentUser(slot: SessionSlot): (r: Option<User>)
    ensures r.Some? <==> slot.Present?
    ensures r.Some? ==> r.value == slot.user
  {
    match slot
    case Present(u) => Some(u)
    case _ => None
  }

  /** What renderAuth shows: the welcome panel for a current user, otherwise the forms. */
  datatype AuthView = Welcome(user: User) | SignIn

  function RenderAuth(st: State): (v: AuthView)
    ensures v.Welcome? <==> st.session.Present?
    ensures v.Welcome? ==> v.user == st.session.user
  {
    match CurrentUser(st.session)
    case Some(u) => Welcome(u)
    case None => SignIn
  }

  /** The callbacks the handlers pass to `users.find`. */
  datatype Query = ByEmail(email: string) | ByCredentials(email: string, mobile: string)

  predicate Matches(u: User, q: Query) {
    match q
    case ByEmail(e) => u.email == e
    case ByCredentials(e, m) => u.email == e && u.mobile == m
  }

  /** Array.prototype.find: the index of the first record the query matches. */
  function FindFirst(users: seq<User>, q: Query): (r: Option<nat>)
    ensures r.Some? ==> r.value < |users| && Matches(users[r.value], q)
    ensures r.Some? ==> forall j | 0 <= j < r.value :: !Matches(users[j], q)
    ensures r.None? ==> forall j | 0 <= j < |users| :: !Matches(users[j], q)
  {
    if users == [] then None
    else if Matches(users[0], q) then Some(0)
    else match FindFirst(users[1..], q)
      case None => None
      case Some(i) => Some(i + 1)
  }

  /** A record that matches when no record before it does is the one `find` returns. */
  lemma FindFirstLast(users: seq<User>, q: Query)
    requires users != [] && Matches(users[|users| - 1], q)
    requires forall j | 0 <= j < |users| - 1 :: !Matches(users[j], q)
    ensures FindFirst(users, q) == Some(|users| - 1)
  {
  }

  /** Array.prototype.reverse. */
  function Reverse<T>(s: seq<T>): (r: seq<T>)
    ensures |r| == |s|
    ensures forall k | 0 <= k < |s| :: r[k] == s[|s| - 1 - k]
  {
    if s == [] then [] else Reverse(s[1..]) + [s[0]]
  }

  /** The feedback list: a placeholder when empty, otherwise the entries newest first. */
  datatype FeedbackView = NoFeedbackYet | Entries(items: seq<Feedback>)

  /** loadFeedbacks. */
  function LoadFeedbacks(fbs: seq<Feedback>): (v: FeedbackView)
    ensures v.NoFeedbackYet? <==> fbs == []
    ensures v.Entries? ==> |v.items| == |fbs|
    ensures v.Entries? ==> forall k | 0 <= k < |fbs| :: v.items[k] == fbs[|fbs| - 1 - k]
  {
    if fbs == [] then NoFeedbackYet else Entries(Reverse(fbs))
  }

  /** The record a successful feedback submission stores: the three text fields escaped,
      the date as given. */
  function EscapedFeedback(name: string, email: string, message: string, date: string): (f: Feedback)
    ensures IsEscapedText(f.name) && IsEscapedText(f.email) && IsEscapedText(f.message)
    ensures Unescape(f.name) == name && Unescape(f.email) == email && Unescape(f.message) == message
    ensures f.date == date
  {
    EscapeHtmlIsEscapedText(name); EscapeHtmlIsEscapedText(email); EscapeHtmlIsEscapedText(message);
    UnescapeEscape(name); UnescapeEscape(email); UnescapeEscape(message);
    Feedback(EscapeHtml(name), EscapeHtml(email), EscapeHtml(message), date)
  }

  /** The record a successful registration stores: all three fields escaped. */
  function EscapedUser(name: string, email: string, mobile: string): (u: User)
    ensures IsEscapedText(u.name) && IsEscapedText(u.email) && IsEscapedText(u.mobile)
    ensures Unescape(u.name) == name && Unescape(u.email) == email && Unescape(u.mobile) == mobile
  {
    EscapeHtmlIsEscapedText(name); EscapeHtmlIsEscapedText(email); EscapeHtmlIsEscapedText(mobile);
    UnescapeEscape(name); UnescapeEscape(email); UnescapeEscape(mobile);
    User(EscapeHtml(name), EscapeHtml(email), EscapeHtml(mobile))
  }

  /** The feedback form's checks, in order, on the trimmed fields: the message of the
      first one that fails. */
  function FeedbackError(name: string, email: string, message: string): (r: Option<string>)
    ensures r == Some(AllFieldsRequired) <==> (name == [] || email == [] || message == [])
    ensures r == Some(InvalidEmail) <==> (name != [] && email != [] && message != [] && !IsValidEmail(email))
    ensures r.None? <==> (name != [] && message != [] && IsValidEmail(email))
  {
    if name == [] || email == [] || message == [] then Some(AllFieldsRequired)
    else if !IsValidEmail(email) then Some(InvalidEmail)
    else None
  }

  /** The feedback form's submit handler, given the trimmed field values; `date` is the
      submission time as displayed. */
  function SubmitFeedbackStep(st: State, name: string, email: string, message: string, date: string): (r: Step)
    ensures r.next.users == st.users && r.next.session == st.session
    ensures st.feedbacks <= r.next.feedbacks
    ensures r.reply.Error? <==> FeedbackError(name, email, message).Some?
    ensures r.reply.Error? ==>
      r.reply.text == FeedbackError(name, email, message).value && r.next == st
    ensures r.reply.Success? ==>
      && r.reply == Success(FeedbackThanks)
      && r.next.feedbacks == st.feedbacks + [EscapedFeedback(name, email, message, date)]
  {
    match FeedbackError(name, email, message)
    case Some(msg) => Step(Error(msg), st)
    case None => Step(Success(FeedbackThanks), st.(feedbacks := st.feedbacks + [EscapedFeedback(name, email, message, date)]))
  }

  /** The register form's checks, in order, on the trimmed fields: the message of the first
      one that fails. The duplicate check compares the raw email with the stored, escaped
      ones. */
  function RegisterError(users: seq<User>, name: string, email: string, mobile: string): (r: Option<string>)
    ensures r == Some(AllFieldsRequired) <==> (name == [] || email == [] || mobile == [])
    ensures r == Some(InvalidEmail) <==> (name != [] && email != [] && mobile != [] && !IsValidEmail(email))
    ensures r == Some(InvalidMobile) <==>
      (name != [] && email != [] && mobile != [] && IsValidEmail(email) && !IsValidMobile(mobile))
    ensures r == Some(EmailTaken) <==>
      && name != [] && IsValidEmail(email) && IsValidMobile(mobile)
      && exists i | 0 <= i < |users| :: users[i].email == email
    ensures r.None? <==>
      && name != [] && IsValidEmail(email) && IsValidMobile(mobile)
      && forall i | 0 <= i < |users| :: users[i].email != email
  {
    if name == [] || email == [] || mobile == [] then Some(AllFieldsRequired)
    else if !IsValidEmail(email) then Some(InvalidEmail)
    else if !IsValidMobile(mobile) then Some(InvalidMobile)
    else if FindFirst(users, ByEmail(email)).Some? then Some(EmailTaken)
    else None
  }

  /** The register form's submit handler, given the trimmed field values. */
  function RegisterStep(st: State, name: string, email: string, mobile: string): (r: Step)
    ensures r.next.feedbacks == st.feedbacks
    ensures st.users <= r.next.users
    ensures r.reply.Error? <==> RegisterError(st.users, name, email, mobile).Some?
    ensures r.reply.Error? ==>
      r.reply.text == RegisterError(st.users, name, email, mobile).value && r.next == st
    ensures r.reply.Success? ==>
      var u := EscapedUser(name, email, mobile);
      && r.reply == Success(Registered)
      && r.next.users == st.users + [u]
      && r.next.session == Present(u)
  {
    match RegisterError(st.users, name, email, mobile)
    case Some(msg) => Step(Error(msg), st)
    case None =>
      var u := EscapedUser(name, email, mobile);
      Step(Success(Registered), st.(users := st.users + [u], session := Present(u)))
  }

  /** The login form's submit handler, given the trimmed field values: the session becomes
      the first user whose stored email and mobile both equal them. */
  function LoginStep(st: State, email: string, mobile: string): (r: Step)
    ensures r.next.users == st.users && r.next.feedbacks == st.feedbacks
    ensures r.reply.Error? ==> r.reply == Error(InvalidCredentials) && r.next == st
    ensures r.reply.Success? <==>
      exists i | 0 <= i < |st.users| :: st.users[i].email == email && st.users[i].mobile == mobile
    ensures r.reply.Success? ==>
      && r.reply == Success(LoggedIn)
      && exists i | 0 <= i < |st.users| ::
        && r.next.session == Present(st.users[i])
        && st.users[i].email == email && st.users[i].mobile == mobile
        && forall j | 0 <= j < i :: !(st.users[j].email == email && st.users[j].mobile == mobile)
  {
    match FindFirst(st.users, ByCredentials(email, mobile))
    case Some(i) => Step(Success(LoggedIn), st.(session := Present(st.users[i])))
    case None => Step(Error(InvalidCredentials), st)
  }

  /** The logout button: the session key is removed. */
  function LogoutStep(st: State): (r: State)
    ensures r.users == st.users && r.feedbacks == st.feedbacks
    ensures CurrentUser(r.session) == None && RenderAuth(r) == SignIn
  {
    st.(session := Absent)
  }

  // ---------------------------------------------------------------------------------------
  // Invariants of the stored records

  /** A present session holds a record of the users list. */
  ghost predicate SessionRecorded(st: State) {
    st.session.Present? ==> st.session.user in st.users
  }

  /** Every stored field written by a handler is escaped text: it holds none of
      `< > " '`, and each of its ampersands opens a reference. */
  ghost predicate StoredEscaped(st: State) {
    && (forall i | 0 <= i < |st.users| ::
          IsEscapedText(st.users[i].name) && IsEscapedText(st.users[i].email) && IsEscapedText(st.users[i].mobile))
    && (forall i | 0 <= i < |st.feedbacks| ::
          IsEscapedText(st.feedbacks[i].name) && IsEscapedText(st.feedbacks[i].email)
          && IsEscapedText(st.feedbacks[i].message))
  }

  ghost predicate UniqueEmails(users: seq<User>) {
    forall i, j | 0 <= i < j < |users| :: users[i].email != users[j].email
  }

  /** Submitting feedback keeps both record invariants. */
  lemma FeedbackKeepsInvariants(st: State, name: string, email: string, message: string, date: string)
    ensures var r := SubmitFeedbackStep(st, name, email, message, date).next;
      (SessionRecorded(st) ==> SessionRecorded(r)) && (StoredEscaped(st) ==> StoredEscaped(r))
  {
  }

  /** Registering keeps both record invariants. */
  lemma RegisterKeepsInvariants(st: State, name: string, email: string, mobile: string)
    ensures var r := RegisterStep(st, name, email, mobile).next;
      (SessionRecorded(st) ==> SessionRecorded(r)) && (StoredEscaped(st) ==> StoredEscaped(r))
  {
  }

  /** Logging in keeps both record invariants. */
  lemma LoginKeepsInvariants(st: State, email: string, mobile: string)
    ensures var r := LoginStep(st, email, mobile).next;
      (SessionRecorded(st) ==> SessionRecorded(r)) && (StoredEscaped(st) ==> StoredEscaped(r))
  {
  }

  /** Logging out keeps both record invariants. */
  lemma LogoutKeepsInvariants(st: State)
    ensures var r := LogoutStep(st);
      SessionRecorded(r) && (StoredEscaped(st) ==> StoredEscaped(r))
  {
  }

  // ---------------------------------------------------------------------------------------
  // Feedback ordering

  lemma {:induction false} ReverseSnoc<T>(s: seq<T>, x: T)
    ensures Reverse(s + [x]) == [x] + Reverse(s)
  {
    var l, r := Reverse(s + [x]), [x] + Reverse(s);
    assert |l| == |r|;
    forall k | 0 <= k < |l| ensures l[k] == r[k] {
      if k > 0 {
        assert l[k] == (s + [x])[|s| - k];
      }
    }
  }

  /** After a successful submission the new entry is shown first, above the earlier
      entries in their previous order. */
  lemma FeedbackShownNewestFirst(st: State, name: string, email: string, message: string, date: string)
    requires SubmitFeedbackStep(st, name, email, message, date).reply.Success?
    ensures LoadFeedbacks(SubmitFeedbackStep(st, name, email, message, date).next.feedbacks)
      == Entries([EscapedFeedback(name, email, message, date)]
                 + (if st.feedbacks == [] then [] else LoadFeedbacks(st.feedbacks).items))
  {
    ReverseSnoc(st.feedbacks, EscapedFeedback(name, email, message, date));
  }

  /** Entries submitted as A, then B, then C are listed as C, B, A. */
  lemma ThreeEntriesListedReversed(a: Feedback, b: Feedback, c: Feedback)
    ensures LoadFeedbacks([a] + [b] + [c]) == Entries([c, b, a])
  {
    ReverseSnoc([a], b);
    ReverseSnoc([a] + [b], c);
  }

  // ---------------------------------------------------------------------------------------
  // Registration and login

  /** A well-formed registration whose email is not stored verbatim succeeds and signs the
      new user in. */
  lemma RegisterFreshSucceeds(st: State, name: string, email: string, mobile: string)
    requires name != [] && IsValidEmail(email) && IsValidMobile(mobile)
    requires forall i | 0 <= i < |st.users| :: st.users[i].email != email
    ensures var r := RegisterStep(st, name, email, mobile);
      && r.reply == Success(Registered)
      && RenderAuth(r.next) == Welcome(EscapedUser(name, email, mobile))
  {
    var r := RegisterStep(st, name, email, mobile);
    assert email != [];
    assert mobile != [] by { assert |Digits(mobile)| <= |mobile|; }
    assert r.reply != Error(AllFieldsRequired);
    assert r.reply != Error(EmailTaken);
  }

  /** Registering an email free of `& < > " '` keeps stored emails unique. */
  lemma RegisterKeepsEmailsUnique(st: State, name: string, email: string, mobile: string)
    requires UniqueEmails(st.users)
    requires NoSpecials(email)
    ensures UniqueEmails(RegisterStep(st, name, email, mobile).next.users)
  {
    var r := RegisterStep(st, name, email, mobile);
    if r.reply.Success? {
      EscapeFixedPoint(email);
      var us := r.next.users;
      forall i, j | 0 <= i < j < |us| ensures us[i].email != us[j].email {
        if j == |st.users| {
          assert us[j].email == email;
          assert us[i] == st.users[i];
        }
      }
    }
  }

  /** Registering the same email free of `& < > " '` a second time is refused, with the
      duplicate message once the other fields are valid. */
  lemma RegisterTwiceRefused(st: State, name: string, email: string, mobile: string, name2: string, mobile2: string)
    requires RegisterStep(st, name, email, mobile).reply.Success?
    requires NoSpecials(email)
    ensures var r2 := RegisterStep(RegisterStep(st, name, email, mobile).next, name2, email, mobile2);
      && r2.reply.Error?
      && (name2 != [] && IsValidMobile(mobile2) ==> r2.reply == Error(EmailTaken))
  {
    var s1 := RegisterStep(st, name, email, mobile).next;
    EscapeFixedPoint(email);
    assert s1.users[|st.users|].email == email;
  }

  /** The quirk: an email holding one of `< > " '` is never found by the duplicate check,
      because every stored email is escaped. */
  lemma MarkupEmailNeverDuplicate(st: State, name: string, email: string, mobile: string)
    requires StoredEscaped(st)
    requires !NoMarkup(email)
    ensures RegisterStep(st, name, email, mobile).reply != Error(EmailTaken)
  {
    var k :| 0 <= k < |email| && IsMarkup(email[k]);
    forall i | 0 <= i < |st.users| ensures st.users[i].email != email {
      assert NoMarkup(st.users[i].email);
    }
  }

  /** The converse of RegisterKeepsEmailsUnique: an email holding any of `& < > " '` is
      stored escaped, so the raw email never equals it and the same registration succeeds a
      second time, leaving two records with the same email. */
  lemma SpecialEmailRegistersTwice(st: State, name: string, email: string, mobile: string)
    requires RegisterStep(st, name, email, mobile).reply.Success?
    requires !NoSpecials(email)
    ensures var s1 := RegisterStep(st, name, email, mobile).next;
      && RegisterStep(s1, name, email, mobile).reply.Success?
      && !UniqueEmails(RegisterStep(s1, name, email, mobile).next.users)
  {
    var s1 := RegisterStep(st, name, email, mobile).next;
    var u := EscapedUser(name, email, mobile);
    EscapeFixedPoint(email);
    assert s1.users == st.users + [u];
    assert forall i | 0 <= i < |s1.users| :: s1.users[i].email != email;
    var us := RegisterStep(s1, name, email, mobile).next.users;
    assert us == s1.users + [u];
    assert us[|st.users|] == u && us[|st.users| + 1] == u;
  }

  /** Right after registering with an email and a mobile free of `& < > " '`, logging in with
      the same input succeeds and keeps the new user as the session. */
  lemma LoginAfterRegister(st: State, name: string, email: string, mobile: string)
    requires RegisterStep(st, name, email, mobile).reply.Success?
    requires NoSpecials(email) && NoSpecials(mobile)
    ensures var s1 := RegisterStep(st, name, email, mobile).next;
      LoginStep(s1, email, mobile) == Step(Success(LoggedIn), s1)
  {
    var s1 := RegisterStep(st, name, email, mobile).next;
    var u := EscapedUser(name, email, mobile);
    EscapeFixedPoint(email);
    EscapeFixedPoint(mobile);
    assert u.email == email && u.mobile == mobile;
    assert s1.users == st.users + [u] && s1.session == Present(u);
    var q := ByCredentials(email, mobile);
    forall j | 0 <= j < |st.users| ensures !Matches(s1.users[j], q) {
      assert s1.users[j] == st.users[j];
      assert st.users[j].email != email;
    }
    FindFirstLast(s1.users, q);
  }

  /** The quirk at login: input holding one of `< > " '` in the email or the mobile never
      matches a stored record. A user who registered with such a field cannot log in by
      typing the same input again, only by typing that field's escaped form. */
  lemma MarkupLoginFails(st: State, email: string, mobile: string)
    requires StoredEscaped(st)
    requires !NoMarkup(email) || !NoMarkup(mobile)
    ensures LoginStep(st, email, mobile) == Step(Error(InvalidCredentials), st)
  {
    forall i | 0 <= i < |st.users| ensures !(st.users[i].email == email && st.users[i].mobile == mobile) {
      assert NoMarkup(st.users[i].email) && NoMarkup(st.users[i].mobile);
    }
  }

  /** The converse of LoginAfterRegister: when the email or the mobile holds any of
      `& < > " '`, the record just stored holds the escaped form and never matches the same
      input at login; a login that succeeds selects some earlier record instead. (A failed
      login leaves the session registration set.) */
  lemma SpecialLoginMissesNewRecord(st: State, name: string, email: string, mobile: string)
    requires RegisterStep(st, name, email, mobile).reply.Success?
    requires !NoSpecials(email) || !NoSpecials(mobile)
    ensures var s1 := RegisterStep(st, name, email, mobile).next;
      && !Matches(s1.users[|st.users|], ByCredentials(email, mobile))
      && (LoginStep(s1, email, mobile).reply.Success? ==>
            LoginStep(s1, email, mobile).next.session != Present(EscapedUser(name, email, mobile)))
  {
    var u := EscapedUser(name, email, mobile);
    var s1 := RegisterStep(st, name, email, mobile).next;
    assert s1.users[|st.users|] == u;
    EscapeFixedPoint(email);
    EscapeFixedPoint(mobile);
    assert u.email != email || u.mobile != mobile;
  }
}

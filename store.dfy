/** The submit, load and logout handlers as they run against local storage: each reads the
    stored collections, changes them and writes them back. */
module Store {
  import opened Wrappers
  import opened Chars
  import opened Validate
  import opened Records

  /** Local storage under the users, feedback and session keys. */
  class LocalStore {
    var users: seq<User>
    var feedbacks: seq<Feedback>
    var session: SessionSlot

    /** What the three keys currently hold. */
    function Snapshot(): State
      reads this
    {
      State(users, feedbacks, session)
    }

    /** Storage as a first visit finds it. */
    constructor ()
      ensures Snapshot() == Empty
    {
      users, feedbacks, session := [], [], Absent;
    }

    /** getCurrentUser: reads the session key; a missing or unreadable value is no user. */
    function GetCurrentUser(): (r: Option<User>)
      reads this
      ensures r.Some? <==> session.Present?
      ensures r.Some? ==> r.value == session.user
    {
      Records.CurrentUser(session)
    }

    /** loadFeedbacks: reads the stored entries and lists them newest first. */
    method LoadFeedbacks() returns (v: FeedbackView)
      ensures v == Records.LoadFeedbacks(feedbacks)
      ensures v.Entries? ==> forall k | 0 <= k < |feedbacks| :: v.items[k] == feedbacks[|feedbacks| - 1 - k]
    {
      var stored := feedbacks;
      if stored == [] {
        v := NoFeedbackYet;
      } else {
        v := Entries(Reverse(stored));
      }
    }

    /** The feedback form's submit handler, on the raw field values. */
    method SubmitFeedback(name: string, email: string, message: string, date: string) returns (reply: Reply)
      modifies this
      ensures Step(reply, Snapshot()) == SubmitFeedbackStep(old(Snapshot()), Trim(name), Trim(email), Trim(message), date)
      ensures users == old(users) && session == old(session)
      ensures reply.Error? ==> feedbacks == old(feedbacks)
      ensures reply.Success? ==> |feedbacks| == |old(feedbacks)| + 1 && feedbacks[..|old(feedbacks)|] == old(feedbacks)
    {
      var n, e, m := Trim(name), Trim(email), Trim(message);
      if n == [] || e == [] || m == [] {
        return Error(AllFieldsRequired);
      }
      if !IsValidEmail(e) {
        return Error(InvalidEmail);
      }
      var entry := EscapedFeedback(n, e, m, date);
      var stored := feedbacks;
      stored := stored + [entry];
      feedbacks := stored;
      reply := Success(FeedbackThanks);
    }

    /** The register form's submit handler, on the raw field values. */
    method Register(name: string, email: string, mobile: string) returns (reply: Reply)
      modifies this
      ensures Step(reply, Snapshot()) == RegisterStep(old(Snapshot()), Trim(name), Trim(email), Trim(mobile))
      ensures feedbacks == old(feedbacks)
      ensures reply.Error? ==> users == old(users) && session == old(session)
      ensures reply.Success? ==>
        && users == old(users) + [EscapedUser(Trim(name), Trim(email), Trim(mobile))]
        && GetCurrentUser() == Some(EscapedUser(Trim(name), Trim(email), Trim(mobile)))
    {
      var n, e, m := Trim(name), Trim(email), Trim(mobile);
      if n == [] || e == [] || m == [] {
        return Error(AllFieldsRequired);
      }
      if !IsValidEmail(e) {
        return Error(InvalidEmail);
      }
      if !IsValidMobile(m) {
        return Error(InvalidMobile);
      }
      var stored := users;
      if FindFirst(stored, ByEmail(e)).Some? {
        return Error(EmailTaken);
      }
      var u := EscapedUser(n, e, m);
      stored := stored + [u];
      users := stored;
      session := Present(u);
      reply := Success(Registered);
    }

    /** The login form's submit handler, on the raw field values. */
    method Login(email: string, mobile: string) returns (reply: Reply)
      modifies this
      ensures Step(reply, Snapshot()) == LoginStep(old(Snapshot()), Trim(email), Trim(mobile))
      ensures users == old(users) && feedbacks == old(feedbacks)
      ensures reply.Error? ==> session == old(session)
    {
      var e, m := Trim(email), Trim(mobile);
      var stored := users;
      var found := FindFirst(stored, ByCredentials(e, m));
      if found.Some? {
        session := Present(stored[found.value]);
        reply := Success(LoggedIn);
      } else {
        reply := Error(InvalidCredentials);
      }
    }

    /** The logout button: removes the session key. */
    method Logout()
      modifies this
      ensures Snapshot() == LogoutStep(old(Snapshot()))
      ensures GetCurrentUser() == None
    {
      session := Absent;
    }
  }
}

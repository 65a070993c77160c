/** Login sessions (server/util/SessionManager.java): a map from session token to the user it
    belongs to and the time it was last used. The clock is the parameter `now` (milliseconds);
    the random token generator is a choice of any string not already in use. */
module SessionManager {
  import opened Wrappers
  import opened Sets

  /** Constants.MAX_INACTIVE_TIME: ten minutes in milliseconds. */
  const MAX_INACTIVE_TIME: int := 1000 * 60 * 10

  datatype SessionID = SessionID(uid: int, lastActiveTime: int)

  /** isSessionIdValid: the session was used less than MAX_INACTIVE_TIME before now. */
  function IsSessionIdValid(sid: SessionID, now: int): (r: bool)
    ensures now <= sid.lastActiveTime ==> r
    ensures now >= sid.lastActiveTime + MAX_INACTIVE_TIME ==> !r
  {
    now - sid.lastActiveTime < MAX_INACTIVE_TIME
  }

  /** The user of a token, as getUID answers it: present iff the token is a key, whatever its age. */
  function UidOf(sessions: map<string, SessionID>, token: string): (r: Option<int>)
    ensures r.Some? <==> token in sessions
    ensures r.Some? ==> r.value == sessions[token].uid
  {
    if token in sessions then Some(sessions[token].uid) else None
  }

  /** The sessions after getUID(token) at time now: the token's entry, if any, is refreshed. */
  function Touch(sessions: map<string, SessionID>, token: string, now: int): (r: map<string, SessionID>)
    ensures r.Keys == sessions.Keys
    ensures forall t :: t in r ==> r[t].uid == sessions[t].uid
    ensures forall t :: t in r && t != token ==> r[t] == sessions[t]
    ensures token in r ==> r[token].lastActiveTime == now
  {
    if token in sessions then sessions[token := sessions[token].(lastActiveTime := now)] else sessions
  }

  /** The sessions one pass of the reaper keeps: exactly the valid ones, unchanged. */
  function Sweep(sessions: map<string, SessionID>, now: int): (r: map<string, SessionID>)
    ensures forall t :: t in r <==> t in sessions && IsSessionIdValid(sessions[t], now)
    ensures forall t :: t in r ==> r[t] == sessions[t]
  {
    map t | t in sessions && IsSessionIdValid(sessions[t], now) :: sessions[t]
  }

  /** A second pass at the same time removes nothing more. */
  lemma SweepIdempotent(sessions: map<string, SessionID>, now: int)
    ensures Sweep(Sweep(sessions, now), now) == Sweep(sessions, now)
  {
    assert Sweep(Sweep(sessions, now), now).Keys == Sweep(sessions, now).Keys;
  }

  /** An earlier pass removes only what a later pass would remove too. */
  lemma SweepLater(sessions: map<string, SessionID>, earlier: int, later: int)
    requires earlier <= later
    ensures Sweep(Sweep(sessions, earlier), later) == Sweep(sessions, later)
  {
    assert Sweep(Sweep(sessions, earlier), later).Keys == Sweep(sessions, later).Keys;
  }

  /** A session issued at now answers with its user and survives every pass before now + MAX_INACTIVE_TIME. */
  lemma NewSessionSurvives(sessions: map<string, SessionID>, token: string, uid: int, now: int, later: int)
    requires later < now + MAX_INACTIVE_TIME
    ensures UidOf(sessions[token := SessionID(uid, now)], token) == Some(uid)
    ensures UidOf(Sweep(sessions[token := SessionID(uid, now)], later), token) == Some(uid)
  {
  }

  /** Using a session at now keeps it through every pass before now + MAX_INACTIVE_TIME, however
      old it was, since getUID never checks the age of the entry it refreshes. */
  lemma TouchKeepsAlive(sessions: map<string, SessionID>, token: string, now: int, later: int)
    requires token in sessions
    requires later < now + MAX_INACTIVE_TIME
    ensures UidOf(Sweep(Touch(sessions, token, now), later), token) == UidOf(sessions, token)
  {
  }

  /** An expired session that no pass has removed yet still answers getUID. */
  lemma StaleSessionAnswers(sessions: map<string, SessionID>, token: string, now: int)
    requires token in sessions && !IsSessionIdValid(sessions[token], now)
    ensures UidOf(sessions, token) == Some(sessions[token].uid)
    ensures UidOf(Sweep(sessions, now), token) == None
  {
  }

  /** Removing a token logs exactly that session out. */
  lemma RemoveOnlyThat(sessions: map<string, SessionID>, token: string, other: string)
    requires other != token
    ensures UidOf(sessions - {token}, token) == None
    ensures UidOf(sessions - {token}, other) == UidOf(sessions, other)
  {
  }

  class SessionManager {
    var sessionIDs: map<string, SessionID>

    /** A manager without sessions (the reaper thread is a call to Reap). */
    constructor()
      ensures sessionIDs == map[]
    {
      sessionIDs := map[];
    }

    /** The token generator: retried until the token is not in use. */
    method NewToken() returns (token: string)
      ensures token !in sessionIDs
    {
      ghost var unused := UnusedString(sessionIDs.Keys);
      token :| token !in sessionIDs;
    }

    /** generateSID(uid): a new session for uid, last used now. */
    method GenerateSID(uid: int, now: int) returns (token: string)
      modifies this
      ensures token !in old(sessionIDs)
      ensures sessionIDs == old(sessionIDs)[token := SessionID(uid, now)]
    {
      token := NewToken();
      sessionIDs := sessionIDs[token := SessionID(uid, now)];
    }

    /** getUID(token): the session's user, refreshing the session. */
    method GetUID(token: string, now: int) returns (r: Option<int>)
      modifies this
      ensures r == UidOf(old(sessionIDs), token)
      ensures sessionIDs == Touch(old(sessionIDs), token, now)
    {
      if token in sessionIDs {
        var sid := sessionIDs[token];
        sessionIDs := sessionIDs[token := sid.(lastActiveTime := now)];
        r := Some(sid.uid);
      } else {
        r := None;
      }
    }

    /** removeSessionID(token): logs the session out. */
    method RemoveSessionID(token: string)
      modifies this
      ensures sessionIDs == old(sessionIDs) - {token}
    {
      sessionIDs := sessionIDs - {token};
    }

    /** One pass of the reaper: removes every session that is no longer valid at now. */
    method Reap(now: int)
      modifies this
      ensures sessionIDs == Sweep(old(sessionIDs), now)
    {
      var todo := sessionIDs.Keys;
      while todo != {}
        invariant todo <= sessionIDs.Keys
        invariant forall t :: t in sessionIDs <==>
          t in old(sessionIDs) && (t in todo || IsSessionIdValid(old(sessionIDs)[t], now))
        invariant forall t :: t in sessionIDs ==> sessionIDs[t] == old(sessionIDs)[t]
        decreases |todo|
      {
        ghost var member := NonEmptyHasMember(todo);
        var token :| token in todo;
        if !IsSessionIdValid(sessionIDs[token], now) {
          sessionIDs := sessionIDs - {token};
        }
        todo := todo - {token};
      }
      assert sessionIDs.Keys == Sweep(old(sessionIDs), now).Keys;
    }
  }
}

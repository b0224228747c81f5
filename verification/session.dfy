/**
 * The session reducer of the mobile client's root component: the function handed to
 * `useReducer` in testdata/App.js, its initial state, and the shared auth-context handle
 * whose `user` field the reducer writes as a side effect.
 */
module Session {
  import opened Wrappers

  /** The identity record of the identity provider; the reducer only stores and compares it. */
  type User(==)

  /** The reducer's state; `user == None` is JavaScript's `null`. */
  datatype SessionState = SessionState(isLoading: bool, isSignout: bool, user: Option<User>)

  /** The state `useReducer` starts from. */
  const InitialState: SessionState := SessionState(true, false, None)

  /**
   * The auth-context object shared by reference between the reducer and screen code,
   * which reads `user` outside the render cycle.
   */
  class AuthContext {
    var user: Option<User>
  }

  const AppReadyKind: string := "APP_READY"
  const MissingTokenKind: string := "MISSING_TOKEN"
  const RestoreTokenKind: string := "RESTORE_TOKEN"
  const SignInKind: string := "SIGN_IN"
  const SignOutKind: string := "SIGN_OUT"

  /**
   * A dispatched action object `{type, user, authContext}`. A field the dispatcher left out
   * is `None` (for `user`) or `null` (for `authContext`).
   */
  datatype Action = Action(kind: string, user: Option<User>, authContext: AuthContext?)

  /** Writing `user` on an absent `authContext` throws a TypeError in JavaScript. */
  datatype ReducerError = TypeError

  predicate IsKnownKind(kind: string)
  {
    kind in {AppReadyKind, MissingTokenKind, RestoreTokenKind, SignInKind, SignOutKind}
  }

  /** The actions whose handling changes who is signed in, and so writes the handle. */
  predicate ChangesIdentity(a: Action)
  {
    a.kind in {MissingTokenKind, SignInKind, SignOutKind}
  }

  /** What the reducer stores into `action.authContext.user`, when it stores anything. */
  function HandleWrite(a: Action): (r: Option<Option<User>>)
    ensures r.Some? <==> ChangesIdentity(a)
    ensures r.Some? && r.value.Some? ==> a.kind == SignInKind
  {
    if a.kind == SignInKind then Some(a.user)
    else if a.kind == MissingTokenKind || a.kind == SignOutKind then Some(None)
    else None
  }

  /**
   * The reducer's result, ignoring its write to the handle: the next state, or the
   * TypeError thrown when an identity-changing action carries no `authContext`.
   * Whenever it writes the handle, it writes the user of the state it returns.
   */
  function Reduce(prev: SessionState, a: Action): (r: Result<SessionState, ReducerError>)
    ensures r.Failure? <==> ChangesIdentity(a) && a.authContext == null
    ensures r.Success? && ChangesIdentity(a) ==> HandleWrite(a) == Some(r.value.user)
  {
    if a.kind == AppReadyKind then
      Success(prev.(isLoading := false))
    else if a.kind == MissingTokenKind then
      if a.authContext == null then Failure(TypeError) else Success(prev.(user := None))
    else if a.kind == RestoreTokenKind then
      Success(prev.(user := a.user, isLoading := false))
    else if a.kind == SignInKind then
      if a.authContext == null then Failure(TypeError) else Success(prev.(user := a.user, isSignout := false))
    else if a.kind == SignOutKind then
      if a.authContext == null then Failure(TypeError) else Success(prev.(user := None, isSignout := true))
    else
      Success(prev)
  }

  /**
   * Runs the reducer on one action: writes the handle the action carries, if the action
   * changes identity, and returns the next state (or the TypeError).
   */
  method Dispatch(prev: SessionState, a: Action) returns (r: Result<SessionState, ReducerError>)
    modifies a.authContext
    ensures r == Reduce(prev, a)
    ensures a.authContext != null && ChangesIdentity(a) ==> a.authContext.user == r.value.user
    ensures a.authContext != null && !ChangesIdentity(a) ==> a.authContext.user == old(a.authContext.user)
  {
    if a.kind == AppReadyKind {
      r := Success(prev.(isLoading := false));
    } else if a.kind == MissingTokenKind {
      if a.authContext == null {
        return Failure(TypeError);
      }
      a.authContext.user := None;
      r := Success(prev.(user := None));
    } else if a.kind == RestoreTokenKind {
      r := Success(prev.(user := a.user, isLoading := false));
    } else if a.kind == SignInKind {
      if a.authContext == null {
        return Failure(TypeError);
      }
      a.authContext.user := a.user;
      r := Success(prev.(user := a.user, isSignout := false));
    } else if a.kind == SignOutKind {
      if a.authContext == null {
        return Failure(TypeError);
      }
      a.authContext.user := None;
      r := Success(prev.(user := None, isSignout := true));
    } else {
      r := Success(prev);
    }
  }

  // ---------------------------------------------------------------------------------------
  // The transition table, one action kind at a time

  /** APP_READY ends loading and keeps the user and the sign-out flag; it does not touch the handle. */
  lemma AppReadyEffect(prev: SessionState, a: Action)
    requires a.kind == AppReadyKind
    ensures Reduce(prev, a) == Success(SessionState(false, prev.isSignout, prev.user))
    ensures HandleWrite(a) == None
  {
  }

  /** An action of any other type leaves the state as it was and does not touch the handle. */
  lemma UnrecognisedIsNoOp(prev: SessionState, a: Action)
    requires !IsKnownKind(a.kind)
    ensures Reduce(prev, a) == Success(prev)
    ensures HandleWrite(a) == None
  {
  }

  /**
   * MISSING_TOKEN and SIGN_OUT clear the user in the state and in the handle and keep
   * `isLoading`; SIGN_OUT also sets `isSignout`, MISSING_TOKEN keeps it.
   */
  lemma ClearUserEffect(prev: SessionState, a: Action)
    requires a.kind == MissingTokenKind || a.kind == SignOutKind
    requires a.authContext != null
    ensures Reduce(prev, a).Success?
    ensures Reduce(prev, a).value.user == None && HandleWrite(a) == Some(None)
    ensures Reduce(prev, a).value.isLoading == prev.isLoading
    ensures Reduce(prev, a).value.isSignout == (a.kind == SignOutKind || prev.isSignout)
  {
  }

  /** Applying MISSING_TOKEN or SIGN_OUT a second time changes nothing more. */
  lemma ClearUserIdempotent(prev: SessionState, a: Action)
    requires a.kind == MissingTokenKind || a.kind == SignOutKind
    requires a.authContext != null
    ensures Reduce(prev, a).Success?
    ensures Reduce(Reduce(prev, a).value, a) == Reduce(prev, a)
  {
  }

  /** RESTORE_TOKEN installs the user and ends loading, keeps `isSignout`, and leaves the handle alone. */
  lemma RestoreTokenEffect(prev: SessionState, a: Action)
    requires a.kind == RestoreTokenKind
    ensures Reduce(prev, a) == Success(SessionState(false, prev.isSignout, a.user))
    ensures HandleWrite(a) == None
  {
  }

  /**
   * SIGN_IN puts the same user in the state and in the handle, clears `isSignout`
   * and keeps `isLoading`.
   */
  lemma SignInEffect(prev: SessionState, a: Action)
    requires a.kind == SignInKind
    requires a.authContext != null
    ensures Reduce(prev, a) == Success(SessionState(prev.isLoading, false, a.user))
    ensures HandleWrite(a) == Some(a.user)
  {
  }

  /** No action turns loading back on. */
  lemma LoadingNeverRaised(prev: SessionState, a: Action)
    requires Reduce(prev, a).Success?
    ensures Reduce(prev, a).value.isLoading ==> prev.isLoading
  {
  }

  // ---------------------------------------------------------------------------------------
  // Sequences of actions

  /** Dispatches the actions in order; the first TypeError stops the run. */
  function Replay(s: SessionState, actions: seq<Action>): (r: Result<SessionState, ReducerError>)
    ensures r.Failure? <==> exists i :: 0 <= i < |actions| && Throws(actions[i])
    decreases |actions|
  {
    if actions == [] then Success(s)
    else
      match Reduce(s, actions[0])
      case Failure(e) => Failure(e)
      case Success(t) =>
        var r := Replay(t, actions[1..]);
        assert forall i :: 0 <= i < |actions| - 1 ==> actions[1..][i] == actions[i + 1];
        assert r.Failure? ==> exists i :: 0 <= i < |actions| && Throws(actions[i]);
        r
  }

  /** Whether the reducer throws on the action, whatever the state. */
  predicate Throws(a: Action)
  {
    ChangesIdentity(a) && a.authContext == null
  }

  /**
   * The `user` of the handle `ctx` after the actions are dispatched in order, starting from
   * `h`. Like `Replay`, the run stops at the first action that throws, so no later action
   * writes the handle.
   */
  function HandleAfter(ctx: AuthContext, h: Option<User>, actions: seq<Action>): (r: Option<User>)
    ensures (forall i :: 0 <= i < |actions| ==> !WritesHandle(ctx, actions[i])) ==> r == h
    ensures actions != [] && WritesHandle(ctx, actions[|actions| - 1])
            && (forall i :: 0 <= i < |actions| ==> !Throws(actions[i]))
            ==> r == HandleWrite(actions[|actions| - 1]).value
    decreases |actions|
  {
    if actions == [] then h
    else if Throws(actions[0]) then h
    else
      var next := if actions[0].authContext == ctx && HandleWrite(actions[0]).Some?
                  then HandleWrite(actions[0]).value else h;
      assert forall i :: 0 <= i < |actions| - 1 ==> actions[1..][i] == actions[i + 1];
      HandleAfter(ctx, next, actions[1..])
  }

  /** Whether dispatching the action writes the user of the handle `ctx`. */
  predicate WritesHandle(ctx: AuthContext, a: Action)
  {
    a.authContext == ctx && ChangesIdentity(a)
  }

  /** Once loading has ended it stays ended, whatever is dispatched afterwards. */
  lemma {:induction false} LoadingStaysOff(s: SessionState, actions: seq<Action>)
    requires !s.isLoading
    requires Replay(s, actions).Success?
    ensures !Replay(s, actions).value.isLoading
    decreases |actions|
  {
    if actions != [] {
      LoadingNeverRaised(s, actions[0]);
      LoadingStaysOff(Reduce(s, actions[0]).value, actions[1..]);
    }
  }

  /** After any run that contains an APP_READY or a RESTORE_TOKEN, loading is off. */
  lemma {:induction false} ReadyEndsLoading(s: SessionState, actions: seq<Action>, i: nat)
    requires i < |actions|
    requires actions[i].kind == AppReadyKind || actions[i].kind == RestoreTokenKind
    requires Replay(s, actions).Success?
    ensures !Replay(s, actions).value.isLoading
    decreases |actions|
  {
    var t := Reduce(s, actions[0]).value;
    if i == 0 {
      LoadingStaysOff(t, actions[1..]);
    } else {
      ReadyEndsLoading(t, actions[1..], i - 1);
    }
  }

  /**
   * The handle stays in lockstep with the state's user over any run that dispatches
   * no RESTORE_TOKEN (the one identity-changing action that does not write the handle)
   * and whose actions all carry the same handle or none.
   */
  lemma {:induction false} LockstepPreserved(ctx: AuthContext, s: SessionState, actions: seq<Action>)
    requires forall i :: 0 <= i < |actions| ==> actions[i].kind != RestoreTokenKind
    requires forall i :: 0 <= i < |actions| ==> actions[i].authContext == null || actions[i].authContext == ctx
    requires Replay(s, actions).Success?
    ensures Replay(s, actions).value.user == HandleAfter(ctx, s.user, actions)
    decreases |actions|
  {
    if actions != [] {
      var a := actions[0];
      var t := Reduce(s, a).value;
      assert ChangesIdentity(a) ==> a.authContext == ctx;
      assert !ChangesIdentity(a) ==> t.user == s.user;
      LockstepPreserved(ctx, t, actions[1..]);
    }
  }
}

/**
 * The one-shot start-up routine of testdata/App.js (`bootstrap`, run from an effect when
 * the root component mounts): restore the session, request device permissions, and always
 * finish with APP_READY. The awaited calls into the identity provider and the permission
 * APIs are inputs: the restored user (or `None` when the restore throws) and whether the
 * bar-code permission request rejects.
 */
module Bootstrap {
  import opened Wrappers
  import opened Session

  datatype Permission = BarCodeScanner | ForegroundLocation

  /** One observable step of the routine: an action handed to `dispatch`, or a permission request. */
  datatype Step = Dispatched(action: Action) | Requested(permission: Permission)

  /** `{type: "APP_READY"}`, as dispatched from the `finally` block. */
  const AppReady: Action := Action(AppReadyKind, None, null)

  /** The actions a log dispatches, in order. */
  function Actions(log: seq<Step>): seq<Action>
  {
    if log == [] then []
    else (if log[0].Dispatched? then [log[0].action] else []) + Actions(log[1..])
  }

  /** The actions of a log are exactly those of its dispatched steps. */
  lemma {:induction false} ActionsKeepDispatched(log: seq<Step>)
    ensures forall i :: 0 <= i < |Actions(log)| ==> Dispatched(Actions(log)[i]) in log
    ensures forall j :: 0 <= j < |log| && log[j].Dispatched? ==> log[j].action in Actions(log)
    decreases |log|
  {
    if log != [] {
      ActionsKeepDispatched(log[1..]);
      assert forall j :: 1 <= j < |log| ==> log[j] == log[1..][j - 1];
    }
  }

  lemma {:induction false} ActionsAppend(a: seq<Step>, b: seq<Step>)
    ensures Actions(a + b) == Actions(a) + Actions(b)
    decreases |a|
  {
    if a == [] {
      assert a + b == b;
    } else {
      var head := if a[0].Dispatched? then [a[0].action] else [];
      assert (a + b)[0] == a[0];
      assert (a + b)[1..] == a[1..] + b;
      ActionsAppend(a[1..], b);
      assert Actions(a + b) == head + (Actions(a[1..]) + Actions(b));
      assert Actions(a) == head + Actions(a[1..]);
    }
  }

  /** Whether a step dispatches one of the two session outcomes of the restore. */
  predicate IsSessionOutcome(step: Step)
  {
    step.Dispatched? && (step.action.kind == SignInKind || step.action.kind == MissingTokenKind)
  }

  /**
   * The routine as written. A restored user is dispatched as SIGN_IN (with the handle);
   * a failed restore dispatches MISSING_TOKEN with no handle at all, so replaying the log
   * from the initial state throws the reducer's TypeError.
   */
  method Bootstrap(authContext: AuthContext, restored: Option<User>, barcodeRejects: bool)
    returns (log: seq<Step>)
    ensures |log| == if barcodeRejects then 3 else 4
    ensures log[0] == Dispatched(if restored.Some? then Action(SignInKind, restored, authContext)
                                 else Action(MissingTokenKind, None, null))
    ensures log[|log| - 1] == Dispatched(AppReady)
    ensures forall i :: 1 <= i < |log| - 1 ==> log[i].Requested?
    ensures forall i :: 1 <= i < |log| ==> !IsSessionOutcome(log[i])
    ensures log[1] == Requested(BarCodeScanner)
    ensures Requested(ForegroundLocation) in log <==> !barcodeRejects
    ensures restored.Some? ==> Replay(InitialState, Actions(log)) == Success(SessionState(false, false, restored))
    ensures restored.Some? ==> HandleAfter(authContext, authContext.user, Actions(log)) == restored
    ensures restored.None? ==> Replay(InitialState, Actions(log)) == Failure(TypeError)
  {
    // outer `try`; the inner try/catch turns the restore outcome into one action
    match restored {
      case Some(user) =>
        log := [Dispatched(Action(SignInKind, Some(user), authContext))];
      case None =>
        log := [Dispatched(Action(MissingTokenKind, None, null))];
    }
    log := log + [Requested(BarCodeScanner)];
    var threw := barcodeRejects;
    if !threw {
      // a rejection of this request also jumps to the outer `catch`, past nothing
      log := log + [Requested(ForegroundLocation)];
    }
    // `finally`
    log := log + [Dispatched(AppReady)];
    ActionsOfLog(log);
    ReplayPair(InitialState, log[0].action, AppReady);
    HandlePair(authContext, authContext.user, log[0].action, AppReady);
  }

  /**
   * The routine with the evident intent restored: MISSING_TOKEN carries the handle, so a
   * fresh launch without a session ends signed out, not loading, with the handle cleared.
   */
  method BootstrapFixed(authContext: AuthContext, restored: Option<User>, barcodeRejects: bool)
    returns (log: seq<Step>)
    ensures |log| == if barcodeRejects then 3 else 4
    ensures log[0] == Dispatched(if restored.Some? then Action(SignInKind, restored, authContext)
                                 else Action(MissingTokenKind, None, authContext))
    ensures log[|log| - 1] == Dispatched(AppReady)
    ensures forall i :: 1 <= i < |log| - 1 ==> log[i].Requested?
    ensures forall i :: 1 <= i < |log| ==> !IsSessionOutcome(log[i])
    ensures log[1] == Requested(BarCodeScanner)
    ensures Requested(ForegroundLocation) in log <==> !barcodeRejects
    ensures Replay(InitialState, Actions(log)) == Success(SessionState(false, false, restored))
    ensures HandleAfter(authContext, authContext.user, Actions(log)) == restored
  {
    match restored {
      case Some(user) =>
        log := [Dispatched(Action(SignInKind, Some(user), authContext))];
      case None =>
        log := [Dispatched(Action(MissingTokenKind, None, authContext))];
    }
    log := log + [Requested(BarCodeScanner)];
    var threw := barcodeRejects;
    if !threw {
      log := log + [Requested(ForegroundLocation)];
    }
    log := log + [Dispatched(AppReady)];
    ActionsOfLog(log);
    ReplayPair(InitialState, log[0].action, AppReady);
    HandlePair(authContext, authContext.user, log[0].action, AppReady);
  }

  /** Replaying two actions is reducing the second in the state the first produced. */
  lemma ReplayPair(s: SessionState, a: Action, b: Action)
    ensures Replay(s, [a, b]) == match Reduce(s, a)
                                 case Failure(e) => Failure(e)
                                 case Success(t) => Reduce(t, b)
  {
    assert [a, b][1..] == [b];
    assert [b][1..] == [];
    match Reduce(s, a)
    case Failure(e) =>
    case Success(t) =>
      assert Replay(t, [b]) == match Reduce(t, b) case Failure(e) => Failure(e) case Success(t') => Replay(t', []);
  }

  /** The handle after two actions carrying it is the last value they write, if any. */
  lemma HandlePair(ctx: AuthContext, h: Option<User>, a: Action, b: Action)
    requires a.authContext == ctx || a.authContext == null
    requires b.authContext == null
    ensures HandleAfter(ctx, h, [a, b]) == if a.authContext == ctx && HandleWrite(a).Some? then HandleWrite(a).value else h
  {
    assert [a, b][1..] == [b];
    assert [b][1..] == [];
    var next := if a.authContext == ctx && HandleWrite(a).Some? then HandleWrite(a).value else h;
    assert HandleAfter(ctx, h, [a, b]) == HandleAfter(ctx, next, [b]);
    assert HandleAfter(ctx, next, [b]) == HandleAfter(ctx, next, []);
  }

  /** The actions of a start-up log are its first step's action followed by APP_READY. */
  lemma ActionsOfLog(log: seq<Step>)
    requires |log| >= 2 && log[0].Dispatched? && log[|log| - 1] == Dispatched(AppReady)
    requires forall i :: 1 <= i < |log| - 1 ==> log[i].Requested?
    ensures Actions(log) == [log[0].action, AppReady]
  {
    ActionsAppend(log[..1], log[1..]);
    assert log == log[..1] + log[1..];
    RequestsThenReady(log[1..]);
  }

  lemma {:induction false} RequestsThenReady(log: seq<Step>)
    requires |log| >= 1 && log[|log| - 1] == Dispatched(AppReady)
    requires forall i :: 0 <= i < |log| - 1 ==> log[i].Requested?
    ensures Actions(log) == [AppReady]
    decreases |log|
  {
    if |log| > 1 {
      RequestsThenReady(log[1..]);
    }
  }

  /**
   * The end-to-end run: a fresh launch whose restore fails, then an interactive sign-in,
   * then a sign-out, all carrying the same handle. The launch as written, whose
   * MISSING_TOKEN carries no handle, throws instead.
   */
  lemma FreshLaunchSignInSignOut(ctx: AuthContext, u: User)
    ensures Replay(InitialState, [Action(MissingTokenKind, None, null), AppReady]) == Failure(TypeError)
    ensures Replay(InitialState, [Action(MissingTokenKind, None, ctx), AppReady])
            == Success(SessionState(false, false, None))
    ensures Replay(SessionState(false, false, None), [Action(SignInKind, Some(u), ctx)])
            == Success(SessionState(false, false, Some(u)))
    ensures Replay(SessionState(false, false, Some(u)), [Action(SignOutKind, None, ctx)])
            == Success(SessionState(false, true, None))
  {
    ReplayPair(InitialState, Action(MissingTokenKind, None, ctx), AppReady);
    ReplayPair(InitialState, Action(MissingTokenKind, None, null), AppReady);
  }
}

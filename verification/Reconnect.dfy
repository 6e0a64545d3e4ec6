/** The service thread's reconnect loop: host cycling, token refresh, backoff and suspension. */
module Reconnect {
  import opened Bytes

  const FALLBACKS := 5
  const HOSTS := 6

  datatype ConnState = Initialized | Connecting | Connected | Disconnected | Suspended | Closed | Failed

  /** How one attempt to connect went. */
  datatype Attempt =
    | Refused
      /** The event loop ran and ended. `connected`: a CONNECTED frame was dispatched; `refresh`: a token error after
          the last of them, or without one; `state`: the connection state then; `close`: close had been requested. */
    | Ran(connected: bool, refresh: bool, state: ConnState, close: bool)

  /** What the environment decides during one turn of the loop. */
  datatype Env = Env(
    closeAtTop: bool,      // close had been requested when the turn began
    attempt: Attempt,
    tokenOk: bool,         // the auth callback, if it is called, returned a token
    closeAtSkip: bool,     // close had been requested by the check after a skipped backoff
    closeAtWait: bool)     // close had been requested when the backoff wait was due

  /** What a turn did: `host` is the index connected to; `waited` says that a timed wait happened. */
  datatype Turn = Exited(tried: Option<nat>) | Again(host: nat, waited: bool)

  datatype Options = Options(maxAttempts: int, hasAuth: bool)

  /** The loop's variables at the top of a turn. */
  datatype Loop = Loop(host: nat, attempts: nat, skipBackoff: bool, needRefresh: bool)

  // ---------------------------------------------------------------- the loop as a function

  /** A new client. */
  const FRESH := Loop(0, 0, false, false)

  /** The check when the event loop has ended. */
  predicate Stops(a: Attempt)
  {
    a.Ran? && (a.close || a.state.Failed? || a.state.Closed?)
  }

  /** The variables when the connection is gone; without an auth callback no token error asks for a refresh. */
  function AfterAttempt(o: Options, l: Loop, a: Attempt): Loop
  {
    match a
    case Refused => l
    case Ran(connected, refresh, _, _) =>
      if connected then l.(host := 0, attempts := 0, needRefresh := refresh && o.hasAuth)
      else l.(needRefresh := l.needRefresh || (refresh && o.hasAuth))
  }

  function AfterRefresh(o: Options, l: Loop, tokenOk: bool): Loop
  {
    if l.needRefresh && o.hasAuth then l.(needRefresh := false, skipBackoff := l.skipBackoff || tokenOk) else l
  }

  predicate Suspends(o: Options, l: Loop)
  {
    o.maxAttempts > 0 && l.attempts >= o.maxAttempts
  }

  function AllHostsTried(o: Options, l: Loop, tried: nat, e: Env): (Turn, Loop)
  {
    var suspended := Suspends(o, l);
    var l1 := l.(host := 0, attempts := if suspended then 0 else l.attempts);
    if l1.skipBackoff then
      (if e.closeAtSkip then Exited(Some(tried)) else Again(tried, suspended), l1.(skipBackoff := false))
    else (Again(tried, suspended || !e.closeAtWait), l1.(attempts := l1.attempts + 1))
  }

  /** A token refresh, then the next host, or what follows the last one. */
  function Disconnection(o: Options, l: Loop, tried: nat, e: Env): (Turn, Loop)
  {
    var l1 := AfterRefresh(o, l, e.tokenOk);
    if l1.host < FALLBACKS then (Again(tried, false), l1.(host := l1.host + 1))
    else AllHostsTried(o, l1, tried, e)
  }

  function TurnOf(o: Options, l: Loop, e: Env): (Turn, Loop)
  {
    if e.closeAtTop then (Exited(None), l)
    else if Stops(e.attempt) then (Exited(Some(l.host)), AfterAttempt(o, l, e.attempt))
    else Disconnection(o, AfterAttempt(o, l, e.attempt), l.host, e)
  }

  /** The connection state that a turn leaves. */
  function StateAfter(o: Options, l: Loop, e: Env): ConnState
  {
    if e.closeAtTop then Closed
    else if Stops(e.attempt) then e.attempt.state
    else
      var l1 := AfterAttempt(o, l, e.attempt);
      if l1.host >= FALLBACKS && Suspends(o, l1) then Suspended else Disconnected
  }

  /** The turns up to and including the one that leaves the loop. */
  function Turns(o: Options, l: Loop, es: seq<Env>): seq<Turn>
    decreases |es|
  {
    if es == [] then []
    else
      var (t, l') := TurnOf(o, l, es[0]);
      [t] + if t.Exited? then [] else Turns(o, l', es[1..])
  }

  /** The variables after those turns. */
  function Final(o: Options, l: Loop, es: seq<Env>): Loop
    decreases |es|
  {
    if es == [] then l
    else
      var (t, l') := TurnOf(o, l, es[0]);
      if t.Exited? then l' else Final(o, l', es[1..])
  }

  // ---------------------------------------------------------------- the loop itself

  class Service {
    const opts: Options
    var host: nat
    var attempts: nat
    var skipBackoff: bool
    var needRefresh: bool
    var state: ConnState

    ghost function View(): Loop
      reads this
    {
      Loop(host, attempts, skipBackoff, needRefresh)
    }

    constructor (opts: Options)
      ensures View() == FRESH && this.opts == opts && state == Initialized
    {
      this.opts, host, attempts, skipBackoff, needRefresh, state := opts, 0, 0, false, false, Initialized;
    }

    /** Frames dispatched by the event loop, as far as the loop's variables and the state go. */
    method RunConnection(a: Attempt)
      requires a.Ran?
      modifies this
      ensures View() == AfterAttempt(opts, old(View()), a) && state == a.state
    {
      if a.connected {
        host, needRefresh, attempts := 0, false, 0;
      }
      if a.refresh && opts.hasAuth {
        needRefresh := true;
      }
      state := a.state;
    }

    /** The auth callback, when a token error asked for it. */
    method RefreshToken(tokenOk: bool)
      modifies this`needRefresh, this`skipBackoff
      ensures View() == AfterRefresh(opts, old(View()), tokenOk)
    {
      if needRefresh && opts.hasAuth {
        needRefresh := false;
        if tokenOk {
          skipBackoff := true;
        }
      }
    }

    /** All hosts have failed: suspend if the attempts are used up, then skip the backoff or wait it out. */
    method WaitOrSkip(tried: nat, e: Env) returns (turn: Turn)
      requires host == 0
      modifies this`attempts, this`skipBackoff, this`state
      ensures (turn, View()) == AllHostsTried(opts, old(View()), tried, e)
      ensures state == if Suspends(opts, old(View())) then Suspended else old(state)
    {
      var waited := false;
      if opts.maxAttempts > 0 && attempts >= opts.maxAttempts {
        state := Suspended;
        waited := true;
        attempts := 0;
      }
      if skipBackoff {
        skipBackoff := false;
        if e.closeAtSkip {
          return Exited(Some(tried));
        }
        return Again(tried, waited);
      }
      attempts := attempts + 1;
      if !e.closeAtWait {
        waited := true;
      }
      return Again(tried, waited);
    }

    /** One turn of the loop; `waited` is set by either of the two timed waits. */
    method OneTurn(e: Env) returns (turn: Turn)
      requires host <= FALLBACKS
      modifies this
      ensures (turn, View()) == TurnOf(opts, old(View()), e) && host <= FALLBACKS
      ensures state == StateAfter(opts, old(View()), e)
    {
      if e.closeAtTop {
        state := Closed;
        return Exited(None);
      }
      state := Connecting;
      var tried := host;
      if e.attempt.Ran? {
        RunConnection(e.attempt);
        if e.attempt.close || state == Failed || state == Closed {
          return Exited(Some(tried));
        }
      }
      turn := Disconnect(tried, e);
    }

    /** The connection is gone, or was not made. */
    method Disconnect(tried: nat, e: Env) returns (turn: Turn)
      requires host <= FALLBACKS
      modifies this
      ensures (turn, View()) == Disconnection(opts, old(View()), tried, e) && host <= FALLBACKS
      ensures state == if old(host) == FALLBACKS && Suspends(opts, old(View())) then Suspended else Disconnected
    {
      state := Disconnected;
      RefreshToken(e.tokenOk);
      if host <= FALLBACKS {
        host := host + 1;
        if host <= FALLBACKS {
          return Again(tried, false);
        }
        host := 0;
      }
      turn := WaitOrSkip(tried, e);
    }

    /**
     * The service thread against any environment. A client that is closed and connected again runs it once
     * more with the variables that the last run left.
     */
    method Serve(es: seq<Env>) returns (turns: seq<Turn>)
      requires host <= FALLBACKS
      modifies this
      ensures turns == Turns(opts, old(View()), es) && View() == Final(opts, old(View()), es)
      ensures host <= FALLBACKS
    {
      turns := [];
      ghost var l := View();
      var i: nat := 0;
      assert es[0..] == es && [] + Turns(opts, l, es) == Turns(opts, l, es);
      while i < |es|
        invariant i <= |es| && host <= FALLBACKS
        invariant Turns(opts, l, es) == turns + Turns(opts, View(), es[i..])
        invariant Final(opts, l, es) == Final(opts, View(), es[i..])
      {
        assert es[i..][1..] == es[i + 1..];
        var turn := OneTurn(es[i]);
        i := i + 1;
        if turn.Exited? {
          turns := turns + [turn];
          return;
        }
        Assoc(turns, [turn], Turns(opts, View(), es[i..]));
        turns := turns + [turn];
      }
      assert turns + [] == turns;
    }
  }

  // ---------------------------------------------------------------- cycling

  /** An attempt that does not get as far as CONNECTED, and after which the loop goes on. */
  predicate Fails(a: Attempt)
  {
    a.Refused? || (!a.connected && !Stops(a))
  }

  /** After a failure without a close the next turn tries the next host, after the last the primary again. */
  lemma HostsCycle(o: Options, l: Loop, e: Env)
    requires l.host <= FALLBACKS && !e.closeAtTop && Fails(e.attempt)
    ensures var (t, l') := TurnOf(o, l, e);
            && l'.host == (l.host + 1) % HOSTS
            && t == if t.Exited? then Exited(Some(l.host)) else Again(l.host, t.waited)
  {
  }

  /** A connection that was up and is lost: the next host tried is the first fallback, not the primary. */
  lemma LostConnectionTriesFallback(o: Options, l: Loop, e: Env, next: Env)
    requires !e.closeAtTop && e.attempt.Ran? && e.attempt.connected && !Stops(e.attempt)
    requires !next.closeAtTop
    ensures var ts := Turns(o, l, [e, next]);
            && |ts| == 2 && ts[0] == Again(l.host, false)
            && if ts[1].Exited? then ts[1].tried == Some(1) else ts[1].host == 1
  {
    var (t, l') := TurnOf(o, l, e);
    assert [e, next][1..] == [next];
    assert Turns(o, l', [next])[0] == TurnOf(o, l', next).0;
  }

  /** Every host index that a run connects to is in range. */
  lemma {:induction false} HostsInRange(o: Options, l: Loop, es: seq<Env>, k: nat)
    requires l.host <= FALLBACKS && k < |Turns(o, l, es)|
    ensures match Turns(o, l, es)[k]
            case Exited(tried) => tried.Some? ==> tried.value <= 5
            case Again(host, _) => host <= 5
    decreases k
  {
    var (t, l') := TurnOf(o, l, es[0]);
    assert Turns(o, l, es)[0] == t;
    if k > 0 {
      assert Turns(o, l, es) == [t] + Turns(o, l', es[1..]);
      HostsInRange(o, l', es[1..], k - 1);
    }
  }

  /** Consecutive failures. */
  predicate AllFail(es: seq<Env>)
  {
    forall i :: 0 <= i < |es| ==> !es[i].closeAtTop && Fails(es[i].attempt)
  }

  lemma CycleStep(host: nat, k: nat)
    requires k > 0
    ensures ((host + 1) % HOSTS + (k - 1)) % HOSTS == (host + k) % HOSTS
  {
  }

  /** The `k`th of consecutive failures is at the host `k` places further round the cycle. */
  lemma {:induction false} FailuresVisitHostsInTurn(o: Options, l: Loop, es: seq<Env>, k: nat)
    requires l.host <= FALLBACKS && AllFail(es) && k < |Turns(o, l, es)|
    ensures var t := Turns(o, l, es)[k];
            if t.Exited? then t.tried == Some((l.host + k) % 6) else t.host == (l.host + k) % 6
    decreases k
  {
    var (t, l') := TurnOf(o, l, es[0]);
    HostsCycle(o, l, es[0]);
    assert Turns(o, l, es)[0] == t;
    if k > 0 {
      assert Turns(o, l, es) == [t] + Turns(o, l', es[1..]);
      FailuresVisitHostsInTurn(o, l', es[1..], k - 1);
      CycleStep(l.host, k);
    }
  }

  // ---------------------------------------------------------------- loop tops

  /** Every turn of the run goes on. */
  predicate GoesOn(o: Options, l: Loop, es: seq<Env>)
    decreases |es|
  {
    es == [] || (TurnOf(o, l, es[0]).0.Again? && GoesOn(o, TurnOf(o, l, es[0]).1, es[1..]))
  }

  /** A loop top of the first run of a client: a refreshed token has already moved the host index on. */
  predicate Top(o: Options, l: Loop)
  {
    l.host <= FALLBACKS && !l.needRefresh && (l.skipBackoff ==> l.host >= 1 && o.hasAuth)
  }

  /** A loop top of any run: a run that was closed may leave a refresh behind, with any host. */
  predicate AnyTop(o: Options, l: Loop)
  {
    l.host <= FALLBACKS && (l.skipBackoff || l.needRefresh ==> o.hasAuth)
  }

  lemma TurnKeepsTop(o: Options, l: Loop, e: Env)
    ensures Top(o, l) && TurnOf(o, l, e).0.Again? ==> Top(o, TurnOf(o, l, e).1)
    ensures AnyTop(o, l) ==> AnyTop(o, TurnOf(o, l, e).1)
  {
  }

  /** Every loop top of a client's first run is a `Top`. */
  lemma {:induction false} FirstRunTops(o: Options, l: Loop, es: seq<Env>)
    requires Top(o, l) && GoesOn(o, l, es)
    ensures Top(o, Final(o, l, es))
    decreases |es|
  {
    if es != [] {
      TurnKeepsTop(o, l, es[0]);
      FirstRunTops(o, TurnOf(o, l, es[0]).1, es[1..]);
    }
  }

  /** Whatever runs went before, a run starts from an `AnyTop` and leaves one. */
  lemma {:induction false} RunsKeepAnyTop(o: Options, l: Loop, es: seq<Env>)
    requires AnyTop(o, l)
    ensures AnyTop(o, Final(o, l, es))
    decreases |es|
  {
    if es != [] {
      TurnKeepsTop(o, l, es[0]);
      if TurnOf(o, l, es[0]).0.Again? {
        RunsKeepAnyTop(o, TurnOf(o, l, es[0]).1, es[1..]);
      }
    }
  }

  /** The variables after several runs of one client, one after another. */
  function Runs(o: Options, l: Loop, lives: seq<seq<Env>>): Loop
    decreases |lives|
  {
    if lives == [] then l else Runs(o, Final(o, l, lives[0]), lives[1..])
  }

  lemma {:induction false} LivesKeepAnyTop(o: Options, l: Loop, lives: seq<seq<Env>>)
    requires AnyTop(o, l)
    ensures AnyTop(o, Runs(o, l, lives))
    decreases |lives|
  {
    if lives != [] {
      RunsKeepAnyTop(o, l, lives[0]);
      LivesKeepAnyTop(o, Final(o, l, lives[0]), lives[1..]);
    }
  }

  // ---------------------------------------------------------------- waits

  /** Failed connects that can still pass before one ends in a timed wait. */
  function Patience(o: Options, l: Loop): nat
    requires l.host <= FALLBACKS
  {
    HOSTS - l.host + if l.skipBackoff || (l.needRefresh && o.hasAuth) then HOSTS else 0
  }

  /** A failure in which no token error asks the auth callback for a new token. */
  predicate FailsPlainly(o: Options, a: Attempt)
  {
    Fails(a) && (a.Ran? && a.refresh ==> !o.hasAuth)
  }

  /** Each plain failure that neither exits nor waits, with no close requested, uses some of it up. */
  lemma FailureUsesPatience(o: Options, l: Loop, e: Env)
    requires l.host <= FALLBACKS && !e.closeAtTop && !e.closeAtWait && FailsPlainly(o, e.attempt)
    ensures var (t, l') := TurnOf(o, l, e);
            l'.host <= FALLBACKS && (t.Again? && !t.waited ==> Patience(o, l') < Patience(o, l))
  {
  }

  /** No turn leaves the loop or waits. */
  predicate Quiet(ts: seq<Turn>)
  {
    forall k :: 0 <= k < |ts| ==> ts[k].Again? && !ts[k].waited
  }

  /** Plain failures with no close requested. */
  predicate Failures(o: Options, es: seq<Env>)
  {
    forall i :: 0 <= i < |es| ==> !es[i].closeAtTop && !es[i].closeAtWait && FailsPlainly(o, es[i].attempt)
  }

  lemma {:induction false} FailuresWithoutWait(o: Options, l: Loop, es: seq<Env>)
    requires l.host <= FALLBACKS && Failures(o, es) && Quiet(Turns(o, l, es))
    ensures |es| < Patience(o, l)
    decreases |es|
  {
    if es != [] {
      var (t, l') := TurnOf(o, l, es[0]);
      assert Turns(o, l, es)[0] == t;
      FailureUsesPatience(o, l, es[0]);
      assert Turns(o, l, es)[1..] == Turns(o, l', es[1..]);
      QuietTail(Turns(o, l, es));
      FailuresWithoutWait(o, l', es[1..]);
    }
  }

  lemma QuietTail(ts: seq<Turn>)
    requires ts != [] && Quiet(ts)
    ensures Quiet(ts[1..])
  {
  }

  /**
   * In the first run of a client, of any eleven consecutive failures one ends in a timed wait or leaves the
   * loop; without an auth callback, of any six.
   */
  lemma {:induction false} FailuresWait(o: Options, before: seq<Env>, failures: seq<Env>)
    requires GoesOn(o, FRESH, before) && Failures(o, failures)
    requires |failures| >= if o.hasAuth then 2 * HOSTS - 1 else HOSTS
    ensures !Quiet(Turns(o, Final(o, FRESH, before), failures))
  {
    FirstRunTops(o, FRESH, before);
    if Quiet(Turns(o, Final(o, FRESH, before), failures)) {
      FailuresWithoutWait(o, Final(o, FRESH, before), failures);
    }
  }

  /** In any later run, of any twelve; without an auth callback, of any six. */
  lemma {:induction false} FailuresWaitAfterRestarts(
    o: Options, lives: seq<seq<Env>>, before: seq<Env>, failures: seq<Env>)
    requires var l := Runs(o, FRESH, lives); GoesOn(o, l, before) && Failures(o, failures)
    requires |failures| >= if o.hasAuth then 2 * HOSTS else HOSTS
    ensures !Quiet(Turns(o, Final(o, Runs(o, FRESH, lives), before), failures))
  {
    var start := Runs(o, FRESH, lives);
    LivesKeepAnyTop(o, FRESH, lives);
    RunsKeepAnyTop(o, start, before);
    if Quiet(Turns(o, Final(o, start, before), failures)) {
      FailuresWithoutWait(o, Final(o, start, before), failures);
    }
  }

  // ---------------------------------------------------------------- the bounds are exact

  const FAILURE := Env(false, Refused, false, false, false)
  /** A connection that ends in a token error, after which the callback returns a token. */
  const REFRESHED := Env(false, Ran(true, true, Disconnected, false), true, false, false)
  /** A connection that ends because the application closes it. */
  const STOPPED := Env(false, Ran(true, false, Closed, true), false, false, false)

  function Repeated(e: Env, n: nat): (es: seq<Env>)
    ensures |es| == n && forall k :: 0 <= k < n ==> es[k] == e
  {
    seq(n, _ => e)
  }

  /** A failure before the last host waits for nothing. */
  lemma QuietStep(o: Options, l: Loop, es: seq<Env>)
    requires l.host < FALLBACKS && !l.needRefresh && es != [] && es[0] == FAILURE
    ensures Turns(o, l, es) == [Again(l.host, false)] + Turns(o, l.(host := l.host + 1), es[1..])
  {
    assert TurnOf(o, l, FAILURE) == (Again(l.host, false), l.(host := l.host + 1));
  }

  lemma QuietCons(t: Turn, ts: seq<Turn>)
    requires t.Again? && !t.waited && Quiet(ts)
    ensures Quiet([t] + ts)
  {
  }

  lemma {:induction false} QuietFailures(o: Options, l: Loop, n: nat, more: seq<Env>)
    requires l.host + n <= FALLBACKS && !l.needRefresh
    requires Quiet(Turns(o, l.(host := l.host + n), more))
    ensures var ts := Turns(o, l, Repeated(FAILURE, n) + more);
            Quiet(ts) && |ts| == n + |Turns(o, l.(host := l.host + n), more)|
    decreases n
  {
    if n == 0 {
      assert Repeated(FAILURE, 0) + more == more;
    } else {
      var es := Repeated(FAILURE, n) + more;
      assert es[1..] == Repeated(FAILURE, n - 1) + more;
      var l' := l.(host := l.host + 1);
      assert l'.(host := l'.host + (n - 1)) == l.(host := l.host + n);
      QuietStep(o, l, es);
      QuietFailures(o, l', n - 1, more);
      QuietCons(Again(l.host, false), Turns(o, l', es[1..]));
    }
  }

  /** With the backoff to be skipped, the failure at the last host does not wait either. */
  lemma QuietRound(o: Options, host: nat)
    requires host <= FALLBACKS
    ensures var n := 2 * HOSTS - 1 - host;
            var ts := Turns(o, Loop(host, 0, true, false), Repeated(FAILURE, n));
            Quiet(ts) && |ts| == n
  {
    var n: nat := FALLBACKS - host;
    var last := [FAILURE] + Repeated(FAILURE, FALLBACKS);
    QuietFailures(o, FRESH, FALLBACKS, []);
    assert Repeated(FAILURE, FALLBACKS) + [] == Repeated(FAILURE, FALLBACKS);
    assert last[1..] == Repeated(FAILURE, FALLBACKS);
    var end := Loop(FALLBACKS, 0, true, false);
    assert TurnOf(o, end, FAILURE) == (Again(FALLBACKS, false), FRESH);
    assert Turns(o, end, last) == [Again(FALLBACKS, false)] + Turns(o, FRESH, last[1..]);
    QuietFailures(o, Loop(host, 0, true, false), n, last);
    assert Repeated(FAILURE, n) + last == Repeated(FAILURE, 2 * HOSTS - 1 - host);
  }

  /** Ten failures after a refresh in the first run, eleven after a restart, five without a callback. */
  lemma {:induction false} BoundsAreExact(o: Options)
    ensures GoesOn(o, FRESH, [REFRESHED])
    ensures o.hasAuth ==>
              var ts := Turns(o, Final(o, FRESH, [REFRESHED]), Repeated(FAILURE, 2 * HOSTS - 2));
              Quiet(ts) && |ts| == 2 * HOSTS - 2
    ensures o.hasAuth ==>
              var ts := Turns(o, Runs(o, FRESH, [[REFRESHED, STOPPED]]), Repeated(FAILURE, 2 * HOSTS - 1));
              Quiet(ts) && |ts| == 2 * HOSTS - 1
    ensures Quiet(Turns(o, FRESH, Repeated(FAILURE, HOSTS - 1)))
    ensures |Turns(o, FRESH, Repeated(FAILURE, HOSTS - 1))| == HOSTS - 1
  {
    assert [REFRESHED][1..] == [];
    QuietFailures(o, FRESH, HOSTS - 1, []);
    assert Repeated(FAILURE, HOSTS - 1) + [] == Repeated(FAILURE, HOSTS - 1);
    if o.hasAuth {
      assert Final(o, FRESH, [REFRESHED]) == Loop(1, 0, true, false);
      QuietRound(o, 1);
      var life := [REFRESHED, STOPPED];
      assert life[1..] == [STOPPED];
      assert Final(o, FRESH, life) == Loop(0, 0, true, false);
      var rest: seq<seq<Env>> := [];
      assert [life][1..] == rest;
      assert Runs(o, FRESH, [life]) == Loop(0, 0, true, false);
      QuietRound(o, 0);
    }
  }

  // ---------------------------------------------------------------- counting attempts

  /** The attempt counter after `j` rounds of all hosts, `m` being the limit. */
  function CountAfter(m: int, j: nat): nat
  {
    if j == 0 then 0 else if m <= 0 then j else (j - 1) % m + 1
  }

  lemma CountStep(m: int, j: nat)
    requires m > 0
    ensures CountAfter(m, j) >= m <==> j > 0 && j % m == 0
    ensures CountAfter(m, j + 1) == if j > 0 && j % m == 0 then 1 else CountAfter(m, j) + 1
  {
    if j > 0 {
      NextRemainder(j - 1, m);
    }
  }

  lemma NextRemainder(k: nat, m: nat)
    requires m > 0
    ensures (k + 1) % m == if k % m == m - 1 then 0 else k % m + 1
  {
    var q, r := k / m, k % m;
    if r == m - 1 {
      assert k + 1 == m * (q + 1);
      RemainderIs(k + 1, m, q + 1, 0);
    } else {
      assert k + 1 == m * q + (r + 1);
      RemainderIs(k + 1, m, q, r + 1);
    }
  }

  lemma RemainderIs(k: nat, m: nat, q: int, r: nat)
    requires r < m && k == m * q + r
    ensures k % m == r
  {
    var d := k / m - q;
    assert m * d == r - k % m;
    assert d == 0;
  }

  /** The loop's variables after `n` failures of a new client. */
  function Counted(o: Options, n: nat): Loop
  {
    Loop(n % HOSTS, CountAfter(o.maxAttempts, n / HOSTS), false, false)
  }

  /** The failures that suspend the client: the last of a round of all hosts, every `m` rounds after the first. */
  predicate SuspendsAt(m: int, n: nat)
  {
    m > 0 && n % HOSTS == 0 && n / HOSTS >= 2 && (n / HOSTS - 1) % m == 0
  }

  lemma CountedStep(o: Options, n: nat, e: Env)
    requires Failures(o, [e])
    ensures TurnOf(o, Counted(o, n), e).0.Again? && TurnOf(o, Counted(o, n), e).1 == Counted(o, n + 1)
    ensures StateAfter(o, Counted(o, n), e) == if SuspendsAt(o.maxAttempts, n + 1) then Suspended else Disconnected
  {
    assert FailsPlainly(o, [e][0].attempt) && ![e][0].closeAtTop;
    var j := n / HOSTS;
    if n % HOSTS == FALLBACKS {
      assert (n + 1) / HOSTS == j + 1 && (n + 1) % HOSTS == 0;
      if o.maxAttempts > 0 {
        CountStep(o.maxAttempts, j);
      }
    } else {
      assert (n + 1) / HOSTS == j && (n + 1) % HOSTS == n % HOSTS + 1;
    }
  }

  lemma {:induction false} FailuresAreCounted(o: Options, n: nat, es: seq<Env>)
    requires Failures(o, es)
    ensures GoesOn(o, Counted(o, n), es) && Final(o, Counted(o, n), es) == Counted(o, n + |es|)
    decreases |es|
  {
    if es != [] {
      assert Failures(o, [es[0]]) && Failures(o, es[1..]);
      CountedStep(o, n, es[0]);
      FailuresAreCounted(o, n + 1, es[1..]);
    }
  }

  /**
   * Consecutive failures of a new client, no token error among them: failure number 6 * (k * m + 1) for each k > 0
   * suspends it, `m` being its maximum of attempts, and no other; without a maximum none does.
   */
  lemma {:induction false} FailuresSuspend(o: Options, es: seq<Env>, e: Env)
    requires Failures(o, es + [e])
    ensures StateAfter(o, Final(o, FRESH, es), e) ==
            if SuspendsAt(o.maxAttempts, |es| + 1) then Suspended else Disconnected
  {
    assert (es + [e])[..|es|] == es && (es + [e])[|es|] == e;
    assert Failures(o, es) by {
      assert forall i :: 0 <= i < |es| ==> es[i] == (es + [e])[i];
    }
    assert Failures(o, [e]) by {
      assert [e][0] == (es + [e])[|es|];
    }
    FailuresAreCounted(o, 0, es);
    CountedStep(o, |es|, e);
  }

  predicate RoundOf(m: nat, k: nat, n: nat)
  {
    k > 0 && n == HOSTS * (k * m + 1)
  }

  lemma {:induction false} SuspendsAtRounds(m: nat, n: nat)
    requires m > 0
    ensures SuspendsAt(m, n) <==> exists k: nat :: RoundOf(m, k, n)
  {
    if SuspendsAt(m, n) {
      var k := (n / HOSTS - 1) / m;
      assert n / HOSTS - 1 == m * k;
      assert RoundOf(m, k, n);
    }
    if k: nat :| RoundOf(m, k, n) {
      var p := k * m;
      assert p >= 1 by {
        assert (k - 1) * m >= 0;
      }
      RemainderIs(p, m, k, 0);
      assert n == HOSTS * (p + 1);
      assert n / HOSTS == p + 1 && n % HOSTS == 0;
    }
  }

  /**
   * A connection that was up and is lost counts as a first failure, whatever the count was, unless a backoff is
   * still to be skipped.
   */
  lemma {:induction false} ConnectedCountsAgain(o: Options, l: Loop, up: Env, es: seq<Env>, e: Env)
    requires !up.closeAtTop && up.attempt.Ran? && up.attempt.connected && !up.attempt.refresh && !Stops(up.attempt)
    requires !l.skipBackoff && Failures(o, es + [e])
    ensures StateAfter(o, l, up) == Disconnected
    ensures StateAfter(o, Final(o, TurnOf(o, l, up).1, es), e) ==
            if SuspendsAt(o.maxAttempts, |es| + 2) then Suspended else Disconnected
  {
    assert TurnOf(o, l, up).1 == Counted(o, 1);
    assert Failures(o, es) by {
      assert forall i :: 0 <= i < |es| ==> es[i] == (es + [e])[i];
    }
    assert Failures(o, [e]) by {
      assert [e][0] == (es + [e])[|es|];
    }
    FailuresAreCounted(o, 1, es);
    CountedStep(o, |es| + 1, e);
  }

  // ---------------------------------------------------------------- one turn, case by case

  /** A token error whose callback brings no token is a failure like any other, and asks only once. */
  lemma FailedRenewalIsPlain(o: Options, l: Loop, e: Env)
    requires !l.needRefresh && !e.closeAtTop && Fails(e.attempt) && !e.tokenOk
    ensures TurnOf(o, l, e) == TurnOf(o, l, e.(attempt := Refused))
  {
  }

  /** A token error whose callback brings one asks for the next backoff to be skipped; without a callback nothing. */
  lemma RenewalSkipsBackoff(o: Options, l: Loop, e: Env)
    requires !l.needRefresh && l.host < FALLBACKS && !e.closeAtTop && Fails(e.attempt)
    requires e.attempt.Ran? && e.attempt.refresh && e.tokenOk
    ensures TurnOf(o, l, e) ==
            (Again(l.host, false), Loop(l.host + 1, l.attempts, l.skipBackoff || o.hasAuth, false))
  {
  }

  /** At the last host a backoff to be skipped is skipped once, and a close is then seen at once. */
  lemma SkipIsUsedUp(o: Options, attempts: nat, e: Env)
    requires !e.closeAtTop && e.attempt.Refused?
    requires o.maxAttempts <= 0 || attempts < o.maxAttempts
    ensures TurnOf(o, Loop(5, attempts, true, false), e) ==
            (if e.closeAtSkip then Exited(Some(5)) else Again(5, false), Loop(0, attempts, false, false))
  {
  }

  /** Without one there is a wait, unless a close was requested; the attempt is counted in any case. */
  lemma WaitIsCounted(o: Options, attempts: nat, e: Env)
    requires !e.closeAtTop && e.attempt.Refused?
    requires o.maxAttempts <= 0 || attempts < o.maxAttempts
    ensures TurnOf(o, Loop(5, attempts, false, false), e) ==
            (Again(5, !e.closeAtWait), Loop(0, attempts + 1, false, false))
  {
  }

  /** With the attempts used up the client is suspended and waits, and the count starts over. */
  lemma SuspensionWaits(o: Options, attempts: nat, skip: bool, e: Env)
    requires !e.closeAtTop && e.attempt.Refused? && 0 < o.maxAttempts <= attempts
    ensures StateAfter(o, Loop(5, attempts, skip, false), e) == Suspended
    ensures TurnOf(o, Loop(5, attempts, skip, false), e) ==
            (if skip && e.closeAtSkip then Exited(Some(5)) else Again(5, true),
             Loop(0, if skip then 0 else 1, false, false))
  {
  }

  /** A close seen at the top ends in CLOSED; one seen when a connection has ended leaves the state to its frames. */
  lemma ClosesLeave(o: Options, l: Loop, e: Env)
    ensures e.closeAtTop ==> TurnOf(o, l, e) == (Exited(None), l) && StateAfter(o, l, e) == Closed
    ensures !e.closeAtTop && e.attempt.Ran? && (e.attempt.close || e.attempt.state in {Failed, Closed}) ==>
              TurnOf(o, l, e).0 == Exited(Some(l.host)) && StateAfter(o, l, e) == e.attempt.state
  {
  }

  // ---------------------------------------------------------------- what defeats every bound

  /** A token error before CONNECTED, after which the callback returns a token. */
  const RENEWED := Env(false, Ran(false, true, Connecting, false), true, false, false)
  /** A connection that is made and lost. */
  const LOST := Env(false, Ran(true, false, Disconnected, false), false, false, false)

  lemma RenewalIsQuiet(o: Options, l: Loop)
    requires o.hasAuth && l.host <= FALLBACKS && l.attempts == 0
    ensures var (t, l') := TurnOf(o, l, RENEWED); t.Again? && !t.waited && l'.host <= FALLBACKS && l'.attempts == 0
  {
  }

  /** With an auth callback, token errors alone can keep the loop from ever waiting. */
  lemma {:induction false} RenewalsNeverWait(o: Options, l: Loop, n: nat)
    requires o.hasAuth && l.host <= FALLBACKS && l.attempts == 0
    ensures var ts := Turns(o, l, Repeated(RENEWED, n)); Quiet(ts) && |ts| == n
    decreases n
  {
    if n > 0 {
      var (t, l') := TurnOf(o, l, RENEWED);
      RenewalIsQuiet(o, l);
      assert Repeated(RENEWED, n)[1..] == Repeated(RENEWED, n - 1);
      RenewalsNeverWait(o, l', n - 1);
      QuietCons(t, Turns(o, l', Repeated(RENEWED, n - 1)));
    }
  }

  /** And so can connections that are made and lost, callback or not. */
  lemma {:induction false} LossesNeverWait(o: Options, l: Loop, n: nat)
    ensures var ts := Turns(o, l, Repeated(LOST, n)); Quiet(ts) && |ts| == n
    decreases n
  {
    if n > 0 {
      var (t, l') := TurnOf(o, l, LOST);
      assert Repeated(LOST, n)[1..] == Repeated(LOST, n - 1);
      LossesNeverWait(o, l', n - 1);
      QuietCons(t, Turns(o, l', Repeated(LOST, n - 1)));
    }
  }

  // ---------------------------------------------------------------- close

  /** Connect attempts among turns. */
  function Attempts(ts: seq<Turn>): nat
  {
    if ts == [] then 0 else Attempts(ts[1..]) + if ts[0] == Exited(None) then 0 else 1
  }

  /** Close is requested during turn `k`, so every later turn begins with it. */
  predicate ClosedDuring(es: seq<Env>, k: nat)
  {
    forall i :: k < i < |es| ==> es[i].closeAtTop
  }

  /** After a close request at most the connect in flight still happens. */
  lemma {:induction false} CloseEndsTheLoop(o: Options, l: Loop, es: seq<Env>, k: nat)
    requires k < |es| && ClosedDuring(es, k)
    ensures |Turns(o, l, es)| <= k + 2 && Attempts(Turns(o, l, es)) <= k + 1
    ensures |Turns(o, l, es)| == k + 2 ==> Turns(o, l, es)[k + 1] == Exited(None)
    decreases k
  {
    var (t, l') := TurnOf(o, l, es[0]);
    var ts := Turns(o, l, es);
    if !t.Exited? {
      assert ts[1..] == Turns(o, l', es[1..]);
      if k > 0 {
        CloseEndsTheLoop(o, l', es[1..], k - 1);
      } else {
        assert Turns(o, l', es[1..]) == if |es| > 1 then [Exited(None)] else [];
        assert Attempts(ts[1..]) == 0;
      }
    } else {
      assert ts[1..] == [];
    }
  }
}

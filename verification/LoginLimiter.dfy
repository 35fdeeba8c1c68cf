/**
 Login rate limiting per client address and lockout per account. The limiter keeps only a pruned
 window of failures; what it promises is a rule about the whole history of attempts.
 */
module LoginLimiter {
  import opened Common

  const WINDOW := 60
  const MAX_FAILURES := 3
  const BLOCK := 300
  const LOCKOUT_FAILURES := 5
  const LOCKOUT := 1800

  /** How an attempt ended. A failure is recorded against the address; a refusal (inactive or locked) is not. */
  datatype Verdict = RateLimited | Refused | Failed(blocks: bool, locks: bool) | Succeeded

  datatype Attempt = Attempt(ip: string, user: string, time: int, verdict: Verdict)

  // ----- the history rule -----

  predicate IsFailure(a: Attempt, ip: string) {
    a.ip == ip && a.verdict.Failed?
  }

  /** A success or a block wipes the slate of its address. */
  predicate Resets(a: Attempt, ip: string) {
    a.ip == ip && (a.verdict.Succeeded? || (a.verdict.Failed? && a.verdict.blocks))
  }

  /** The times of the recorded failures of an address since its last success or block. */
  function Standing(log: seq<Attempt>, ip: string): seq<int> {
    if log == [] then []
    else
      var init, last := log[..|log| - 1], log[|log| - 1];
      if Resets(last, ip) then []
      else if IsFailure(last, ip) then Standing(init, ip) + [last.time]
      else Standing(init, ip)
  }

  /** When the address was last blocked. */
  function LastBlock(log: seq<Attempt>, ip: string): Option<int> {
    if log == [] then None
    else
      var init, last := log[..|log| - 1], log[|log| - 1];
      if last.ip == ip && last.verdict.Failed? && last.verdict.blocks then Some(last.time) else LastBlock(init, ip)
  }

  /** The failures less than a window old at time `now`. */
  function Recent(times: seq<int>, now: int): seq<int> {
    if times == [] then []
    else
      var init, last := Recent(times[..|times| - 1], now), times[|times| - 1];
      if now - last < WINDOW then init + [last] else init
  }

  predicate Blocked(log: seq<Attempt>, ip: string, now: int) {
    var b := LastBlock(log, ip);
    b.Some? && now < b.value + BLOCK
  }

  /** Consecutive recorded failures of an account since its last success. */
  function FailuresInARow(log: seq<Attempt>, user: string): nat {
    if log == [] then 0
    else
      var init, last := log[..|log| - 1], log[|log| - 1];
      if last.user != user then FailuresInARow(init, user)
      else if last.verdict.Succeeded? then 0
      else FailuresInARow(init, user) + if last.verdict.Failed? then 1 else 0
  }

  /**
   The rule for one attempt: it is rate limited exactly while the address is blocked, and a recorded
   failure blocks exactly when, with it, three failures since the last success or block lie within a window.
   */
  predicate Follows(log: seq<Attempt>, a: Attempt) {
    && (a.verdict.RateLimited? <==> Blocked(log, a.ip, a.time))
    && (a.verdict.Failed? ==>
          (a.verdict.blocks <==> |Recent(Standing(log, a.ip) + [a.time], a.time)| >= MAX_FAILURES))
  }

  ghost predicate Lawful(log: seq<Attempt>) {
    forall i :: 0 <= i < |log| ==> Follows(log[..i], log[i])
  }

  ghost predicate InOrder(log: seq<Attempt>) {
    forall i, j :: 0 <= i < j < |log| ==> log[i].time <= log[j].time
  }

  // ----- what the limiter keeps -----

  datatype Account = Account(active: bool, lockedUntil: Option<int>)

  function Window(failures: map<string, seq<int>>, ip: string): seq<int> {
    if ip in failures then failures[ip] else []
  }

  function Strikes(lockoutFailures: map<string, nat>, user: string): nat {
    if user in lockoutFailures then lockoutFailures[user] else 0
  }

  function Pruned(times: seq<int>): seq<int> {
    if times == [] then [] else Recent(times, times[|times| - 1])
  }

  /** The list kept for an address: its standing failures that were recent at the newest of them. */
  predicate WindowAgrees(failures: map<string, seq<int>>, log: seq<Attempt>, ip: string) {
    Window(failures, ip) == Pruned(Standing(log, ip))
  }

  /** The expiry kept for an address is that of its last block; a missing one has passed. */
  predicate BlockAgrees(blockedUntil: map<string, int>, log: seq<Attempt>, ip: string) {
    var b := LastBlock(log, ip);
    if ip in blockedUntil then b == Some(blockedUntil[ip] - BLOCK)
    else b.Some? ==> log != [] && b.value + BLOCK <= log[|log| - 1].time
  }

  predicate Locked(a: Account, utcNow: int) {
    a.lockedUntil.Some? && utcNow < a.lockedUntil.value
  }

  /** What a login does to the window of its address: a recorded failure joins it, a block or a success empties it. */
  predicate WindowEffect(a: Attempt, failures0: map<string, seq<int>>, failures: map<string, seq<int>>) {
    match a.verdict
    case Failed(blocks, _) => Window(failures, a.ip)
                              == if blocks then [] else Recent(Window(failures0, a.ip), a.time) + [a.time]
    case Succeeded => a.ip !in failures
    case _ => Window(failures, a.ip) == Window(failures0, a.ip)
  }

  /** What it does to the block of its address: one may start, and an expired one may be forgotten. */
  predicate BlockEffect(a: Attempt, blocked0: map<string, int>, blocked: map<string, int>) {
    if a.verdict.Failed? && a.verdict.blocks then a.ip in blocked && blocked[a.ip] == a.time + BLOCK
    else if a.ip in blocked then a.ip in blocked0 && blocked[a.ip] == blocked0[a.ip]
    else a.ip in blocked0 ==> blocked0[a.ip] <= a.time
  }

  predicate BranchEffect(a: Attempt, failures0: map<string, seq<int>>, failures: map<string, seq<int>>,
                         blocked0: map<string, int>, blocked: map<string, int>) {
    WindowEffect(a, failures0, failures) && BlockEffect(a, blocked0, blocked)
  }

  // ----- the history after one more attempt -----

  lemma HistoryAfter(log: seq<Attempt>, a: Attempt, ip: string, user: string)
    ensures Standing(log + [a], ip) == if Resets(a, ip) then []
                                       else if IsFailure(a, ip) then Standing(log, ip) + [a.time]
                                       else Standing(log, ip)
    ensures LastBlock(log + [a], ip)
            == if IsFailure(a, ip) && a.verdict.blocks then Some(a.time) else LastBlock(log, ip)
    ensures FailuresInARow(log + [a], user) == if a.user != user then FailuresInARow(log, user)
                                               else if a.verdict.Succeeded? then 0
                                               else FailuresInARow(log, user) + if a.verdict.Failed? then 1 else 0
  {
    assert (log + [a])[..|log|] == log;
  }

  lemma {:induction false} StandingInPast(log: seq<Attempt>, ip: string)
    requires InOrder(log)
    ensures log == [] ==> Standing(log, ip) == [] && LastBlock(log, ip).None?
    ensures log != [] ==> NotAfter(Standing(log, ip), log[|log| - 1].time)
    ensures LastBlock(log, ip).Some? ==> log != [] && LastBlock(log, ip).value <= log[|log| - 1].time
  {
    if log == [] {
    } else {
      var init, last := log[..|log| - 1], log[|log| - 1];
      assert forall i, j :: 0 <= i < j < |init| ==> init[i] == log[i] && init[j] == log[j];
      StandingInPast(init, ip);
      assert init != [] ==> init[|init| - 1].time <= last.time;
      assert NotAfter(Standing(init, ip), last.time);
    }
  }

  predicate NotAfter(times: seq<int>, now: int) {
    forall i :: 0 <= i < |times| ==> times[i] <= now
  }

  lemma {:induction false} RecentTwice(times: seq<int>, earlier: int, later: int)
    requires earlier <= later
    ensures Recent(Recent(times, earlier), later) == Recent(times, later)
  {
    if times == [] {
    } else {
      var init, last := times[..|times| - 1], times[|times| - 1];
      RecentTwice(init, earlier, later);
      if earlier - last < WINDOW {
        assert (Recent(init, earlier) + [last])[..|Recent(init, earlier)|] == Recent(init, earlier);
      }
    }
  }

  lemma RecentAppend(times: seq<int>, now: int)
    ensures Recent(times + [now], now) == Recent(times, now) + [now]
    ensures Pruned(times + [now]) == Recent(times + [now], now)
  {
    assert (times + [now])[..|times|] == times;
  }

  /** Pruning the stored list again gives what pruning all standing failures gives. */
  lemma StandingPruned(log: seq<Attempt>, ip: string, now: int)
    requires InOrder(log) && (log != [] ==> log[|log| - 1].time <= now)
    ensures Recent(Pruned(Standing(log, ip)), now) == Recent(Standing(log, ip), now)
    ensures Recent(Standing(log, ip) + [now], now)
            == Recent(Standing(log, ip), now) + [now] == Pruned(Standing(log, ip) + [now])
  {
    hide Recent, Standing, LastBlock;
    var st := Standing(log, ip);
    StandingInPast(log, ip);
    if st != [] {
      RecentTwice(st, st[|st| - 1], now);
    }
    RecentAppend(st, now);
  }

  lemma StillInOrder(log: seq<Attempt>, a: Attempt)
    requires InOrder(log) && (log != [] ==> log[|log| - 1].time <= a.time)
    ensures InOrder(log + [a])
  {
  }

  lemma BlockedIff(blockedUntil: map<string, int>, log: seq<Attempt>, ip: string, now: int)
    requires BlockAgrees(blockedUntil, log, ip) && (log != [] ==> log[|log| - 1].time <= now)
    ensures Blocked(log, ip, now) <==> ip in blockedUntil && now < blockedUntil[ip]
  {
  }

  /** The window of the attempt's own address, verdict by verdict. */
  lemma OwnWindow(log: seq<Attempt>, a: Attempt, failures0: map<string, seq<int>>, failures: map<string, seq<int>>)
    requires InOrder(log) && (log != [] ==> log[|log| - 1].time <= a.time)
    requires WindowAgrees(failures0, log, a.ip) && WindowEffect(a, failures0, failures)
    ensures WindowAgrees(failures, log + [a], a.ip)
  {
    hide Recent, Standing, LastBlock, FailuresInARow, InOrder;
    HistoryAfter(log, a, a.ip, a.user);
    StandingPruned(log, a.ip, a.time);
  }

  /** The block of the attempt's own address. */
  lemma OwnBlock(log: seq<Attempt>, a: Attempt, blocked0: map<string, int>, blocked: map<string, int>)
    requires (log != [] ==> log[|log| - 1].time <= a.time)
    requires BlockAgrees(blocked0, log, a.ip) && BlockEffect(a, blocked0, blocked)
    ensures BlockAgrees(blocked, log + [a], a.ip)
  {
    hide Recent, Standing, LastBlock, FailuresInARow;
    HistoryAfter(log, a, a.ip, a.user);
  }

  lemma OthersTracked(log: seq<Attempt>, a: Attempt, failures0: map<string, seq<int>>, failures: map<string, seq<int>>,
                      blocked0: map<string, int>, blocked: map<string, int>, ip: string)
    requires ip != a.ip && WindowAgrees(failures0, log, ip) && BlockAgrees(blocked0, log, ip)
    requires log != [] ==> log[|log| - 1].time <= a.time
    requires Window(failures, ip) == Window(failures0, ip)
    requires (ip in blocked <==> ip in blocked0) && (ip in blocked ==> blocked[ip] == blocked0[ip])
    ensures WindowAgrees(failures, log + [a], ip) && BlockAgrees(blocked, log + [a], ip)
  {
    HistoryAfter(log, a, ip, a.user);
  }

  /** The dictionaries of every address agree with the history after the attempt. */
  lemma AllTracked(log: seq<Attempt>, a: Attempt, failures0: map<string, seq<int>>, failures: map<string, seq<int>>,
                   blocked0: map<string, int>, blocked: map<string, int>)
    requires InOrder(log) && (log != [] ==> log[|log| - 1].time <= a.time)
    requires forall ip :: WindowAgrees(failures0, log, ip) && BlockAgrees(blocked0, log, ip)
    requires forall ip :: ip != a.ip ==> Window(failures, ip) == Window(failures0, ip)
    requires forall ip :: ip != a.ip ==>
               (ip in blocked <==> ip in blocked0) && (ip in blocked ==> blocked[ip] == blocked0[ip])
    requires BranchEffect(a, failures0, failures, blocked0, blocked)
    ensures forall ip :: WindowAgrees(failures, log + [a], ip) && BlockAgrees(blocked, log + [a], ip)
  {
    hide WindowAgrees, BlockAgrees, WindowEffect, BlockEffect, InOrder;
    forall ip ensures WindowAgrees(failures, log + [a], ip) && BlockAgrees(blocked, log + [a], ip) {
      assert WindowAgrees(failures0, log, ip);
      if ip == a.ip {
        OwnWindow(log, a, failures0, failures);
        OwnBlock(log, a, blocked0, blocked);
      } else {
        OthersTracked(log, a, failures0, failures, blocked0, blocked, ip);
      }
    }
  }

  lemma StrikesTracked(log: seq<Attempt>, a: Attempt, users: set<string>, strikes0: map<string, nat>,
                       strikes: map<string, nat>)
    requires forall u :: u in users ==> Strikes(strikes0, u) == FailuresInARow(log, u)
    requires forall u :: u in users && u != a.user ==> Strikes(strikes, u) == Strikes(strikes0, u)
    requires a.user in users ==>
               Strikes(strikes, a.user) == if a.verdict.Succeeded? then 0
                                           else Strikes(strikes0, a.user) + if a.verdict.Failed? then 1 else 0
    ensures forall u :: u in users ==> Strikes(strikes, u) == FailuresInARow(log + [a], u)
  {
    hide Strikes;
    forall u | u in users ensures Strikes(strikes, u) == FailuresInARow(log + [a], u) {
      HistoryAfter(log, a, a.ip, u);
    }
  }

  /** The limiter's verdicts are the ones the history calls for. */
  lemma AttemptFollows(log: seq<Attempt>, ip: string, user: string, now: int, verdict: Verdict,
                       failures: map<string, seq<int>>)
    requires InOrder(log) && Lawful(log) && (log != [] ==> log[|log| - 1].time <= now)
    requires WindowAgrees(failures, log, ip)
    requires verdict.RateLimited? <==> Blocked(log, ip, now)
    requires verdict.Failed? ==> (verdict.blocks <==> |Recent(Window(failures, ip), now) + [now]| >= MAX_FAILURES)
    ensures InOrder(log + [Attempt(ip, user, now, verdict)]) && Lawful(log + [Attempt(ip, user, now, verdict)])
  {
    hide InOrder;
    var a := Attempt(ip, user, now, verdict);
    var after := log + [a];
    StillInOrder(log, a);
    StandingPruned(log, ip, now);
    assert Follows(log, a) by { hide Recent, Standing, LastBlock; }
    hide Follows, WindowAgrees, Recent, Standing, Blocked;
    forall i | 0 <= i < |after| ensures Follows(after[..i], after[i]) {
      assert after[..i] == log[..i];
      if i == |log| {
        assert log[..i] == log;
      }
    }
  }

  // ----- the limiter -----

  class Limiter {
    var failures: map<string, seq<int>>
    var blockedUntil: map<string, int>
    var lockoutFailures: map<string, nat>
    var users: map<string, Account>
    ghost var log: seq<Attempt>

    constructor (users: map<string, Account>)
      ensures Valid() && log == [] && this.users == users
    {
      failures, blockedUntil, lockoutFailures := map[], map[], map[];
      this.users := users;
      log := [];
    }

    /** The dictionaries hold what the history says, as of the last attempt. */
    ghost predicate Valid()
      reads this
    {
      && InOrder(log) && Lawful(log)
      && (forall ip :: WindowAgrees(failures, log, ip) && BlockAgrees(blockedUntil, log, ip))
      && (forall user :: user in users ==> Strikes(lockoutFailures, user) == FailuresInARow(log, user))
    }

    /** `_is_rate_blocked`, which also forgets a block that has expired. */
    method IsRateBlocked(ip: string, now: int) returns (blocked: bool)
      modifies this`blockedUntil
      ensures blocked <==> ip in old(blockedUntil) && now < old(blockedUntil)[ip]
      ensures blockedUntil
              == if ip in old(blockedUntil) && !blocked then old(blockedUntil) - {ip} else old(blockedUntil)
    {
      if ip !in blockedUntil {
        return false;
      }
      if now >= blockedUntil[ip] {
        blockedUntil := blockedUntil - {ip};
        return false;
      }
      return true;
    }

    /** `_record_rate_failure`: prune, append, and block once the window is full. */
    method RecordRateFailure(ip: string, now: int) returns (blocks: bool)
      modifies this`failures, this`blockedUntil
      ensures var window := Recent(Window(old(failures), ip), now) + [now];
              && (blocks <==> |window| >= 3)
              && failures == old(failures)[ip := if blocks then [] else window]
              && blockedUntil == if blocks then old(blockedUntil)[ip := now + 300] else old(blockedUntil)
    {
      var kept: seq<int> := [];
      var window := Window(failures, ip);
      for i := 0 to |window|
        invariant kept == Recent(window[..i], now)
      {
        assert window[..i + 1][..i] == window[..i];
        if now - window[i] < WINDOW {
          kept := kept + [window[i]];
        }
      }
      assert window[..|window|] == window;
      failures := failures[ip := kept + [now]];
      blocks := |failures[ip]| >= MAX_FAILURES;
      if blocks {
        blockedUntil := blockedUntil[ip := now + BLOCK];
        failures := failures[ip := []];
      }
    }

    /** `_record_login_failure`: the fifth failure in a row, and every one after it, locks the account. */
    method RecordLoginFailure(user: string, utcNow: int) returns (locks: bool)
      requires user in users
      modifies this`lockoutFailures, this`users
      ensures lockoutFailures == old(lockoutFailures)[user := Strikes(old(lockoutFailures), user) + 1]
      ensures locks <==> Strikes(old(lockoutFailures), user) + 1 >= 5
      ensures users == if locks then old(users)[user := old(users)[user].(lockedUntil := Some(utcNow + 1800))]
                       else old(users)
    {
      lockoutFailures := lockoutFailures[user := Strikes(lockoutFailures, user) + 1];
      locks := lockoutFailures[user] >= LOCKOUT_FAILURES;
      if locks {
        users := users[user := users[user].(lockedUntil := Some(utcNow + LOCKOUT))];
      }
    }

    /** The guards of POST /login, in their order. */
    method Decide(ip: string, user: string, passwordOk: bool, now: int, utcNow: int) returns (verdict: Verdict)
      modifies this`failures, this`blockedUntil, this`lockoutFailures, this`users
      ensures verdict.RateLimited? <==> ip in old(blockedUntil) && now < old(blockedUntil)[ip]
      ensures !verdict.RateLimited? ==>
                verdict
                == (if user in old(users) && (!old(users)[user].active || Locked(old(users)[user], utcNow)) then Refused
                            else if user in old(users) && passwordOk then Succeeded
                            else Failed(|Recent(Window(old(failures), ip), now) + [now]| >= 3,
                                        user in old(users)
                                        && Strikes(old(lockoutFailures), user) + 1 >= 5))
      ensures BranchEffect(Attempt(ip, user, now, verdict), old(failures), failures, old(blockedUntil), blockedUntil)
      ensures forall other :: other != ip ==> Window(failures, other) == Window(old(failures), other)
      ensures forall other :: other != ip ==>
                (other in blockedUntil <==> other in old(blockedUntil))
                && (other in blockedUntil ==> blockedUntil[other] == old(blockedUntil)[other])
      ensures forall u :: u != user ==> Strikes(lockoutFailures, u) == Strikes(old(lockoutFailures), u)
      ensures user in users ==>
                Strikes(lockoutFailures, user) == if verdict.Succeeded? then 0
                                                  else Strikes(old(lockoutFailures), user)
                                                       + if verdict.Failed? then 1 else 0
      ensures users == if verdict.Failed? && verdict.locks
                       then old(users)[user := Account(old(users)[user].active, Some(utcNow + 1800))]
                       else old(users)
    {
      hide Recent;
      var blocked := IsRateBlocked(ip, now);
      if blocked {
        verdict := RateLimited;
      } else if user in users && (!users[user].active || Locked(users[user], utcNow)) {
        verdict := Refused;
      } else if user !in users || !passwordOk {
        var blocks := RecordRateFailure(ip, now);
        var locks := false;
        if user in users {
          locks := RecordLoginFailure(user, utcNow);
        }
        verdict := Failed(blocks, locks);
      } else {
        failures := failures - {ip};
        lockoutFailures := lockoutFailures - {user};
        verdict := Succeeded;
      }
    }

    /** Every attempt on a monotonic clock follows the history rule; the fifth failure in a row locks. */
    method Login(ip: string, user: string, passwordOk: bool, now: int, utcNow: int) returns (verdict: Verdict)
      requires Valid() && (log != [] ==> log[|log| - 1].time <= now)
      modifies this
      ensures Valid() && log == old(log) + [Attempt(ip, user, now, verdict)]
      ensures !verdict.RateLimited? ==>
                && (verdict.Refused?
                    <==> user in old(users)
                         && (!old(users)[user].active
                             || (old(users)[user].lockedUntil.Some? && utcNow < old(users)[user].lockedUntil.value)))
                && (verdict.Succeeded? <==> user in old(users) && !verdict.Refused? && passwordOk)
      ensures verdict.Failed? ==>
                (verdict.locks <==> user in old(users) && FailuresInARow(old(log), user) + 1 >= 5)
      ensures users == if verdict.Failed? && verdict.locks
                       then old(users)[user := Account(old(users)[user].active, Some(utcNow + 1800))]
                       else old(users)
    {
      hide InOrder, Lawful, WindowAgrees, BlockAgrees, Recent, Standing, LastBlock, FailuresInARow, BranchEffect,
        Window, Strikes;
      assert WindowAgrees(failures, log, ip) && BlockAgrees(blockedUntil, log, ip);
      BlockedIff(blockedUntil, log, ip, now);
      verdict := Decide(ip, user, passwordOk, now, utcNow);
      ghost var a := Attempt(ip, user, now, verdict);
      AttemptFollows(log, ip, user, now, verdict, old(failures));
      AllTracked(log, a, old(failures), failures, old(blockedUntil), blockedUntil);
      StrikesTracked(log, a, users.Keys, old(lockoutFailures), lockoutFailures);
      log := log + [a];
    }
  }

  // ----- what the rule means -----

  /** Neither a success nor a block of the address from position m on. */
  ghost predicate Quiet(log: seq<Attempt>, ip: string, m: int) {
    forall j :: m <= j < |log| && 0 <= j ==> !Resets(log[j], ip)
  }

  /** One more attempt keeps the earlier positions quiet unless it is a success or a block. */
  lemma QuietStep(log: seq<Attempt>, ip: string)
    requires log != []
    ensures forall m :: 0 <= m < |log| ==>
              (Quiet(log, ip, m) <==> Quiet(log[..|log| - 1], ip, m) && !Resets(log[|log| - 1], ip))
  {
    hide Resets;
    var init := log[..|log| - 1];
    forall m | 0 <= m < |log|
      ensures Quiet(log, ip, m) <==> Quiet(init, ip, m) && !Resets(log[|log| - 1], ip)
    {
      assert forall j :: 0 <= j < |init| ==> init[j] == log[j];
    }
  }

  /** The positions of the standing failures of an address. */
  function StandingAt(log: seq<Attempt>, ip: string): (at: seq<nat>)
    ensures forall i :: 0 <= i < |at| ==> at[i] < |log|
  {
    if log == [] then []
    else
      var init, last := log[..|log| - 1], log[|log| - 1];
      if Resets(last, ip) then []
      else if IsFailure(last, ip) then StandingAt(init, ip) + [|log| - 1]
      else StandingAt(init, ip)
  }

  /** They are failures in order, and exactly those no success or block followed. */
  lemma {:induction false} StandingPositions(log: seq<Attempt>, ip: string)
    ensures var at := StandingAt(log, ip);
            && |at| == |Standing(log, ip)|
            && (forall i :: 0 <= i < |at| ==> IsFailure(log[at[i]], ip) && log[at[i]].time == Standing(log, ip)[i])
            && (forall i, j :: 0 <= i < j < |at| ==> at[i] < at[j])
    ensures forall m :: 0 <= m < |log| ==> (m in StandingAt(log, ip) <==> IsFailure(log[m], ip) && Quiet(log, ip, m))
  {
    if log == [] {
    } else {
      var n := |log| - 1;
      hide IsFailure, Resets;
      StandingPositions(log[..n], ip);
      QuietStep(log, ip);
    }
  }

  /** Three failures of an address, the last at k, none of them followed by a success or block before k. */
  ghost predicate ThreeStanding(log: seq<Attempt>, ip: string, i: nat, j: nat, k: nat) {
    && i < j < k < |log|
    && IsFailure(log[i], ip) && IsFailure(log[j], ip) && IsFailure(log[k], ip)
    && Quiet(log[..k], ip, i)
  }

  predicate Sorted(times: seq<int>) {
    forall i, j :: 0 <= i < j < |times| ==> times[i] <= times[j]
  }

  /** Of sorted times the recent ones are the last: m of them are recent when the m-th from the end is. */
  lemma {:induction false} RecentAtLeast(times: seq<int>, now: int, m: nat)
    requires Sorted(times) && 1 <= m <= |times|
    ensures |Recent(times, now)| >= m <==> now - times[|times| - m] < WINDOW
  {
    var n := |times| - 1;
    var init := times[..n];
    if m > 1 {
      RecentAtLeast(init, now, m - 1);
      assert init[|init| - (m - 1)] == times[|times| - m];
      RecentAtLeast(init, now, 1);
    } else if n > 0 {
      RecentAtLeast(init, now, 1);
    }
  }

  lemma {:induction false} RecentAtMost(times: seq<int>, now: int)
    ensures |Recent(times, now)| <= |times|
  {
    if times == [] {
    } else {
      RecentAtMost(times[..|times| - 1], now);
    }
  }

  lemma StandingSorted(log: seq<Attempt>, ip: string)
    requires InOrder(log)
    ensures Sorted(Standing(log, ip))
  {
    StandingPositions(log, ip);
  }

  /** Two recent standing failures are two positions that no success or block followed. */
  lemma RecentPairStands(log: seq<Attempt>, ip: string, now: int) returns (i: nat, j: nat)
    requires InOrder(log) && |Recent(Standing(log, ip), now)| >= 2
    ensures i < j < |log| && IsFailure(log[i], ip) && IsFailure(log[j], ip) && Quiet(log, ip, i)
    ensures now - log[i].time < WINDOW
  {
    hide Standing, Recent, StandingAt, Resets;
    var st, at := Standing(log, ip), StandingAt(log, ip);
    StandingPositions(log, ip);
    StandingSorted(log, ip);
    RecentAtMost(st, now);
    RecentAtLeast(st, now, 2);
    i, j := at[|st| - 2], at[|st| - 1];
    assert i in at && j in at;
  }

  /**
   A block starts exactly with a failure that is the third within a window, counting from the last
   success or block.
   */
  lemma BlockStartsIff(log: seq<Attempt>, k: nat)
    requires Lawful(log) && InOrder(log) && k < |log| && log[k].verdict.Failed?
    ensures log[k].verdict.blocks <==>
              exists i: nat, j: nat :: ThreeStanding(log, log[k].ip, i, j, k) && log[k].time - log[i].time < 60
  {
    hide Standing, Recent, LastBlock, Quiet;
    var ip, now, past := log[k].ip, log[k].time, log[..k];
    assert Follows(past, log[k]);
    assert InOrder(past);
    RecentAppend(Standing(past, ip), now);
    if log[k].verdict.blocks {
      var i, j := RecentPairStands(past, ip, now);
      assert ThreeStanding(log, ip, i, j, k);
    } else if i: nat, j: nat :| ThreeStanding(log, ip, i, j, k) && now - log[i].time < WINDOW {
      StandingPairIsRecent(past, ip, i, j, now);
    }
  }

  /** Where a failure that still stands is found among the standing ones. */
  lemma StandsAt(log: seq<Attempt>, ip: string, m: nat) returns (p: nat)
    requires m < |log| && IsFailure(log[m], ip) && Quiet(log, ip, m)
    ensures p < |StandingAt(log, ip)| == |Standing(log, ip)|
    ensures StandingAt(log, ip)[p] == m && Standing(log, ip)[p] == log[m].time
  {
    hide Standing, StandingAt, Quiet;
    StandingPositions(log, ip);
    assert m in StandingAt(log, ip);
    p :| p < |StandingAt(log, ip)| && StandingAt(log, ip)[p] == m;
  }

  lemma StandingInOrder(log: seq<Attempt>, ip: string, p: nat, q: nat)
    requires p < |StandingAt(log, ip)| && q < |StandingAt(log, ip)| && StandingAt(log, ip)[p] < StandingAt(log, ip)[q]
    ensures p < q
  {
    hide Standing, StandingAt, Quiet;
    StandingPositions(log, ip);
  }

  /** Two standing failures that are recent make at least two recent ones. */
  lemma StandingPairIsRecent(log: seq<Attempt>, ip: string, i: nat, j: nat, now: int)
    requires InOrder(log) && i < j < |log| && IsFailure(log[i], ip) && IsFailure(log[j], ip) && Quiet(log, ip, i)
    requires now - log[i].time < WINDOW
    ensures |Recent(Standing(log, ip), now)| >= 2
  {
    assert Quiet(log, ip, j);
    hide Standing, Recent, StandingAt, Resets, IsFailure, Quiet;
    StandingSorted(log, ip);
    var p := StandsAt(log, ip, i);
    var q := StandsAt(log, ip, j);
    StandingInOrder(log, ip, p, q);
    var st := Standing(log, ip);
    assert st[p] <= st[|st| - 2];
    RecentAtLeast(st, now, 2);
  }

  lemma {:induction false} LastBlockIsLatest(log: seq<Attempt>, ip: string, i: nat)
    requires InOrder(log) && i < |log| && IsFailure(log[i], ip) && log[i].verdict.blocks
    ensures LastBlock(log, ip).Some? && log[i].time <= LastBlock(log, ip).value
  {
    var n := |log| - 1;
    if i < n {
      LastBlockIsLatest(log[..n], ip, i);
    }
    StandingInPast(log, ip);
    if i < n && !(IsFailure(log[n], ip) && log[n].verdict.blocks) {
      assert LastBlock(log, ip) == LastBlock(log[..n], ip);
    }
  }

  /** After a block no failure is recorded for the address until the block has expired. */
  lemma NoFailureWhileBlocked(log: seq<Attempt>, i: nat, j: nat)
    requires Lawful(log) && InOrder(log) && i < j < |log| && log[i].ip == log[j].ip
    requires log[i].verdict.Failed? && log[i].verdict.blocks && log[j].verdict.Failed?
    ensures log[j].time >= log[i].time + 300
  {
    assert Follows(log[..j], log[j]);
    LastBlockIsLatest(log[..j], log[i].ip, i);
  }

  /** No window holds four recorded failures of an address without a success of that address between them. */
  lemma NoFourInAWindow(log: seq<Attempt>, ip: string, i: nat, j: nat, k: nat, l: nat)
    requires Lawful(log) && InOrder(log) && i < j < k < l < |log|
    requires IsFailure(log[i], ip) && IsFailure(log[j], ip) && IsFailure(log[k], ip) && IsFailure(log[l], ip)
    requires forall m :: i < m < l ==> !(log[m].ip == ip && log[m].verdict.Succeeded?)
    ensures log[l].time - log[i].time >= 60
  {
    if m: nat :| i <= m < l && Resets(log[m], ip) {
      NoFailureWhileBlocked(log, m, l);
    } else {
      assert ThreeStanding(log, ip, i, j, k);
      BlockStartsIff(log, k);
      assert !log[k].verdict.blocks;
    }
  }

  /** The last block is one of the address's blocks. */
  lemma {:induction false} LastBlockIsABlock(log: seq<Attempt>, ip: string)
    requires LastBlock(log, ip).Some?
    ensures exists i :: 0 <= i < |log| && IsFailure(log[i], ip) && log[i].verdict.blocks
                        && log[i].time == LastBlock(log, ip).value
  {
    var n := |log| - 1;
    if !(IsFailure(log[n], ip) && log[n].verdict.blocks) {
      LastBlockIsABlock(log[..n], ip);
      var i :| 0 <= i < n && IsFailure(log[..n][i], ip) && log[..n][i].verdict.blocks
               && log[..n][i].time == LastBlock(log[..n], ip).value;
      assert log[i] == log[..n][i];
    }
  }

  /** An attempt is turned away exactly in the 300 s after a block of its address. */
  lemma RateLimitedIff(log: seq<Attempt>, k: nat)
    requires Lawful(log) && InOrder(log) && k < |log|
    ensures log[k].verdict.RateLimited? <==>
              exists i :: 0 <= i < k && IsFailure(log[i], log[k].ip) && log[i].verdict.blocks
                          && log[k].time - log[i].time < 300
  {
    hide LastBlock;
    var ip, past := log[k].ip, log[..k];
    assert Follows(past, log[k]) && InOrder(past);
    if log[k].verdict.RateLimited? {
      LastBlockIsABlock(past, ip);
      var i :| 0 <= i < k && IsFailure(past[i], ip) && past[i].verdict.blocks
               && past[i].time == LastBlock(past, ip).value;
      assert log[i] == past[i];
    } else if i :| 0 <= i < k && IsFailure(log[i], ip) && log[i].verdict.blocks && log[k].time - log[i].time < 300 {
      assert past[i] == log[i];
      LastBlockIsLatest(past, ip, i);
    }
  }

  /** The attempt failed, and no success of its account came after it. */
  predicate StillCounts(log: seq<Attempt>, user: string, i: nat)
    requires i < |log|
  {
    && log[i].user == user && log[i].verdict.Failed?
    && forall j :: i < j < |log| ==> !(log[j].user == user && log[j].verdict.Succeeded?)
  }

  function StandingStrikes(log: seq<Attempt>, user: string): set<nat> {
    set i: nat | i < |log| && StillCounts(log, user, i)
  }

  lemma StrikesStep(log: seq<Attempt>, user: string, i: nat)
    requires i < |log| - 1
    ensures var n := |log| - 1;
            StillCounts(log, user, i)
            <==> StillCounts(log[..n], user, i) && !(log[n].user == user && log[n].verdict.Succeeded?)
  {
    var n := |log| - 1;
    assert forall j :: 0 <= j < n ==> log[..n][j] == log[j];
  }

  lemma StandingStrikesStep(log: seq<Attempt>, user: string)
    requires log != []
    ensures var n := |log| - 1;
            StandingStrikes(log, user)
            == if log[n].user != user then StandingStrikes(log[..n], user)
               else if log[n].verdict.Succeeded? then {}
               else StandingStrikes(log[..n], user) + if log[n].verdict.Failed? then {n} else {}
  {
    var n := |log| - 1;
    forall i: nat | i < n
      ensures StillCounts(log, user, i)
              <==> StillCounts(log[..n], user, i) && !(log[n].user == user && log[n].verdict.Succeeded?)
    {
      StrikesStep(log, user, i);
    }
    assert StillCounts(log, user, n) <==> log[n].user == user && log[n].verdict.Failed?;
    hide StillCounts;
  }

  /** The counter is the number of those attempts. */
  lemma {:induction false} StrikesAreStanding(log: seq<Attempt>, user: string)
    ensures FailuresInARow(log, user) == |StandingStrikes(log, user)|
  {
    if log == [] {
    } else {
      var n := |log| - 1;
      StrikesAreStanding(log[..n], user);
      StandingStrikesStep(log, user);
      assert n !in StandingStrikes(log[..n], user);
    }
  }
}

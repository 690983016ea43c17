/** The distributed lock (`RedisLocker`): a per-key state machine
    ABSENT -> HELD(token) -> ABSENT kept in the shared store under the key
    `lockPrefix + key`. Acquisition is a conditional set, release is the
    compare-and-delete unlock script. The blocking variants retry; what other
    processes do to the store between two attempts is given as `views`, the
    store as each successive attempt finds it. */
module Locker {
  import opened Base
  import opened RedisStore

  /** The status `SET ... NX` answers when it created the key. */
  const LockMsg: string := OkStatus
  const UnlockMsg: int := 1
  const Time: int := 1000
  /** Time-to-live of a lock taken without an explicit expiry. */
  const DefaultExpireTime: int := 10 * Time
  const DefaultLockPrefix: string := "lock_"
  const DefaultSleepTime: int := 100
  /** Message of the exception `Thread.sleep` throws for a negative pause. */
  const NegativeTimeoutMessage: string := "timeout value is negative"

  /** The configured, immutable lock. */
  datatype RedisLocker = RedisLocker(topology: Topology, lockPrefix: string, sleepTime: int, script: string)

  /** The builder collecting the configuration before `Build`. */
  datatype Builder = Builder(topology: Topology, lockPrefix: string, sleepTime: int)
  {
    function WithLockPrefix(prefix: string): (b: Builder)
      ensures b.lockPrefix == prefix && b.sleepTime == sleepTime && b.topology == topology
    {
      this.(lockPrefix := prefix)
    }

    function WithSleepTime(millis: int): (b: Builder)
      ensures b.sleepTime == millis && b.lockPrefix == lockPrefix && b.topology == topology
    {
      this.(sleepTime := millis)
    }

    /** `script` is the unlock script text, loaded by the caller. */
    function Build(script: string): (l: RedisLocker)
      ensures l.lockPrefix == lockPrefix && l.sleepTime == sleepTime && l.topology == topology
      ensures l.script == script
    {
      RedisLocker(topology, lockPrefix, sleepTime, script)
    }
  }

  function NewBuilder(topology: Topology): (b: Builder)
    ensures b.topology == topology
    ensures b.lockPrefix == "lock_" && b.sleepTime == 100
  {
    Builder(topology, DefaultLockPrefix, DefaultSleepTime)
  }

  /** The store key every operation of `l` on `key` addresses. */
  function LockKey(l: RedisLocker, key: string): (k: string)
    ensures |k| == |l.lockPrefix| + |key|
    ensures k[..|l.lockPrefix|] == l.lockPrefix && k[|l.lockPrefix|..] == key
  {
    l.lockPrefix + key
  }

  /** Distinct logical keys of one lock never share a store key. */
  lemma LockKeyInjective(l: RedisLocker, k1: string, k2: string)
    ensures LockKey(l, k1) == LockKey(l, k2) <==> k1 == k2
  {
    if LockKey(l, k1) == LockKey(l, k2) {
      assert k1 == LockKey(l, k1)[|l.lockPrefix|..];
    }
  }

  /** The token holding store key `k`, or None when the lock is free. */
  function Holder(s: Store, k: string): Option<string> {
    if k in s then Some(s[k].value) else None
  }

  /** The answer of a lock operation and the store it leaves behind. */
  datatype Step = Step(ok: bool, store: Store)

  /** `tryLock(key, request, expireTime)`: one conditional set. A non-positive
      `expireTime` is refused by the store, which the client throws. */
  function TryLockFor(l: RedisLocker, s: Store, key: string, request: string, expireTime: int)
    : (r: Result<Step, Error>)
    ensures r.Failure? <==> expireTime <= 0
    ensures r.Failure? ==> r.error.DataError?
    ensures r.Success? ==> (r.value.ok <==> LockKey(l, key) !in s)
    ensures r.Success? && r.value.ok ==>
              r.value.store == s[LockKey(l, key) := Entry(request, expireTime)]
    ensures r.Success? && !r.value.ok ==> r.value.store == s
  {
    var (s', reply) := SetIfAbsent(s, LockKey(l, key), request, expireTime);
    match reply
    case ErrorReply(m) => Failure(DataError(m))
    case Status(text) => Success(Step(text == LockMsg, s'))
    case _ => Success(Step(false, s'))
  }

  /** `tryLock(key, request)`: as `TryLockFor` with the default expiry, which
      the store always accepts. */
  function TryLock(l: RedisLocker, s: Store, key: string, request: string): (r: Step)
    ensures r.ok <==> LockKey(l, key) !in s
    ensures r.ok ==> r.store == s[LockKey(l, key) := Entry(request, 10000)]
    ensures !r.ok ==> r.store == s
  {
    TryLockFor(l, s, key, request, DefaultExpireTime).value
  }

  /** The single script evaluation `unlock` performs. */
  function UnlockCall(l: RedisLocker, key: string, request: string): ScriptCall {
    ScriptCall(l.script, [LockKey(l, key)], [request])
  }

  /** `unlock` against an arbitrary script `eval`: it reports success exactly
      when the script answers the integer 1, and throws on an error reply. */
  function UnlockWith(l: RedisLocker, s: Store, key: string, request: string,
                      eval: (Store, ScriptCall) -> (Store, Reply)): (r: Result<Step, Error>)
    ensures var reply := eval(s, UnlockCall(l, key, request)).1;
      && (r.Failure? <==> reply.ErrorReply?)
      && (reply.ErrorReply? ==> r == Failure(DataError(reply.message)))
      && (r.Success? ==> (r.value.ok <==> reply == Integer(1)))
      && (r.Success? ==> r.value.store == eval(s, UnlockCall(l, key, request)).0)
  {
    var (s', reply) := eval(s, UnlockCall(l, key, request));
    match reply
    case ErrorReply(m) => Failure(DataError(m))
    case _ => Success(Step(reply == Integer(UnlockMsg), s'))
  }

  /** `unlock(key, request)` with the compare-and-delete unlock script: only
      the holder's own token releases the lock; anything else changes nothing. */
  function Unlock(l: RedisLocker, s: Store, key: string, request: string): (r: Step)
    ensures r.ok <==> Holder(s, LockKey(l, key)) == Some(request)
    ensures r.ok ==> r.store == s - {LockKey(l, key)}
    ensures !r.ok ==> r.store == s
  {
    UnlockWith(l, s, key, request, CompareAndDelete).value
  }

  /** The defaults address `"lock_" + key` with a 100 ms pause between retries. */
  lemma DefaultConfiguration(topology: Topology, script: string, key: string)
    ensures LockKey(NewBuilder(topology).Build(script), key) == "lock_" + key
    ensures NewBuilder(topology).Build(script).sleepTime == 100
  {
  }

  /** Taking a free lock with token `a`, a release with another token `b`
      fails and keeps `a`; the release with `a` then succeeds and restores
      the store as it was before the lock was taken. */
  lemma LockUnlockRoundTrip(l: RedisLocker, s: Store, key: string, a: string, b: string)
    requires LockKey(l, key) !in s
    requires a != b
    ensures var t := TryLock(l, s, key, a);
            var u := Unlock(l, t.store, key, b);
            var v := Unlock(l, u.store, key, a);
            && t.ok
            && !u.ok && Holder(u.store, LockKey(l, key)) == Some(a)
            && v.ok && LockKey(l, key) !in v.store
            && v.store == s
  {
    var k := LockKey(l, key);
    var t := TryLock(l, s, key, a);
    assert t.store - {k} == s;
  }

  /** The end-to-end scenario: A takes "res", B is refused, A releases, B takes it. */
  lemma ResourceScenario(l: RedisLocker, s: Store)
    requires LockKey(l, "res") !in s
    ensures var t1 := TryLock(l, s, "res", "A");
            var t2 := TryLock(l, t1.store, "res", "B");
            var u := Unlock(l, t2.store, "res", "A");
            var t3 := TryLock(l, u.store, "res", "B");
            t1.ok && !t2.ok && u.ok && t3.ok && Holder(t3.store, LockKey(l, "res")) == Some("B")
  {
  }

  /** Answers of callers racing for one key, in the order the store serves them. */
  datatype Race = Race(wins: seq<bool>, store: Store)

  function TryLockRace(l: RedisLocker, s: Store, key: string, requests: seq<string>): (r: Race)
    ensures |r.wins| == |requests|
    ensures LockKey(l, key) in s ==> r.store == s && forall i | 0 <= i < |requests| :: !r.wins[i]
    ensures forall i, j | 0 <= i < j < |requests| :: !(r.wins[i] && r.wins[j])
    ensures r.store - {LockKey(l, key)} == s - {LockKey(l, key)}
    decreases |requests|
  {
    if |requests| == 0 then Race([], s)
    else
      var first := TryLock(l, s, key, requests[0]);
      var rest := TryLockRace(l, first.store, key, requests[1..]);
      Race([first.ok] + rest.wins, rest.store)
  }

  /** Of any number of callers racing for a free lock exactly one, the first
      served, wins, and its token is the one stored. */
  lemma ExactlyOneWinner(l: RedisLocker, s: Store, key: string, requests: seq<string>)
    requires LockKey(l, key) !in s
    requires |requests| > 0
    ensures var r := TryLockRace(l, s, key, requests);
            && r.wins[0]
            && (forall i | 1 <= i < |requests| :: !r.wins[i])
            && Holder(r.store, LockKey(l, key)) == Some(requests[0])
  {
    var first := TryLock(l, s, key, requests[0]);
    var r := TryLockRace(l, s, key, requests);
    var rest := TryLockRace(l, first.store, key, requests[1..]);
    assert r.wins == [true] + rest.wins;
    forall i | 1 <= i < |requests|
      ensures !r.wins[i]
    {
      assert r.wins[i] == rest.wins[i - 1];
    }
  }

  /** Everything that can happen to the store: a lock attempt, a release, or
      the store expiring a key. */
  datatype Op =
    | TryLockOp(key: string, request: string, expireTime: int)
    | UnlockOp(key: string, request: string)
    | ExpireOp(storeKey: string)

  function Apply(l: RedisLocker, s: Store, op: Op): Store {
    match op
    case TryLockOp(key, request, expireTime) =>
      (match TryLockFor(l, s, key, request, expireTime)
       case Success(step) => step.store
       case Failure(_) => s)
    case UnlockOp(key, request) => Unlock(l, s, key, request).store
    case ExpireOp(k) => Expire(s, k)
  }

  /** The per-key state machine: a lock never passes from one holder to
      another directly; it is taken only by a conditional set carrying the
      new token, and it is released only by its holder's own token or by
      expiry. */
  lemma StateMachine(l: RedisLocker, s: Store, op: Op, k: string)
    ensures var before := Holder(s, k);
            var after := Holder(Apply(l, s, op), k);
            && (before.Some? && after.Some? ==> before == after)
            && (before.None? && after.Some? ==>
                  op.TryLockOp? && LockKey(l, op.key) == k && after == Some(op.request))
            && (before.Some? && after.None? ==>
                  (op.UnlockOp? && LockKey(l, op.key) == k && before == Some(op.request))
                  || (op.ExpireOp? && op.storeKey == k))
  {
  }

  /** How `lock(key, request, ...)` and `lock(key, request)` end. */
  datatype LockOutcome =
    | Acquired(store: Store)  // an attempt succeeded; the store after it
    | TimedOut                // the budget ran out
    | Raised(error: Error)    // an exception ended the call
    | StillWaiting            // the observed attempts ran out while the call would still retry

  /** Attempts the bounded lock makes against a lock that stays held: one per
      budget value `blockTime, blockTime - sleepTime, ...` that is not negative. */
  function AttemptBudget(blockTime: int, sleepTime: int): nat
    requires sleepTime > 0
    decreases blockTime
  {
    if blockTime < 0 then 0 else 1 + AttemptBudget(blockTime - sleepTime, sleepTime)
  }

  lemma MulAtLeast(k: int, d: int)
    requires k >= 1 && d > 0
    ensures k * d >= d
  {
  }

  lemma DivUnique(a: int, d: int, q: int)
    requires d > 0
    requires q * d <= a < q * d + d
    ensures a / d == q
  {
    var q' := a / d;
    assert q' * d <= a < q' * d + d;
    if q' < q {
      MulAtLeast(q - q', d);
    } else if q < q' {
      MulAtLeast(q' - q, d);
    }
  }

  /** The budget admits `blockTime / sleepTime + 1` attempts, the one at
      budget zero included. */
  lemma {:induction false} AttemptBudgetClosedForm(blockTime: int, sleepTime: int)
    requires sleepTime > 0
    requires blockTime >= 0
    ensures AttemptBudget(blockTime, sleepTime) == blockTime / sleepTime + 1
    decreases blockTime
  {
    if blockTime - sleepTime < 0 {
      DivUnique(blockTime, sleepTime, 0);
    } else {
      AttemptBudgetClosedForm(blockTime - sleepTime, sleepTime);
      var q := (blockTime - sleepTime) / sleepTime;
      assert q * sleepTime <= blockTime - sleepTime < q * sleepTime + sleepTime;
      DivUnique(blockTime, sleepTime, q + 1);
    }
  }

  /** `lock(key, request, blockTime)`: attempts while the remaining budget is
      not negative, deducting `sleepTime` after each failed attempt. The
      attempt at `views[i]` is the `i`-th. It returns true exactly when one of
      the first `blockTime / sleepTime + 1` attempts finds the lock free, and
      it can time out only when `sleepTime` is positive or `blockTime` starts
      negative. */
  method Lock(l: RedisLocker, key: string, request: string, blockTime: int, views: seq<Store>)
    returns (outcome: LockOutcome, attempts: nat)
    requires IsInt32(blockTime) && IsInt32(l.sleepTime)
    ensures attempts <= |views|
    ensures outcome.Acquired? <==> attempts > 0 && LockKey(l, key) !in views[attempts - 1]
    ensures outcome.Acquired? ==>
              outcome.store == views[attempts - 1][LockKey(l, key) := Entry(request, DefaultExpireTime)]
    ensures forall j | 0 <= j < attempts && (j < attempts - 1 || !outcome.Acquired?) ::
              LockKey(l, key) in views[j]
    ensures blockTime < 0 ==> outcome == TimedOut && attempts == 0
    ensures outcome.TimedOut? ==>
              blockTime < 0 || (l.sleepTime > 0 && attempts == AttemptBudget(blockTime, l.sleepTime))
    ensures outcome.Raised? ==>
              l.sleepTime < 0 && attempts == 1 && outcome.error == IllegalArgument(NegativeTimeoutMessage)
    ensures l.sleepTime < 0 && blockTime >= 0 && |views| > 0 && LockKey(l, key) in views[0] ==>
              outcome == Raised(IllegalArgument(NegativeTimeoutMessage)) && attempts == 1
    ensures outcome.StillWaiting? ==>
              attempts == |views| && (l.sleepTime <= 0 || attempts < AttemptBudget(blockTime, l.sleepTime))
    ensures l.sleepTime > 0 && |views| >= AttemptBudget(blockTime, l.sleepTime) ==>
              && (outcome.Acquired? || outcome.TimedOut?)
              && (outcome.Acquired? <==>
                    exists j | 0 <= j < AttemptBudget(blockTime, l.sleepTime) :: LockKey(l, key) !in views[j])
  {
    var k := LockKey(l, key);
    var budget := blockTime;
    attempts := 0;
    while budget >= 0 && attempts < |views|
      invariant attempts <= |views|
      invariant IsInt32(budget)
      invariant forall j | 0 <= j < attempts :: k in views[j]
      invariant l.sleepTime <= 0 ==> budget == blockTime
      invariant l.sleepTime < 0 ==> attempts == 0
      invariant attempts == 0 ==> budget == blockTime
      invariant blockTime < 0 ==> attempts == 0
      invariant l.sleepTime > 0 ==>
                  attempts + AttemptBudget(budget, l.sleepTime) == AttemptBudget(blockTime, l.sleepTime)
      decreases |views| - attempts
    {
      var step := TryLock(l, views[attempts], key, request);
      attempts := attempts + 1;
      if step.ok {
        return Acquired(step.store), attempts;
      }
      // Java deducts before pausing; with a negative pause the deducted value
      // is never read again, because the pause throws first.
      budget := budget - l.sleepTime;
      if l.sleepTime < 0 {
        return Raised(IllegalArgument(NegativeTimeoutMessage)), attempts;
      }
    }
    if budget < 0 {
      outcome := TimedOut;
    } else {
      outcome := StillWaiting;
    }
  }

  /** `lock(key, request)`: attempts until one succeeds, pausing `sleepTime`
      between attempts. It never gives up; it returns only after an attempt
      found the lock free, with the lock then held by `request`. */
  method LockBlocking(l: RedisLocker, key: string, request: string, views: seq<Store>)
    returns (outcome: LockOutcome, attempts: nat)
    ensures attempts <= |views|
    ensures !outcome.TimedOut?
    ensures outcome.Acquired? <==> attempts > 0 && LockKey(l, key) !in views[attempts - 1]
    ensures outcome.Acquired? ==>
              && outcome.store == views[attempts - 1][LockKey(l, key) := Entry(request, DefaultExpireTime)]
              && Holder(outcome.store, LockKey(l, key)) == Some(request)
    ensures forall j | 0 <= j < attempts && (j < attempts - 1 || !outcome.Acquired?) ::
              LockKey(l, key) in views[j]
    ensures outcome.Raised? ==>
              l.sleepTime < 0 && attempts == 1 && outcome.error == IllegalArgument(NegativeTimeoutMessage)
    ensures l.sleepTime < 0 && |views| > 0 && LockKey(l, key) in views[0] ==>
              outcome == Raised(IllegalArgument(NegativeTimeoutMessage)) && attempts == 1
    ensures outcome.StillWaiting? ==> attempts == |views|
    ensures l.sleepTime >= 0 ==>
              (outcome.Acquired? <==> exists j | 0 <= j < |views| :: LockKey(l, key) !in views[j])
  {
    var k := LockKey(l, key);
    attempts := 0;
    while attempts < |views|
      invariant attempts <= |views|
      invariant forall j | 0 <= j < attempts :: k in views[j]
      invariant l.sleepTime < 0 ==> attempts == 0
      decreases |views| - attempts
    {
      var step := TryLock(l, views[attempts], key, request);
      attempts := attempts + 1;
      if step.ok {
        return Acquired(step.store), attempts;
      }
      if l.sleepTime < 0 {
        return Raised(IllegalArgument(NegativeTimeoutMessage)), attempts;
      }
    }
    outcome := StillWaiting;
  }
}

# Redis lock and rate limiter, modelled in Dafny

This project models the Java side of the two coordination primitives of
`distributed-redis-tool`:

- `RedisLocker`, a distributed lock. Each lock lives in the store under
  `lockPrefix + key` (default prefix `"lock_"`) and moves through the states
  ABSENT -> HELD(token) -> ABSENT. It is taken with `SET key token NX PX ttl`
  (default time-to-live 10 000 ms). It is released by the unlock script,
  which the model takes to be an atomic compare-and-delete. There are a
  non-blocking `tryLock`, a bounded blocking `lock`, and an unbounded
  blocking `lock`. The blocking variants pause `sleepTime` (default 100 ms)
  between attempts.
- `RedisRateLimiter`, a fixed-window limiter. Each `acquire` derives a window
  key: the whole second of the wall clock, optionally behind a caller's
  sub-key. It then evaluates the limit script once, with that key and the
  configured limit (default 200) as a decimal string. The request is admitted
  when the script answers an integer other than `0`; a nil, string or error
  answer throws.

The store is an immutable `map<string, Entry>` threaded through pure
functions (`redis_store.dfy`). The store's replies are a datatype, and the
Java conversions of those replies are modelled explicitly: an error reply
throws, a nil reply becomes `null`, and an integer reply becomes a `Long`.
Exceptions are `Failure` values of `Base.Result`.

The rest of the system enters through parameters:

- The current time is `nowMillis`.
- Whatever other processes do to the store between two attempts of a
  blocking `lock` is given by `views`, the store as each successive attempt
  finds it.
- The limit script's answer is `eval`, a function from the script call to
  its reply.

Files: `base.dfy` (Option, Result, Java exceptions, `int` range),
`decimal.dfy` (`String.valueOf` and its inverse), `redis_store.dfy`,
`locker.dfy` and `rate_limiter.dfy`.

The code validates less than its callers might expect:

- `tryLock(key, request, expireTime)` does not check that `expireTime` is
  positive. A non-positive value reaches the store, which refuses it with an
  error reply, and the client then throws.
- The builders validate nothing. The model therefore accepts any `int` for
  `sleepTime` and `limit`. A negative `sleepTime` makes `Thread.sleep` throw
  `IllegalArgumentException` after the first failed attempt. A zero
  `sleepTime` never exhausts the budget of the bounded `lock`, so that call
  keeps retrying for as long as the lock stays held.

## Model

| member | source | states |
|---|---|---|
| Locker.TryLock | src/main/java/top/masterc/lock/RedisLocker.java:77-98 | succeeds exactly when `lockPrefix + key` is absent; on success only that key changes, now mapping to the token with TTL 10000; on failure the store is unchanged |
| Locker.TryLockFor | src/main/java/top/masterc/lock/RedisLocker.java:178-200 | same as tryLock with the caller's expiry as TTL; a non-positive expiry is an exception (store error reply), never an acquisition |
| Locker.UnlockWith | src/main/java/top/masterc/lock/RedisLocker.java:210-237 | for any script, unlock reports true exactly when the script answers the integer 1, throws the client's data exception exactly on an error reply, and leaves the store as the script left it |
| Locker.Unlock | src/main/java/top/masterc/lock/RedisLocker.java:203-237 | with compare-and-delete: true exactly when the stored token equals the request; a match deletes only that key, a mismatch or absent key changes nothing |
| RedisStore.CompareAndDelete | src/main/java/top/masterc/lock/RedisLocker.java:203-208 | the assumed unlock script: answers 1 and deletes the key exactly when its value equals the argument, else answers 0 and changes nothing |
| RedisStore.Expire | src/main/java/top/masterc/lock/RedisLocker.java:82 | store behaviour, not Java code: when the TTL attached here runs out, the store removes that key and keeps every other entry |
| RedisStore.SetIfAbsent | src/main/java/top/masterc/lock/RedisLocker.java:82 | the assumed `SET NX PX` semantics: answers "OK" and creates the key with the value and TTL exactly when the TTL is positive and the key is absent; otherwise the store is unchanged and the answer is nil, or an error reply for a non-positive TTL |
| Locker.LockKey | src/main/java/top/masterc/lock/RedisLocker.java:82 | the store key is the prefix followed by the caller's key, which can be read back from it |
| Locker.LockKeyInjective | src/main/java/top/masterc/lock/RedisLocker.java:218 | two logical keys of one lock address the same store key exactly when they are equal |
| Locker.LockUnlockRoundTrip | src/main/java/top/masterc/lock/RedisLocker.java:77-237 | tryLock(k, A) then unlock(k, B) with B != A fails and keeps A, then unlock(k, A) succeeds and restores the original store |
| Locker.ResourceScenario | src/main/java/top/masterc/lock/RedisLocker.java:77-98 | A takes "res", B is refused, A releases, B takes it |
| Locker.TryLockRace | src/main/java/top/masterc/lock/RedisLocker.java:82-97 | tryLocks on one key in the order the store serves them: at most one succeeds; while the key is held every one fails and the holder's token is never overwritten; no other store key changes |
| Locker.ExactlyOneWinner | src/main/java/top/masterc/lock/RedisLocker.java:82-97 | of N tryLocks on a free key, in the order the store serves them, exactly the first succeeds and its token is stored |
| Locker.StateMachine | src/main/java/top/masterc/lock/RedisLocker.java:77-237 | no operation moves a lock from one holder to another; a lock is taken only by a tryLock with the new token and released only by its holder's unlock or by expiry |
| Locker.Lock | src/main/java/top/masterc/lock/RedisLocker.java:141-166 | returns true on the first attempt that finds the key free; with sleepTime > 0 it returns true exactly when one of the first blockTime/sleepTime + 1 attempts succeeds, else false after exactly that many attempts; blockTime < 0 makes no attempt; times out only if sleepTime > 0 or blockTime < 0; a negative sleepTime throws after the first failed attempt |
| Locker.AttemptBudgetClosedForm | src/main/java/top/masterc/lock/RedisLocker.java:146-161 | the decrement loop admits blockTime/sleepTime + 1 attempts, the one at budget 0 included |
| Locker.LockBlocking | src/main/java/top/masterc/lock/RedisLocker.java:106-130 | never gives up; returns only after an attempt found the key free, with the key then mapping to the request; a negative sleepTime throws after the first failed attempt |
| Locker.NewBuilder | src/main/java/top/masterc/lock/RedisLocker.java:248-265 | a new builder starts with prefix "lock_" and a 100 ms pause |
| Locker.Builder.WithLockPrefix | src/main/java/top/masterc/lock/RedisLocker.java:267-270 | sets the prefix and keeps the other settings |
| Locker.Builder.WithSleepTime | src/main/java/top/masterc/lock/RedisLocker.java:272-275 | sets the pause, any int accepted, and keeps the other settings |
| Locker.Builder.Build | src/main/java/top/masterc/lock/RedisLocker.java:43-50 | the lock carries the builder's settings and the loaded unlock script |
| Locker.DefaultConfiguration | src/main/java/top/masterc/lock/RedisLocker.java:248-260 | the default builder addresses "lock_" + key and pauses 100 ms |
| Decimal.ToDecimal | src/main/java/top/masterc/limit/RedisRateLimiter.java:56 | String.valueOf: a non-empty rendering that starts with "-" exactly for negative values |
| Decimal.DecimalRoundTrip | src/main/java/top/masterc/limit/RedisRateLimiter.java:84 | the decimal string sent for the limit reads back as the limit |
| Decimal.DecimalInjective | src/main/java/top/masterc/limit/RedisRateLimiter.java:56 | distinct seconds have distinct decimal strings |
| RateLimiter.SecondsOf | src/main/java/top/masterc/limit/RedisRateLimiter.java:56 | millis / 1000 truncates toward zero: the result is the second whose thousand milliseconds contain the time |
| RateLimiter.WindowKey | src/main/java/top/masterc/limit/RedisRateLimiter.java:56-72 | the window key starts with the sub-key (empty for acquire()) and the rest reads back as the request's whole second |
| RateLimiter.SecondWindow | src/main/java/top/masterc/limit/RedisRateLimiter.java:56 | for times after 1970, a timestamp t falls in second s exactly when s*1000 <= t < s*1000+1000 |
| RateLimiter.EpochWindowSpansTwoSeconds | src/main/java/top/masterc/limit/RedisRateLimiter.java:56 | truncation puts -999 ms and 999 ms in one window |
| RateLimiter.SameSubKeyWindows | src/main/java/top/masterc/limit/RedisRateLimiter.java:72 | under one sub-key, two requests share a window key exactly when they fall in the same second |
| RateLimiter.DistinctSubKeyWindows | src/main/java/top/masterc/limit/RedisRateLimiter.java:72 | within one second, window keys are equal exactly when the sub-keys are (the empty sub-key of acquire() included) |
| RateLimiter.WindowKeyInjectiveSameWidth | src/main/java/top/masterc/limit/RedisRateLimiter.java:72 | when the seconds render with equal length, the window key determines both the sub-key and the second |
| RateLimiter.CrossWidthCollision | src/main/java/top/masterc/limit/RedisRateLimiter.java:72 | sub-key "a1" at second 23 and sub-key "a" at second 123 share a window key |
| RateLimiter.LimitCall | src/main/java/top/masterc/limit/RedisRateLimiter.java:81-95 | one script call with exactly one key, the window key, and exactly one argument that reads back as the limit |
| RateLimiter.Admit | src/main/java/top/masterc/limit/RedisRateLimiter.java:60-64 | false exactly for the reply 0, true for every other integer; a nil, string or error reply throws |
| RateLimiter.Acquire | src/main/java/top/masterc/limit/RedisRateLimiter.java:51-65 | exactly one evaluation of the limiter's own script, keyed by the decimal second, with the decimal limit as argument; false exactly when the script answers 0, true for every other integer, and a nil, string or error answer throws as in Admit |
| RateLimiter.AcquireKey | src/main/java/top/masterc/limit/RedisRateLimiter.java:67-79 | a null or empty key throws with no store interaction; otherwise one evaluation of the limiter's own script keyed by key + second, with the answer mapped as in acquire() |
| RateLimiter.AcquireDependsOnlyOnReply | src/main/java/top/masterc/limit/RedisRateLimiter.java:81-95 | two scripts that answer the call alike give the same result |
| RateLimiter.NewBuilder | src/main/java/top/masterc/limit/RedisRateLimiter.java:126-136 | the default limit is 200 |
| RateLimiter.Builder.WithLimit | src/main/java/top/masterc/limit/RedisRateLimiter.java:138-141 | sets the limit, any int accepted |
| RateLimiter.Builder.Build | src/main/java/top/masterc/limit/RedisRateLimiter.java:38-43 | the limiter carries the builder's limit and the loaded limit script |
| RateLimiter.BuiltLimiterReplies | src/test/java/top/masterc/limit/RedisRateLimiterJedisJunitTest.java:36-75 | a limiter built with limit 100 on either topology sends "100", denies on 0 and admits on 1 |

## Left out

- Connection handling and topology dispatch are not modelled. This covers
  `getConnection`, the `instanceof Jedis` / `JedisCluster` branches, `close()`
  with its logged `IOException`, and the branch of `unlock` for an unknown
  connection type. Both topologies issue the same command, so `topology` is
  configuration the operations do not read.
- The blocking `lock` methods reuse one connection across iterations after
  closing it. That is transport behaviour over a client library outside this
  model.
- `Thread.sleep` is a no-op step between attempts. Interruption
  (`InterruptedException`) is not modelled. Only the exception that
  `Thread.sleep` raises for a negative pause is kept.
- Store connectivity failures are not modelled. Neither is real expiry over
  time: expiry appears only as the explicit `Expire` step.
- `System.currentTimeMillis()` is the parameter `nowMillis`.
- The text of both Lua scripts is not available. The unlock script is assumed
  to be an atomic compare-and-delete (`CompareAndDelete`), following the doc
  comment that the release token must equal the lock token. The limit
  script's counting, and with it any claim about how many requests a window
  admits, is not modelled. Its reply is the oracle `eval`.
- `ScriptUtil.getScript` reads a resource file, and its `null` for a missing
  resource is not modelled. The script text is a plain parameter of `Build`.
- The Spring interceptor, the aspect and the annotation are not modelled.
  They are framework glue around `acquire()`.
- Logging is not modelled.
- Concurrency is not modelled. Callers are sequential, in the order the store
  serves them.
- Java `null` for the lock key, the token or the prefix is not modelled.
  String concatenation turns a null key or prefix into `"null"`; a null
  token is handed to the client unchanged. The sub-key of
  `acquire(key)` is the exception: it is an `Option`, because the source
  checks it for null.
- Locker.UnlockWith: on an error reply the model returns only the exception.
  It does not keep any store change the failing script made before it failed.
- Locker.Lock: other processes appear only through `views`. When `views` is
  too short for the loop to end, the result is `StillWaiting` and says nothing
  about later attempts.

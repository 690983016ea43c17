/** The fixed-window rate limiter (`RedisRateLimiter`). Each admission check
    derives a window key from the current whole second, optionally behind a
    caller-chosen sub-key, and evaluates the limit script once with that key
    and the configured limit. The counting is the script's business and is
    not modelled: `eval` stands for whatever the script answers. */
module RateLimiter {
  import opened Base
  import opened Decimal
  import opened RedisStore

  /** The script's answer that denies a request. */
  const FailCode: int := 0
  const DefaultLimit: int := 200
  const EmptyKeyMessage: string := "key cannot be null"

  /** The configured, immutable limiter. */
  datatype RedisRateLimiter = RedisRateLimiter(topology: Topology, limit: int, script: string)

  datatype Builder = Builder(topology: Topology, limit: int)
  {
    function WithLimit(limit': int): (b: Builder)
      ensures b.limit == limit' && b.topology == topology
    {
      this.(limit := limit')
    }

    /** `script` is the limit script text, loaded by the caller. */
    function Build(script: string): (r: RedisRateLimiter)
      ensures r.limit == limit && r.topology == topology && r.script == script
    {
      RedisRateLimiter(topology, limit, script)
    }
  }

  function NewBuilder(topology: Topology): (b: Builder)
    ensures b.topology == topology && b.limit == 200
  {
    Builder(topology, DefaultLimit)
  }

  /** `millis / 1000` on a Java long: whole seconds, truncated toward zero. */
  function SecondsOf(millis: int): (sec: int)
    ensures millis >= 0 ==> sec * 1000 <= millis < sec * 1000 + 1000
    ensures millis < 0 ==> sec * 1000 - 1000 < millis <= sec * 1000
  {
    if millis >= 0 then millis / 1000 else -((-millis) / 1000)
  }

  /** The counter key for a request at `millis`: the sub-key followed by the
      decimal second. `acquire()` uses the empty sub-key. */
  function WindowKey(subKey: string, millis: int): (w: string)
    ensures |w| > |subKey| && w[..|subKey|] == subKey
    ensures ParseDecimal(w[|subKey|..]) == Some(SecondsOf(millis))
  {
    DecimalRoundTrip(SecondsOf(millis));
    assert (subKey + ToDecimal(SecondsOf(millis)))[|subKey|..] == ToDecimal(SecondsOf(millis));
    subKey + ToDecimal(SecondsOf(millis))
  }

  /** The one script evaluation of an admission check: one key, and one
      argument that reads back as the configured limit. */
  function LimitCall(r: RedisRateLimiter, windowKey: string): (c: ScriptCall)
    ensures c.script == r.script
    ensures c.keys == [windowKey]
    ensures |c.args| == 1 && ParseDecimal(c.args[0]) == Some(r.limit)
  {
    DecimalRoundTrip(r.limit);
    ScriptCall(r.script, [windowKey], [ToDecimal(r.limit)])
  }

  /** `FAIL_CODE != (Long) result`: an integer answer admits unless it is
      the fail code; any other answer raises the exception the cast, the
      unboxing or the client raises. */
  function Admit(reply: Reply): (r: Result<bool, Error>)
    ensures r == Success(false) <==> reply == Integer(FailCode)
    ensures r == Success(true) <==> reply.Integer? && reply.n != FailCode
    ensures r.Failure? <==> !reply.Integer?
    ensures reply.Nil? ==> r == Failure(NullPointer)
    ensures reply.Status? || reply.Bulk? ==> r == Failure(ClassCast)
    ensures reply.ErrorReply? ==> r == Failure(DataError(reply.message))
  {
    match reply
    case Integer(n) => Success(FailCode != n)
    case Nil => Failure(NullPointer)
    case ErrorReply(m) => Failure(DataError(m))
    case _ => Failure(ClassCast)
  }

  /** The script evaluations an admission check made and what it returned. */
  datatype Evaluation = Evaluation(calls: seq<ScriptCall>, result: Result<bool, Error>)

  /** `acquire()` at wall-clock time `nowMillis`. */
  function Acquire(r: RedisRateLimiter, nowMillis: int, eval: ScriptCall -> Reply): (e: Evaluation)
    ensures |e.calls| == 1
    ensures e.calls[0].script == r.script
    ensures e.calls[0].keys == [ToDecimal(SecondsOf(nowMillis))]
    ensures e.calls[0].args == [ToDecimal(r.limit)]
    ensures e.result == Admit(eval(e.calls[0]))
    ensures e.result == Success(false) <==> eval(e.calls[0]) == Integer(FailCode)
    ensures e.result == Success(true) <==> eval(e.calls[0]).Integer? && eval(e.calls[0]).n != FailCode
  {
    var call := LimitCall(r, WindowKey("", nowMillis));
    assert WindowKey("", nowMillis) == ToDecimal(SecondsOf(nowMillis));
    Evaluation([call], Admit(eval(call)))
  }

  /** `acquire(key)`: a null (None) or empty key is refused before the store
      is touched; otherwise as `acquire()` with the key in front of the second. */
  function AcquireKey(r: RedisRateLimiter, key: Option<string>, nowMillis: int, eval: ScriptCall -> Reply)
    : (e: Evaluation)
    ensures e.calls == [] <==> key.None? || key.value == ""
    ensures e.calls == [] ==> e.result == Failure(IllegalArgument(EmptyKeyMessage))
    ensures e.calls != [] ==>
              && |e.calls| == 1
              && e.calls[0].script == r.script
              && e.calls[0].keys == [key.value + ToDecimal(SecondsOf(nowMillis))]
              && e.calls[0].args == [ToDecimal(r.limit)]
              && e.result == Admit(eval(e.calls[0]))
  {
    if key.None? || key.value == "" then
      Evaluation([], Failure(IllegalArgument(EmptyKeyMessage)))
    else
      var call := LimitCall(r, WindowKey(key.value, nowMillis));
      Evaluation([call], Admit(eval(call)))
  }

  /** After 1970 a second's window is exactly its thousand milliseconds. */
  lemma SecondWindow(millis: int, sec: int)
    requires millis >= 0
    ensures SecondsOf(millis) == sec <==> sec * 1000 <= millis < sec * 1000 + 1000
  {
  }

  /** Truncation merges the last second before 1970 and the first after it
      into one window. */
  lemma EpochWindowSpansTwoSeconds()
    ensures SecondsOf(-999) == SecondsOf(999) == 0
  {
  }

  /** Under one sub-key, two requests share a counter exactly when they fall
      in the same whole second. */
  lemma SameSubKeyWindows(subKey: string, m1: int, m2: int)
    ensures WindowKey(subKey, m1) == WindowKey(subKey, m2) <==> SecondsOf(m1) == SecondsOf(m2)
  {
    var d1 := ToDecimal(SecondsOf(m1));
    var d2 := ToDecimal(SecondsOf(m2));
    if WindowKey(subKey, m1) == WindowKey(subKey, m2) {
      assert d1 == WindowKey(subKey, m1)[|subKey|..];
      assert d2 == WindowKey(subKey, m2)[|subKey|..];
      DecimalInjective(SecondsOf(m1), SecondsOf(m2));
    }
  }

  /** Within one second, distinct sub-keys have distinct counters; the empty
      sub-key of `acquire()` included. */
  lemma DistinctSubKeyWindows(k1: string, k2: string, m1: int, m2: int)
    requires SecondsOf(m1) == SecondsOf(m2)
    ensures WindowKey(k1, m1) == WindowKey(k2, m2) <==> k1 == k2
  {
    var w1 := WindowKey(k1, m1);
    var w2 := WindowKey(k2, m2);
    if w1 == w2 {
      assert |k1| == |k2|;
      assert k1 == w1[..|k1|];
      assert k2 == w2[..|k2|];
    }
  }

  /** When the two seconds have equally long renderings, a window key
      determines both the sub-key and the second. */
  lemma WindowKeyInjectiveSameWidth(k1: string, k2: string, m1: int, m2: int)
    requires |ToDecimal(SecondsOf(m1))| == |ToDecimal(SecondsOf(m2))|
    ensures WindowKey(k1, m1) == WindowKey(k2, m2) <==> k1 == k2 && SecondsOf(m1) == SecondsOf(m2)
  {
    var w1 := WindowKey(k1, m1);
    var w2 := WindowKey(k2, m2);
    if w1 == w2 {
      assert |k1| == |k2|;
      assert k1 == w1[..|k1|];
      assert k2 == w2[..|k2|];
      SameSubKeyWindows(k1, m1, m2);
    }
  }

  /** Without that condition sub-key and second can trade digits: "a1" at
      second 23 and "a" at second 123 share one counter. */
  lemma CrossWidthCollision()
    ensures WindowKey("a1", 23000) == WindowKey("a", 123000)
  {
    assert Digits(23) == "23";
    assert Digits(123) == "123";
  }

  /** The answer depends on the script's reply alone. */
  lemma AcquireDependsOnlyOnReply(r: RedisRateLimiter, nowMillis: int,
                                  eval1: ScriptCall -> Reply, eval2: ScriptCall -> Reply)
    requires eval1(LimitCall(r, WindowKey("", nowMillis))) == eval2(LimitCall(r, WindowKey("", nowMillis)))
    ensures Acquire(r, nowMillis, eval1) == Acquire(r, nowMillis, eval2)
  {
  }

  /** A limiter built with limit 100 on either topology sends "100" as its
      one argument, denies on the answer 0 and admits on the answer 1. */
  lemma BuiltLimiterReplies(topology: Topology, script: string, nowMillis: int)
    ensures var r := NewBuilder(topology).WithLimit(100).Build(script);
            && Acquire(r, nowMillis, _ => Integer(0)).result == Success(false)
            && Acquire(r, nowMillis, _ => Integer(1)).result == Success(true)
            && Acquire(r, nowMillis, _ => Integer(1)).calls[0].args == ["100"]
  {
    assert Digits(100) == "100";
  }
}

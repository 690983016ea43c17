/** The shared key-value store as the two primitives see it: a map from key to
    entry, the conditional set command, the replies the client hands back, and
    the semantics assumed for the unlock script, whose text is not part of
    this model. */
module RedisStore {

  /** Single node or sharded cluster; both expose the same commands. */
  datatype Topology = Single | Cluster

  /** A stored string value with the time-to-live it was created with.
      Expiry itself happens outside the model (see `Expire`). */
  datatype Entry = Entry(value: string, ttlMillis: int)

  type Store = map<string, Entry>

  /** A reply of the store, before the client converts it to a Java object. */
  datatype Reply =
    | Status(text: string)       // a status line such as "OK"; the client yields a String
    | Bulk(data: string)         // a bulk string; the client yields a String
    | Integer(n: int)            // an integer; the client yields a Long
    | Nil                        // no value; the client yields null
    | ErrorReply(message: string) // the client throws JedisDataException

  /** One evaluation of a server-side script: the script text, the keys it
      touches and its string arguments. */
  datatype ScriptCall = ScriptCall(script: string, keys: seq<string>, args: seq<string>)

  const OkStatus: string := "OK"
  const InvalidExpireMessage: string := "ERR invalid expire time in 'set' command"

  /** `SET key value NX PX ttl`: creates `key` only when it is absent, with
      its time-to-live in the same step. A non-positive time-to-live is
      refused with an error reply. */
  function SetIfAbsent(s: Store, key: string, value: string, ttlMillis: int): (r: (Store, Reply))
    ensures r.1.ErrorReply? <==> ttlMillis <= 0
    ensures r.1 == Status(OkStatus) <==> ttlMillis > 0 && key !in s
    ensures r.1 == Status(OkStatus) ==> r.0 == s[key := Entry(value, ttlMillis)]
    ensures r.1 != Status(OkStatus) ==> r.0 == s && (r.1 == Nil || r.1.ErrorReply?)
  {
    if ttlMillis <= 0 then (s, ErrorReply(InvalidExpireMessage))
    else if key in s then (s, Nil)
    else (s[key := Entry(value, ttlMillis)], Status(OkStatus))
  }

  /** The assumed semantics of the unlock script: atomically compare the value
      stored at the first key with the first argument and delete the key only
      when they are equal, answering 1 for a deletion and 0 otherwise. A call
      without a key or an argument makes the script fail. */
  function CompareAndDelete(s: Store, call: ScriptCall): (r: (Store, Reply))
    ensures |call.keys| > 0 && |call.args| > 0 ==>
      var k := call.keys[0];
      && (r.1 == Integer(1) <==> k in s && s[k].value == call.args[0])
      && (r.1 == Integer(1) ==> r.0 == s - {k})
      && (r.1 != Integer(1) ==> r.0 == s && r.1 == Integer(0))
  {
    if |call.keys| == 0 || |call.args| == 0 then (s, ErrorReply("ERR script failed"))
    else
      var k := call.keys[0];
      if k in s && s[k].value == call.args[0] then (s - {k}, Integer(1)) else (s, Integer(0))
  }

  /** The store dropping `key` because its time-to-live ran out. */
  function Expire(s: Store, key: string): (s': Store)
    ensures key !in s'
    ensures forall k | k in s && k != key :: k in s' && s'[k] == s[k]
    ensures forall k | k in s' :: k in s
  {
    s - {key}
  }
}

/** The AMQP client of the older pipeline (twitterscraper/services/databus.py):
    the exchange cache, publishing payloads, and the run-once consume loop
    that acknowledges or rejects each message by the callback's outcome. */
module Databus {
  import opened Wrappers

  type Byte = b: int | 0 <= b < 256

  /* ---------------- UTF-8 ---------------- */

  /** `str.encode("utf-8")` of one character (a Unicode scalar value, so
      never a lone surrogate). */
  function Utf8Char(c: char): (bs: seq<Byte>)
    ensures 1 <= |bs| <= 4
    ensures |bs| == 1 <==> (c as int) < 0x80
  {
    var n := c as int;
    var q1 := n / 64;
    var q2 := q1 / 64;
    var q3 := q2 / 64;
    if n < 0x80 then [n]
    else if n < 0x800 then [0xC0 + q1, 0x80 + n % 64]
    else if n < 0x10000 then [0xE0 + q2, 0x80 + q1 % 64, 0x80 + n % 64]
    else [0xF0 + q3, 0x80 + q2 % 64, 0x80 + q1 % 64, 0x80 + n % 64]
  }

  /** `s.encode("utf-8")`. */
  function Utf8Encode(s: string): (bs: seq<Byte>)
    ensures |s| <= |bs| <= 4 * |s|
    decreases |s|
  {
    if s == [] then [] else Utf8Char(s[0]) + Utf8Encode(s[1..])
  }

  predicate IsContinuation(b: Byte) {
    0x80 <= b < 0xC0
  }

  predicate IsScalar(n: int) {
    (0 <= n < 0xD800) || (0xE000 <= n < 0x110000)
  }

  /** The length of the sequence a lead byte starts, or 0 for a byte that
      cannot lead one. */
  function SequenceLength(b: Byte): nat {
    if b < 0x80 then 1
    else if 0xC0 <= b < 0xE0 then 2
    else if 0xE0 <= b < 0xF0 then 3
    else if 0xF0 <= b < 0xF8 then 4
    else 0
  }

  /** The code point a well-formed sequence of `len` bytes carries: the
      lead byte's payload bits followed by six bits per continuation byte. */
  function CodePoint(bs: seq<Byte>, len: nat): int
    requires 1 <= len <= 4 && len <= |bs|
  {
    var b0: int := bs[0];
    if len == 1 then b0
    else
      var b1: int := bs[1];
      if len == 2 then (b0 - 0xC0) * 64 + (b1 - 0x80)
      else
        var b2: int := bs[2];
        if len == 3 then ((b0 - 0xE0) * 64 + (b1 - 0x80)) * 64 + (b2 - 0x80)
        else
          var b3: int := bs[3];
          (((b0 - 0xF0) * 64 + (b1 - 0x80)) * 64 + (b2 - 0x80)) * 64 + (b3 - 0x80)
  }

  /** Reads one character off the front of `bs`: its code point, if the
      lead byte, the continuation bytes and the resulting scalar are all
      well formed. */
  function DecodeFirst(bs: seq<Byte>): Option<(char, nat)>
  {
    if bs == [] then None
    else
      var len := SequenceLength(bs[0]);
      if len == 0 || |bs| < len then None
      else if exists k | 1 <= k < len :: !IsContinuation(bs[k]) then None
      else
        var n := CodePoint(bs, len);
        if IsScalar(n) then Some((n as char, len)) else None
  }

  /** A UTF-8 decoder: the partner the encoding is checked against. */
  function Utf8Decode(bs: seq<Byte>): Option<string>
    decreases |bs|
  {
    if bs == [] then Some([])
    else match DecodeFirst(bs)
      case None => None
      case Some((c, len)) =>
        if len == 0 then None
        else match Utf8Decode(bs[len..])
          case None => None
          case Some(rest) => Some([c] + rest)
  }

  /** One encoded character reads back as itself, whatever follows it. */
  lemma DecodeEncodedChar(c: char, rest: seq<Byte>)
    ensures DecodeFirst(Utf8Char(c) + rest) == Some((c, |Utf8Char(c)|))
  {
    var n := c as int;
    var q1 := n / 64;
    var q2 := q1 / 64;
    var q3 := q2 / 64;
    assert n == q1 * 64 + n % 64 && q1 == q2 * 64 + q1 % 64 && q2 == q3 * 64 + q2 % 64;
    var enc := Utf8Char(c);
    var bs := enc + rest;
    assert forall k | 0 <= k < |enc| :: bs[k] == enc[k];
    assert CodePoint(bs, |enc|) == n;
  }

  /** Decoding undoes the encoding. */
  lemma {:induction false} Utf8RoundTrip(s: string)
    ensures Utf8Decode(Utf8Encode(s)) == Some(s)
    decreases |s|
  {
    if s != [] {
      var head := Utf8Char(s[0]);
      var rest := Utf8Encode(s[1..]);
      DecodeEncodedChar(s[0], rest);
      assert (head + rest)[|head|..] == rest;
      Utf8RoundTrip(s[1..]);
      assert [s[0]] + s[1..] == s;
    }
  }

  /** ASCII text encodes byte for byte. */
  lemma {:induction false} Utf8Ascii(s: string)
    requires forall k | 0 <= k < |s| :: (s[k] as int) < 0x80
    ensures |Utf8Encode(s)| == |s|
    ensures forall k | 0 <= k < |s| :: Utf8Encode(s)[k] == s[k] as int
    decreases |s|
  {
    if s != [] {
      Utf8Ascii(s[1..]);
    }
  }

  /* ---------------- Exchanges and messages ---------------- */

  /** A payload of `enqueue`: text or raw bytes. */
  datatype Payload = Text(text: string) | Bytes(bytes: seq<Byte>)

  /** Text is sent UTF-8 encoded; bytes go as they are. */
  function Body(p: Payload): (b: seq<Byte>)
    ensures p.Bytes? ==> b == p.bytes
    ensures p.Text? ==> Utf8Decode(b) == Some(p.text)
  {
    match p
    case Text(s) => Utf8RoundTrip(s); Utf8Encode(s)
    case Bytes(b) => b
  }

  datatype Exchange = DefaultExchange | NamedExchange(name: string)

  /** The exchange a name denotes: the channel's default exchange for the
      empty name. */
  function ExchangeFor(name: string): Exchange {
    if name == [] then DefaultExchange else NamedExchange(name)
  }

  /** A published message: body, delivery mode PERSISTENT or not, routing
      key and exchange. */
  datatype Message = Message(body: seq<Byte>, persistent: bool, routingKey: string, exchange: Exchange)

  /** The fate of the `k`-th message handled by a consume. */
  datatype Settlement = Acked(k: nat) | Nacked(k: nat)

  datatype ConsumeError = CallbackRaised(k: nat)

  /** The messages one `enqueue` call publishes. */
  function Published(exchange: Exchange, routingKey: string, persistent: bool, payloads: seq<Payload>): (ms: seq<Message>)
    ensures |ms| == |payloads|
    ensures forall k | 0 <= k < |ms| ::
      ms[k] == Message(Body(payloads[k]), persistent, routingKey, exchange)
  {
    seq(|payloads|, k requires 0 <= k < |payloads| => Message(Body(payloads[k]), persistent, routingKey, exchange))
  }

  /** What a run-once consume does to the first `count` messages: the
      callback succeeded on all but possibly the last. */
  function Settlements(queue: seq<seq<Byte>>, succeeds: seq<Byte> -> bool, count: nat): (ss: seq<Settlement>)
    requires count <= |queue|
    ensures |ss| == count
    ensures forall k | 0 <= k < count :: ss[k] == if succeeds(queue[k]) then Acked(k) else Nacked(k)
  {
    seq(count, k requires 0 <= k < count => if succeeds(queue[k]) then Acked(k) else Nacked(k))
  }

  /** The number of messages a run-once consume handles when every
      callback succeeds: `msg_limit`, but at least one, since the limit is
      checked after a message is handled; fewer if the queue runs dry. */
  function RunOnceCount(available: nat, limit: int): (n: nat)
    ensures n <= available
    ensures available > 0 ==> n >= 1
    ensures limit >= 1 && limit <= available ==> n == limit
  {
    var wanted := if limit < 1 then 1 else limit;
    if wanted < available then wanted else available
  }

  class AMQPClient {
    /** `_exchanges`, the cache. */
    var exchanges: map<string, Exchange>
    /** The names looked up on the channel, in order. */
    var lookups: seq<string>
    var published: seq<Message>
    var prefetch: Option<int>
    var settled: seq<Settlement>

    /** Every cached exchange is the one its name denotes. */
    ghost predicate Valid()
      reads this
    {
      forall n | n in exchanges :: exchanges[n] == ExchangeFor(n)
    }

    constructor ()
      ensures Valid() && exchanges == map[] && lookups == [] && published == [] && settled == []
      ensures prefetch.None?
    {
      exchanges := map[];
      lookups := [];
      published := [];
      prefetch := None;
      settled := [];
    }

    /** `get_exchange`: a cached exchange is returned without asking the
        channel; otherwise the empty name gives the default exchange, any
        other is looked up on the channel, and the result is cached. */
    method GetExchange(name: string) returns (e: Exchange)
      requires Valid()
      modifies this
      ensures Valid()
      ensures e == ExchangeFor(name)
      ensures exchanges == old(exchanges)[name := e]
      ensures name in old(exchanges) || name == [] ==> lookups == old(lookups)
      ensures name !in old(exchanges) && name != [] ==> lookups == old(lookups) + [name]
      ensures published == old(published) && settled == old(settled) && prefetch == old(prefetch)
    {
      if name in exchanges {
        return exchanges[name];
      }
      if name == [] {
        e := DefaultExchange;
      } else {
        lookups := lookups + [name];
        e := NamedExchange(name);
      }
      exchanges := exchanges[name := e];
    }

    /** `enqueue`: one message per payload, in payload order (the source
        publishes them concurrently), text encoded as UTF-8, marked
        PERSISTENT iff `persistent`. */
    method Enqueue(exchangeName: string, routingKey: string, persistent: bool, payloads: seq<Payload>)
      requires Valid()
      modifies this
      ensures Valid()
      ensures published == old(published) + Published(ExchangeFor(exchangeName), routingKey, persistent, payloads)
      ensures exchanges == old(exchanges)[exchangeName := ExchangeFor(exchangeName)]
      ensures exchangeName in old(exchanges) || exchangeName == [] ==> lookups == old(lookups)
      ensures exchangeName !in old(exchanges) && exchangeName != [] ==> lookups == old(lookups) + [exchangeName]
      ensures settled == old(settled) && prefetch == old(prefetch)
    {
      var exchange := GetExchange(exchangeName);
      ghost var looked := lookups;
      var i := 0;
      while i < |payloads|
        invariant 0 <= i <= |payloads|
        invariant Valid() && exchanges == old(exchanges)[exchangeName := exchange]
        invariant lookups == looked
        invariant settled == old(settled) && prefetch == old(prefetch)
        invariant published == old(published) + Published(exchange, routingKey, persistent, payloads[..i])
      {
        var body := match payloads[i] case Text(s) => Utf8Encode(s) case Bytes(b) => b;
        var message := Message(body, persistent, routingKey, exchange);
        assert message == Message(Body(payloads[i]), persistent, routingKey, exchange);
        published := published + [message];
        assert Published(exchange, routingKey, persistent, payloads[..i + 1])
          == Published(exchange, routingKey, persistent, payloads[..i]) + [message];
        i := i + 1;
      }
      assert payloads[..i] == payloads;
    }

    /** `consume` in run-once mode (`msg_limit` given): the prefetch is set
        to `workers`; messages are handled one at a time, acked when the
        callback returns and nacked when it raises, in which case the
        exception leaves `consume`; after each handled message the count is
        compared with the limit. `queue` holds the messages available;
        waiting for more when it runs dry is not part of the model, the loop
        then ends. */
    method ConsumeRunOnce(succeeds: seq<Byte> -> bool, workers: int, limit: int, queue: seq<seq<Byte>>)
      returns (r: Result<nat, ConsumeError>)
      modifies this
      ensures prefetch == Some(workers)
      ensures exchanges == old(exchanges) && published == old(published) && lookups == old(lookups)
      ensures r.Ok? ==>
        (r.value == RunOnceCount(|queue|, limit)
         && (forall k | 0 <= k < r.value :: succeeds(queue[k]))
         && settled == old(settled) + Settlements(queue, succeeds, r.value))
      ensures r.Err? ==>
        (r.error.k < RunOnceCount(|queue|, limit) && !succeeds(queue[r.error.k])
         && (forall k | 0 <= k < r.error.k :: succeeds(queue[k]))
         && settled == old(settled) + Settlements(queue, succeeds, r.error.k + 1))
    {
      prefetch := Some(workers);
      var consumed := 0;
      while consumed < |queue|
        invariant 0 <= consumed <= |queue|
        invariant consumed == 0 || consumed < limit
        invariant forall k | 0 <= k < consumed :: succeeds(queue[k])
        invariant settled == old(settled) + Settlements(queue, succeeds, consumed)
        invariant prefetch == Some(workers)
        invariant exchanges == old(exchanges) && published == old(published) && lookups == old(lookups)
      {
        var message := queue[consumed];
        if !succeeds(message) {
          settled := settled + [Nacked(consumed)];
          assert Settlements(queue, succeeds, consumed + 1) == Settlements(queue, succeeds, consumed) + [Nacked(consumed)];
          return Err(CallbackRaised(consumed));
        }
        settled := settled + [Acked(consumed)];
        assert Settlements(queue, succeeds, consumed + 1) == Settlements(queue, succeeds, consumed) + [Acked(consumed)];
        consumed := consumed + 1;
        if consumed >= limit {
          break;
        }
      }
      return Ok(consumed);
    }
  }
}

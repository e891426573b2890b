/** The per-client bind rate limiter: one-minute windows, pruned when the table grows. */
module RateLimit {
  import opened Octets
  import opened OrderedKeys

  /** One minute in clock ticks. */
  const WINDOW: int := 60_000_000_000
  const PRUNE_SIZE: nat := 4096

  datatype Bucket = Bucket(start: int, count: nat)

  type Buckets = map<Text, Bucket>

  const FRESH: Bucket := Bucket(0, 0)

  /** `[v6]:port` keeps the bracketed address, a single colon cuts the port, anything else is kept whole. */
  function ClientKey(id: Text): Text {
    var close := IndexOf(id, ']' as int);
    var colon := IndexOf(id, ':' as int);
    if id != [] && id[0] == '[' as int && close < |id| then id[..close + 1]
    else if colon < |id| && ':' as int !in id[colon + 1..] then id[..colon]
    else id
  }

  predicate Expired(b: Bucket, now: int) {
    now - b.start >= WINDOW
  }

  function Prune(buckets: Buckets, now: int): Buckets {
    if |buckets| < PRUNE_SIZE then buckets
    else map k | k in buckets && !Expired(buckets[k], now) :: buckets[k]
  }

  function BucketOf(buckets: Buckets, key: Text): Bucket {
    if key in buckets then buckets[key] else FRESH
  }

  /** The bucket after a request at `now`, and whether it was allowed. */
  function Charge(limit: nat, b: Bucket, now: int): (bool, Bucket) {
    var current := if b.start == 0 || Expired(b, now) then Bucket(now, 0) else b;
    if current.count >= limit then (false, current) else (true, current.(count := current.count + 1))
  }

  function AllowWith(limit: nat, buckets: Buckets, key: Text, now: int): (bool, Buckets) {
    var (ok, b) := Charge(limit, BucketOf(buckets, key), now);
    (ok, buckets[key := b])
  }

  datatype Request = Request(client: Text, now: int)

  /** The answers to a trace, with or without pruning before each request. */
  function Answers(limit: nat, buckets: Buckets, trace: seq<Request>, pruning: bool): seq<bool>
    decreases |trace|
  {
    if trace == [] then []
    else if limit == 0 then [true] + Answers(limit, buckets, trace[1..], pruning)
    else
      var r := trace[0];
      var table := if pruning then Prune(buckets, r.now) else buckets;
      var (ok, next) := AllowWith(limit, table, ClientKey(r.client), r.now);
      [ok] + Answers(limit, next, trace[1..], pruning)
  }

  /** Times are positive, start no earlier than `from`, and never go back. */
  ghost predicate Chronological(trace: seq<Request>, from: int) {
    && (forall i :: 0 <= i < |trace| ==> 0 < trace[i].now && from <= trace[i].now)
    && forall i, j :: 0 <= i < j < |trace| ==> trace[i].now <= trace[j].now
  }

  // ---------- pruning is invisible ----------

  /** The pruned table lacks only buckets that have expired. */
  ghost predicate OnlyExpiredMissing(pruned: Buckets, full: Buckets, now: int) {
    && (forall k :: k in pruned ==> k in full && pruned[k] == full[k])
    && (forall k :: k in full && k !in pruned ==> Expired(full[k], now))
  }

  lemma PruneDropsExpired(pruned: Buckets, full: Buckets, before: int, now: int)
    requires OnlyExpiredMissing(pruned, full, before) && before <= now
    ensures OnlyExpiredMissing(Prune(pruned, now), full, now)
  {
  }

  lemma AllowKeepsPair(limit: nat, pruned: Buckets, full: Buckets, key: Text, now: int)
    requires OnlyExpiredMissing(pruned, full, now)
    ensures AllowWith(limit, pruned, key, now).0 == AllowWith(limit, full, key, now).0
    ensures OnlyExpiredMissing(AllowWith(limit, pruned, key, now).1, AllowWith(limit, full, key, now).1, now)
  {
    assert Charge(limit, BucketOf(pruned, key), now) == Charge(limit, BucketOf(full, key), now);
  }

  lemma {:induction false} PruningInvisibleFrom(limit: nat, pruned: Buckets, full: Buckets, trace: seq<Request>, before: int)
    requires OnlyExpiredMissing(pruned, full, before) && Chronological(trace, before)
    ensures Answers(limit, pruned, trace, true) == Answers(limit, full, trace, false)
    decreases |trace|
  {
    hide Prune, AllowWith, ClientKey;
    if trace != [] {
      var r, rest := trace[0], trace[1..];
      if limit == 0 {
        PruningInvisibleFrom(limit, pruned, full, rest, before);
      } else {
        var key := ClientKey(r.client);
        PruneDropsExpired(pruned, full, before, r.now);
        AllowKeepsPair(limit, Prune(pruned, r.now), full, key, r.now);
        PruningInvisibleFrom(limit, AllowWith(limit, Prune(pruned, r.now), key, r.now).1,
                             AllowWith(limit, full, key, r.now).1, rest, r.now);
      }
    }
  }

  /** For every chronological trace the pruned limiter answers exactly as one that never prunes. */
  lemma PruningIsInvisible(limit: nat, trace: seq<Request>)
    requires Chronological(trace, 1)
    ensures Answers(limit, map[], trace, true) == Answers(limit, map[], trace, false)
  {
    PruningInvisibleFrom(limit, map[], map[], trace, 1);
  }

  // ---------- the bound per minute ----------

  /** How many requests of `key` in `[low, low + WINDOW)` were allowed, given the answers. */
  function Granted(trace: seq<Request>, answers: seq<bool>, key: Text, low: int): nat
    requires |answers| == |trace|
    decreases |trace|
  {
    if trace == [] then 0
    else
      var r := trace[0];
      (if answers[0] && ClientKey(r.client) == key && low <= r.now < low + WINDOW then 1 else 0)
      + Granted(trace[1..], answers[1..], key, low)
  }

  lemma {:induction false} AnswersLength(limit: nat, buckets: Buckets, trace: seq<Request>, pruning: bool)
    ensures |Answers(limit, buckets, trace, pruning)| == |trace|
    decreases |trace|
  {
    if trace != [] {
      var r := trace[0];
      if limit == 0 {
        AnswersLength(limit, buckets, trace[1..], pruning);
      } else {
        var table := if pruning then Prune(buckets, r.now) else buckets;
        AnswersLength(limit, AllowWith(limit, table, ClientKey(r.client), r.now).1, trace[1..], pruning);
      }
    }
  }

  /** How the number already granted in the interval relates to the key's bucket. The first grant of a window
      falls on its start, so a window that began before the interval contributes at most `count - 1`. */
  ghost predicate Accounted(limit: nat, b: Bucket, granted: nat, low: int) {
    && b.count <= limit
    && (b.start == 0 ==> b.count == 0 && granted == 0)
    && (b.start != 0 ==> 0 < b.start && 1 <= b.count)
    && (0 < b.start < low ==> granted <= b.count - 1)
    && (0 < b.start && low <= b.start ==> granted <= limit - 1 + b.count)
  }

  lemma ChargeAccounted(limit: nat, b: Bucket, granted: nat, low: int, now: int)
    requires limit > 0 && Accounted(limit, b, granted, low) && 0 < now && b.start <= now
    requires now < low ==> granted == 0
    requires now < low + WINDOW
    ensures var (ok, after) := Charge(limit, b, now);
            Accounted(limit, after, granted + (if ok && low <= now then 1 else 0), low) && after.start <= now
  {
  }

  lemma {:induction false} GrantedBoundFrom(limit: nat, full: Buckets, trace: seq<Request>, key: Text, low: int,
                                            granted: nat, before: int)
    requires limit > 0 && Chronological(trace, before)
    requires Accounted(limit, BucketOf(full, key), granted, low) && BucketOf(full, key).start <= before
    requires before < low ==> granted == 0
    ensures |Answers(limit, full, trace, false)| == |trace|
    ensures granted + Granted(trace, Answers(limit, full, trace, false), key, low) <= 2 * limit - 1
    decreases |trace|
  {
    hide Accounted, Charge, ClientKey;
    AnswersLength(limit, full, trace, false);
    if trace == [] {
      AccountedBound(limit, BucketOf(full, key), granted, low);
    } else {
      var r, rest := trace[0], trace[1..];
      var k := ClientKey(r.client);
      var (ok, next) := AllowWith(limit, full, k, r.now);
      var answers := Answers(limit, full, trace, false);
      assert answers[0] == ok && answers[1..] == Answers(limit, next, rest, false);
      if r.now >= low + WINDOW {
        NoneLater(trace, answers, key, low);
        AccountedBound(limit, BucketOf(full, key), granted, low);
      } else if k == key {
        ChargeAccounted(limit, BucketOf(full, key), granted, low, r.now);
        var more := granted + if ok && low <= r.now then 1 else 0;
        assert BucketOf(next, key) == Charge(limit, BucketOf(full, key), r.now).1;
        GrantedBoundFrom(limit, next, rest, key, low, more, r.now);
      } else {
        assert BucketOf(next, key) == BucketOf(full, key);
        GrantedBoundFrom(limit, next, rest, key, low, granted, r.now);
      }
    }
  }

  lemma AccountedBound(limit: nat, b: Bucket, granted: nat, low: int)
    requires limit > 0 && Accounted(limit, b, granted, low)
    ensures granted <= 2 * limit - 1
  {
  }

  lemma {:induction false} NoneLater(trace: seq<Request>, answers: seq<bool>, key: Text, low: int)
    requires |answers| == |trace|
    requires forall i :: 0 <= i < |trace| ==> trace[0].now <= trace[i].now
    requires trace != [] ==> trace[0].now >= low + WINDOW
    ensures Granted(trace, answers, key, low) == 0
    decreases |trace|
  {
    LaterThan(trace, answers, key, low);
  }

  lemma {:induction false} LaterThan(trace: seq<Request>, answers: seq<bool>, key: Text, low: int)
    requires |answers| == |trace|
    requires forall i :: 0 <= i < |trace| ==> trace[i].now >= low + WINDOW
    ensures Granted(trace, answers, key, low) == 0
    decreases |trace|
  {
    if trace != [] {
      LaterThan(trace[1..], answers[1..], key, low);
    }
  }

  /** With a non-zero limit, each client key is allowed at most twice the limit, less one, in any minute. */
  lemma AtMostTwiceTheLimit(limit: nat, trace: seq<Request>, key: Text, low: int)
    requires limit > 0 && Chronological(trace, 1)
    ensures |Answers(limit, map[], trace, true)| == |trace|
    ensures Granted(trace, Answers(limit, map[], trace, true), key, low) <= 2 * limit - 1
  {
    PruningIsInvisible(limit, trace);
    GrantedBoundFrom(limit, map[], trace, key, low, 0, 1);
  }

  // ---------- the bound is reached ----------

  function Burst(r: Request, n: nat): seq<Request> {
    seq(n, _ => r)
  }

  /** The bucket a request at `now` is charged to. */
  function Current(b: Bucket, now: int): Bucket {
    if b.start == 0 || Expired(b, now) then Bucket(now, 0) else b
  }

  /** How many requests of `key` in the minute from `low` the trace is granted. */
  function GrantedIn(limit: nat, buckets: Buckets, trace: seq<Request>, key: Text, low: int): nat {
    AnswersLength(limit, buckets, trace, false);
    Granted(trace, Answers(limit, buckets, trace, false), key, low)
  }

  lemma GrantedInStep(limit: nat, buckets: Buckets, r: Request, rest: seq<Request>, low: int)
    requires limit > 0
    ensures var key := ClientKey(r.client);
            var (ok, next) := AllowWith(limit, buckets, key, r.now);
            GrantedIn(limit, buckets, [r] + rest, key, low)
              == (if ok && low <= r.now < low + WINDOW then 1 else 0) + GrantedIn(limit, next, rest, key, low)
  {
    hide ClientKey, AllowWith;
    assert ([r] + rest)[1..] == rest;
    AnswersLength(limit, buckets, [r] + rest, false);
  }

  function WithCount(buckets: Buckets, key: Text, b: Bucket, count: nat): Buckets {
    buckets[key := b.(count := count)]
  }

  /** A burst that fits into its window is granted in full. */
  lemma {:induction false} BurstGranted(limit: nat, buckets: Buckets, r: Request, n: nat, rest: seq<Request>, low: int)
    requires limit > 0 && r.now > 0
    requires Current(BucketOf(buckets, ClientKey(r.client)), r.now).count + n <= limit
    ensures var key := ClientKey(r.client);
            var b := Current(BucketOf(buckets, key), r.now);
            var after := if n == 0 then buckets else WithCount(buckets, key, b, b.count + n);
            GrantedIn(limit, buckets, Burst(r, n) + rest, key, low)
              == (if low <= r.now < low + WINDOW then n else 0) + GrantedIn(limit, after, rest, key, low)
    decreases n
  {
    hide ClientKey, GrantedIn;
    var key := ClientKey(r.client);
    if n == 0 {
      assert Burst(r, n) + rest == rest;
    } else {
      var b := Current(BucketOf(buckets, key), r.now);
      var next := WithCount(buckets, key, b, b.count + 1);
      assert Burst(r, n) + rest == [r] + (Burst(r, n - 1) + rest);
      GrantedInStep(limit, buckets, r, Burst(r, n - 1) + rest, low);
      BurstGranted(limit, next, r, n - 1, rest, low);
      assert WithCount(next, key, b.(count := b.count + 1), b.count + n) == WithCount(buckets, key, b, b.count + n);
    }
  }

  /** For every limit some client is allowed twice the limit, less one, within a minute: one request opens a window,
      the rest of its allowance comes at its very end, and the next window's allowance right after. */
  lemma BoundIsReached(limit: nat, client: Text) returns (trace: seq<Request>, low: int)
    requires limit > 0
    ensures Chronological(trace, 1)
    ensures |Answers(limit, map[], trace, true)| == |trace|
    ensures Granted(trace, Answers(limit, map[], trace, true), ClientKey(client), low) == 2 * limit - 1
  {
    hide ClientKey, Granted, Answers, GrantedIn;
    var key := ClientKey(client);
    var a, b, c := Request(client, 1), Request(client, WINDOW), Request(client, WINDOW + 1);
    low := 2;
    var third := Burst(c, limit) + [];
    var second := Burst(b, limit - 1) + third;
    trace := Burst(a, 1) + second;
    BurstGranted(limit, map[], a, 1, second, low);
    var after: Buckets := map[key := Bucket(1, 1)];
    BurstGranted(limit, after, b, limit - 1, third, low);
    var full := if limit == 1 then after else after[key := Bucket(1, limit)];
    BurstGranted(limit, full, c, limit, [], low);
    NothingGranted(limit, key, low);
    PruningIsInvisible(limit, trace);
    GrantedInIs(limit, trace, key, low);
  }

  lemma GrantedInIs(limit: nat, trace: seq<Request>, key: Text, low: int)
    ensures |Answers(limit, map[], trace, false)| == |trace|
    ensures GrantedIn(limit, map[], trace, key, low) == Granted(trace, Answers(limit, map[], trace, false), key, low)
  {
    AnswersLength(limit, map[], trace, false);
  }

  lemma NothingGranted(limit: nat, key: Text, low: int)
    ensures forall buckets: Buckets {:trigger GrantedIn(limit, buckets, [], key, low)} ::
              GrantedIn(limit, buckets, [], key, low) == 0
  {
  }

  /** The table once the listed keys have been looked at. */
  function DropExpired(all: Buckets, ks: seq<Text>, now: int): Buckets {
    map k | k in all && !(k in ks && Expired(all[k], now)) :: all[k]
  }

  lemma DropNone(all: Buckets, now: int)
    ensures DropExpired(all, [], now) == all
  {
  }

  lemma DropStep(all: Buckets, ks: seq<Text>, i: nat, now: int)
    requires i < |ks| && ks[i] in all
    ensures DropExpired(all, ks[..i + 1], now)
         == (if Expired(all[ks[i]], now) then DropExpired(all, ks[..i], now) - {ks[i]} else DropExpired(all, ks[..i], now))
  {
    assert ks[..i + 1] == ks[..i] + [ks[i]];
  }

  lemma PruneSmall(all: Buckets, now: int)
    ensures |all| < PRUNE_SIZE ==> Prune(all, now) == all
  {
  }

  lemma DropAll(all: Buckets, ks: seq<Text>, now: int)
    requires forall k :: k in all ==> k in ks
    requires |all| >= PRUNE_SIZE
    ensures DropExpired(all, ks, now) == Prune(all, now)
  {
  }

  // ---------- the class ----------

  class RateLimiter {
    var maxPerMinute: nat
    var buckets: Buckets

    constructor (limit: nat)
      ensures maxPerMinute == limit && buckets == map[]
    {
      maxPerMinute, buckets := limit, map[];
    }

    method SetMaxPerMinute(limit: nat)
      modifies this
      ensures maxPerMinute == limit && buckets == map[]
    {
      maxPerMinute := limit;
      buckets := map[];
    }

    /** Erases expired buckets while walking the table. */
    method PruneLocked(now: int)
      modifies this`buckets
      ensures buckets == Prune(old(buckets), now)
    {
      hide LexLess, SortedKeys, DropExpired, Prune, Expired;
      PruneSmall(buckets, now);
      if |buckets| < PRUNE_SIZE {
        return;
      }
      var all := buckets;
      var ks := SortedKeys(all.Keys);
      DropNone(all, now);
      assert ks[..0] == [];
      var i := 0;
      while i < |ks|
        invariant 0 <= i <= |ks|
        invariant buckets == DropExpired(all, ks[..i], now)
      {
        var k := ks[i];
        assert k in ks;
        DropStep(all, ks, i, now);
        if Expired(all[k], now) {
          buckets := buckets - {k};
        }
        i := i + 1;
      }
      assert ks[..|ks|] == ks;
      DropAll(all, ks, now);
    }

    method Allow(client: Text, now: int) returns (ok: bool)
      modifies this`buckets
      ensures if maxPerMinute == 0 then ok && buckets == old(buckets)
              else (ok, buckets) == AllowWith(maxPerMinute, Prune(old(buckets), now), ClientKey(client), now)
    {
      if maxPerMinute == 0 {
        return true;
      }
      var key := ClientKey(client);
      PruneLocked(now);
      var bucket := if key in buckets then buckets[key] else FRESH;
      if bucket.start == 0 || now - bucket.start >= WINDOW {
        bucket := Bucket(now, 0);
      }
      if bucket.count >= maxPerMinute {
        buckets := buckets[key := bucket];
        return false;
      }
      buckets := buckets[key := bucket.(count := bucket.count + 1)];
      return true;
    }
  }
}

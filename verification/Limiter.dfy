/** The rate limiter as one process keeps it: a map of buckets updated in place. */
module Limiter {
  import opened Buckets
  import Collections

  class Limiter {
    const rate: real
    const burst: nat
    var buckets: map<Key, Bucket>
    var sweepAt: nat
    ghost var insertions: nat
    ghost var visits: nat

    function Limits(): Policy {
      Policy(rate, burst)
    }

    ghost function Now(): Table
      reads this
    {
      Table(buckets, sweepAt)
    }

    /** Tokens are in range, the table is within its threshold, and all sweeps so far are
        paid for by insertions. */
    ghost predicate Valid()
      reads this
    {
      && ValidPolicy(Limits()) && InRange(Limits(), buckets) && Bounded(Now())
      && visits + Potential(Now()) <= 2 * insertions
    }

    constructor (ratePerSecond: real, burst: int)
      requires ratePerSecond > 0.0 && burst > 0
      ensures Valid() && buckets == map[] && sweepAt == 1024 && insertions == 0 && visits == 0
      ensures rate == ratePerSecond && this.burst == burst
    {
      rate := ratePerSecond;
      this.burst := burst;
      buckets := map[];
      sweepAt := MIN_SWEEP_AT;
      insertions, visits := 0, 0;
    }

    /** One call: a grant, or the wait until the key's bucket has a token again. */
    method Allow(key: Key, now: real) returns (granted: bool, wait: real)
      requires Valid()
      modifies this
      ensures Valid() && visits <= 2 * insertions && |buckets| <= sweepAt
      ensures var (t, r) := Buckets.Allow(Limits(), old(Now()), Call(key, now), true);
              Now() == t && r == if granted then Granted else Wait(wait)
      ensures AllowSpec(Limits(), old(Now()), Call(key, now), Now(), if granted then Granted else Wait(wait))
      ensures visits == old(visits) + Visited(old(Now()), Call(key, now))
      ensures insertions == old(insertions) + Inserted(old(Now()), Call(key, now))
    {
      hide AllowSpec, SweepSpec, InRange, Buckets.Sweep;
      AllowLaw(Limits(), Now(), Call(key, now));
      CallIsAmortized(Limits(), Now(), Call(key, now));
      CallInRange(Limits(), Now(), Call(key, now), true);
      if key !in buckets {
        Sweep(now);
        buckets := buckets[key := Bucket(burst as real, now)];
        insertions := insertions + 1;
      }
      var b := buckets[key];
      var tokens := Level(Limits(), b, now);
      // A call that waited for the lock may bring an earlier time than the last one did.
      var seen := if now > b.seen then now else b.seen;
      if tokens >= 1.0 {
        buckets := buckets[key := Bucket(tokens - 1.0, seen)];
        granted, wait := true, 0.0;
      } else {
        buckets := buckets[key := Bucket(tokens, seen)];
        granted, wait := false, (1.0 - tokens) / rate;
      }
      assert Now() == Buckets.Allow(Limits(), old(Now()), Call(key, now), true).0;
    }

    /** Drops every bucket that is full, once the table has reached its threshold. */
    method Sweep(now: real)
      requires ValidPolicy(Limits())
      modifies `buckets, `sweepAt, `visits
      ensures Now() == Buckets.Sweep(Limits(), old(Now()), now)
      ensures SweepSpec(Limits(), old(Now()), now, Now())
      ensures visits == old(visits) + if |old(buckets)| < old(sweepAt) then 0 else |old(buckets)|
    {
      hide SweepSpec;
      SweepLaw(Limits(), Now(), now);
      if |buckets| < sweepAt {
        return;
      }
      ghost var whole := buckets;
      var todo := buckets.Keys;
      assert |todo| == |buckets|;
      while todo != {}
        invariant todo <= buckets.Keys <= whole.Keys
        invariant sweepAt == old(sweepAt)
        invariant forall k :: k in whole ==> (k in buckets <==> k in todo || Level(Limits(), whole[k], now) < Cap(Limits()))
        invariant forall k :: k in buckets ==> buckets[k] == whole[k]
        invariant visits + |todo| == old(visits) + |whole|
        decreases |todo|
      {
        var key := Collections.Any(todo);
        todo := todo - {key};
        visits := visits + 1;
        if Level(Limits(), buckets[key], now) >= burst as real {
          buckets := buckets - {key};
        }
      }
      assert buckets == Kept(Limits(), whole, now);
      sweepAt := if MIN_SWEEP_AT > 2 * |buckets| then MIN_SWEEP_AT else 2 * |buckets|;
    }
  }

  /** Serving a list of calls in order gives the replies of the run of the table. */
  method Serve(l: Limiter, calls: seq<Call>) returns (replies: seq<Reply>)
    requires l.Valid()
    modifies l
    ensures l.Valid()
    ensures replies == Replies(l.Limits(), old(l.Now()), calls, true)
    ensures l.Now() == After(l.Limits(), old(l.Now()), calls, true)
  {
    replies := [];
    for i := 0 to |calls|
      invariant l.Valid()
      invariant replies + Replies(l.Limits(), l.Now(), calls[i..], true) == Replies(l.Limits(), old(l.Now()), calls, true)
      invariant After(l.Limits(), l.Now(), calls[i..], true) == After(l.Limits(), old(l.Now()), calls, true)
    {
      assert calls[i..][1..] == calls[i + 1..];
      var granted, wait := l.Allow(calls[i].key, calls[i].now);
      replies := replies + [if granted then Granted else Wait(wait)];
    }
  }
}

/** Token buckets as values, over real numbers and real seconds.

    `evicting` is the limiter as it is; without it nothing is ever dropped, which is
    what the limiter is compared with. */
module Buckets {
  type Key = string

  /** A rate above zero and a burst of at least one, as the defaults see to. */
  datatype Policy = Policy(rate: real, burst: nat)

  ghost predicate ValidPolicy(p: Policy) {
    p.rate > 0.0 && p.burst >= 1
  }

  function Cap(p: Policy): real {
    p.burst as real
  }

  datatype Bucket = Bucket(tokens: real, seen: real)

  datatype Reply = Granted | Wait(seconds: real)

  datatype Call = Call(key: Key, now: real)

  const MIN_SWEEP_AT: nat := 1024

  datatype Table = Table(buckets: map<Key, Bucket>, sweepAt: nat)

  const EMPTY := Table(map[], MIN_SWEEP_AT)

  function Elapsed(b: Bucket, now: real): (e: real)
    ensures e >= 0.0
  {
    if now > b.seen then now - b.seen else 0.0
  }

  /** The tokens that come in while time passes. */
  function Accrued(rate: real, elapsed: real): real {
    elapsed * rate
  }

  /** What the bucket holds at `now`: it fills at the rate and never overflows. */
  function Level(p: Policy, b: Bucket, now: real): real {
    var filled := b.tokens + Accrued(p.rate, Elapsed(b, now));
    if filled < Cap(p) then filled else Cap(p)
  }

  function Spend(p: Policy, b: Bucket, now: real): (Bucket, Reply)
    requires ValidPolicy(p)
  {
    var tokens := Level(p, b, now);
    var seen := if now > b.seen then now else b.seen;
    if tokens >= 1.0 then (Bucket(tokens - 1.0, seen), Granted)
    else (Bucket(tokens, seen), Wait((1.0 - tokens) / p.rate))
  }

  function Kept(p: Policy, buckets: map<Key, Bucket>, now: real): map<Key, Bucket> {
    map k | k in buckets && Level(p, buckets[k], now) < Cap(p) :: buckets[k]
  }

  function Threshold(size: nat): nat {
    if MIN_SWEEP_AT > 2 * size then MIN_SWEEP_AT else 2 * size
  }

  function Sweep(p: Policy, t: Table, now: real): Table {
    if |t.buckets| < t.sweepAt then t
    else var kept := Kept(p, t.buckets, now); Table(kept, Threshold(|kept|))
  }

  function Allow(p: Policy, t: Table, c: Call, evicting: bool): (Table, Reply)
    requires ValidPolicy(p)
  {
    var known := c.key in t.buckets;
    var swept := if known || !evicting then t else Sweep(p, t, c.now);
    var (b, reply) := Spend(p, if known then t.buckets[c.key] else Bucket(Cap(p), c.now), c.now);
    (swept.(buckets := swept.buckets[c.key := b]), reply)
  }

  function After(p: Policy, t: Table, calls: seq<Call>, evicting: bool): Table
    requires ValidPolicy(p)
    decreases |calls|
  {
    if calls == [] then t else After(p, Allow(p, t, calls[0], evicting).0, calls[1..], evicting)
  }

  function Replies(p: Policy, t: Table, calls: seq<Call>, evicting: bool): (r: seq<Reply>)
    requires ValidPolicy(p)
    ensures |r| == |calls|
    decreases |calls|
  {
    if calls == [] then []
    else
      var (next, reply) := Allow(p, t, calls[0], evicting);
      [reply] + Replies(p, next, calls[1..], evicting)
  }

  // ---- a call, said of the tokens and times alone ----

  /** What the bucket would have at `now` if it could overflow. */
  ghost function Filled(p: Policy, b: Bucket, now: real): real {
    b.tokens + p.rate * (if now > b.seen then now - b.seen else 0.0)
  }

  /** A full table drops the buckets that are full, and no other. */
  ghost predicate SweepSpec(p: Policy, t: Table, now: real, after: Table) {
    && (if |t.buckets| < t.sweepAt then after.sweepAt == t.sweepAt
        else after.sweepAt == if 1024 > 2 * |after.buckets| then 1024 else 2 * |after.buckets|)
    && (forall k :: k in after.buckets ==> k in t.buckets && after.buckets[k] == t.buckets[k])
    && (forall k :: k in t.buckets ==>
          (k !in after.buckets <==> |t.buckets| >= t.sweepAt && Filled(p, t.buckets[k], now) >= p.burst as real))
  }

  lemma SweepLaw(p: Policy, t: Table, now: real)
    ensures SweepSpec(p, t, now, Sweep(p, t, now))
  {
    forall k | k in t.buckets ensures Level(p, t.buckets[k], now) < Cap(p) <==> Filled(p, t.buckets[k], now) < p.burst as real {
      LevelIs(p, t.buckets[k], now);
    }
  }

  lemma LevelIs(p: Policy, b: Bucket, now: real)
    ensures Level(p, b, now) == if Filled(p, b, now) < p.burst as real then Filled(p, b, now) else p.burst as real
  {}

  /** A key without a bucket spends from a full one. One with a bucket is granted exactly
      if that has a token by now, and told otherwise how long the rest of one takes. Other
      buckets stay as they are, but for those that a sweep drops on the way. */
  ghost predicate AllowSpec(p: Policy, t: Table, c: Call, after: Table, reply: Reply)
    requires ValidPolicy(p)
  {
    && c.key in after.buckets
    && (c.key !in t.buckets ==> reply == Granted && after.buckets[c.key] == Bucket(p.burst as real - 1.0, c.now))
    && (c.key in t.buckets ==>
          var b := t.buckets[c.key];
          var tokens := if Filled(p, b, c.now) < p.burst as real then Filled(p, b, c.now) else p.burst as real;
          && reply == (if tokens >= 1.0 then Granted else Wait((1.0 - tokens) / p.rate))
          && after.buckets[c.key] == Bucket(if tokens >= 1.0 then tokens - 1.0 else tokens, if c.now > b.seen then c.now else b.seen))
    && (forall k :: k in after.buckets && k != c.key ==> k in t.buckets && after.buckets[k] == t.buckets[k])
    && (forall k :: k in t.buckets ==>
          (k !in after.buckets
           <==> c.key !in t.buckets && |t.buckets| >= t.sweepAt && Filled(p, t.buckets[k], c.now) >= p.burst as real))
  }

  lemma AllowLaw(p: Policy, t: Table, c: Call)
    requires ValidPolicy(p)
    ensures var (after, reply) := Allow(p, t, c, true);
            AllowSpec(p, t, c, after, reply)
  {
    hide Level, Filled, Sweep;
    SweepLaw(p, t, c.now);
    if c.key in t.buckets {
      LevelIs(p, t.buckets[c.key], c.now);
    } else {
      StartsFull(p, c.now);
    }
  }

  lemma StartsFull(p: Policy, now: real)
    ensures Level(p, Bucket(Cap(p), now), now) == p.burst as real
  {}

  // ---- tokens stay between nothing and the burst ----

  ghost predicate InRange(p: Policy, buckets: map<Key, Bucket>) {
    forall k :: k in buckets ==> 0.0 <= buckets[k].tokens <= p.burst as real
  }

  lemma SpendInRange(p: Policy, b: Bucket, now: real)
    requires ValidPolicy(p) && 0.0 <= b.tokens <= Cap(p)
    ensures 0.0 <= Spend(p, b, now).0.tokens <= Cap(p)
  {
    Fills(p.rate, Elapsed(b, now));
  }

  lemma Fills(rate: real, elapsed: real)
    requires rate > 0.0 && elapsed >= 0.0
    ensures Accrued(rate, elapsed) >= 0.0
  {}

  lemma {:induction false} TokensInRange(p: Policy, t: Table, calls: seq<Call>, evicting: bool)
    requires ValidPolicy(p) && InRange(p, t.buckets)
    ensures forall k :: k in After(p, t, calls, evicting).buckets ==>
              0.0 <= After(p, t, calls, evicting).buckets[k].tokens <= p.burst as real
    decreases |calls|
  {
    if calls != [] {
      var c := calls[0];
      SpendInRange(p, if c.key in t.buckets then t.buckets[c.key] else Bucket(Cap(p), c.now), c.now);
      TokensInRange(p, Allow(p, t, c, evicting).0, calls[1..], evicting);
    }
  }

  // ---- eviction is invisible while the clock does not run backwards ----

  ghost predicate NonDecreasing(calls: seq<Call>) {
    forall i, j :: 0 <= i < j < |calls| ==> calls[i].now <= calls[j].now
  }

  lemma StaysFull(p: Policy, b: Bucket, now: real, later: real)
    requires ValidPolicy(p) && now <= later && Level(p, b, now) == Cap(p)
    ensures Level(p, b, later) == Cap(p)
    ensures b.tokens < Cap(p) ==> b.seen < now
  {
    Fills(p.rate, Elapsed(b, later) - Elapsed(b, now));
    SplitTime(p.rate, Elapsed(b, now), Elapsed(b, later) - Elapsed(b, now));
  }

  /** `drops` has the buckets that are gone from `a`, each with the time of the sweep that
      found it full. No stored bucket is ever full: a call has just spent from it. */
  ghost predicate Tracks(p: Policy, a: map<Key, Bucket>, whole: map<Key, Bucket>, drops: map<Key, real>) {
    && (forall k :: k in a ==> k in whole && a[k] == whole[k])
    && (forall k :: k in whole ==> whole[k].tokens < Cap(p) && (k in a || k in drops))
    && (forall k :: k in drops ==> k in whole && k !in a && Level(p, whole[k], drops[k]) == Cap(p))
  }

  function DropsAfter(p: Policy, t: Table, drops: map<Key, real>, c: Call): map<Key, real>
    requires ValidPolicy(p)
  {
    var kept := Allow(p, t, c, true).0.buckets;
    (drops + map k | k in t.buckets && k !in kept :: c.now) - {c.key}
  }

  /** No call comes before the sweep that dropped its own key's bucket. */
  ghost predicate NotOvertaken(p: Policy, t: Table, drops: map<Key, real>, calls: seq<Call>)
    requires ValidPolicy(p)
    decreases |calls|
  {
    calls == [] ||
    var c := calls[0];
    && (c.key in drops ==> drops[c.key] <= c.now)
    && NotOvertaken(p, Allow(p, t, c, true).0, DropsAfter(p, t, drops, c), calls[1..])
  }

  /** The bucket that a call spends from is the same, whether or not it had been dropped. */
  lemma SpendsAlike(p: Policy, a: Table, whole: Table, drops: map<Key, real>, c: Call)
    requires ValidPolicy(p) && Tracks(p, a.buckets, whole.buckets, drops)
    requires c.key in drops ==> drops[c.key] <= c.now
    ensures var (a', reply) := Allow(p, a, c, true);
            var (whole', reply') := Allow(p, whole, c, false);
            && reply == reply' && a'.buckets[c.key] == whole'.buckets[c.key]
            && a'.buckets[c.key].tokens < Cap(p)
  {
    if c.key in drops {
      StaysFull(p, whole.buckets[c.key], drops[c.key], c.now);
    }
  }

  lemma CallIsTracked(p: Policy, a: Table, whole: Table, drops: map<Key, real>, c: Call)
    requires ValidPolicy(p) && Tracks(p, a.buckets, whole.buckets, drops)
    requires c.key in drops ==> drops[c.key] <= c.now
    ensures var (a', reply) := Allow(p, a, c, true);
            var (whole', reply') := Allow(p, whole, c, false);
            reply == reply' && Tracks(p, a'.buckets, whole'.buckets, DropsAfter(p, a, drops, c))
  {
    hide Allow, Level;
    SpendsAlike(p, a, whole, drops, c);
    OnlyFullAreDropped(p, a, c);
    OthersStay(p, a, c, true);
    OthersStay(p, whole, c, false);
  }

  lemma OthersStay(p: Policy, t: Table, c: Call, evicting: bool)
    requires ValidPolicy(p)
    ensures var next := Allow(p, t, c, evicting).0.buckets;
            && c.key in next
            && (forall k :: k in next && k != c.key ==> k in t.buckets && next[k] == t.buckets[k])
            && (!evicting ==> forall k :: k in t.buckets ==> k in next)
  {}

  lemma OnlyFullAreDropped(p: Policy, t: Table, c: Call)
    requires ValidPolicy(p)
    ensures var kept := Allow(p, t, c, true).0.buckets;
            forall k :: k in t.buckets && k !in kept ==> Level(p, t.buckets[k], c.now) == Cap(p)
  {}

  lemma {:induction false} RunIsTracked(p: Policy, a: Table, whole: Table, drops: map<Key, real>, calls: seq<Call>)
    requires ValidPolicy(p) && Tracks(p, a.buckets, whole.buckets, drops) && NotOvertaken(p, a, drops, calls)
    ensures Replies(p, a, calls, true) == Replies(p, whole, calls, false)
    decreases |calls|
  {
    hide Allow, Tracks;
    if calls != [] {
      var c := calls[0];
      CallIsTracked(p, a, whole, drops, c);
      RunIsTracked(p, Allow(p, a, c, true).0, Allow(p, whole, c, false).0, DropsAfter(p, a, drops, c), calls[1..]);
    }
  }

  /** The same answers and waits as a limiter that never drops a bucket, for calls in any
      order of time, unless one comes before the sweep that dropped its key. */
  lemma EvictionIsInvisibleUnlessOvertaken(p: Policy, calls: seq<Call>)
    requires ValidPolicy(p) && NotOvertaken(p, EMPTY, map[], calls)
    ensures Replies(p, EMPTY, calls, true) == Replies(p, EMPTY, calls, false)
  {
    RunIsTracked(p, EMPTY, EMPTY, map[], calls);
  }

  lemma {:induction false} InOrderIsNotOvertaken(p: Policy, t: Table, drops: map<Key, real>, calls: seq<Call>)
    requires ValidPolicy(p) && NonDecreasing(calls)
    requires calls != [] ==> forall k :: k in drops ==> drops[k] <= calls[0].now
    ensures NotOvertaken(p, t, drops, calls)
    decreases |calls|
  {
    hide Allow;
    if calls != [] {
      InOrderIsNotOvertaken(p, Allow(p, t, calls[0], true).0, DropsAfter(p, t, drops, calls[0]), calls[1..]);
    }
  }

  /** In particular for calls whose times do not decrease. */
  lemma EvictionIsInvisible(p: Policy, calls: seq<Call>)
    requires ValidPolicy(p) && NonDecreasing(calls)
    ensures Replies(p, EMPTY, calls, true) == Replies(p, EMPTY, calls, false)
  {
    InOrderIsNotOvertaken(p, EMPTY, map[], calls);
    EvictionIsInvisibleUnlessOvertaken(p, calls);
  }

  // ---- when a refused key is served again ----

  /** When a bucket with less than one token has one. */
  function Due(p: Policy, b: Bucket): real
    requires ValidPolicy(p)
  {
    b.seen + (1.0 - b.tokens) / p.rate
  }

  lemma Refill(rate: real, missing: real)
    requires rate > 0.0
    ensures missing / rate * rate == missing
    ensures missing > 0.0 ==> missing / rate > 0.0
  {}

  lemma Faster(rate: real, a: real, b: real)
    requires rate > 0.0
    ensures a < b <==> a * rate < b * rate
  {}

  lemma SameFactor(rate: real, a: real, b: real)
    requires rate > 0.0 && a * rate == b * rate
    ensures a == b
  {}

  lemma Quotients(rate: real, a: real, b: real)
    requires rate > 0.0
    ensures (a - b) / rate == a / rate - b / rate
  {}

  lemma NotYet(rate: real, elapsed: real, missing: real)
    requires rate > 0.0
    ensures elapsed < missing / rate <==> Accrued(rate, elapsed) < missing
  {
    Refill(rate, missing);
    Faster(rate, elapsed, missing / rate);
  }

  /** The wait shrinks by the time that passes. */
  lemma WaitShrinks(rate: real, elapsed: real, missing: real)
    requires rate > 0.0
    ensures (missing - Accrued(rate, elapsed)) / rate == missing / rate - elapsed
  {
    var gained := Accrued(rate, elapsed);
    Quotients(rate, missing, gained);
    Refill(rate, gained);
    SameFactor(rate, gained / rate, elapsed);
  }

  /** Before it is due the bucket refuses, and stays due at the same time. */
  lemma BeforeDue(p: Policy, b: Bucket, now: real)
    requires ValidPolicy(p) && b.tokens < 1.0 && now < Due(p, b)
    ensures var (b', r) := Spend(p, b, now);
            r.Wait? && b'.tokens < 1.0 && Due(p, b') == Due(p, b) && b'.seen + r.seconds == Due(p, b)
  {
    hide Accrued;
    var elapsed, missing := Elapsed(b, now), 1.0 - b.tokens;
    Refill(p.rate, missing);
    NotYet(p.rate, elapsed, missing);
    WaitShrinks(p.rate, elapsed, missing);
    var b' := Spend(p, b, now).0;
    assert 1.0 - b'.tokens == missing - Accrued(p.rate, elapsed);
  }

  /** When it is due it grants. */
  lemma AtDue(p: Policy, b: Bucket)
    requires ValidPolicy(p) && b.tokens < 1.0
    ensures Level(p, b, Due(p, b)) == 1.0 && Spend(p, b, Due(p, b)).1.Granted?
  {
    Refill(p.rate, 1.0 - b.tokens);
  }

  lemma EarlierDue(p: Policy, more: Bucket, less: Bucket)
    requires ValidPolicy(p) && more != less && more.tokens >= less.tokens && more.seen <= less.seen
    ensures Due(p, more) < Due(p, less)
  {
    Refill(p.rate, 1.0 - more.tokens);
    Refill(p.rate, 1.0 - less.tokens);
    Faster(p.rate, (1.0 - more.tokens) / p.rate, (1.0 - less.tokens) / p.rate);
    if more.tokens == less.tokens {
      assert more.seen < less.seen;
    }
  }

  /** A key that has less than one token, and the time it is due. */
  ghost predicate Refused(p: Policy, t: Table, key: Key, due: real)
    requires ValidPolicy(p)
  {
    key in t.buckets && t.buckets[key].tokens < 1.0 && Due(p, t.buckets[key]) == due
  }

  lemma CallBeforeDue(p: Policy, t: Table, key: Key, due: real, c: Call, evicting: bool)
    requires ValidPolicy(p) && Refused(p, t, key, due) && (c.key == key ==> c.now < due)
    requires key in Allow(p, t, c, evicting).0.buckets
    ensures var (t', r) := Allow(p, t, c, evicting);
            Refused(p, t', key, due) && (c.key == key ==> r.Wait? && t'.buckets[key].seen + r.seconds == due)
  {
    if c.key == key {
      BeforeDue(p, t.buckets[key], c.now);
    }
  }

  /** Refusal waits are exact. After a refusal, while the key's bucket is not dropped, every
      call for the key before the wait is over, counted from the bucket's own clock, is
      refused, and the first one when it is over is granted, whatever the other keys do. */
  lemma {:induction false} WaitsAreExact(p: Policy, t: Table, key: Key, due: real, calls: seq<Call>, evicting: bool)
    requires ValidPolicy(p) && Refused(p, t, key, due) && NeverEvicted(p, t, calls, key, evicting)
    requires forall i :: 0 <= i < |calls| && calls[i].key == key ==> calls[i].now < due
    ensures forall i :: 0 <= i < |calls| && calls[i].key == key ==> Replies(p, t, calls, evicting)[i].Wait?
    ensures Allow(p, After(p, t, calls, evicting), Call(key, due), evicting).1.Granted?
    decreases |calls|
  {
    hide Allow;
    if calls == [] {
      GrantedWhenDue(p, t, key, due, evicting);
    } else {
      var next := Allow(p, t, calls[0], evicting).0;
      assert key in next.buckets;
      CallBeforeDue(p, t, key, due, calls[0], evicting);
      WaitsAreExact(p, next, key, due, calls[1..], evicting);
    }
  }

  lemma GrantedWhenDue(p: Policy, t: Table, key: Key, due: real, evicting: bool)
    requires ValidPolicy(p) && Refused(p, t, key, due)
    ensures Allow(p, t, Call(key, due), evicting).1.Granted?
  {
    AtDue(p, t.buckets[key]);
  }

  /** When a bucket that is not full will be. */
  function FullAt(p: Policy, b: Bucket): real
    requires ValidPolicy(p)
  {
    b.seen + (Cap(p) - b.tokens) / p.rate
  }

  lemma FullFromThen(p: Policy, b: Bucket, now: real)
    requires ValidPolicy(p) && b.tokens < Cap(p)
    ensures Level(p, b, now) == Cap(p) <==> now >= FullAt(p, b)
  {
    Refill(p.rate, Cap(p) - b.tokens);
    Faster(p.rate, Elapsed(b, now), (Cap(p) - b.tokens) / p.rate);
  }

  /** Exactly when the bucket of a refused key is dropped, and its wait forgotten: a call
      for a new key finds the table at its threshold, at a time when the refused key's
      bucket is full again, which takes the rest of the burst after it was due. */
  lemma RefusedIsDroppedIff(p: Policy, t: Table, key: Key, due: real, c: Call)
    requires ValidPolicy(p) && Refused(p, t, key, due)
    ensures key !in Allow(p, t, c, true).0.buckets
            <==> c.key !in t.buckets && |t.buckets| >= t.sweepAt && c.now >= due + (Cap(p) - 1.0) / p.rate
  {
    var b := t.buckets[key];
    FullFromThen(p, b, c.now);
    Quotients(p.rate, Cap(p) - b.tokens, Cap(p) - 1.0);
    assert FullAt(p, b) == due + (Cap(p) - 1.0) / p.rate;
    DroppedIff(p, t, key, c);
  }

  lemma DroppedIff(p: Policy, t: Table, key: Key, c: Call)
    requires ValidPolicy(p) && key in t.buckets
    ensures key !in Allow(p, t, c, true).0.buckets
            <==> c.key !in t.buckets && |t.buckets| >= t.sweepAt && Level(p, t.buckets[key], c.now) == Cap(p)
  {}

  /** Every refusal says when: the wait it returns leads from the bucket's clock to the
      time it is due. */
  lemma RefusalTellsWhen(p: Policy, t: Table, c: Call, evicting: bool)
    requires ValidPolicy(p) && Allow(p, t, c, evicting).1.Wait?
    ensures var (t', r) := Allow(p, t, c, evicting);
            && c.key in t.buckets && Refused(p, t', c.key, t'.buckets[c.key].seen + r.seconds)
            && r.seconds > 0.0 && c.now <= t'.buckets[c.key].seen
  {
    Refill(p.rate, 1.0 - Allow(p, t, c, evicting).0.buckets[c.key].tokens);
  }

  // ---- when dropping one bucket can be told ----

  /** One key's answers, from one bucket. */
  function Answers(p: Policy, b: Bucket, nows: seq<real>): seq<Reply>
    requires ValidPolicy(p)
    decreases |nows|
  {
    if nows == [] then []
    else var (next, reply) := Spend(p, b, nows[0]); [reply] + Answers(p, next, nows[1..])
  }

  /** Dropping a bucket is unnoticed, whatever follows, exactly when the next call for
      its key comes no earlier than its last and finds it full. */
  lemma DropIsUnnoticedIff(p: Policy, b: Bucket, now: real)
    requires ValidPolicy(p) && b.tokens <= Cap(p)
    ensures (forall nows :: Answers(p, b, [now] + nows) == Answers(p, Bucket(Cap(p), now), [now] + nows))
            <==> Level(p, b, now) == Cap(p) && b.seen <= now
  {
    var (kept, r) := Spend(p, b, now);
    var (made, r') := Spend(p, Bucket(Cap(p), now), now);
    assert r'.Granted? && made == Bucket(Cap(p) - 1.0, now);
    forall nows ensures Answers(p, b, [now] + nows) == [r] + Answers(p, kept, nows)
                && Answers(p, Bucket(Cap(p), now), [now] + nows) == [r'] + Answers(p, made, nows)
    {
      assert ([now] + nows)[1..] == nows;
    }
    if !(Level(p, b, now) == Cap(p) && b.seen <= now) && r.Granted? {
      var nows := TellApart(p, made, kept);
      assert Answers(p, b, [now] + nows)[1..] == Answers(p, kept, nows);
      assert Answers(p, Bucket(Cap(p), now), [now] + nows)[1..] == Answers(p, made, nows);
    } else if r != r' {
      assert Answers(p, b, [now] + [])[0] != Answers(p, Bucket(Cap(p), now), [now] + [])[0];
    }
  }

  /** A bucket with more tokens, or the same ones for longer, can be told from the other. */
  lemma {:induction false} TellApart(p: Policy, more: Bucket, less: Bucket) returns (nows: seq<real>)
    requires ValidPolicy(p) && more != less
    requires Cap(p) >= more.tokens >= less.tokens && more.seen <= less.seen
    ensures Answers(p, more, nows) != Answers(p, less, nows)
    decreases if more.tokens >= 0.0 then more.tokens.Floor else 0
  {
    if more.tokens >= 1.0 {
      var (more', r) := Spend(p, more, more.seen);
      var (less', r') := Spend(p, less, more.seen);
      assert more' == Bucket(more.tokens - 1.0, more.seen);
      if r == r' {
        var rest := TellApart(p, more', less');
        nows := [more.seen] + rest;
        assert nows[1..] == rest;
        assert Answers(p, more, nows)[1..] == Answers(p, more', rest);
        assert Answers(p, less, nows)[1..] == Answers(p, less', rest);
      } else {
        nows := [more.seen];
        assert Answers(p, more, nows)[0] != Answers(p, less, nows)[0];
      }
    } else {
      var due := Due(p, more);
      AtDue(p, more);
      EarlierDue(p, more, less);
      BeforeDue(p, less, due);
      nows := [due];
      assert Answers(p, more, nows)[0] != Answers(p, less, nows)[0];
    }
  }

  // ---- the rate ----

  /** How many calls for `key` were granted. */
  function Grants(calls: seq<Call>, replies: seq<Reply>, key: Key): nat
    requires |replies| == |calls|
    decreases |calls|
  {
    if calls == [] then 0
    else (if calls[0].key == key && replies[0].Granted? then 1 else 0) + Grants(calls[1..], replies[1..], key)
  }

  /** The key's bucket is there now and after every call. */
  ghost predicate NeverEvicted(p: Policy, t: Table, calls: seq<Call>, key: Key, evicting: bool)
    requires ValidPolicy(p)
    decreases |calls|
  {
    key in t.buckets && (calls == [] || NeverEvicted(p, Allow(p, t, calls[0], evicting).0, calls[1..], key, evicting))
  }

  ghost predicate NoLaterThan(calls: seq<Call>, key: Key, latest: real) {
    forall i :: 0 <= i < |calls| && calls[i].key == key ==> calls[i].now <= latest
  }

  /** What a bucket has, and will have been given by `latest`. */
  ghost function Budget(p: Policy, b: Bucket, latest: real): real {
    b.tokens + Accrued(p.rate, latest - b.seen)
  }

  lemma SpendIsPaidFor(p: Policy, b: Bucket, now: real, latest: real)
    requires ValidPolicy(p) && b.seen <= latest && now <= latest
    ensures var (b', r) := Spend(p, b, now);
            && b'.seen <= latest
            && (if r.Granted? then 1.0 else 0.0) + Budget(p, b', latest) <= Budget(p, b, latest)
  {
    hide Accrued;
    SplitTime(p.rate, latest - Spend(p, b, now).0.seen, Elapsed(b, now));
  }

  lemma SplitTime(rate: real, a: real, b: real)
    ensures Accrued(rate, a + b) == Accrued(rate, a) + Accrued(rate, b)
  {}

  lemma CallInRange(p: Policy, t: Table, c: Call, evicting: bool)
    requires ValidPolicy(p) && InRange(p, t.buckets)
    ensures InRange(p, Allow(p, t, c, evicting).0.buckets)
  {
    SpendInRange(p, if c.key in t.buckets then t.buckets[c.key] else Bucket(Cap(p), c.now), c.now);
  }

  lemma CallIsPaidFor(p: Policy, t: Table, c: Call, key: Key, latest: real, evicting: bool)
    requires ValidPolicy(p) && key in t.buckets && key in Allow(p, t, c, evicting).0.buckets
    requires t.buckets[key].seen <= latest && (c.key == key ==> c.now <= latest)
    ensures var (t', r) := Allow(p, t, c, evicting);
            && t'.buckets[key].seen <= latest
            && (if c.key == key && r.Granted? then 1.0 else 0.0) + Budget(p, t'.buckets[key], latest)
               <= Budget(p, t.buckets[key], latest)
  {
    hide Budget;
    if c.key == key {
      SpendIsPaidFor(p, t.buckets[key], c.now, latest);
    }
  }

  lemma {:induction false} GrantsArePaidFor(p: Policy, t: Table, calls: seq<Call>, key: Key, latest: real, evicting: bool)
    requires ValidPolicy(p) && InRange(p, t.buckets)
    requires NeverEvicted(p, t, calls, key, evicting) && NoLaterThan(calls, key, latest) && t.buckets[key].seen <= latest
    ensures Grants(calls, Replies(p, t, calls, evicting), key) as real <= Budget(p, t.buckets[key], latest)
    decreases |calls|
  {
    hide Budget, Allow, InRange;
    if calls == [] {
      NothingOwed(p, t, key, latest);
    } else {
      var c := calls[0];
      var next := Allow(p, t, c, evicting).0;
      CallInRange(p, t, c, evicting);
      CallIsPaidFor(p, t, c, key, latest, evicting);
      GrantsArePaidFor(p, next, calls[1..], key, latest, evicting);
      assert Replies(p, t, calls, evicting)[1..] == Replies(p, next, calls[1..], evicting);
    }
  }

  lemma NothingOwed(p: Policy, t: Table, key: Key, latest: real)
    requires ValidPolicy(p) && InRange(p, t.buckets) && key in t.buckets && t.buckets[key].seen <= latest
    ensures Budget(p, t.buckets[key], latest) >= 0.0
  {
    hide Accrued;
    Fills(p.rate, latest - t.buckets[key].seen);
  }

  /** From the first call for a key on, while its bucket is not dropped and whatever the
      clock does, grants are at most the burst and the rate over the time that passed. */
  lemma RateIsBounded(p: Policy, t: Table, calls: seq<Call>, key: Key, latest: real, evicting: bool)
    requires ValidPolicy(p) && InRange(p, t.buckets)
    requires calls != [] && calls[0].key == key && key !in t.buckets && NoLaterThan(calls, key, latest)
    requires NeverEvicted(p, Allow(p, t, calls[0], evicting).0, calls[1..], key, evicting)
    ensures Grants(calls, Replies(p, t, calls, evicting), key) as real <= p.burst as real + p.rate * (latest - calls[0].now)
  {
    hide Grants, NeverEvicted, InRange, Allow, Replies;
    var c := calls[0];
    var next := Allow(p, t, c, evicting).0;
    CallInRange(p, t, c, evicting);
    FirstCall(p, t, c, evicting);
    GrantsArePaidFor(p, next, calls[1..], key, latest, evicting);
    FirstGrant(p, t, calls, key, evicting);
  }

  lemma FirstCall(p: Policy, t: Table, c: Call, evicting: bool)
    requires ValidPolicy(p) && c.key !in t.buckets
    ensures var (next, r) := Allow(p, t, c, evicting);
            r.Granted? && c.key in next.buckets && next.buckets[c.key] == Bucket(Cap(p) - 1.0, c.now)
  {}

  lemma FirstGrant(p: Policy, t: Table, calls: seq<Call>, key: Key, evicting: bool)
    requires ValidPolicy(p) && calls != [] && calls[0].key == key && key !in t.buckets
    ensures var next := Allow(p, t, calls[0], evicting).0;
            Grants(calls, Replies(p, t, calls, evicting), key) == 1 + Grants(calls[1..], Replies(p, next, calls[1..], evicting), key)
  {
    hide Allow;
    FirstCall(p, t, calls[0], evicting);
    var next := Allow(p, t, calls[0], evicting).0;
    assert Replies(p, t, calls, evicting)[1..] == Replies(p, next, calls[1..], evicting);
  }

  lemma {:induction false} NothingIsDropped(p: Policy, t: Table, calls: seq<Call>, key: Key)
    requires ValidPolicy(p) && key in t.buckets
    ensures NeverEvicted(p, t, calls, key, false)
    decreases |calls|
  {
    if calls != [] {
      NothingIsDropped(p, Allow(p, t, calls[0], false).0, calls[1..], key);
    }
  }

  lemma AccruedIs(rate: real, elapsed: real)
    ensures Accrued(rate, elapsed) == rate * elapsed
  {}

  lemma {:induction false} RateWithoutEviction(p: Policy, t: Table, calls: seq<Call>, key: Key, first: real, latest: real)
    requires ValidPolicy(p) && InRange(p, t.buckets) && key !in t.buckets && first <= latest
    requires NoLaterThan(calls, key, latest)
    requires forall i :: 0 <= i < |calls| && calls[i].key == key ==> first <= calls[i].now
    ensures Grants(calls, Replies(p, t, calls, false), key) as real <= Cap(p) + Accrued(p.rate, latest - first)
    decreases |calls|
  {
    hide Accrued, Allow, InRange;
    if calls == [] {
      Fills(p.rate, latest - first);
    } else if calls[0].key == key {
      OthersStay(p, t, calls[0], false);
      NothingIsDropped(p, Allow(p, t, calls[0], false).0, calls[1..], key);
      RateIsBounded(p, t, calls, key, latest, false);
      AccruedIs(p.rate, latest - calls[0].now);
      SplitTime(p.rate, latest - calls[0].now, calls[0].now - first);
      Fills(p.rate, calls[0].now - first);
    } else {
      var next := Allow(p, t, calls[0], false).0;
      OthersStay(p, t, calls[0], false);
      CallInRange(p, t, calls[0], false);
      RateWithoutEviction(p, next, calls[1..], key, first, latest);
      assert Replies(p, t, calls, false)[1..] == Replies(p, next, calls[1..], false);
    }
  }

  /** With a clock that does not run backwards the bound holds across evictions too. */
  lemma RateAcrossEvictions(p: Policy, calls: seq<Call>, key: Key, first: real, latest: real)
    requires ValidPolicy(p) && NonDecreasing(calls) && first <= latest
    requires forall i :: 0 <= i < |calls| && calls[i].key == key ==> first <= calls[i].now <= latest
    ensures Grants(calls, Replies(p, EMPTY, calls, true), key) as real <= p.burst as real + p.rate * (latest - first)
  {
    hide Accrued, Replies, Grants;
    AccruedIs(p.rate, latest - first);
    EvictionIsInvisible(p, calls);
    RateWithoutEviction(p, EMPTY, calls, key, first, latest);
  }

  // ---- the burst ----

  /** How many of the first `n` calls are for the key. */
  function CallsFor(calls: seq<Call>, key: Key, n: nat): nat
    requires n <= |calls|
    decreases n
  {
    if n == 0 then 0 else (if calls[0].key == key then 1 else 0) + CallsFor(calls[1..], key, n - 1)
  }

  /** With `left` tokens and no time passing, the next `left` calls for the key are granted,
      and those after them told to wait for one token. */
  lemma {:induction false} TokensAreSpent(p: Policy, t: Table, calls: seq<Call>, key: Key, now: real, left: nat, evicting: bool)
    requires ValidPolicy(p) && NeverEvicted(p, t, calls, key, evicting)
    requires t.buckets[key] == Bucket(left as real, now) && left <= p.burst
    requires forall i :: 0 <= i < |calls| && calls[i].key == key ==> calls[i].now == now
    ensures forall i :: 0 <= i < |calls| && calls[i].key == key ==>
              Replies(p, t, calls, evicting)[i] == if CallsFor(calls, key, i) < left then Granted else Wait(1.0 / p.rate)
    decreases |calls|
  {
    hide Allow;
    if calls != [] {
      var c, rest := calls[0], calls[1..];
      var next := Allow(p, t, c, evicting).0;
      assert key in next.buckets;
      OneTokenSpent(p, t, c, key, now, left, evicting);
      var left' := if c.key == key && left > 0 then left - 1 else left;
      TokensAreSpent(p, next, rest, key, now, left', evicting);
      forall i | 0 <= i < |calls| && calls[i].key == key
        ensures Replies(p, t, calls, evicting)[i] == if CallsFor(calls, key, i) < left then Granted else Wait(1.0 / p.rate)
      {
        if i > 0 {
          assert rest[i - 1] == calls[i];
          assert Replies(p, t, calls, evicting)[i] == Replies(p, next, rest, evicting)[i - 1];
        }
      }
    }
  }

  lemma OneTokenSpent(p: Policy, t: Table, c: Call, key: Key, now: real, left: nat, evicting: bool)
    requires ValidPolicy(p) && key in t.buckets && key in Allow(p, t, c, evicting).0.buckets
    requires t.buckets[key] == Bucket(left as real, now) && left <= p.burst && (c.key == key ==> c.now == now)
    ensures var (next, r) := Allow(p, t, c, evicting);
            if c.key != key then next.buckets[key] == t.buckets[key]
            else && next.buckets[key] == Bucket((if left > 0 then left - 1 else left) as real, now)
                 && r == if left > 0 then Granted else Wait(1.0 / p.rate)
  {
    NothingAccrues(p.rate);
  }

  lemma NothingAccrues(rate: real)
    ensures Accrued(rate, 0.0) == 0.0
  {}

  /** A key without a bucket is granted its whole burst at once, and then told to wait for
      one token; whatever other keys do, as long as its bucket is not dropped. */
  lemma BurstIsGranted(p: Policy, t: Table, calls: seq<Call>, key: Key, now: real, evicting: bool)
    requires ValidPolicy(p) && calls != [] && calls[0].key == key && key !in t.buckets
    requires forall i :: 0 <= i < |calls| && calls[i].key == key ==> calls[i].now == now
    requires NeverEvicted(p, Allow(p, t, calls[0], evicting).0, calls[1..], key, evicting)
    ensures forall i :: 0 <= i < |calls| && calls[i].key == key ==>
              Replies(p, t, calls, evicting)[i] == if CallsFor(calls, key, i) < p.burst then Granted else Wait(1.0 / p.rate)
  {
    hide Allow;
    var rest, next := calls[1..], Allow(p, t, calls[0], evicting).0;
    FirstCall(p, t, calls[0], evicting);
    TokensAreSpent(p, next, rest, key, now, p.burst - 1, evicting);
    forall i | 0 <= i < |calls| && calls[i].key == key
      ensures Replies(p, t, calls, evicting)[i] == if CallsFor(calls, key, i) < p.burst then Granted else Wait(1.0 / p.rate)
    {
      if i > 0 {
        assert rest[i - 1] == calls[i];
        assert Replies(p, t, calls, evicting)[i] == Replies(p, next, rest, evicting)[i - 1];
      }
    }
  }

  lemma {:induction false} OwnCallsKeepTheBucket(p: Policy, t: Table, calls: seq<Call>, key: Key, evicting: bool)
    requires ValidPolicy(p) && key in t.buckets && forall i :: 0 <= i < |calls| ==> calls[i].key == key
    ensures NeverEvicted(p, t, calls, key, evicting)
    decreases |calls|
  {
    if calls != [] {
      OwnCallsKeepTheBucket(p, Allow(p, t, calls[0], evicting).0, calls[1..], key, evicting);
    }
  }

  lemma {:induction false} AllCallsCount(calls: seq<Call>, key: Key, n: nat)
    requires n <= |calls| && forall i :: 0 <= i < |calls| ==> calls[i].key == key
    ensures CallsFor(calls, key, n) == n
  {
    if n > 0 {
      AllCallsCount(calls[1..], key, n - 1);
    }
  }

  /** In a row: as many grants as the burst has tokens, and then the wait for one token. */
  lemma BurstAtOnce(p: Policy, t: Table, key: Key, now: real, evicting: bool)
    requires ValidPolicy(p) && key !in t.buckets
    ensures Replies(p, t, seq(p.burst + 1, _ => Call(key, now)), evicting) == seq(p.burst, _ => Granted) + [Wait(1.0 / p.rate)]
  {
    var calls := seq(p.burst + 1, _ => Call(key, now));
    FirstCall(p, t, calls[0], evicting);
    OwnCallsKeepTheBucket(p, Allow(p, t, calls[0], evicting).0, calls[1..], key, evicting);
    BurstIsGranted(p, t, calls, key, now, evicting);
    forall i | 0 <= i < |calls| ensures CallsFor(calls, key, i) == i {
      AllCallsCount(calls, key, i);
    }
  }

  // ---- what sweeping costs ----

  function Inserted(t: Table, c: Call): nat {
    if c.key in t.buckets then 0 else 1
  }

  /** The buckets that a call's sweep looks at. */
  function Visited(t: Table, c: Call): nat {
    if c.key in t.buckets || |t.buckets| < t.sweepAt then 0 else |t.buckets|
  }

  function Insertions(p: Policy, t: Table, calls: seq<Call>): nat
    requires ValidPolicy(p)
    decreases |calls|
  {
    if calls == [] then 0 else Inserted(t, calls[0]) + Insertions(p, Allow(p, t, calls[0], true).0, calls[1..])
  }

  function Visits(p: Policy, t: Table, calls: seq<Call>): nat
    requires ValidPolicy(p)
    decreases |calls|
  {
    if calls == [] then 0 else Visited(t, calls[0]) + Visits(p, Allow(p, t, calls[0], true).0, calls[1..])
  }

  /** Visits saved up since the last sweep. */
  function Potential(t: Table): nat {
    if 2 * |t.buckets| > t.sweepAt then 2 * |t.buckets| - t.sweepAt else 0
  }

  ghost predicate Bounded(t: Table) {
    |t.buckets| <= t.sweepAt && t.sweepAt >= MIN_SWEEP_AT
  }

  lemma KeptIsSmaller(p: Policy, buckets: map<Key, Bucket>, now: real)
    ensures |Kept(p, buckets, now)| <= |buckets|
  {
    var kept := Kept(p, buckets, now);
    assert kept.Keys <= buckets.Keys;
    Subset(kept.Keys, buckets.Keys);
    assert |kept| == |kept.Keys| && |buckets| == |buckets.Keys|;
  }

  lemma Subset<T>(a: set<T>, b: set<T>)
    requires a <= b
    ensures |a| <= |b|
  {
    assert |b - a| == |b| - |a|;
  }

  lemma PutSize<K, V>(m: map<K, V>, k: K, v: V)
    ensures |m[k := v]| == |m| + if k in m then 0 else 1
  {
    assert m[k := v].Keys == m.Keys + {k} && |m[k := v]| == |m[k := v].Keys| && |m| == |m.Keys|;
  }

  lemma CallIsAmortized(p: Policy, t: Table, c: Call)
    requires ValidPolicy(p) && Bounded(t)
    ensures var t' := Allow(p, t, c, true).0;
            Bounded(t') && Visited(t, c) + Potential(t') <= 2 * Inserted(t, c) + Potential(t)
  {
    var swept := if c.key in t.buckets then t else Sweep(p, t, c.now);
    KeptIsSmaller(p, t.buckets, c.now);
    PutSize(swept.buckets, c.key, Allow(p, t, c, true).0.buckets[c.key]);
  }

  lemma {:induction false} RunIsAmortized(p: Policy, t: Table, calls: seq<Call>)
    requires ValidPolicy(p) && Bounded(t)
    ensures Bounded(After(p, t, calls, true))
    ensures Visits(p, t, calls) + Potential(After(p, t, calls, true)) <= 2 * Insertions(p, t, calls) + Potential(t)
    decreases |calls|
  {
    if calls != [] {
      CallIsAmortized(p, t, calls[0]);
      RunIsAmortized(p, Allow(p, t, calls[0], true).0, calls[1..]);
    }
  }

  /** All sweeps together look at no more than two buckets for each key inserted, and
      the table never outgrows its threshold. */
  lemma SweepsAreAmortized(p: Policy, calls: seq<Call>)
    requires ValidPolicy(p)
    ensures Visits(p, EMPTY, calls) <= 2 * Insertions(p, EMPTY, calls)
    ensures Bounded(After(p, EMPTY, calls, true))
  {
    RunIsAmortized(p, EMPTY, calls);
  }

  // ---- a run in which dropping a bucket is noticed ----

  function KeyOf(i: nat): Key {
    seq(i, _ => 'k')
  }

  const ONE_PER_SECOND := Policy(1.0, 1)

  /** Calls at time 0 for `count` keys, none of them called before. */
  function Crowd(from: nat, count: nat): (calls: seq<Call>)
    ensures |calls| == count
    decreases count
  {
    if count == 0 then [] else [Call(KeyOf(from), 0.0)] + Crowd(from + 1, count - 1)
  }

  ghost predicate Crowded(t: Table, n: nat) {
    && |t.buckets| == n && t.sweepAt == MIN_SWEEP_AT
    && (forall k :: k in t.buckets <==> |k| < n && k == KeyOf(|k|))
    && (forall k :: k in t.buckets ==> t.buckets[k] == Bucket(0.0, 0.0))
  }

  lemma OneMoreKey(t: Table, n: nat, evicting: bool)
    requires Crowded(t, n) && n < MIN_SWEEP_AT
    ensures var (t', r) := Allow(ONE_PER_SECOND, t, Call(KeyOf(n), 0.0), evicting);
            Crowded(t', n + 1) && r == Granted
  {
    PutSize(t.buckets, KeyOf(n), Bucket(0.0, 0.0));
  }

  /** The limiter fills up to its threshold; nothing is dropped on the way. */
  lemma {:induction false} CrowdFills(t: Table, n: nat, count: nat, evicting: bool)
    requires Crowded(t, n) && n + count <= MIN_SWEEP_AT
    ensures Crowded(After(ONE_PER_SECOND, t, Crowd(n, count), evicting), n + count)
    ensures Replies(ONE_PER_SECOND, t, Crowd(n, count), evicting) == seq(count, _ => Granted)
    decreases count
  {
    hide Allow, Crowded;
    if count > 0 {
      OneMoreKey(t, n, evicting);
      CrowdFills(Allow(ONE_PER_SECOND, t, Call(KeyOf(n), 0.0), evicting).0, n + 1, count - 1, evicting);
    }
  }

  lemma {:induction false} RunOn(p: Policy, t: Table, first: seq<Call>, second: seq<Call>, evicting: bool)
    requires ValidPolicy(p)
    ensures After(p, t, first + second, evicting) == After(p, After(p, t, first, evicting), second, evicting)
    ensures Replies(p, t, first + second, evicting)
         == Replies(p, t, first, evicting) + Replies(p, After(p, t, first, evicting), second, evicting)
    decreases |first|
  {
    hide Allow;
    if first == [] {
      assert first + second == second;
    } else {
      assert (first + second)[1..] == first[1..] + second;
      RunOn(p, Allow(p, t, first[0], evicting).0, first[1..], second, evicting);
    }
  }

  /** The key "" is refused at time 0 and due at time 1. A new key at time 1 sets off the
      sweep. Then a call for "" comes in with the time it read before, half a second. */
  const TRAILING: seq<Call> := [Call("", 0.0), Call("new", 1.0), Call("", 0.5)]

  lemma CrowdThenTrailing(t: Table, evicting: bool)
    requires Crowded(t, MIN_SWEEP_AT)
    ensures Replies(ONE_PER_SECOND, t, TRAILING, evicting)
         == [Wait(1.0), Granted, if evicting then Granted else Wait(0.5)]
  {
    hide Allow, Crowded;
    InTheCrowd(t);
    SameTable(ONE_PER_SECOND, t, TRAILING[0], evicting);
    NewKey(t, evicting);
    var t' := Allow(ONE_PER_SECOND, t, TRAILING[1], evicting).0;
    TrailingCall(t', evicting);
    assert TRAILING[1..] == [TRAILING[1], TRAILING[2]];
    assert TRAILING[1..][1..] == [TRAILING[2]] && TRAILING[1..][1..][1..] == [];
  }

  lemma InTheCrowd(t: Table)
    requires Crowded(t, MIN_SWEEP_AT)
    ensures "" in t.buckets && t.buckets[""] == Bucket(0.0, 0.0) && "new" !in t.buckets
  {
    assert KeyOf(0) == "" && |""| == 0;
    assert KeyOf(3)[0] == 'k' && "new"[0] == 'n';
  }

  /** A call that leaves its bucket as it was leaves the table as it was. */
  lemma SameTable(p: Policy, t: Table, c: Call, evicting: bool)
    requires ValidPolicy(p) && c.key in t.buckets && Spend(p, t.buckets[c.key], c.now).0 == t.buckets[c.key]
    ensures Allow(p, t, c, evicting) == (t, Spend(p, t.buckets[c.key], c.now).1)
  {
    hide Spend;
    assert t.buckets[c.key := t.buckets[c.key]] == t.buckets;
  }

  /** By time 1 every bucket of the crowd is full again, and the sweep drops it. */
  lemma NewKey(t: Table, evicting: bool)
    requires Crowded(t, MIN_SWEEP_AT) && "" in t.buckets && t.buckets[""] == Bucket(0.0, 0.0) && "new" !in t.buckets
    ensures var (t', r) := Allow(ONE_PER_SECOND, t, TRAILING[1], evicting);
            r == Granted && if evicting then "" !in t'.buckets else "" in t'.buckets && t'.buckets[""] == Bucket(0.0, 0.0)
  {
    assert Level(ONE_PER_SECOND, Bucket(0.0, 0.0), 1.0) == 1.0;
    OthersStay(ONE_PER_SECOND, t, TRAILING[1], evicting);
    DroppedIff(ONE_PER_SECOND, t, "", TRAILING[1]);
  }

  lemma TrailingCall(t: Table, evicting: bool)
    requires if evicting then "" !in t.buckets else "" in t.buckets && t.buckets[""] == Bucket(0.0, 0.0)
    ensures Allow(ONE_PER_SECOND, t, TRAILING[2], evicting).1 == if evicting then Granted else Wait(0.5)
  {}

  /** From the empty limiter: 1024 keys, a sweep and a trailing call, and the answers are
      no longer those of a limiter that never drops a bucket. The trailing call is for a
      refused key, before the time it was told, and is granted. */
  lemma EvictionCanBeNoticed()
    ensures var calls := Crowd(0, MIN_SWEEP_AT) + TRAILING;
            var swept, whole := Replies(ONE_PER_SECOND, EMPTY, calls, true), Replies(ONE_PER_SECOND, EMPTY, calls, false);
            && swept != whole
            && swept[MIN_SWEEP_AT..] == [Wait(1.0), Granted, Granted]
            && whole[MIN_SWEEP_AT..] == [Wait(1.0), Granted, Wait(0.5)]
  {
    hide Replies, After, Crowd;
    forall evicting: bool
      ensures Replies(ONE_PER_SECOND, EMPTY, Crowd(0, MIN_SWEEP_AT) + TRAILING, evicting)[MIN_SWEEP_AT..]
           == [Wait(1.0), Granted, if evicting then Granted else Wait(0.5)]
    {
      CrowdFills(EMPTY, 0, MIN_SWEEP_AT, evicting);
      RunOn(ONE_PER_SECOND, EMPTY, Crowd(0, MIN_SWEEP_AT), TRAILING, evicting);
      CrowdThenTrailing(After(ONE_PER_SECOND, EMPTY, Crowd(0, MIN_SWEEP_AT), evicting), evicting);
    }
  }
}

/** The rate limiter as the server runs it: a map of buckets, each a slice over a reused backing
    array that `Allow` filters in place, and a sweep that deletes buckets. Every method is proved
    to be the corresponding step of `SlidingWindow`. */
module RateLimiter {
  import opened Durations
  import opened SlidingWindow

  const RULES: map<string, Rule> := map[
    "/api/v1/auth/login" := Rule(10, 15 * MINUTE),
    "/api/v1/auth/forgot-password" := Rule(3, HOUR),
    "/api/v1/auth/resend-verification" := Rule(1, MINUTE)
  ]

  // ----- Keys ----------------------------------------------------------------------------------

  function KeyFor(path: string, ip: string): string {
    path + "|" + ip
  }

  function BeforeBar(s: string): string {
    if s == [] || s[0] == '|' then [] else [s[0]] + BeforeBar(s[1..])
  }

  /** The rule a key is called with; keys no request builds get an arbitrary valid one. */
  function RuleOfKey(key: string): Rule {
    if BeforeBar(key) in RULES then RULES[BeforeBar(key)] else Rule(1, MINUTE)
  }

  lemma {:induction false} BeforeBarOfKey(path: string, ip: string)
    requires '|' !in path
    ensures BeforeBar(KeyFor(path, ip)) == path
  {
    if path == [] {
    } else {
      assert KeyFor(path, ip)[1..] == KeyFor(path[1..], ip);
      BeforeBarOfKey(path[1..], ip);
    }
  }

  /** Whatever the address string holds (the X-Forwarded-For header is used as it comes), a key
      determines the rule it is checked against, so no bucket is ever shared by two rules; and
      every rule of the table is one the window theorems cover. */
  lemma KeysSeparateRules()
    ensures ValidRules(RuleOfKey)
    ensures forall path, ip :: path in RULES ==> RuleOfKey(KeyFor(path, ip)) == RULES[path]
    ensures forall p, q, i, j :: p in RULES && q in RULES && KeyFor(p, i) == KeyFor(q, j) ==> p == q && i == j
  {
    assert forall path :: path in RULES ==> '|' !in path;
    forall path, ip | path in RULES
      ensures BeforeBar(KeyFor(path, ip)) == path && RuleOfKey(KeyFor(path, ip)) == RULES[path]
    {
      BeforeBarOfKey(path, ip);
    }
    forall p, q, i, j | p in RULES && q in RULES && KeyFor(p, i) == KeyFor(q, j)
      ensures p == q && i == j
    {
      BeforeBarOfKey(p, i);
      BeforeBarOfKey(q, j);
      assert KeyFor(p, i)[|p| + 1..] == i && KeyFor(q, j)[|q| + 1..] == j;
    }
  }

  /** The published limits, in any run and for any address: of the calls under a route, at most 10 logins
      are admitted in 15 minutes, 3 requests for a new password in an hour, and 1 verification mail in a
      minute; and a call is refused only if so many were admitted in that time before it. */
  lemma PublishedLimits(es: seq<Event>, ip: string, now: int, x: real)
    requires ClockedUntil(es, now)
    ensures Limited(RuleOfKey, es, "/api/v1/auth/login|" + ip, 10, 15 * 60 * 1_000_000_000, now, x)
    ensures Limited(RuleOfKey, es, "/api/v1/auth/forgot-password|" + ip, 3, 60 * 60 * 1_000_000_000, now, x)
    ensures Limited(RuleOfKey, es, "/api/v1/auth/resend-verification|" + ip, 1, 60 * 1_000_000_000, now, x)
  {
    var login, forgot := "/api/v1/auth/login", "/api/v1/auth/forgot-password";
    var resend := "/api/v1/auth/resend-verification";
    assert KeyFor(login, ip) == "/api/v1/auth/login|" + ip;
    assert KeyFor(forgot, ip) == "/api/v1/auth/forgot-password|" + ip;
    assert KeyFor(resend, ip) == "/api/v1/auth/resend-verification|" + ip;
    assert ValidRules(RuleOfKey) && RuleOfKey(KeyFor(login, ip)) == Rule(10, 15 * 60 * 1_000_000_000)
           && RuleOfKey(KeyFor(forgot, ip)) == Rule(3, 60 * 60 * 1_000_000_000)
           && RuleOfKey(KeyFor(resend, ip)) == Rule(1, 60 * 1_000_000_000) by {
      KeysSeparateRules();
    }
    KeyIsLimited(RuleOfKey, es, KeyFor(login, ip), Rule(10, 15 * 60 * 1_000_000_000), now, x);
    KeyIsLimited(RuleOfKey, es, KeyFor(forgot, ip), Rule(3, 60 * 60 * 1_000_000_000), now, x);
    KeyIsLimited(RuleOfKey, es, KeyFor(resend, ip), Rule(1, 60 * 1_000_000_000), now, x);
  }

  /** At most `limit` admissions in any window, and a refusal at `now` only after as many in the window
      that ends there. */
  ghost predicate Limited(
    rules: string -> Rule, es: seq<Event>, key: string, limit: int, window: int, now: int, x: real)
  {
    && ValidRules(rules)
    && CountIn(Admitted(rules, es, key), x, x + window as real) <= limit
    && (Decide(rules, es, key, now).Rejected? <==>
        CountIn(Admitted(rules, es, key), (now - window) as real, now as real) == limit)
  }

  lemma KeyIsLimited(rules: string -> Rule, es: seq<Event>, key: string, rule: Rule, now: int, x: real)
    requires ClockedUntil(es, now) && ValidRules(rules) && rules(key) == rule
    ensures Limited(rules, es, key, rule.limit, rule.window, now, x)
  {
    var from := (now - rule.window) as real;
    assert CountIn(Admitted(rules, es, key), x, x + rule.window as real) <= rule.limit by {
      AtMostLimitPerWindow(rules, es, key, now, x);
    }
    assert Decide(rules, es, key, now).Rejected? <==>
           CountIn(Admitted(rules, es, key), from, now as real) == rule.limit by {
      RejectedExactlyWhenFull(rules, es, key, now, from);
    }
  }

  lemma AfterOneMail(key: string)
    requires ValidRules(RuleOfKey) && RuleOfKey(key) == Rule(1, MINUTE)
    ensures Run(RuleOfKey, [Call(key, 0)]) == map[key := [0]]
    ensures Decide(RuleOfKey, [Call(key, 0)], key, 1) == Rejected(MINUTE - 1)
  {
    var es := [Call(key, 0)];
    assert es[..0] == [] && Run(RuleOfKey, []) == map[];
    assert Newer([], 0 - MINUTE) + [0] == [0];
    assert CheckStep([], Rule(1, MINUTE), 0) == ([0], Allowed);
    assert Run(RuleOfKey, es) == map[key := [0]];
    assert [0][..0] == [] && Newer([0], 1 - MINUTE) == [0];
    assert CheckStep([0], Rule(1, MINUTE), 1) == ([0], Rejected(MINUTE - 1));
  }

  /** Asking again one nanosecond after a verification mail was sent is refused for 59 seconds and a
      fraction; the header says 59, and the request it invites is refused too. */
  lemma HeaderInvitesTooEarly(ip: string)
    ensures var path := "/api/v1/auth/resend-verification";
            var key := KeyFor(path, ip);
            var es := [Call(key, 0)];
            && ValidRules(RuleOfKey) && path in RULES
            && Decide(RuleOfKey, es, key, 1) == Rejected(MINUTE - 1) && HeaderSeconds(MINUTE - 1) == 59
            && Decide(RuleOfKey, es + [Call(key, 1)], key, 1 + 59 * SECOND).Rejected?
  {
    var key := KeyFor("/api/v1/auth/resend-verification", ip);
    KeysSeparateRules();
    AfterOneMail(key);
    HeaderIsExactOnlyOnWholeSeconds(RuleOfKey, [Call(key, 0)], key, 1);
  }

  // ----- Buckets -------------------------------------------------------------------------------

  /** A Go slice of timestamps: the first `len` cells of a backing array. */
  class Bucket {
    var buf: array<int>
    var len: nat
    ghost var timestamps: seq<int>

    ghost predicate Valid()
      reads this, buf
    {
      len <= buf.Length && timestamps == buf[..len]
    }

    constructor ()
      ensures Valid() && timestamps == [] && fresh(buf)
    {
      buf := new int[4];
      len := 0;
      timestamps := [];
    }

    /** `filtered := b.timestamps[:0]` and the loop appending to it: reads and writes share the array. */
    method FilterInPlace(threshold: int)
      requires Valid()
      modifies this, buf
      ensures Valid() && buf == old(buf)
      ensures timestamps == Newer(old(timestamps), threshold)
    {
      ghost var before := timestamps;
      var i, j := 0, 0;
      while i < len
        invariant 0 <= j <= i <= len == |before| <= buf.Length
        invariant buf == old(buf)
        invariant buf[..j] == Newer(before[..i], threshold)
        invariant buf[i..len] == before[i..]
      {
        assert buf[i] == before[i] by {
          assert buf[i..len][0] == before[i..][0];
        }
        assert before[..i + 1][..i] == before[..i];
        ghost var rest := buf[i + 1..len];
        assert rest == before[i + 1..] by {
          assert rest == buf[i..len][1..];
        }
        if buf[i] > threshold {
          buf[j] := buf[i];
          assert buf[..j + 1] == buf[..j] + [before[i]];
          j := j + 1;
        }
        i := i + 1;
        assert buf[i..len] == rest;
      }
      assert before[..i] == before;
      len := j;
      timestamps := buf[..len];
    }

    /** Go's `append`: in place while there is capacity, into a fresh array otherwise. */
    method Append(t: int)
      requires Valid()
      modifies this, buf
      ensures Valid() && (buf == old(buf) || fresh(buf))
      ensures timestamps == old(timestamps) + [t]
    {
      if len == buf.Length {
        var bigger := new int[2 * buf.Length + 1];
        forall i | 0 <= i < len {
          bigger[i] := buf[i];
        }
        buf := bigger;
      }
      buf[len] := t;
      len := len + 1;
      timestamps := timestamps + [t];
    }

    /** The part of `allow` that works on one bucket: drop what the window has left behind, then
        admit and record the call, or say how long to wait. */
    method Check(rule: Rule, now: int) returns (d: Decision)
      requires Valid() && rule.limit >= 1
      modifies this, buf
      ensures Valid() && (buf == old(buf) || fresh(buf))
      ensures (timestamps, d) == CheckStep(old(timestamps), rule, now)
    {
      FilterInPlace(now - rule.window);
      if len >= rule.limit {
        var retryAfter := buf[0] + rule.window - now;
        if retryAfter < 0 {
          retryAfter := 0;
        }
        return Rejected(retryAfter);
      }
      Append(now);
      return Allowed;
    }

    /** The inner loop of the sweep. */
    method FindLatest() returns (latest: int)
      requires Valid()
      ensures latest == Latest(timestamps)
    {
      latest := 0;
      var i := 0;
      while i < len
        invariant 0 <= i <= len
        invariant latest == Latest(buf[..i])
      {
        assert buf[..i + 1][..i] == buf[..i];
        if buf[i] > latest {
          latest := buf[i];
        }
        i := i + 1;
      }
    }
  }

  /** A key without a bucket is treated like one whose bucket is empty. */
  lemma EmptyBucketIsNoBucket(s: Buckets, key: string, rule: Rule, now: int)
    requires rule.limit >= 1
    ensures AllowStep(s[key := BucketOf(s, key)], key, rule, now) == AllowStep(s, key, rule, now)
  {
    var ts := CheckStep(BucketOf(s, key), rule, now).0;
    assert s[key := BucketOf(s, key)][key := ts] == s[key := ts];
  }

  // ----- The limiter ---------------------------------------------------------------------------

  datatype Response = Passed | TooManyRequests(retryAfterSeconds: int)

  class Limiter {
    var data: map<string, Bucket>
    ghost var contents: Buckets  // what the buckets hold
    ghost var owner: map<object, string>  // the key that owns each bucket and each backing array

    ghost function Repr(): set<object>
      reads this
    {
      {this} + owner.Keys
    }

    ghost predicate BucketValid(k: string)
      requires k in data && k in contents
      reads this, owner.Keys
    {
      var b := data[k];
      && b in owner && owner[b] == k
      && b.buf in owner && owner[b.buf] == k
      && b.Valid() && b.timestamps == contents[k]
    }

    /** Every bucket is well formed and no two keys share a bucket or a backing array. */
    ghost predicate Valid()
      reads this, owner.Keys
    {
      && this !in owner
      && data.Keys == contents.Keys
      && forall k :: k in data ==> BucketValid(k)
    }

    constructor ()
      ensures Valid() && Repr() == {this} && contents == map[]
    {
      data, contents, owner := map[], map[], map[];
    }

    /** Gives `key` an empty bucket if it has none. */
    method EnsureBucket(key: string)
      requires Valid()
      modifies this
      ensures Valid() && fresh(Repr() - old(Repr()))
      ensures key in data
      ensures contents == old(contents)[key := BucketOf(old(contents), key)]
    {
      if key !in data {
        var b := new Bucket();
        data, contents := data[key := b], contents[key := []];
        owner := owner[b := key][b.buf := key];
        forall k | k in data ensures BucketValid(k) {
          assert k != key ==> old(BucketValid(k));
        }
      }
    }

    /** The part of `allow` after the bucket has been looked up. */
    method CheckAt(key: string, rule: Rule, now: int) returns (d: Decision)
      requires Valid() && key in data && rule.limit >= 1
      modifies Repr()
      ensures Valid() && fresh(Repr() - old(Repr()))
      ensures (contents, d) == AllowStep(old(contents), key, rule, now)
    {
      var b := data[key];
      assert BucketValid(key);
      d := b.Check(rule, now);
      contents, owner := contents[key := b.timestamps], owner[b.buf := key];
      assert BucketValid(key);
      forall k | k in data && k != key ensures BucketValid(k) {
        assert old(BucketValid(k));
      }
    }

    method Allow(key: string, rule: Rule, now: int) returns (d: Decision)
      requires Valid() && rule.limit >= 1
      modifies Repr()
      ensures Valid() && fresh(Repr() - old(Repr()))
      ensures (contents, d) == AllowStep(old(contents), key, rule, now)
    {
      EmptyBucketIsNoBucket(contents, key, rule, now);
      EnsureBucket(key);
      d := CheckAt(key, rule, now);
    }

    /** The sweep's visit to one key. */
    method Expire(key: string, now: int)
      requires Valid() && key in data
      modifies this`data, this`contents
      ensures Valid()
      ensures contents == if Stale(old(contents)[key], now) then old(contents) - {key} else old(contents)
    {
      assert BucketValid(key);
      var latest := data[key].FindLatest();
      if latest != 0 && now - latest > 2 * HOUR {
        data, contents := data - {key}, contents - {key};
        forall k | k in data ensures BucketValid(k) {
          assert old(BucketValid(k));
        }
      }
    }

    /** One tick of the clean-up loop, visiting the keys in any order. */
    method Cleanup(now: int)
      requires Valid()
      modifies this`data, this`contents
      ensures Valid()
      ensures contents == SweepStep(old(contents), now)
    {
      var todo := data.Keys;
      while todo != {}
        invariant Valid() && todo <= old(contents).Keys
        invariant contents == SweepExcept(old(contents), todo, now)
        decreases todo
      {
        var key :| key in todo;
        SweepVisits(old(contents), todo, key, now);
        Expire(key, now);
        todo := todo - {key};
      }
    }

    /** The handler in front of a route: only the three paths of the table are limited. */
    method Handle(enabled: bool, path: string, ip: string, now: int) returns (response: Response)
      requires Valid()
      modifies Repr()
      ensures Valid() && fresh(Repr() - old(Repr()))
      ensures !enabled || path !in RULES ==> response == Passed && contents == old(contents)
      ensures enabled && path in RULES ==>
                var key := KeyFor(path, ip);
                var step := AllowStep(old(contents), key, RuleOfKey(key), now);
                && contents == step.0 && response == match step.1 {
                                 case Allowed => Passed
                                 case Rejected(r) => TooManyRequests(HeaderSeconds(r))
                               }
    {
      if !enabled || path !in RULES {
        return Passed;
      }
      KeysSeparateRules();
      var d := Allow(KeyFor(path, ip), RULES[path], now);
      match d
      case Allowed => return Passed;
      case Rejected(retryAfter) => return TooManyRequests(HeaderSeconds(retryAfter));
    }
  }
}

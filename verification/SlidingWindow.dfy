/** The sliding-window rule of the rate limiter, as functions on timestamp lists, and what every
    run of calls and clean-up sweeps guarantees. Instants are nanoseconds since Go's zero time;
    `RateLimiter` holds the class that works in place. */
module SlidingWindow {
  import opened Durations

  datatype Rule = Rule(limit: int, window: int)

  datatype Decision = Allowed | Rejected(retryAfter: int)

  type Buckets = map<string, seq<int>>

  /** One step of the limiter: a call under a key, or the background sweep. */
  datatype Event = Call(key: string, now: int) | Sweep(now: int)

  // ----- The steps ---------------------------------------------------------------------------

  /** The timestamps strictly after `threshold`, in order. */
  function Newer(ts: seq<int>, threshold: int): seq<int> {
    if ts == [] then []
    else
      var kept := Newer(ts[..|ts| - 1], threshold);
      if ts[|ts| - 1] > threshold then kept + [ts[|ts| - 1]] else kept
  }

  function BucketOf(s: Buckets, key: string): seq<int> {
    if key in s then s[key] else []
  }

  /** What a call does to its bucket, and what it is told. */
  function CheckStep(ts: seq<int>, rule: Rule, now: int): (seq<int>, Decision)
    requires rule.limit >= 1
  {
    var kept := Newer(ts, now - rule.window);
    if |kept| >= rule.limit then
      var retry := kept[0] + rule.window - now;
      (kept, Rejected(if retry < 0 then 0 else retry))
    else
      (kept + [now], Allowed)
  }

  function AllowStep(s: Buckets, key: string, rule: Rule, now: int): (Buckets, Decision)
    requires rule.limit >= 1
  {
    var (ts, d) := CheckStep(BucketOf(s, key), rule, now);
    (s[key := ts], d)
  }

  /** The greatest timestamp after the zero time, or the zero time. */
  function Latest(ts: seq<int>): int {
    if ts == [] then 0
    else
      var l := Latest(ts[..|ts| - 1]);
      if ts[|ts| - 1] > l then ts[|ts| - 1] else l
  }

  predicate Stale(ts: seq<int>, now: int) {
    Latest(ts) != 0 && now - Latest(ts) > 2 * HOUR
  }

  function SweepStep(s: Buckets, now: int): Buckets {
    map k | k in s && !Stale(s[k], now) :: s[k]
  }

  /** The sweep part-way through: the keys in `todo` have not been visited yet. */
  function SweepExcept(s: Buckets, todo: set<string>, now: int): Buckets {
    map k | k in s && (k in todo || !Stale(s[k], now)) :: s[k]
  }

  /** A sweep deletes exactly the buckets all of whose calls are more than two hours old, and leaves the
      others as they are; an empty bucket stays. */
  lemma SweepExactly(s: Buckets, now: int, key: string)
    requires key in s && forall i :: 0 <= i < |s[key]| ==> s[key][i] > 0
    ensures key in SweepStep(s, now) <==>
            s[key] == [] || exists i :: 0 <= i < |s[key]| && now - s[key][i] <= 2 * 60 * 60 * 1_000_000_000
    ensures key in SweepStep(s, now) ==> SweepStep(s, now)[key] == s[key]
  {
    LatestBounds(s[key]);
    LatestIsOne(s[key]);
  }

  lemma {:induction false} LatestIsOne(ts: seq<int>)
    requires ts != [] ==> exists i :: 0 <= i < |ts| && ts[i] > 0
    ensures ts == [] ==> Latest(ts) == 0
    ensures ts != [] ==> exists i :: 0 <= i < |ts| && Latest(ts) == ts[i]
  {
    if ts == [] {
    } else {
      var front, last := ts[..|ts| - 1], ts[|ts| - 1];
      if exists i :: 0 <= i < |front| && front[i] > 0 {
        LatestIsOne(front);
        var i :| 0 <= i < |front| && Latest(front) == front[i];
        assert ts[i] == front[i];
      } else {
        LatestOfOld(front);
      }
    }
  }

  lemma {:induction false} LatestOfOld(ts: seq<int>)
    requires forall i :: 0 <= i < |ts| ==> ts[i] <= 0
    ensures Latest(ts) == 0
  {
    if ts == [] {
    } else {
      LatestOfOld(ts[..|ts| - 1]);
    }
  }

  lemma SweepVisits(s: Buckets, todo: set<string>, key: string, now: int)
    requires key in todo && todo <= s.Keys
    ensures SweepExcept(s, todo - {key}, now) ==
            if Stale(s[key], now) then SweepExcept(s, todo, now) - {key} else SweepExcept(s, todo, now)
  {
  }

  // ----- Runs --------------------------------------------------------------------------------

  /** Every key is always called with the same rule; `rules` says which. */
  ghost predicate ValidRules(rules: string -> Rule) {
    forall k :: rules(k).limit >= 1 && 0 <= rules(k).window <= HOUR
  }

  ghost function Run(rules: string -> Rule, es: seq<Event>): Buckets
    requires ValidRules(rules)
  {
    if es == [] then map[]
    else
      var s := Run(rules, es[..|es| - 1]);
      match es[|es| - 1]
      case Call(key, now) => AllowStep(s, key, rules(key), now).0
      case Sweep(now) => SweepStep(s, now)
  }

  /** What a call would be told after the run `es`. */
  ghost function Decide(rules: string -> Rule, es: seq<Event>, key: string, now: int): Decision
    requires ValidRules(rules)
  {
    AllowStep(Run(rules, es), key, rules(key), now).1
  }

  /** The instants at which the limiter admitted a call under `key`, oldest first. */
  ghost function Admitted(rules: string -> Rule, es: seq<Event>, key: string): seq<int>
    requires ValidRules(rules)
  {
    if es == [] then []
    else
      var before := es[..|es| - 1];
      var last := es[|es| - 1];
      var ts := Admitted(rules, before, key);
      if last.Call? && last.key == key && Decide(rules, before, key, last.now).Allowed? then ts + [last.now] else ts
  }

  /** The clock never went backwards during the run and has not passed `clock` at its end. */
  predicate ClockedUntil(es: seq<Event>, clock: int) {
    es == [] || (es[|es| - 1].now <= clock && ClockedUntil(es[..|es| - 1], es[|es| - 1].now))
  }

  // ----- The reference rule: remember every admission forever ----------------------------------

  ghost predicate LedgerAdmits(rules: string -> Rule, ledger: seq<int>, key: string, now: int) {
    |Newer(ledger, now - rules(key).window)| < rules(key).limit
  }

  ghost function Ledger(rules: string -> Rule, es: seq<Event>, key: string): seq<int> {
    if es == [] then []
    else
      var l := Ledger(rules, es[..|es| - 1], key);
      var last := es[|es| - 1];
      if last.Call? && last.key == key && LedgerAdmits(rules, l, key, last.now) then l + [last.now] else l
  }

  // ----- Lists of timestamps -------------------------------------------------------------------

  predicate Sorted(ts: seq<int>) {
    forall i, j :: 0 <= i < j < |ts| ==> ts[i] <= ts[j]
  }

  lemma {:induction false} NewerOfNewer(ts: seq<int>, t1: int, t2: int)
    requires t1 <= t2
    ensures Newer(Newer(ts, t1), t2) == Newer(ts, t2)
  {
    if ts == [] {
    } else {
      var front, last := ts[..|ts| - 1], ts[|ts| - 1];
      NewerOfNewer(front, t1, t2);
      if last > t1 {
        assert (Newer(front, t1) + [last])[..|Newer(front, t1)|] == Newer(front, t1);
      }
    }
  }

  lemma NewerSnoc(ts: seq<int>, x: int, t: int)
    ensures Newer(ts + [x], t) == Newer(ts, t) + if x > t then [x] else []
  {
    assert (ts + [x])[..|ts|] == ts;
  }

  lemma {:induction false} NewerBasics(ts: seq<int>, t: int)
    ensures |Newer(ts, t)| <= |ts|
    ensures forall i :: 0 <= i < |Newer(ts, t)| ==> Newer(ts, t)[i] > t && Newer(ts, t)[i] in ts
    ensures Sorted(ts) ==> Sorted(Newer(ts, t))
  {
    if ts == [] {
    } else {
      NewerBasics(ts[..|ts| - 1], t);
    }
  }

  lemma {:induction false} NewerKeepsAll(ts: seq<int>, t: int)
    requires forall i :: 0 <= i < |ts| ==> ts[i] > t
    ensures Newer(ts, t) == ts
  {
    if ts == [] {
    } else {
      NewerKeepsAll(ts[..|ts| - 1], t);
    }
  }

  lemma {:induction false} NewerKeepsNone(ts: seq<int>, t: int)
    requires forall i :: 0 <= i < |ts| ==> ts[i] <= t
    ensures Newer(ts, t) == []
  {
    if ts == [] {
    } else {
      NewerKeepsNone(ts[..|ts| - 1], t);
    }
  }

  lemma {:induction false} NewerDropsFirst(ts: seq<int>, t: int)
    requires ts != [] && ts[0] <= t
    ensures |Newer(ts, t)| < |ts|
  {
    if |ts| == 1 {
    } else {
      NewerDropsFirst(ts[..|ts| - 1], t);
    }
  }

  lemma {:induction false} LatestBounds(ts: seq<int>)
    ensures Latest(ts) >= 0
    ensures forall i :: 0 <= i < |ts| ==> ts[i] <= Latest(ts)
  {
    if ts == [] {
    } else {
      LatestBounds(ts[..|ts| - 1]);
    }
  }

  /** A bucket the sweep deletes holds nothing that any window of at most two hours still counts. */
  lemma StaleIsInvisible(ts: seq<int>, now: int, t: int)
    requires Stale(ts, now) && t >= now - 2 * HOUR
    ensures Newer(ts, t) == []
  {
    LatestBounds(ts);
    NewerKeepsNone(ts, t);
  }

  // ----- The limiter refines the ledger ---------------------------------------------------------

  /** The bucket and the ledger agree on everything newer than `t`. */
  ghost predicate AgreeAfter(rules: string -> Rule, es: seq<Event>, key: string, t: int)
    requires ValidRules(rules)
  {
    Newer(BucketOf(Run(rules, es), key), t) == Newer(Ledger(rules, es, key), t)
  }

  /** What one call does to the bucket `b` and to the ledger `l`: if they agreed on the call's window,
      the decision is the same for both and they agree on every later window. */
  lemma CallAgrees(b: seq<int>, l: seq<int>, rule: Rule, now: int, t: int)
    requires rule.limit >= 1 && t >= now - rule.window
    requires Newer(b, now - rule.window) == Newer(l, now - rule.window)
    ensures var l' := if |Newer(l, now - rule.window)| < rule.limit then l + [now] else l;
            Newer(CheckStep(b, rule, now).0, t) == Newer(l', t)
  {
    var kept := Newer(b, now - rule.window);
    NewerOfNewer(b, now - rule.window, t);
    NewerOfNewer(l, now - rule.window, t);
    NewerSnoc(kept, now, t);
    NewerSnoc(l, now, t);
  }

  lemma CallKeepsAgreement(rules: string -> Rule, before: seq<Event>, es: seq<Event>, key: string, now: int, t: int)
    requires ValidRules(rules) && es == before + [Call(key, now)]
    requires t >= now - rules(key).window && AgreeAfter(rules, before, key, now - rules(key).window)
    ensures AgreeAfter(rules, es, key, t)
  {
    assert es[..|es| - 1] == before && es[|es| - 1] == Call(key, now);
    CallAgrees(BucketOf(Run(rules, before), key), Ledger(rules, before, key), rules(key), now, t);
  }

  lemma OtherCallKeepsAgreement(
    rules: string -> Rule, before: seq<Event>, es: seq<Event>, other: string, key: string, now: int, t: int)
    requires ValidRules(rules) && es == before + [Call(other, now)] && other != key
    requires AgreeAfter(rules, before, key, t)
    ensures AgreeAfter(rules, es, key, t)
  {
    assert es[..|es| - 1] == before && es[|es| - 1] == Call(other, now);
  }

  lemma SweepKeepsAgreement(rules: string -> Rule, before: seq<Event>, es: seq<Event>, key: string, now: int, t: int)
    requires ValidRules(rules) && es == before + [Sweep(now)]
    requires t >= now - HOUR && AgreeAfter(rules, before, key, t)
    ensures AgreeAfter(rules, es, key, t)
  {
    assert es[..|es| - 1] == before && es[|es| - 1] == Sweep(now);
    var s := Run(rules, before);
    if key in s && Stale(s[key], now) {
      StaleIsInvisible(s[key], now, t);
    }
  }

  lemma {:induction false} BucketTracksLedger(rules: string -> Rule, es: seq<Event>, key: string, clock: int, t: int)
    requires ValidRules(rules) && ClockedUntil(es, clock)
    requires t >= clock - rules(key).window
    ensures AgreeAfter(rules, es, key, t)
    decreases |es|
  {
    if es == [] {
    } else {
      var before, last := es[..|es| - 1], es[|es| - 1];
      assert es == before + [last];
      match last {
        case Call(k, now) =>
          if k == key {
            BucketTracksLedger(rules, before, key, now, now - rules(key).window);
            CallKeepsAgreement(rules, before, es, key, now, t);
          } else {
            BucketTracksLedger(rules, before, key, now, t);
            OtherCallKeepsAgreement(rules, before, es, k, key, now, t);
          }
        case Sweep(now) =>
          BucketTracksLedger(rules, before, key, now, t);
          SweepKeepsAgreement(rules, before, es, key, now, t);
      }
    }
  }

  lemma CheckDecides(b: seq<int>, rule: Rule, now: int)
    requires rule.limit >= 1
    ensures var kept, d := Newer(b, now - rule.window), CheckStep(b, rule, now).1;
            && (d.Allowed? <==> |kept| < rule.limit)
            && (d.Rejected? ==> d.retryAfter == kept[0] + rule.window - now > 0)
  {
    NewerBasics(b, now - rule.window);
  }

  /** Refinement: after any run, the limiter admits a call exactly when the ledger that never
      forgets holds fewer than `limit` admissions in (now - window, now]; and a rejected call is
      told the distance to the oldest of them. */
  lemma LimiterRefinesLedger(rules: string -> Rule, es: seq<Event>, key: string, now: int)
    requires ValidRules(rules) && ClockedUntil(es, now)
    ensures var recent := Newer(Ledger(rules, es, key), now - rules(key).window);
            && (Decide(rules, es, key, now).Allowed? <==> |recent| < rules(key).limit)
            && (Decide(rules, es, key, now).Rejected? ==>
                  Decide(rules, es, key, now).retryAfter == recent[0] + rules(key).window - now > 0)
  {
    var bucket, rule := BucketOf(Run(rules, es), key), rules(key);
    BucketTracksLedger(rules, es, key, now, now - rule.window);
    CheckDecides(bucket, rule, now);
    assert Decide(rules, es, key, now) == CheckStep(bucket, rule, now).1;
  }

  lemma LimiterAdmitsAsLedger(rules: string -> Rule, es: seq<Event>, key: string, now: int)
    requires ValidRules(rules) && ClockedUntil(es, now)
    ensures Decide(rules, es, key, now).Allowed? <==> LedgerAdmits(rules, Ledger(rules, es, key), key, now)
  {
    LimiterRefinesLedger(rules, es, key, now);
  }

  /** The limiter's own admissions are the ledger's. */
  lemma {:induction false} AdmittedIsLedger(rules: string -> Rule, es: seq<Event>, key: string, clock: int)
    requires ValidRules(rules) && ClockedUntil(es, clock)
    ensures Admitted(rules, es, key) == Ledger(rules, es, key)
    decreases |es|
  {
    if es == [] {
    } else {
      var before, last := es[..|es| - 1], es[|es| - 1];
      AdmittedIsLedger(rules, before, key, last.now);
      LimiterAdmitsAsLedger(rules, before, key, last.now);
    }
  }

  // ----- Safety over whole runs -------------------------------------------------------------------

  /** How many of `ts` lie in the half-open real interval (lo, hi]. */
  ghost function CountIn(ts: seq<int>, lo: real, hi: real): nat {
    if ts == [] then 0
    else
      CountIn(ts[..|ts| - 1], lo, hi) +
      if lo < ts[|ts| - 1] as real <= hi then 1 else 0
  }

  lemma {:induction false} CountInAtMostNewer(ts: seq<int>, lo: real, hi: real, t: int)
    requires t as real <= lo
    ensures CountIn(ts, lo, hi) <= |Newer(ts, t)|
  {
    if ts == [] {
    } else {
      CountInAtMostNewer(ts[..|ts| - 1], lo, hi, t);
    }
  }

  lemma {:induction false} LedgerWindowBound(rules: string -> Rule, es: seq<Event>, key: string, x: real)
    requires ValidRules(rules)
    ensures CountIn(Ledger(rules, es, key), x, x + rules(key).window as real) <= rules(key).limit
  {
    if es == [] {
    } else {
      var before, last := es[..|es| - 1], es[|es| - 1];
      var l := Ledger(rules, before, key);
      LedgerWindowBound(rules, before, key, x);
      if last.Call? && last.key == key && LedgerAdmits(rules, l, key, last.now) {
        assert (l + [last.now])[..|l|] == l;
        if last.now as real <= x + rules(key).window as real {
          CountInAtMostNewer(l, x, x + rules(key).window as real, last.now - rules(key).window);
        }
      }
    }
  }

  /** Safety: in every run, at most `limit` calls under a key are admitted in any window (x, x + window]. */
  lemma AtMostLimitPerWindow(
    rules: string -> Rule, es: seq<Event>, key: string, clock: int, x: real)
    requires ValidRules(rules) && ClockedUntil(es, clock)
    ensures CountIn(Admitted(rules, es, key), x, x + rules(key).window as real) <= rules(key).limit
  {
    AdmittedIsLedger(rules, es, key, clock);
    LedgerWindowBound(rules, es, key, x);
  }

  // ----- What cannot influence a decision -----------------------------------------------------------

  /** The run with every sweep, every call under another key and every rejected call left out. */
  ghost function Essential(rules: string -> Rule, es: seq<Event>, key: string): seq<Event>
    requires ValidRules(rules)
  {
    if es == [] then []
    else
      var before, last := es[..|es| - 1], es[|es| - 1];
      var kept := Essential(rules, before, key);
      if last.Call? && last.key == key && Decide(rules, before, key, last.now).Allowed? then kept + [last] else kept
  }

  lemma {:induction false} EssentialIsChronological(rules: string -> Rule, es: seq<Event>, key: string, t: int)
    requires ValidRules(rules) && ClockedUntil(es, t)
    ensures ClockedUntil(Essential(rules, es, key), t)
    decreases |es|
  {
    if es == [] {
    } else {
      EssentialIsChronological(rules, es[..|es| - 1], key, es[|es| - 1].now);
    }
  }

  lemma {:induction false} EssentialKeepsLedger(rules: string -> Rule, es: seq<Event>, key: string, clock: int)
    requires ValidRules(rules) && ClockedUntil(es, clock)
    ensures Ledger(rules, Essential(rules, es, key), key) == Ledger(rules, es, key)
    decreases |es|
  {
    if es == [] {
    } else {
      var before, last := es[..|es| - 1], es[|es| - 1];
      EssentialKeepsLedger(rules, before, key, last.now);
      LimiterAdmitsAsLedger(rules, before, key, last.now);
      var kept := Essential(rules, before, key);
      assert (kept + [last])[..|kept|] == kept;
    }
  }

  /** Non-interference: sweeps, other keys and rejected calls, wherever they fall in the run, change
      neither a decision nor a retry delay. */
  lemma {:induction false} OnlyAdmissionsMatter(rules: string -> Rule, es: seq<Event>, key: string, now: int)
    requires ValidRules(rules) && ClockedUntil(es, now)
    ensures Decide(rules, es, key, now) == Decide(rules, Essential(rules, es, key), key, now)
  {
    EssentialIsChronological(rules, es, key, now);
    EssentialKeepsLedger(rules, es, key, now);
    LimiterRefinesLedger(rules, es, key, now);
    LimiterRefinesLedger(rules, Essential(rules, es, key), key, now);
  }

  // ----- The retry delay ------------------------------------------------------------------------------

  lemma {:induction false} LedgerShape(rules: string -> Rule, es: seq<Event>, key: string, clock: int)
    requires ClockedUntil(es, clock)
    ensures Sorted(Ledger(rules, es, key))
    ensures forall i :: 0 <= i < |Ledger(rules, es, key)| ==> Ledger(rules, es, key)[i] <= clock
    decreases |es|
  {
    if es == [] {
    } else {
      LedgerShape(rules, es[..|es| - 1], key, es[|es| - 1].now);
    }
  }

  lemma {:induction false} NewerIsCounted(ts: seq<int>, t: int, hi: real)
    requires forall i :: 0 <= i < |ts| ==> ts[i] as real <= hi
    ensures |Newer(ts, t)| == CountIn(ts, t as real, hi)
  {
    if ts == [] {
    } else {
      NewerIsCounted(ts[..|ts| - 1], t, hi);
    }
  }

  /** A full sorted window has room again exactly when its oldest entry has left it. */
  lemma FullWindowReopens(kept: seq<int>, threshold: int)
    requires kept != [] && Sorted(kept)
    ensures |Newer(kept, threshold)| < |kept| <==> kept[0] <= threshold
  {
    if kept[0] <= threshold {
      NewerDropsFirst(kept, threshold);
    } else {
      NewerKeepsAll(kept, threshold);
    }
  }

  /** At a rejection the window holds exactly `limit` admissions, oldest first. */
  lemma FullAtRejection(rules: string -> Rule, es: seq<Event>, key: string, now: int)
    requires ValidRules(rules) && ClockedUntil(es, now)
    requires Decide(rules, es, key, now).Rejected?
    ensures var kept := Newer(Ledger(rules, es, key), now - rules(key).window);
            |kept| == rules(key).limit && Sorted(kept)
  {
    var l, w := Ledger(rules, es, key), rules(key).window;
    LimiterRefinesLedger(rules, es, key, now);
    LedgerShape(rules, es, key, now);
    NewerBasics(l, now - w);
    NewerIsCounted(l, now - w, now as real);
    LedgerWindowBound(rules, es, key, (now - w) as real);
    assert (now - w) as real + w as real == now as real;
  }

  /** Of a list whose part after `t1` is sorted and full, less than that is after `t2` exactly when `t2`
      has reached its oldest entry. */
  lemma WindowReopens(l: seq<int>, limit: int, t1: int, t2: int)
    requires t1 <= t2 && limit >= 1 && |Newer(l, t1)| == limit && Sorted(Newer(l, t1))
    ensures |Newer(l, t2)| < limit <==> Newer(l, t1)[0] <= t2
  {
    NewerOfNewer(l, t1, t2);
    FullWindowReopens(Newer(l, t1), t2);
  }

  /** A call is refused exactly when the window that ends with it holds `limit` admissions. */
  lemma RejectedExactlyWhenFull(rules: string -> Rule, es: seq<Event>, key: string, now: int, from: real)
    requires ValidRules(rules) && ClockedUntil(es, now) && from == (now - rules(key).window) as real
    ensures Decide(rules, es, key, now).Rejected? <==>
            CountIn(Admitted(rules, es, key), from, now as real) == rules(key).limit
  {
    var l, w := Ledger(rules, es, key), rules(key).window;
    AdmittedIsLedger(rules, es, key, now);
    LimiterRefinesLedger(rules, es, key, now);
    LedgerShape(rules, es, key, now);
    NewerIsCounted(l, now - w, now as real);
    LedgerWindowBound(rules, es, key, from);
    assert from + w as real == now as real;
  }

  /** After a rejection the ledger admits again exactly from the promised instant on. */
  lemma LedgerReopens(rules: string -> Rule, es: seq<Event>, key: string, now: int, t: int)
    requires ValidRules(rules) && ClockedUntil(es, now) && now <= t
    requires Decide(rules, es, key, now).Rejected?
    ensures LedgerAdmits(rules, Ledger(rules, es, key), key, t) <==>
            t >= now + Decide(rules, es, key, now).retryAfter
  {
    var w := rules(key).window;
    LimiterRefinesLedger(rules, es, key, now);
    FullAtRejection(rules, es, key, now);
    WindowReopens(Ledger(rules, es, key), rules(key).limit, now - w, t - w);
  }

  /** The run `es`, then the rejected call, then `later`. */
  function Then(es: seq<Event>, key: string, now: int, later: seq<Event>): seq<Event> {
    es + [Call(key, now)] + later
  }

  /** Every repeat of the call in `later` comes before `reopening`. */
  predicate Impatient(later: seq<Event>, key: string, reopening: int) {
    forall i :: 0 <= i < |later| && later[i].Call? && later[i].key == key ==> later[i].now < reopening
  }

  lemma {:induction false} QuietUntilReopening(
    rules: string -> Rule, es: seq<Event>, key: string, now: int, later: seq<Event>, clock: int)
    requires ValidRules(rules) && ClockedUntil(Then(es, key, now, later), clock)
    requires ClockedUntil(es, now) && Decide(rules, es, key, now).Rejected?
    requires Impatient(later, key, now + Decide(rules, es, key, now).retryAfter)
    ensures Ledger(rules, Then(es, key, now, later), key) == Ledger(rules, es, key)
    ensures now <= clock
    decreases |later|
  {
    var run := Then(es, key, now, later);
    if later == [] {
      assert run[..|run| - 1] == es;
      LimiterAdmitsAsLedger(rules, es, key, now);
    } else {
      var before, last := later[..|later| - 1], later[|later| - 1];
      assert run[..|run| - 1] == Then(es, key, now, before);
      QuietUntilReopening(rules, es, key, now, before, last.now);
      if last.Call? && last.key == key {
        LedgerReopens(rules, es, key, now, last.now);
      }
    }
  }

  lemma {:induction false} ClockedPrefix(es: seq<Event>, key: string, now: int, later: seq<Event>, clock: int)
    requires ClockedUntil(Then(es, key, now, later), clock)
    ensures ClockedUntil(es, now)
    decreases |later|
  {
    var run := Then(es, key, now, later);
    if later == [] {
      assert run[..|run| - 1] == es;
    } else {
      assert run[..|run| - 1] == Then(es, key, now, later[..|later| - 1]);
      ClockedPrefix(es, key, now, later[..|later| - 1], later[|later| - 1].now);
    }
  }

  /** The retry delay is exact. After a rejection at `now`, whatever follows (sweeps, other keys,
      impatient repeats of this key before the promised instant), a call at `t` is admitted if and
      only if `t` has reached `now + retryAfter`; and the delay is positive, so the limiter's clamp
      to zero never acts. */
  lemma RetryAfterIsExact(
    rules: string -> Rule, es: seq<Event>, key: string, now: int, later: seq<Event>, t: int)
    requires ValidRules(rules) && ClockedUntil(Then(es, key, now, later), t)
    requires Decide(rules, es, key, now).Rejected?
    requires Impatient(later, key, now + Decide(rules, es, key, now).retryAfter)
    ensures Decide(rules, es, key, now).retryAfter > 0
    ensures Decide(rules, Then(es, key, now, later), key, t).Allowed? <==>
            t >= now + Decide(rules, es, key, now).retryAfter
  {
    ClockedPrefix(es, key, now, later, t);
    LimiterRefinesLedger(rules, es, key, now);
    QuietUntilReopening(rules, es, key, now, later, t);
    LedgerReopens(rules, es, key, now, t);
    LimiterAdmitsAsLedger(rules, Then(es, key, now, later), key, t);
  }

  /** The whole seconds the Retry-After header carries: the fraction is cut off. */
  function HeaderSeconds(retryAfter: int): int {
    retryAfter / SECOND
  }

  /** A client that waits exactly what the header says is admitted if and only if the true delay
      was a whole number of seconds; otherwise the header sends it back too early. The delay is that of
      the history: the time until the oldest admission still in the window leaves it. */
  lemma HeaderIsExactOnlyOnWholeSeconds(
    rules: string -> Rule, es: seq<Event>, key: string, now: int)
    requires ValidRules(rules) && ClockedUntil(es, now) && Decide(rules, es, key, now).Rejected?
    ensures Newer(Ledger(rules, es, key), now - rules(key).window) != []
    ensures var d := Newer(Ledger(rules, es, key), now - rules(key).window)[0] + rules(key).window - now;
            && Decide(rules, es, key, now).retryAfter == d
            && (Decide(rules, es + [Call(key, now)], key, now + HeaderSeconds(d) * SECOND).Allowed? <==>
                d % SECOND == 0)
  {
    var d := Decide(rules, es, key, now).retryAfter;
    var run := Then(es, key, now, []);
    assert run == es + [Call(key, now)] && run[..|run| - 1] == es;
    LimiterRefinesLedger(rules, es, key, now);
    RetryAfterIsExact(rules, es, key, now, [], now + HeaderSeconds(d) * SECOND);
  }
}

/** Account lockout: what a sequence of login attempts on one account can count, how the locks space
    the counted failures, and when the account ends up banned. Instants are in nanoseconds. */
module Lockout {
  import opened Options
  import opened Durations

  const LOCK: int := 15 * MINUTE
  const LOCK_FROM: nat := 5
  const BAN_FROM: nat := 10

  datatype Account = Account(banned: bool, lockedUntil: Option<int>, failures: nat)

  const FRESH: Account := Account(false, None, 0)

  /** A login: the instant of the gate, the later instant at which a failure is handled, and whether
      the password is right. */
  datatype Attempt = Attempt(gate: int, handled: int, passwordOk: bool)

  datatype Outcome = RefusedBanned | RefusedLocked | WrongPassword | PasswordAccepted

  predicate IsLocked(u: Account, now: int) {
    u.lockedUntil.Some? && now < u.lockedUntil.value
  }

  /** `handleFailedLogin`: count, then ban at ten, else lock from five on. */
  function HandleFailure(u: Account, now: int): Account {
    var count := u.failures + 1;
    if count >= BAN_FROM then u.(failures := count, banned := true)
    else if count >= LOCK_FROM then u.(failures := count, lockedUntil := Some(now + LOCK))
    else u.(failures := count)
  }

  /** The gates of `Login` in their order; a right password changes nothing here, not even the count. */
  function Login(u: Account, a: Attempt): (Account, Outcome) {
    if u.banned then (u, RefusedBanned)
    else if IsLocked(u, a.gate) then (u, RefusedLocked)
    else if !a.passwordOk then (HandleFailure(u, a.handled), WrongPassword)
    else (u, PasswordAccepted)
  }

  // ----- Runs ------------------------------------------------------------------------------------------

  function Run(attempts: seq<Attempt>): Account {
    if attempts == [] then FRESH else Login(Run(attempts[..|attempts| - 1]), attempts[|attempts| - 1]).0
  }

  /** The instants of the counted failures, oldest first. */
  function Counted(attempts: seq<Attempt>): seq<int> {
    if attempts == [] then []
    else
      var before, last := attempts[..|attempts| - 1], attempts[|attempts| - 1];
      if Login(Run(before), last).1 == WrongPassword then Counted(before) + [last.handled] else Counted(before)
  }

  /** One attempt at a time: each is over before the next begins, and none later than `clock`. */
  predicate Sequential(attempts: seq<Attempt>, clock: int) {
    attempts == [] ||
    var last := attempts[|attempts| - 1];
    last.gate <= last.handled <= clock && Sequential(attempts[..|attempts| - 1], last.gate)
  }

  predicate LocksApart(times: seq<int>) {
    forall k :: LOCK_FROM <= k < |times| ==> times[k] - times[k - 1] >= LOCK
  }

  lemma {:induction false} RunInvariant(attempts: seq<Attempt>, clock: int)
    requires Sequential(attempts, clock)
    ensures var u, times := Run(attempts), Counted(attempts);
            && u.failures == |times| <= BAN_FROM
            && (u.banned <==> |times| == BAN_FROM)
            && (LOCK_FROM <= |times| < BAN_FROM ==> u.lockedUntil == Some(times[|times| - 1] + LOCK))
            && (|times| < LOCK_FROM ==> u.lockedUntil == None)
            && LocksApart(times)
    decreases |attempts|
  {
    if attempts == [] {
    } else {
      RunInvariant(attempts[..|attempts| - 1], attempts[|attempts| - 1].gate);
    }
  }

  /** Between the i-th and the j-th counted failure, from the fifth on, every step took a whole lock. */
  lemma {:induction false} LocksAccumulate(times: seq<int>, i: nat, j: nat)
    requires LocksApart(times) && LOCK_FROM - 1 <= i <= j < |times|
    ensures times[j] - times[i] >= LOCK * (j - i)
    decreases j
  {
    if i == j {
    } else {
      LocksAccumulate(times, i, j - 1);
    }
  }

  /** In every sequential run on one account: at most ten failures are ever counted, however many
      logins succeed in between; the account is banned exactly when the tenth is; and at least 75
      minutes lie between the fifth and the tenth. */
  lemma BruteForceIsBounded(attempts: seq<Attempt>, clock: int)
    requires Sequential(attempts, clock)
    ensures var times := Counted(attempts);
            && |times| <= 10
            && (Run(attempts).banned <==> |times| == 10)
            && (|times| == 10 ==> times[9] - times[4] >= 75 * 60 * 1_000_000_000)
  {
    RunInvariant(attempts, clock);
    if |Counted(attempts)| == 10 {
      LocksAccumulate(Counted(attempts), 4, 9);
    }
  }

  /** What an attempt is told, from the counted failures alone: a ban answers from the tenth on; before
      that, from the fifth on, a lock answers for fifteen minutes after the latest one and no longer; and
      while neither does, the password decides. */
  lemma AnswersExactly(attempts: seq<Attempt>, a: Attempt)
    requires Sequential(attempts, a.gate)
    ensures var times, answer := Counted(attempts), Login(Run(attempts), a).1;
            var open := |times| < 5 || a.gate >= times[|times| - 1] + 15 * 60 * 1_000_000_000;
            && (answer == RefusedBanned <==> |times| == 10)
            && (answer == RefusedLocked <==> |times| < 10 && !open)
            && (answer == WrongPassword <==> |times| < 10 && open && !a.passwordOk)
            && (answer == PasswordAccepted <==> |times| < 10 && open && a.passwordOk)
  {
    RunInvariant(attempts, a.gate);
  }

  // ----- The fastest way to a ban ------------------------------------------------------------------------

  function AttackTime(k: nat): int {
    if k < 5 then 0 else (k - 4) * LOCK
  }

  /** Wrong passwords as early as the locks let them count. */
  function Attack(n: nat): seq<Attempt> {
    if n == 0 then [] else Attack(n - 1) + [Attempt(AttackTime(n - 1), AttackTime(n - 1), false)]
  }

  lemma {:induction false} AttackCounts(n: nat)
    requires n <= 10
    ensures |Attack(n)| == n && Sequential(Attack(n), if n == 0 then 0 else AttackTime(n - 1))
    ensures |Counted(Attack(n))| == n && forall k :: 0 <= k < n ==> Counted(Attack(n))[k] == AttackTime(k)
  {
    if n == 0 {
    } else {
      var before, t := Attack(n - 1), AttackTime(n - 1);
      var a := Attempt(t, t, false);
      AttackCounts(n - 1);
      SequentialLater(before, if n == 1 then 0 else AttackTime(n - 2), t);
      assert Login(Run(before), a).1 == WrongPassword by {
        AnswersExactly(before, a);
      }
      CountedOneMore(before, a);
    }
  }

  lemma CountedOneMore(before: seq<Attempt>, a: Attempt)
    requires Login(Run(before), a).1 == WrongPassword
    ensures Counted(before + [a]) == Counted(before) + [a.handled]
    ensures forall t :: a.gate <= a.handled <= t && Sequential(before, a.gate) ==> Sequential(before + [a], t)
  {
    assert (before + [a])[..|before|] == before;
  }

  lemma SequentialLater(attempts: seq<Attempt>, clock: int, later: int)
    requires Sequential(attempts, clock) && clock <= later
    ensures Sequential(attempts, later)
  {
  }

  /** The 75 minutes cannot be undercut, and they can be met: ten wrong passwords at the earliest instants
      lead to the ban with exactly 75 minutes between the fifth and the tenth. */
  lemma BoundIsAttained()
    ensures var times := Counted(Attack(10));
            && |times| == 10 && Sequential(Attack(10), times[9]) && Run(Attack(10)).banned
            && times[9] - times[4] == 75 * 60 * 1_000_000_000
  {
    AttackCounts(10);
    BruteForceIsBounded(Attack(10), AttackTime(9));
  }

  /** Right passwords neither count nor forgive: leaving them out of a run changes nothing. */
  function Failing(attempts: seq<Attempt>): seq<Attempt> {
    if attempts == [] then []
    else
      var before, last := Failing(attempts[..|attempts| - 1]), attempts[|attempts| - 1];
      if last.passwordOk then before else before + [last]
  }

  lemma {:induction false} SuccessForgivesNothing(attempts: seq<Attempt>)
    ensures Run(Failing(attempts)) == Run(attempts)
  {
    if attempts == [] {
    } else {
      var before, last := attempts[..|attempts| - 1], attempts[|attempts| - 1];
      SuccessForgivesNothing(before);
      assert (Failing(before) + [last])[..|Failing(before)|] == Failing(before);
    }
  }

  // ----- The stored user -------------------------------------------------------------------------------

  class User {
    var isBanned: bool
    var lockedUntil: Option<int>
    var failedLoginCount: nat

    function Current(): Account
      reads this
    {
      Account(isBanned, lockedUntil, failedLoginCount)
    }

    constructor ()
      ensures Current() == FRESH
    {
      isBanned, lockedUntil, failedLoginCount := false, None, 0;
    }

    method IncrementFailedLoginCount() returns (count: nat)
      modifies this`failedLoginCount
      ensures count == failedLoginCount == old(failedLoginCount) + 1
    {
      failedLoginCount := failedLoginCount + 1;
      return failedLoginCount;
    }

    method HandleFailedLogin(now: int)
      modifies this
      ensures Current() == HandleFailure(old(Current()), now)
    {
      var count := IncrementFailedLoginCount();
      if count >= 10 {
        isBanned := true;
        return;
      }
      if count >= 5 {
        lockedUntil := Some(now + LOCK);
      }
    }

    method TryLogin(a: Attempt) returns (outcome: Outcome)
      modifies this
      ensures (Current(), outcome) == Login(old(Current()), a)
    {
      if isBanned {
        return RefusedBanned;
      }
      if lockedUntil.Some? && a.gate < lockedUntil.value {
        return RefusedLocked;
      }
      if !a.passwordOk {
        HandleFailedLogin(a.handled);
        return WrongPassword;
      }
      return PasswordAccepted;
    }
  }
}

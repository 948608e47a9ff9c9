/** The migration runner: every `.up.sql` file not yet recorded is executed and recorded, in name
    order, stopping at the first failure. The table of recorded names outlives the run; so does the
    log of what was executed, which only the model keeps. */
module Migrations {
  import opened Lists

  // ----- Names in order ----------------------------------------------------------------------------

  /** Byte-wise order of strings, as `sort.Strings` uses it. */
  predicate Leq(a: string, b: string) {
    a == "" || (b != "" && (a[0] < b[0] || (a[0] == b[0] && Leq(a[1..], b[1..]))))
  }

  ghost predicate ByteOrdered(a: string, b: string) {
    a <= b || exists k: nat :: k < |a| && k < |b| && a[..k] == b[..k] && a[k] < b[k]
  }

  lemma SameHead(a: string, b: string)
    requires a != "" && b != "" && a[0] == b[0]
    ensures ByteOrdered(a, b) <==> ByteOrdered(a[1..], b[1..])
  {
    var a', b' := a[1..], b[1..];
    assert a == [a[0]] + a' && b == [b[0]] + b';
    assert a <= b <==> a' <= b';
    forall k: nat | k < |a'| && k < |b'|
      ensures a'[..k] == b'[..k] && a'[k] < b'[k] <==> a[..k + 1] == b[..k + 1] && a[k + 1] < b[k + 1]
    {
      assert a[..k + 1] == [a[0]] + a'[..k] && b[..k + 1] == [b[0]] + b'[..k];
    }
    if k: nat :| k < |a| && k < |b| && a[..k] == b[..k] && a[k] < b[k] {
      assert k > 0;
      assert a[..k - 1 + 1] == b[..k - 1 + 1] && a[k - 1 + 1] < b[k - 1 + 1];
    }
  }

  /** What the order means: `a` is a prefix of `b`, or it has the smaller byte where they first differ. */
  lemma {:induction false} LeqIsByteOrder(a: string, b: string)
    ensures Leq(a, b) <==> ByteOrdered(a, b)
  {
    if a == "" {
    } else if b == "" {
    } else if a[0] == b[0] {
      LeqIsByteOrder(a[1..], b[1..]);
      SameHead(a, b);
    } else {
      if a[0] < b[0] {
        assert a[..0] == b[..0];
      }
      if k: nat :| k < |a| && k < |b| && a[..k] == b[..k] && a[k] < b[k] {
        assert k > 0 ==> a[..k][0] == b[..k][0];
      }
    }
  }

  lemma {:induction false} LeqTotal(a: string, b: string)
    ensures Leq(a, b) || Leq(b, a)
    ensures Leq(a, b) && Leq(b, a) ==> a == b
  {
    if a == "" || b == "" {
    } else if a[0] == b[0] {
      LeqTotal(a[1..], b[1..]);
      assert a == [a[0]] + a[1..] && b == [b[0]] + b[1..];
    }
  }

  lemma {:induction false} LeqTransitive(a: string, b: string, c: string)
    requires Leq(a, b) && Leq(b, c)
    ensures Leq(a, c)
  {
    if a == "" || b == "" || c == "" {
    } else if a[0] == b[0] == c[0] {
      LeqTransitive(a[1..], b[1..], c[1..]);
    }
  }

  predicate Sorted(names: seq<string>) {
    forall i, j :: 0 <= i < j < |names| ==> Leq(names[i], names[j])
  }

  function InsertByName(x: string, names: seq<string>): seq<string> {
    if names == [] || Leq(x, names[0]) then [x] + names else [names[0]] + InsertByName(x, names[1..])
  }

  function Sort(names: seq<string>): seq<string> {
    if names == [] then [] else InsertByName(names[|names| - 1], Sort(names[..|names| - 1]))
  }

  lemma {:induction false} InsertByNameSorts(x: string, names: seq<string>)
    requires Sorted(names)
    ensures Sorted(InsertByName(x, names)) && multiset(InsertByName(x, names)) == multiset(names) + multiset{x}
  {
    if names == [] {
    } else if Leq(x, names[0]) {
      forall i | 0 <= i < |names| ensures Leq(x, names[i]) {
        if i > 0 {
          LeqTransitive(x, names[0], names[i]);
        }
      }
    } else {
      var rest := names[1..];
      assert names == [names[0]] + rest;
      InsertByNameSorts(x, rest);
      LeqTotal(x, names[0]);
      forall y | y in InsertByName(x, rest) ensures Leq(names[0], y) {
        assert y in multiset(InsertByName(x, rest));
        assert y == x || y in rest;
      }
    }
  }

  lemma {:induction false} SortSorts(names: seq<string>)
    ensures Sorted(Sort(names)) && multiset(Sort(names)) == multiset(names)
  {
    if names == [] {
    } else {
      SortSorts(names[..|names| - 1]);
      InsertByNameSorts(names[|names| - 1], Sort(names[..|names| - 1]));
      assert names == names[..|names| - 1] + [names[|names| - 1]];
    }
  }

  // ----- The directory -----------------------------------------------------------------------------------

  datatype Entry = Entry(name: string, isDir: bool)

  const SUFFIX: string := ".up.sql"

  predicate IsMigration(e: Entry) {
    !e.isDir && |e.name| >= |SUFFIX| && e.name[|e.name| - |SUFFIX|..] == SUFFIX
  }

  function Collect(entries: seq<Entry>): seq<string> {
    if entries == [] then []
    else
      var names, e := Collect(entries[..|entries| - 1]), entries[|entries| - 1];
      if IsMigration(e) then names + [e.name] else names
  }

  function Files(entries: seq<Entry>): seq<string> {
    Sort(Collect(entries))
  }

  /** A directory lists every name once. */
  predicate IsDirectory(entries: seq<Entry>) {
    forall i, j :: 0 <= i < j < |entries| ==> entries[i].name != entries[j].name
  }

  lemma {:induction false} DistinctCounts(names: seq<string>, f: string)
    requires Distinct(names)
    ensures multiset(names)[f] <= 1
  {
    if names == [] {
    } else {
      var before, last := names[..|names| - 1], names[|names| - 1];
      assert names == before + [last];
      DistinctCounts(before, f);
      assert last !in multiset(before);
    }
  }

  lemma RepeatCounts(names: seq<string>, i: nat, j: nat)
    requires i < j < |names| && names[i] == names[j]
    ensures multiset(names)[names[i]] >= 2
  {
    assert names == names[..i] + [names[i]] + names[i + 1..j] + [names[j]] + names[j + 1..];
  }

  lemma PermutationKeepsDistinct(a: seq<string>, b: seq<string>)
    requires Distinct(a) && multiset(a) == multiset(b)
    ensures Distinct(b)
  {
    forall i, j | 0 <= i < j < |b| ensures b[i] != b[j] {
      DistinctCounts(a, b[i]);
      if b[i] == b[j] {
        RepeatCounts(b, i, j);
      }
    }
  }

  lemma {:induction false} CollectIsRight(entries: seq<Entry>)
    requires IsDirectory(entries)
    ensures Distinct(Collect(entries))
    ensures forall f :: f in Collect(entries) <==> exists e :: e in entries && IsMigration(e) && e.name == f
  {
    if entries == [] {
    } else {
      var before, last := entries[..|entries| - 1], entries[|entries| - 1];
      assert entries == before + [last];
      CollectIsRight(before);
      assert forall e :: e in before ==> e.name != last.name;
      assert last.name !in Collect(before);
    }
  }

  lemma IsMigrationExactly(e: Entry)
    ensures IsMigration(e) <==> !e.isDir && exists stem :: e.name == stem + ".up.sql"
  {
    if IsMigration(e) {
      assert e.name == e.name[..|e.name| - 7] + ".up.sql";
    }
  }

  /** A run sees exactly the directory's files whose names end in ".up.sql", each once, in byte order. */
  lemma FilesAreTheMigrations(entries: seq<Entry>)
    requires IsDirectory(entries)
    ensures Sorted(Files(entries)) && Distinct(Files(entries))
    ensures forall f :: f in Files(entries) <==> exists e :: e in entries && IsMigration(e) && e.name == f
    ensures forall i, j :: 0 <= i < j < |Files(entries)| ==> ByteOrdered(Files(entries)[i], Files(entries)[j])
    ensures forall f :: f in Files(entries) <==> Entry(f, false) in entries && exists stem :: f == stem + ".up.sql"
  {
    forall i, j | 0 <= i < j < |Files(entries)| ensures Leq(Files(entries)[i], Files(entries)[j]) ==>
        ByteOrdered(Files(entries)[i], Files(entries)[j]) {
      LeqIsByteOrder(Files(entries)[i], Files(entries)[j]);
    }
    forall e | e in entries
      ensures IsMigration(e) <==> !e.isDir && exists stem :: e.name == stem + ".up.sql"
    {
      IsMigrationExactly(e);
    }
    CollectIsRight(entries);
    SortSorts(Collect(entries));
    PermutationKeepsDistinct(Collect(entries), Files(entries));
    assert forall f :: f in Files(entries) <==> f in multiset(Files(entries));
    assert forall f :: f in Collect(entries) <==> f in multiset(Collect(entries));
  }

  lemma FirstIsLeast(names: seq<string>, f: string)
    requires Sorted(names) && f in names
    ensures Leq(names[0], f)
  {
    LeqTotal(f, f);
  }

  lemma {:induction false} SortedListIsUnique(a: seq<string>, b: seq<string>)
    requires Sorted(a) && Sorted(b) && Distinct(a) && Distinct(b)
    requires forall f :: f in a <==> f in b
    ensures a == b
  {
    if a == [] && b == [] {
    } else {
      assert (a != [] ==> a[0] in a) && (b != [] ==> b[0] in b);
      FirstIsLeast(a, b[0]);
      FirstIsLeast(b, a[0]);
      LeqTotal(a[0], b[0]);
      assert a == [a[0]] + a[1..] && b == [b[0]] + b[1..];
      assert a[0] !in a[1..] && b[0] !in b[1..];
      forall f ensures f in a[1..] <==> f in b[1..] {
        assert f in a <==> f in b;
      }
      SortedListIsUnique(a[1..], b[1..]);
    }
  }

  /** So the order of execution depends on nothing but the set of files, however they are listed. */
  lemma OrderDependsOnTheSet(entries: seq<Entry>, others: seq<Entry>)
    requires IsDirectory(entries) && IsDirectory(others)
    requires forall e :: IsMigration(e) ==> (e in entries <==> e in others)
    ensures Files(entries) == Files(others)
  {
    FilesAreTheMigrations(entries);
    FilesAreTheMigrations(others);
    SortedListIsUnique(Files(entries), Files(others));
  }

  // ----- One run -------------------------------------------------------------------------------------------

  /** What happens to a file if a run reaches it. */
  datatype Fate = Fine | ReadFails | ExecFails | RecordFails

  type Fates = string -> Fate

  datatype Db = Db(recorded: set<string>, executed: seq<string>)

  /** The loop of a run over the files, given the names recorded when it started. */
  function Apply(files: seq<string>, applied: set<string>, db: Db, fates: Fates): (Db, bool) {
    if files == [] then (db, true)
    else
      var f := files[0];
      if f in applied then Apply(files[1..], applied, db, fates)
      else match fates(f)
        case ReadFails => (db, false)
        case ExecFails => (db, false)
        case RecordFails => (db.(executed := db.executed + [f]), false)
        case Fine => Apply(files[1..], applied, Db(db.recorded + {f}, db.executed + [f]), fates)
  }

  /** A run; `ready` is false when the bookkeeping table or the directory cannot be read. */
  function RunOnce(files: seq<string>, db: Db, ready: bool, fates: Fates): (Db, bool) {
    if ready then Apply(files, db.recorded, db, fates) else (db, false)
  }

  // ----- What a run executes ----------------------------------------------------------------------------------

  /** The files still to be executed, in order. */
  function Pending(files: seq<string>, recorded: set<string>): seq<string> {
    if files == [] then []
    else if files[0] in recorded then Pending(files[1..], recorded)
    else [files[0]] + Pending(files[1..], recorded)
  }

  /** How many of the pending files go through before the first that does not. */
  function Through(pending: seq<string>, fates: Fates): (n: nat)
    ensures n <= |pending|
  {
    if pending == [] || fates(pending[0]) != Fine then 0 else 1 + Through(pending[1..], fates)
  }

  lemma {:induction false} ThroughBounds(pending: seq<string>, fates: Fates)
    ensures Through(pending, fates) < |pending| ==> fates(pending[Through(pending, fates)]) != Fine
    ensures forall i :: 0 <= i < Through(pending, fates) ==> fates(pending[i]) == Fine
  {
    if pending == [] {
    } else if fates(pending[0]) == Fine {
      ThroughBounds(pending[1..], fates);
    }
  }

  /** The run stopped after executing a file it could not record. */
  predicate Unrecorded(pending: seq<string>, fates: Fates) {
    var n := Through(pending, fates);
    n < |pending| && fates(pending[n]) == RecordFails
  }

  function NewlyExecuted(pending: seq<string>, fates: Fates): seq<string> {
    var n := Through(pending, fates);
    pending[..n] + if Unrecorded(pending, fates) then [pending[n]] else []
  }

  /** A file that goes through in front of others. */
  lemma FineFileFirst(f: string, rest: seq<string>, fates: Fates)
    requires fates(f) == Fine
    ensures var pending, n := [f] + rest, Through(rest, fates);
            && Through(pending, fates) == n + 1
            && NewlyExecuted(pending, fates) == [f] + NewlyExecuted(rest, fates)
            && Elements(pending[..n + 1]) == {f} + Elements(rest[..n])
  {
    var pending, n := [f] + rest, Through(rest, fates);
    assert pending[1..] == rest;
    assert pending[..n + 1] == [f] + rest[..n];
  }

  /** From `db` to `db'` the pending files were executed up to the first failure, and those that went
      through were recorded. */
  predicate RanPrefix(pending: seq<string>, db: Db, db': Db, fates: Fates) {
    && db'.executed == db.executed + NewlyExecuted(pending, fates)
    && db'.recorded == db.recorded + Elements(pending[..Through(pending, fates)])
  }

  lemma RanPrefixAfter(f: string, rest: seq<string>, db: Db, after: Db, db': Db, fates: Fates)
    requires fates(f) == Fine && after == Db(db.recorded + {f}, db.executed + [f])
    requires RanPrefix(rest, after, db', fates)
    ensures RanPrefix([f] + rest, db, db', fates) && Through([f] + rest, fates) == Through(rest, fates) + 1
  {
    FineFileFirst(f, rest, fates);
    assert after.executed + NewlyExecuted(rest, fates) == db.executed + ([f] + NewlyExecuted(rest, fates));
  }

  /** A run executes the pending files in order up to the first failure, and records those that went
      through; it succeeds exactly when all of them do. */
  lemma {:induction false} ApplyRunsPrefix(files: seq<string>, applied: set<string>, db: Db, fates: Fates)
    ensures var pending := Pending(files, applied);
            var (db', ok) := Apply(files, applied, db, fates);
            && (ok <==> Through(pending, fates) == |pending|)
            && RanPrefix(pending, db, db', fates)
  {
    if files == [] {
      assert Elements<string>([]) == {};
    } else if files[0] in applied {
      ApplyRunsPrefix(files[1..], applied, db, fates);
    } else if fates(files[0]) == Fine {
      var f, rest := files[0], Pending(files[1..], applied);
      var after := Db(db.recorded + {f}, db.executed + [f]);
      ApplyRunsPrefix(files[1..], applied, after, fates);
      assert Pending(files, applied) == [f] + rest;
      assert Apply(files, applied, db, fates) == Apply(files[1..], applied, after, fates);
      RanPrefixAfter(f, rest, db, after, Apply(files, applied, db, fates).0, fates);
    } else {
      assert Elements(Pending(files, applied)[..0]) == {};
    }
  }

  // ----- Runs one after another ---------------------------------------------------------------------------------

  lemma {:induction false} PendingIsUnrecorded(files: seq<string>, recorded: set<string>)
    requires Distinct(files)
    ensures Distinct(Pending(files, recorded))
    ensures forall f :: f in Pending(files, recorded) <==> f in files && f !in recorded
  {
    if files == [] {
    } else {
      assert files == [files[0]] + files[1..];
      PendingIsUnrecorded(files[1..], recorded);
      assert files[0] !in files[1..];
    }
  }

  lemma {:induction false} PendingIgnoresOthers(files: seq<string>, recorded: set<string>, f: string)
    requires f !in files
    ensures Pending(files, recorded + {f}) == Pending(files, recorded)
  {
    if files == [] {
    } else {
      assert files[0] in files;
      PendingIgnoresOthers(files[1..], recorded, f);
    }
  }

  lemma PrefixElements(f: string, rest: seq<string>, n: nat)
    requires 0 < n <= |rest| + 1
    ensures ([f] + rest)[n..] == rest[n - 1..]
    ensures Elements(([f] + rest)[..n]) == Elements(rest[..n - 1]) + {f}
  {
    assert ([f] + rest)[..n] == [f] + rest[..n - 1];
  }

  /** Recording the first pending files leaves the others pending, in the same order. */
  lemma {:induction false} PendingAfterPrefix(files: seq<string>, recorded: set<string>, n: nat)
    requires Distinct(files) && n <= |Pending(files, recorded)|
    ensures Pending(files, recorded + Elements(Pending(files, recorded)[..n])) == Pending(files, recorded)[n..]
  {
    var pending := Pending(files, recorded);
    if n == 0 {
      assert recorded + Elements(pending[..0]) == recorded;
    } else if files[0] in recorded {
      PendingAfterPrefix(files[1..], recorded, n);
    } else {
      var f, rest := files[0], Pending(files[1..], recorded);
      PendingAfterPrefix(files[1..], recorded, n - 1);
      assert pending == [f] + rest;
      PrefixElements(f, rest, n);
      assert recorded + Elements(pending[..n]) == recorded + Elements(rest[..n - 1]) + {f};
      PendingIgnoresOthers(files[1..], recorded + Elements(rest[..n - 1]), f);
    }
  }

  /** One invocation of the runner. */
  datatype Attempt = Attempt(ready: bool, fates: Fates)

  function Runs(files: seq<string>, db: Db, attempts: seq<Attempt>): Db
    decreases |attempts|
  {
    if attempts == [] then db
    else Runs(files, RunOnce(files, db, attempts[0].ready, attempts[0].fates).0, attempts[1..])
  }

  predicate LastSucceeds(files: seq<string>, db: Db, attempts: seq<Attempt>)
    decreases |attempts|
  {
    attempts != [] &&
    var (db', ok) := RunOnce(files, db, attempts[0].ready, attempts[0].fates);
    if |attempts| == 1 then ok else LastSucceeds(files, db', attempts[1..])
  }

  /** How many of the attempts executed a file and failed to record it. */
  function LostRecords(files: seq<string>, db: Db, attempts: seq<Attempt>): nat
    decreases |attempts|
  {
    if attempts == [] then 0
    else
      var a := attempts[0];
      LostRecord(Pending(files, db.recorded), a) +
      LostRecords(files, RunOnce(files, db, a.ready, a.fates).0, attempts[1..])
  }

  /** Whether an attempt executed a file and failed to record it. */
  function LostRecord(pending: seq<string>, a: Attempt): nat {
    if a.ready && Unrecorded(pending, a.fates) then 1 else 0
  }

  /** What one attempt does, in terms of what is pending: `n` files go through. */
  lemma OneAttempt(files: seq<string>, db: Db, a: Attempt)
    returns (n: nat, newly: seq<string>)
    requires Distinct(files)
    ensures var pending := Pending(files, db.recorded);
            var (db', ok) := RunOnce(files, db, a.ready, a.fates);
            && n <= |pending| && Pending(files, db'.recorded) == pending[n..]
            && (ok <==> a.ready && n == |pending|) && (ok ==> LostRecord(pending, a) == 0)
            && db'.executed == db.executed + newly
            && |newly| == n + LostRecord(pending, a)
            && (LostRecord(pending, a) == 0 ==> newly == pending[..n])
            && db'.recorded == db.recorded + Elements(pending[..n])
  {
    n, newly := 0, [];
    assert Elements(Pending(files, db.recorded)[..0]) == {};
    if a.ready {
      var pending := Pending(files, db.recorded);
      n, newly := Through(pending, a.fates), NewlyExecuted(pending, a.fates);
      ApplyRunsPrefix(files, db.recorded, db, a.fates);
      PendingAfterPrefix(files, db.recorded, n);
    }
  }

  /** The log after one attempt and the rest of the attempts, put together. */
  lemma LogsAddUp(
    before: seq<string>, pending: seq<string>, n: nat, newly: seq<string>, lost: nat, after: seq<string>,
    lostLater: nat)
    requires n <= |pending| && |newly| == n + lost && (lost == 0 ==> newly == pending[..n])
    requires |after| == |before + newly| + |pending[n..]| + lostLater
    requires after == before + newly + pending[n..] <==> lostLater == 0
    ensures |after| == |before| + |pending| + lost + lostLater
    ensures after == before + pending <==> lost + lostLater == 0
  {
    assert pending == pending[..n] + pending[n..];
    assert before + (pending[..n] + pending[n..]) == before + pending[..n] + pending[n..];
  }

  /** Any number of attempts of which the last succeeds: afterwards nothing is pending; the files that
      were pending have been executed, once each and in name order, as one uninterrupted run would
      have, exactly when no attempt failed between executing a file and recording it; and every such
      failure costs one repeated execution. */
  lemma {:induction false} InterruptedRunsAddUp(files: seq<string>, db: Db, attempts: seq<Attempt>)
    requires Distinct(files) && LastSucceeds(files, db, attempts)
    ensures var pending, db' := Pending(files, db.recorded), Runs(files, db, attempts);
            && Pending(files, db'.recorded) == []
            && (db'.executed == db.executed + pending <==> LostRecords(files, db, attempts) == 0)
            && |db'.executed| == |db.executed| + |pending| + LostRecords(files, db, attempts)
    decreases |attempts|
  {
    var a, pending := attempts[0], Pending(files, db.recorded);
    var n, newly := OneAttempt(files, db, a);
    var db1 := RunOnce(files, db, a.ready, a.fates).0;
    if |attempts| == 1 {
      assert attempts[1..] == [];
      LogsAddUp(db.executed, pending, n, newly, LostRecord(pending, a), db1.executed, 0);
    } else {
      InterruptedRunsAddUp(files, db1, attempts[1..]);
      LogsAddUp(db.executed, pending, n, newly, LostRecord(pending, a),
                Runs(files, db1, attempts[1..]).executed, LostRecords(files, db1, attempts[1..]));
    }
  }

  /** One file whose record fails the first time is executed twice. */
  lemma LostRecordRunsTwice(f: string, failing: Fates, fine: Fates)
    requires failing(f) == RecordFails && fine(f) == Fine
    ensures var attempts := [Attempt(true, failing), Attempt(true, fine)];
            && LastSucceeds([f], Db({}, []), attempts)
            && Runs([f], Db({}, []), attempts).executed == [f, f]
  {
    var files, attempts := [f], [Attempt(true, failing), Attempt(true, fine)];
    assert files[1..] == [] && attempts[1..] == [Attempt(true, fine)] && attempts[1..][1..] == [];
    assert [] + [f] == [f];
    assert RunOnce(files, Db({}, []), true, failing) == (Db({}, [f]), false);
    assert Apply(files[1..], {}, Db({f}, [f, f]), fine) == (Db({f}, [f, f]), true);
    assert RunOnce(files, Db({}, [f]), true, fine) == (Db({f}, [f, f]), true) by {
      assert [f] + [f] == [f, f] && {} + {f} == {f};
    }
    assert Runs(files, Db({f}, [f, f]), []) == Db({f}, [f, f]);
  }

  /** After a success every file is recorded, and another run executes nothing, whatever would fail. */
  lemma SecondRunIsIdle(files: seq<string>, db: Db, fates: Fates, again: Fates)
    requires Distinct(files) && RunOnce(files, db, true, fates).1
    ensures var db' := RunOnce(files, db, true, fates).0;
            && (forall f :: f in files ==> f in db'.recorded)
            && RunOnce(files, db', true, again) == (db', true)
  {
    var db' := RunOnce(files, db, true, fates).0;
    var n, newly := OneAttempt(files, db, Attempt(true, fates));
    PendingIsUnrecorded(files, db'.recorded);
    var n', newly' := OneAttempt(files, db', Attempt(true, again));
    var (db'', ok) := RunOnce(files, db', true, again);
    assert Elements<string>([]) == {};
    assert db''.recorded == db'.recorded && db''.executed == db'.executed;
  }
}

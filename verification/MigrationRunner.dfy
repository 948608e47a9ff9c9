/** The runner's loops over a database kept between runs. */
module MigrationRunner {
  import opened Migrations

  class Runner {
    var recorded: set<string>  // the schema_migrations table
    ghost var executed: seq<string>  // every migration ever executed, in order

    ghost function Current(): Db
      reads this
    {
      Db(recorded, executed)
    }

    constructor ()
      ensures Current() == Db({}, [])
    {
      recorded, executed := {}, [];
    }

    method CollectFiles(entries: seq<Entry>) returns (files: seq<string>)
      ensures files == Files(entries)
    {
      files := [];
      for i := 0 to |entries|
        invariant files == Collect(entries[..i])
      {
        assert entries[..i + 1][..i] == entries[..i];
        if IsMigration(entries[i]) {
          files := files + [entries[i].name];
        }
      }
      assert entries[..|entries|] == entries;
      files := Sort(files);
    }

    /** Scans the rows of the bookkeeping table, in whatever order they come. */
    method LoadApplied() returns (applied: set<string>)
      ensures applied == recorded
    {
      applied := {};
      var rows := recorded;
      while rows != {}
        invariant rows <= recorded && applied == recorded - rows
        decreases rows
      {
        var name :| name in rows;
        rows, applied := rows - {name}, applied + {name};
      }
    }

    /** The run. `ready` is false when creating the bookkeeping table, listing the directory or
        reading the table fails. */
    method RunMigrations(entries: seq<Entry>, ready: bool, fates: Fates) returns (ok: bool)
      requires IsDirectory(entries)
      modifies this
      ensures (Current(), ok) == RunOnce(Files(entries), old(Current()), ready, fates)
      ensures ok ==> forall e :: e in entries && IsMigration(e) ==> e.name in recorded
    {
      if !ready {
        return false;
      }
      var files := CollectFiles(entries);
      FilesAreTheMigrations(entries);
      PendingIsUnrecorded(files, recorded);
      var applied := LoadApplied();
      ghost var n, newly := OneAttempt(files, Current(), Attempt(true, fates));
      ghost var goal := Apply(files, applied, Current(), fates);
      for i := 0 to |files|
        invariant Apply(files[i..], applied, Current(), fates) == goal
      {
        if files[i] in applied {
          continue;
        }
        match fates(files[i])
        case ReadFails => return false;
        case ExecFails => return false;
        case RecordFails =>
          executed := executed + [files[i]];
          return false;
        case Fine =>
          executed := executed + [files[i]];
          recorded := recorded + {files[i]};
      }
      PendingIsUnrecorded(files, recorded);
      return true;
    }
  }
}

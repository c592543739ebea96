/** The pgsql connection as operations on the three tables it reaches: jobs (name -> document),
    logs (rows in id order) and locks (a set of keys). Each method performs the effect of its
    SQL statements; the outcome of each external call (json.Marshal, pool.Exec, Begin, Commit,
    Query, Scan) is a parameter, since whether the database answers is not this code's decision. */
module Connection {
  import opened Common
  import opened Documents
  import opened Tables
  import Settings

  /** Where Remove's transaction stops when the database refuses a step. */
  datatype TxFault = NoFault | BeginFails | DeleteJobFails | DeleteLogsFails | CommitFails

  class PgsqlConnection {
    const config: Settings.Config
    var jobs: map<string, JobDoc>
    var logs: seq<LogRow>
    /** The next value of the logs.id BIGSERIAL sequence. */
    var nextId: int
    var locks: set<string>

    /** The logs table is kept in insertion order, which is ascending id order,
        and every id is below the sequence's next value. */
    predicate Valid()
      reads this
    {
      IdsAscending(logs) && IdsBelow(logs, nextId)
    }

    /** Connection(inst): resolves the configuration; the tables are whatever the database holds. */
    constructor (setting: Settings.Setting, jobs0: map<string, JobDoc>, logs0: seq<LogRow>,
                 nextId0: int, locks0: set<string>)
      requires IdsAscending(logs0) && IdsBelow(logs0, nextId0)
      ensures Valid()
      ensures config == Settings.ResolveConfig(setting)
      ensures jobs == jobs0 && logs == logs0 && nextId == nextId0 && locks == locks0
    {
      config := Settings.ResolveConfig(setting);
      jobs, logs, nextId, locks := jobs0, logs0, nextId0, locks0;
    }

    /** Add: names the job, marshals it and upserts the row. */
    method Add(name: string, job: Job, encodeOk: bool, execOk: bool) returns (err: Option<Error>)
      requires Valid()
      modifies this
      ensures Valid()
      ensures err == (if !encodeOk then Some(EncodeError) else if !execOk then Some(DbError) else None)
      ensures jobs == (if err.None? then old(jobs)[name := EncodeJob(job.(name := name))] else old(jobs))
      ensures logs == old(logs) && nextId == old(nextId) && locks == old(locks)
    {
      var named := job.(name := name);
      if !encodeOk {
        return Some(EncodeError);
      }
      var data := EncodeJob(named);
      if !execOk {
        return Some(DbError);
      }
      jobs := jobs[name := data];
      err := None;
    }

    /** The UPDATE shared by Enable and Disable: patch `disabled` in the row named `name`, if any. */
    method SetFlag(name: string, v: bool, execOk: bool) returns (err: Option<Error>)
      requires Valid()
      modifies this
      ensures Valid()
      ensures err == (if execOk then None else Some(DbError))
      ensures jobs == (if execOk && name in old(jobs) then old(jobs)[name := SetDisabled(old(jobs)[name], v)]
                       else old(jobs))
      ensures logs == old(logs) && nextId == old(nextId) && locks == old(locks)
    {
      if !execOk {
        return Some(DbError);
      }
      if name in jobs {
        jobs := jobs[name := SetDisabled(jobs[name], v)];
      }
      err := None;
    }

    /** Enable: `disabled` becomes false; an unknown name updates no row and is not an error. */
    method Enable(name: string, execOk: bool) returns (err: Option<Error>)
      requires Valid()
      modifies this
      ensures Valid()
      ensures err == (if execOk then None else Some(DbError))
      ensures jobs == (if execOk && name in old(jobs) then old(jobs)[name := SetDisabled(old(jobs)[name], false)]
                       else old(jobs))
      ensures logs == old(logs) && nextId == old(nextId) && locks == old(locks)
    {
      err := SetFlag(name, false, execOk);
    }

    /** Disable: `disabled` becomes true; an unknown name updates no row and is not an error. */
    method Disable(name: string, execOk: bool) returns (err: Option<Error>)
      requires Valid()
      modifies this
      ensures Valid()
      ensures err == (if execOk then None else Some(DbError))
      ensures jobs == (if execOk && name in old(jobs) then old(jobs)[name := SetDisabled(old(jobs)[name], true)]
                       else old(jobs))
      ensures logs == old(logs) && nextId == old(nextId) && locks == old(locks)
    {
      err := SetFlag(name, true, execOk);
    }

    /** Remove: in one transaction delete the job row, then its logs; any failed step rolls both back. */
    method Remove(name: string, fault: TxFault) returns (err: Option<Error>)
      requires Valid()
      modifies this
      ensures Valid()
      ensures err == (if fault == NoFault then None else Some(DbError))
      ensures jobs == (if fault == NoFault then old(jobs) - {name} else old(jobs))
      ensures logs == (if fault == NoFault then OtherRows(old(logs), name) else old(logs))
      ensures nextId == old(nextId) && locks == old(locks)
    {
      if fault == BeginFails {
        return Some(DbError);
      }
      // the transaction's own view of the two tables, published only at commit
      var txJobs := jobs - {name};
      if fault == DeleteJobFails {
        return Some(DbError);
      }
      var txLogs := OtherRows(logs, name);
      if fault == DeleteLogsFails {
        return Some(DbError);
      }
      if fault == CommitFails {
        return Some(DbError);
      }
      OtherRowsAscending(logs, name);
      OtherRowsMembers(logs, name);
      jobs, logs := txJobs, txLogs;
      err := None;
    }

    /** List: reads every row and keeps those that decode, keyed by row name with Name overwritten.
        A failed query, or a failed Scan of a row, returns no map and the error. */
    method List(queryOk: bool, scanOk: bool) returns (out: map<string, Job>, err: Option<Error>)
      requires Valid()
      ensures err == (if !queryOk || (!scanOk && jobs != map[]) then Some(DbError) else None)
      ensures out == (if err.None? then ListView(jobs) else map[])
    {
      if !queryOk {
        return map[], Some(DbError);
      }
      out := map[];
      var pending := jobs.Keys;
      while pending != {}
        invariant pending <= jobs.Keys
        invariant scanOk || pending == jobs.Keys
        invariant forall k :: k in out <==> k in jobs && k !in pending && Listed(k, jobs[k]).Some?
        invariant forall k :: k in out ==> out[k] == Listed(k, jobs[k]).value
        decreases pending
      {
        var name :| name in pending;
        if !scanOk {
          return map[], Some(DbError);
        }
        var job := DecodeJob(jobs[name]);
        if job.Some? {
          out := out[name := job.value.(name := name)];
        }
        pending := pending - {name};
      }
      err := None;
    }

    /** AppendLog: marshals the log and inserts it under the sequence's next id. */
    method AppendLog(log: Log, encodeOk: bool, execOk: bool) returns (err: Option<Error>)
      requires Valid()
      modifies this
      ensures Valid()
      ensures err == (if !encodeOk then Some(EncodeError) else if !execOk then Some(DbError) else None)
      ensures logs == (if err.None? then old(logs) + [LogRow(old(nextId), log.job, EncodeLog(log))] else old(logs))
      ensures nextId == (if err.None? then old(nextId) + 1 else old(nextId))
      ensures jobs == old(jobs) && locks == old(locks)
    {
      if !encodeOk {
        return Some(EncodeError);
      }
      var data := EncodeLog(log);
      if !execOk {
        return Some(DbError);
      }
      logs := logs + [LogRow(nextId, log.job, data)];
      nextId := nextId + 1;
      err := None;
    }

    /** History's `for rows.Next()` loop: Scan each row, skip the rows that do not unmarshal,
        and give up on the first failed Scan. */
    static method ScanRows(rows: seq<LogRow>, scanOk: bool) returns (page: seq<Log>, ok: bool)
      ensures ok <==> scanOk || rows == []
      ensures ok ==> page == DecodeLogs(rows)
    {
      page := [];
      var i := 0;
      while i < |rows|
        invariant 0 <= i <= |rows|
        invariant page == DecodeLogs(rows[..i])
        invariant scanOk || i == 0
      {
        if !scanOk {
          return [], false;
        }
        var item := DecodeLog(rows[i].data);
        assert rows[..i + 1][..i] == rows[..i];
        if item.Some? {
          page := page + [item.value];
        }
        i := i + 1;
      }
      assert rows[..i] == rows;
      ok := true;
    }

    /** Whether one of History's calls fails: the count query, or, when the job has logs,
        the page query or the Scan of a row of a non-empty page. */
    predicate HistoryFails(jobName: string, offset: int, limit: int, countOk: bool, queryOk: bool, scanOk: bool)
      reads this
    {
      || !countOk
      || (|JobRows(logs, jobName)| > 0 &&
            (!queryOk || (!scanOk && PageRows(logs, jobName, offset, limit) != [])))
    }

    /** History: the count query, then the page query, decoding each row and skipping those that
        do not decode. A failed query or a failed Scan of a row returns (0, [], error). */
    method History(jobName: string, offset: int, limit: int, countOk: bool, queryOk: bool, scanOk: bool)
      returns (total: int, page: seq<Log>, err: Option<Error>)
      requires Valid()
      ensures err.Some? <==> HistoryFails(jobName, offset, limit, countOk, queryOk, scanOk)
      ensures err.Some? ==> err == Some(DbError) && total == 0 && page == []
      ensures err.None? ==> (page, total) == HistoryView(logs, jobName, offset, limit)
    {
      if !countOk {
        return 0, [], Some(DbError);
      }
      total := |JobRows(logs, jobName)|;
      if total == 0 {
        return 0, [], None;
      }
      var off := if offset < 0 then 0 else offset;
      var lim := if limit <= 0 then total else limit;
      if !queryOk {
        return 0, [], Some(DbError);
      }
      var rows := Window(NewestFirst(JobRows(logs, jobName)), off, lim);
      assert rows == PageRows(logs, jobName, offset, limit);
      var ok;
      page, ok := ScanRows(rows, scanOk);
      if !ok {
        return 0, [], Some(DbError);
      }
      err := None;
    }

    /** Lock: inserts the key unless it is already there; `ttl` plays no part. */
    method Lock(key: string, ttl: int, queryOk: bool) returns (acquired: bool, err: Option<Error>)
      requires Valid()
      modifies this
      ensures Valid()
      ensures err == (if queryOk then None else Some(DbError))
      ensures acquired <==> queryOk && key !in old(locks)
      ensures locks == (if queryOk then old(locks) + {key} else old(locks))
      ensures jobs == old(jobs) && logs == old(logs) && nextId == old(nextId)
    {
      if !queryOk {
        return false, Some(DbError);
      }
      var step := LockStep(locks, key);
      acquired, locks := step.0, step.1;
      err := None;
    }
  }
}

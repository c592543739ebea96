/** What the SQL statements of the connection compute over the three tables, as functions:
    the jobs view List returns, the job filter and the page History reads, the rows Remove
    keeps, and the insert-once rule of Lock. */
module Tables {
  import opened Common
  import opened Documents

  /** A row of the logs table; `id` is the BIGSERIAL key. */
  datatype LogRow = LogRow(id: int, job: string, data: LogDoc)

  /** Rows in the order they were inserted carry strictly increasing ids. */
  predicate IdsAscending(rows: seq<LogRow>) {
    forall i, j :: 0 <= i < j < |rows| ==> rows[i].id < rows[j].id
  }

  predicate IdsDescending(rows: seq<LogRow>) {
    forall i, j :: 0 <= i < j < |rows| ==> rows[i].id > rows[j].id
  }

  /** Every id is below the next value of the id sequence. */
  predicate IdsBelow(rows: seq<LogRow>, next: int) {
    forall i :: 0 <= i < |rows| ==> rows[i].id < next
  }

  // ---------------------------------------------------------------- jobs

  /** One row of `SELECT name, data` as List keeps it: decoded, with Name overwritten by the row key. */
  function Listed(key: string, d: JobDoc): (r: Option<Job>)
    ensures r.Some? <==> JobDecodes(d)
    ensures r.Some? ==> r.value == DecodeJob(d).value.(name := key)
  {
    match DecodeJob(d)
    case Some(j) => Some(j.(name := key))
    case None => None
  }

  /** The map List returns for a jobs table. */
  function ListView(jobs: map<string, JobDoc>): (out: map<string, Job>)
    ensures forall k :: k in out <==> k in jobs && JobDecodes(jobs[k])
    ensures forall k :: k in out ==> out[k] == DecodeJob(jobs[k]).value.(name := k)
    ensures forall k :: k in out ==> out[k].name == k
  {
    map k | k in jobs && Listed(k, jobs[k]).Some? :: Listed(k, jobs[k]).value
  }

  /** After an upsert of `job` under `name`, List returns `job` under `name` (named `name`)
      and every other entry as before. */
  lemma ListAfterUpsert(jobs: map<string, JobDoc>, name: string, job: Job)
    ensures var out := ListView(jobs[name := EncodeJob(job.(name := name))]);
      && name in out && out[name] == job.(name := name)
      && (forall k :: k != name ==> (k in out <==> k in ListView(jobs)))
      && (forall k :: k != name && k in out ==> out[k] == ListView(jobs)[k])
  {
  }

  /** Two upserts under one name: List shows only the second document. */
  lemma ListAfterTwoUpserts(jobs: map<string, JobDoc>, name: string, first: Job, second: Job)
    ensures ListView(jobs[name := EncodeJob(first.(name := name))][name := EncodeJob(second.(name := name))])
            == ListView(jobs[name := EncodeJob(second.(name := name))])
  {
    var a := jobs[name := EncodeJob(first.(name := name))][name := EncodeJob(second.(name := name))];
    assert a == jobs[name := EncodeJob(second.(name := name))];
  }

  /** After Remove's first delete, List no longer returns the job and returns every other one as before. */
  lemma ListAfterDelete(jobs: map<string, JobDoc>, name: string)
    ensures name !in ListView(jobs - {name})
    ensures forall k :: k != name ==> (k in ListView(jobs - {name}) <==> k in ListView(jobs))
    ensures forall k :: k != name && k in ListView(jobs) ==> ListView(jobs - {name})[k] == ListView(jobs)[k]
  {
  }

  // ---------------------------------------------------------------- logs

  /** `WHERE job = $1`, in id order. */
  function JobRows(rows: seq<LogRow>, job: string): (r: seq<LogRow>)
    ensures |r| <= |rows|
    ensures forall i :: 0 <= i < |r| ==> r[i].job == job
  {
    if rows == [] then []
    else JobRows(rows[..|rows| - 1], job) + (if rows[|rows| - 1].job == job then [rows[|rows| - 1]] else [])
  }

  /** `DELETE FROM logs WHERE job = $1`: the rows that stay, in their order. */
  function OtherRows(rows: seq<LogRow>, job: string): (r: seq<LogRow>)
    ensures |r| <= |rows|
    ensures forall i :: 0 <= i < |r| ==> r[i].job != job
  {
    if rows == [] then []
    else OtherRows(rows[..|rows| - 1], job) + (if rows[|rows| - 1].job != job then [rows[|rows| - 1]] else [])
  }

  /** The job's rows are exactly the rows that belong to it. */
  lemma {:induction false} JobRowsMembers(rows: seq<LogRow>, job: string)
    ensures forall x :: x in JobRows(rows, job) <==> x in rows && x.job == job
  {
    if rows != [] {
      var init := rows[..|rows| - 1];
      JobRowsMembers(init, job);
      assert rows == init + [rows[|rows| - 1]];
    }
  }

  /** The rows the delete keeps are exactly the rows of other jobs. */
  lemma {:induction false} OtherRowsMembers(rows: seq<LogRow>, job: string)
    ensures forall x :: x in OtherRows(rows, job) <==> x in rows && x.job != job
  {
    if rows != [] {
      var init := rows[..|rows| - 1];
      OtherRowsMembers(init, job);
      assert rows == init + [rows[|rows| - 1]];
    }
  }

  /** Keeping a part of the rows in order keeps the ids ascending. */
  lemma {:induction false} JobRowsAscending(rows: seq<LogRow>, job: string)
    requires IdsAscending(rows)
    ensures IdsAscending(JobRows(rows, job))
  {
    if rows != [] {
      var init := rows[..|rows| - 1];
      assert IdsAscending(init);
      JobRowsAscending(init, job);
      JobRowsMembers(init, job);
      var last := rows[|rows| - 1];
      forall x | x in JobRows(init, job) ensures x.id < last.id {
        var i :| 0 <= i < |init| && init[i] == x;
      }
    }
  }

  lemma {:induction false} OtherRowsAscending(rows: seq<LogRow>, job: string)
    requires IdsAscending(rows)
    ensures IdsAscending(OtherRows(rows, job))
  {
    if rows != [] {
      var init := rows[..|rows| - 1];
      assert IdsAscending(init);
      OtherRowsAscending(init, job);
      OtherRowsMembers(init, job);
      var last := rows[|rows| - 1];
      forall x | x in OtherRows(init, job) ensures x.id < last.id {
        var i :| 0 <= i < |init| && init[i] == x;
      }
    }
  }

  /** After the delete no row of the job is left. */
  lemma {:induction false} OtherRowsLeaveNone(rows: seq<LogRow>, job: string)
    ensures JobRows(OtherRows(rows, job), job) == []
  {
    NoJobRows(OtherRows(rows, job), job);
  }

  /** Rows none of which belongs to the job have no rows of the job. */
  lemma {:induction false} NoJobRows(rows: seq<LogRow>, job: string)
    requires forall i :: 0 <= i < |rows| ==> rows[i].job != job
    ensures JobRows(rows, job) == []
  {
    if rows != [] {
      NoJobRows(rows[..|rows| - 1], job);
    }
  }

  /** The delete leaves every other job's rows exactly as they were, in the same order. */
  lemma {:induction false} OtherRowsKeepOthers(rows: seq<LogRow>, job: string, other: string)
    requires other != job
    ensures JobRows(OtherRows(rows, job), other) == JobRows(rows, other)
  {
    if rows != [] {
      var init := rows[..|rows| - 1];
      var last := rows[|rows| - 1];
      OtherRowsKeepOthers(init, job, other);
      var kept := OtherRows(init, job);
      if last.job != job {
        assert OtherRows(rows, job) == kept + [last];
        assert (kept + [last])[..|kept + [last]| - 1] == kept;
      } else {
        assert OtherRows(rows, job) == kept;
      }
    }
  }

  /** The rows in reverse order: `ORDER BY id DESC` over rows whose ids ascend. */
  function NewestFirst<T>(rows: seq<T>): (r: seq<T>)
    ensures |r| == |rows|
    ensures forall i :: 0 <= i < |r| ==> r[i] == rows[|rows| - 1 - i]
  {
    if rows == [] then [] else [rows[|rows| - 1]] + NewestFirst(rows[..|rows| - 1])
  }

  lemma NewestFirstDescending(rows: seq<LogRow>)
    requires IdsAscending(rows)
    ensures IdsDescending(NewestFirst(rows))
  {
  }

  /** `OFFSET off LIMIT lim` over a sequence. */
  function Window<T>(s: seq<T>, off: nat, lim: nat): (r: seq<T>)
    ensures |r| == (if off >= |s| then 0 else if lim < |s| - off then lim else |s| - off)
    ensures forall i :: 0 <= i < |r| ==> r[i] == s[off + i]
  {
    var from := if off < |s| then off else |s|;
    var to := if off + lim < |s| then off + lim else |s|;
    s[from..to]
  }

  /** History's clamping of its arguments: a negative offset reads as 0. */
  function ClampOffset(offset: int): nat {
    if offset < 0 then 0 else offset
  }

  /** History's clamping of its arguments: a limit of 0 or less reads as the total. */
  function ClampLimit(limit: int, total: nat): nat {
    if limit <= 0 then total else limit
  }

  /** The rows of the page query `WHERE job = $1 ORDER BY id DESC OFFSET $2 LIMIT $3`. */
  function PageRows(rows: seq<LogRow>, job: string, offset: int, limit: int): seq<LogRow> {
    var mine := JobRows(rows, job);
    Window(NewestFirst(mine), ClampOffset(offset), ClampLimit(limit, |mine|))
  }

  /** The decode loop of History: rows whose data does not unmarshal are skipped. */
  function DecodeLogs(rows: seq<LogRow>): (r: seq<Log>)
    ensures |r| <= |rows|
    ensures (forall i :: 0 <= i < |rows| ==> rows[i].data.body.decodes) ==>
              |r| == |rows| && forall i :: 0 <= i < |r| ==> r[i] == DecodeLog(rows[i].data).value
  {
    if rows == [] then []
    else
      var last := rows[|rows| - 1];
      DecodeLogs(rows[..|rows| - 1]) + (match DecodeLog(last.data) case Some(l) => [l] case None => [])
  }

  /** What History returns on success: the job's total row count, and the decoded page. */
  function HistoryView(rows: seq<LogRow>, job: string, offset: int, limit: int): (seq<Log>, nat) {
    (DecodeLogs(PageRows(rows, job, offset, limit)), |JobRows(rows, job)|)
  }

  /** A window of rows taken newest first runs in descending id order. */
  lemma WindowNewestFirst(rows: seq<LogRow>, off: nat, lim: nat)
    requires IdsAscending(rows)
    ensures IdsDescending(Window(NewestFirst(rows), off, lim))
    ensures |Window(NewestFirst(rows), off, lim)| <= lim
  {
    var desc := NewestFirst(rows);
    NewestFirstDescending(rows);
    var page := Window(desc, off, lim);
    forall i, j | 0 <= i < j < |page| ensures page[i].id > page[j].id {
      assert page[i] == desc[off + i] && page[j] == desc[off + j];
    }
  }

  /** A window of rows taken newest first reads the rows backwards from `off`. */
  lemma WindowNewestFirstAt(rows: seq<LogRow>, off: nat, lim: nat, i: nat)
    requires i < |Window(NewestFirst(rows), off, lim)|
    ensures off + i < |rows| && Window(NewestFirst(rows), off, lim)[i] == rows[|rows| - 1 - off - i]
  {
    var desc := NewestFirst(rows);
    assert Window(desc, off, lim)[i] == desc[off + i];
  }

  /** The page is newest first and holds at most `limit` rows, or all of them when limit <= 0. */
  lemma HistoryPageOrder(rows: seq<LogRow>, job: string, offset: int, limit: int)
    requires IdsAscending(rows)
    ensures IdsDescending(PageRows(rows, job, offset, limit))
    ensures |PageRows(rows, job, offset, limit)| <= ClampLimit(limit, |JobRows(rows, job)|)
  {
    var mine := JobRows(rows, job);
    JobRowsAscending(rows, job);
    WindowNewestFirst(mine, ClampOffset(offset), ClampLimit(limit, |mine|));
  }

  /** The page's i-th row is the job's row `offset + i` places from the newest, so it belongs to the job. */
  lemma HistoryPageAt(rows: seq<LogRow>, job: string, offset: int, limit: int, i: nat)
    requires i < |PageRows(rows, job, offset, limit)|
    ensures ClampOffset(offset) + i < |JobRows(rows, job)|
    ensures PageRows(rows, job, offset, limit)[i] == JobRows(rows, job)[|JobRows(rows, job)| - 1 - ClampOffset(offset) - i]
    ensures PageRows(rows, job, offset, limit)[i].job == job
  {
    var mine := JobRows(rows, job);
    var off, lim := ClampOffset(offset), ClampLimit(limit, |mine|);
    assert PageRows(rows, job, offset, limit) == Window(NewestFirst(mine), off, lim);
    WindowNewestFirstAt(mine, off, lim, i);
  }

  /** Every row that decodes contributes its log, and every log comes from a row that decodes. */
  lemma {:induction false} DecodeLogsMembers(rows: seq<LogRow>)
    ensures forall i :: 0 <= i < |rows| && rows[i].data.body.decodes ==> DecodeLog(rows[i].data).value in DecodeLogs(rows)
    ensures forall l :: l in DecodeLogs(rows) ==> exists i :: 0 <= i < |rows| && DecodeLog(rows[i].data) == Some(l)
  {
    if rows != [] {
      var init := rows[..|rows| - 1];
      DecodeLogsMembers(init);
      forall i | 0 <= i < |rows| - 1 ensures rows[i] == init[i] { }
    }
  }

  /** When every row of the job decodes, the page's i-th log is the decoding of the job's row `offset + i` places from the newest. */
  lemma HistoryPageLogs(rows: seq<LogRow>, job: string, offset: int, limit: int, i: nat)
    requires forall k :: 0 <= k < |JobRows(rows, job)| ==> JobRows(rows, job)[k].data.body.decodes
    requires i < |PageRows(rows, job, offset, limit)|
    ensures |HistoryView(rows, job, offset, limit).0| == |PageRows(rows, job, offset, limit)|
    ensures ClampOffset(offset) + i < |JobRows(rows, job)|
    ensures HistoryView(rows, job, offset, limit).0[i] ==
            DecodeLog(JobRows(rows, job)[|JobRows(rows, job)| - 1 - ClampOffset(offset) - i].data).value
  {
    var page := PageRows(rows, job, offset, limit);
    forall k | 0 <= k < |page| ensures page[k].data.body.decodes {
      HistoryPageAt(rows, job, offset, limit, k);
    }
    var logs := DecodeLogs(page);
    assert HistoryView(rows, job, offset, limit).0 == logs;
    assert |logs| == |page| && logs[i] == DecodeLog(page[i].data).value;
    HistoryPageAt(rows, job, offset, limit, i);
  }

  /** An offset at or past the total gives an empty page but the true total. */
  lemma HistoryOffsetPastEnd(rows: seq<LogRow>, job: string, offset: int, limit: int)
    requires offset >= |JobRows(rows, job)|
    ensures HistoryView(rows, job, offset, limit) == ([], |JobRows(rows, job)|)
  {
  }

  /** A negative offset behaves as offset 0. */
  lemma HistoryNegativeOffset(rows: seq<LogRow>, job: string, offset: int, limit: int)
    requires offset < 0
    ensures HistoryView(rows, job, offset, limit) == HistoryView(rows, job, 0, limit)
  {
  }

  /** A limit of 0 or less returns every row from the offset on. */
  lemma HistoryNoLimit(rows: seq<LogRow>, job: string, offset: nat, limit: int)
    requires limit <= 0
    ensures PageRows(rows, job, offset, limit) ==
            (if offset < |JobRows(rows, job)| then NewestFirst(JobRows(rows, job))[offset..] else [])
  {
  }

  /** Appending a row of the job puts it at the head of the unpaged history and adds one to the total. */
  lemma HistoryAfterAppend(rows: seq<LogRow>, r: LogRow)
    ensures JobRows(rows + [r], r.job) == JobRows(rows, r.job) + [r]
    ensures PageRows(rows + [r], r.job, 0, 0) == [r] + PageRows(rows, r.job, 0, 0)
  {
    assert (rows + [r])[..|rows + [r]| - 1] == rows;
    var mine := JobRows(rows, r.job);
    assert NewestFirst(mine + [r]) == [r] + NewestFirst(mine) by {
      assert (mine + [r])[..|mine + [r]| - 1] == mine;
    }
  }

  /** Appending a row of another job changes nothing in this job's history. */
  lemma HistoryAfterOtherAppend(rows: seq<LogRow>, r: LogRow, job: string)
    requires r.job != job
    ensures JobRows(rows + [r], job) == JobRows(rows, job)
  {
    assert (rows + [r])[..|rows + [r]| - 1] == rows;
  }

  /** The rows a run of AppendLog calls adds: one per log, with consecutive ids from `next`. */
  function AppendedRows(logs: seq<Log>, next: int): (r: seq<LogRow>)
    ensures |r| == |logs|
    ensures forall i :: 0 <= i < |r| ==> r[i] == LogRow(next + i, logs[i].job, EncodeLog(logs[i]))
  {
    if logs == [] then []
    else AppendedRows(logs[..|logs| - 1], next) + [LogRow(next + |logs| - 1, logs[|logs| - 1].job, EncodeLog(logs[|logs| - 1]))]
  }

  /** After any run of AppendLog calls for one job that had no logs, History(job, 0, 0) reports
      as many rows as were appended and returns them newest first. */
  lemma {:induction false} HistoryOfAppends(rows: seq<LogRow>, job: string, logs: seq<Log>, next: int)
    requires JobRows(rows, job) == []
    requires forall i :: 0 <= i < |logs| ==> logs[i].job == job
    ensures HistoryView(rows + AppendedRows(logs, next), job, 0, 0) == (NewestFirst(logs), |logs|)
  {
    if logs == [] {
      assert rows + AppendedRows(logs, next) == rows;
    } else {
      var init := logs[..|logs| - 1];
      var last := LogRow(next + |logs| - 1, job, EncodeLog(logs[|logs| - 1]));
      HistoryOfAppends(rows, job, init, next);
      var before := rows + AppendedRows(init, next);
      assert rows + AppendedRows(logs, next) == before + [last];
      HistoryAfterAppend(before, last);
      var page := PageRows(before, job, 0, 0);
      assert PageRows(before + [last], job, 0, 0) == [last] + page;
      DecodeLogsCons(last, page);
      DecodeEncodeLog(logs[|logs| - 1]);
      assert NewestFirst(logs) == [logs[|logs| - 1]] + NewestFirst(init);
    }
  }

  /** Decoding a decodable row in front of a page puts its log in front of the decoded page. */
  lemma {:induction false} DecodeLogsCons(r: LogRow, rows: seq<LogRow>)
    requires r.data.body.decodes
    ensures DecodeLogs([r] + rows) == [DecodeLog(r.data).value] + DecodeLogs(rows)
  {
    if rows != [] {
      var init := rows[..|rows| - 1];
      DecodeLogsCons(r, init);
      assert ([r] + rows)[..|[r] + rows| - 1] == [r] + init;
    }
  }

  /** After Remove's second delete, the job's history is empty and every other job's is unchanged. */
  lemma HistoryAfterRemove(rows: seq<LogRow>, job: string, other: string, offset: int, limit: int)
    ensures HistoryView(OtherRows(rows, job), job, offset, limit) == ([], 0)
    ensures other != job ==> HistoryView(OtherRows(rows, job), other, offset, limit) == HistoryView(rows, other, offset, limit)
  {
    OtherRowsLeaveNone(rows, job);
    if other != job {
      OtherRowsKeepOthers(rows, job, other);
    }
  }

  // ---------------------------------------------------------------- locks

  /** One `INSERT ... ON CONFLICT (name) DO NOTHING RETURNING 1`: whether a row came back, and the new key set. */
  function LockStep(locks: set<string>, key: string): (r: (bool, set<string>))
    ensures r.0 <==> key !in locks
    ensures r.1 == locks + {key}
  {
    if key in locks then (false, locks) else (true, locks + {key})
  }

  /** The answers of a run of Lock calls, one after the other. */
  function LockRun(locks: set<string>, keys: seq<string>): (r: seq<bool>)
    ensures |r| == |keys|
    // an attempt succeeds exactly when its key was neither held nor taken by an earlier attempt
    ensures forall i :: 0 <= i < |keys| ==> (r[i] <==> keys[i] !in locks && keys[i] !in keys[..i])
    decreases |keys|
  {
    if keys == [] then []
    else
      var step := LockStep(locks, keys[0]);
      var rest := LockRun(step.1, keys[1..]);
      assert forall i :: 0 < i < |keys| ==> keys[..i] == [keys[0]] + keys[1..][..i - 1];
      [step.0] + rest
  }

  function CountTrue(bs: seq<bool>): nat {
    if bs == [] then 0 else (if bs[0] then 1 else 0) + CountTrue(bs[1..])
  }

  /** Once a key is held, every later attempt on it fails. */
  lemma {:induction false} LockRunHeld(locks: set<string>, key: string, keys: seq<string>)
    requires key in locks
    requires forall i :: 0 <= i < |keys| ==> keys[i] == key
    ensures forall i :: 0 <= i < |keys| ==> !LockRun(locks, keys)[i]
    ensures CountTrue(LockRun(locks, keys)) == 0
  {
    if keys != [] {
      LockRunHeld(locks, key, keys[1..]);
    }
  }

  /** N attempts on one unused key, one after another: exactly the first succeeds. */
  lemma OneWinner(locks: set<string>, key: string, keys: seq<string>)
    requires key !in locks
    requires |keys| > 0 && forall i :: 0 <= i < |keys| ==> keys[i] == key
    ensures LockRun(locks, keys)[0]
    ensures forall i :: 0 < i < |keys| ==> !LockRun(locks, keys)[i]
    ensures CountTrue(LockRun(locks, keys)) == 1
  {
    LockRunHeld(locks + {key}, key, keys[1..]);
  }
}

/** Sessions of the scheduler against fresh tables, one for the job registry and one for
    the execution log: what a caller can conclude from the connection's contracts and the lemmas about the table functions. */
module Session {
  import opened Common
  import opened Documents
  import opened Tables
  import opened Connection

  /** Add a job, disable it and list; then remove it and list again. */
  method RegistrySession(schedule: Opaque) returns (listed: map<string, Job>, listedAfterRemove: map<string, Job>)
    ensures listed == map["backup" := Job("backup", true, schedule)]
    ensures listedAfterRemove == map[]
  {
    var c := new PgsqlConnection(map[], map[], [], 1, {});
    var job := Job("backup", false, schedule);
    var err := c.Add("backup", job, true, true);
    err := c.Disable("backup", true);
    var doc := SetDisabled(EncodeJob(job), true);
    assert c.jobs == map["backup" := doc];
    listed, err := c.List(true, true);
    assert "backup" in listed && listed["backup"] == Job("backup", true, schedule);
    assert listed.Keys == {"backup"};
    err := c.Remove("backup", NoFault);
    assert c.jobs == map[];
    listedAfterRemove, err := c.List(true, true);
    assert listedAfterRemove.Keys == {};
  }

  /** Log two runs of a job and read its whole history; then remove the job and read it again. */
  method LogSession(first: Opaque, second: Opaque)
    returns (total: int, page: seq<Log>, totalAfterRemove: int, pageAfterRemove: seq<Log>)
    ensures total == 2 && page == [Log("backup", second), Log("backup", first)]
    ensures totalAfterRemove == 0 && pageAfterRemove == []
  {
    var c := new PgsqlConnection(map[], map[], [], 1, {});
    var logs := [Log("backup", first), Log("backup", second)];
    var err := c.AppendLog(logs[0], true, true);
    err := c.AppendLog(logs[1], true, true);
    assert c.logs == [] + AppendedRows(logs, 1);
    HistoryOfAppends([], "backup", logs, 1);
    total, page, err := c.History("backup", 0, 0, true, true, true);
    var rows := c.logs;
    err := c.Remove("backup", NoFault);
    HistoryAfterRemove(rows, "backup", "backup", 0, 10);
    totalAfterRemove, pageAfterRemove, err := c.History("backup", 0, 10, true, true, true);
  }
}

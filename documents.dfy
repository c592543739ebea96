/** The jsonb documents stored in the jobs and logs tables. The scheduler's cron.Job and
    cron.Log are kept abstract: only the fields this layer reads or writes are modelled,
    the rest is an opaque JSON text that either unmarshals into the Go type or does not. */
module Documents {
  import opened Common

  /** JSON of the fields this layer does not interpret (schedule, payload, results, ...). */
  type Opaque = string

  /** A cron.Job as the scheduler hands it over and gets it back. */
  datatype Job = Job(name: string, disabled: bool, rest: Opaque)

  /** A cron.Log: the job it belongs to and the rest of the record. */
  datatype Log = Log(job: string, rest: Opaque)

  /** The uninterpreted part of a stored document, and whether json.Unmarshal accepts it. */
  datatype Body = Body(decodes: bool, text: Opaque)

  /** The `disabled` key of a stored job document: absent (a JSON `null` reads the same, since
      json.Unmarshal leaves a bool field untouched on null), a JSON boolean, or a non-null value of
      another JSON type (which json.Unmarshal refuses for a bool field). */
  datatype DisabledField = Missing | Bool(value: bool) | NotBool

  /** The jsonb value in jobs.data. */
  datatype JobDoc = JobDoc(name: string, disabled: DisabledField, body: Body)

  /** Whether json.Unmarshal into a cron.Job accepts the document. */
  predicate JobDecodes(d: JobDoc) {
    d.body.decodes && !d.disabled.NotBool?
  }

  /** The jsonb value in logs.data. */
  datatype LogDoc = LogDoc(job: string, body: Body)

  /** json.Marshal of a job: every field is written. */
  function EncodeJob(j: Job): (d: JobDoc)
    ensures JobDecodes(d) && d.name == j.name && d.disabled == Bool(j.disabled)
  {
    JobDoc(j.name, Bool(j.disabled), Body(true, j.rest))
  }

  /** json.Unmarshal into a cron.Job: fails on a body it cannot read or a `disabled` that is not a
      boolean; an absent `disabled` reads as false. */
  function DecodeJob(d: JobDoc): (r: Option<Job>)
    ensures r.Some? <==> JobDecodes(d)
    ensures r.Some? ==> r.value.name == d.name && r.value.disabled == (d.disabled.Bool? && d.disabled.value)
  {
    match d.disabled
    case NotBool => None
    case Missing => if d.body.decodes then Some(Job(d.name, false, d.body.text)) else None
    case Bool(b) => if d.body.decodes then Some(Job(d.name, b, d.body.text)) else None
  }

  function EncodeLog(l: Log): (d: LogDoc)
    ensures d.body.decodes && d.job == l.job
  {
    LogDoc(l.job, Body(true, l.rest))
  }

  function DecodeLog(d: LogDoc): (r: Option<Log>)
    ensures r.Some? <==> d.body.decodes
    ensures r.Some? ==> r.value.job == d.job
  {
    if d.body.decodes then Some(Log(d.job, d.body.text)) else None
  }

  /** Unmarshalling what was marshalled gives the job back. */
  lemma DecodeEncodeJob(j: Job)
    ensures DecodeJob(EncodeJob(j)) == Some(j)
  {
  }

  /** Unmarshalling what was marshalled gives the log back. */
  lemma DecodeEncodeLog(l: Log)
    ensures DecodeLog(EncodeLog(l)) == Some(l)
  {
  }

  /** jsonb_set(data, '{disabled}', v, true): sets the key, creating it when absent,
      and leaves every other field as it was. */
  function SetDisabled(d: JobDoc, v: bool): (r: JobDoc)
    ensures r.disabled == Bool(v)
    ensures r.name == d.name && r.body == d.body
  {
    d.(disabled := Bool(v))
  }

  /** Seen through json.Unmarshal, the patch changes the job's Disabled flag and nothing else.
      Afterwards the document decodes exactly when its body does, so a document that was refused
      only for a non-boolean `disabled` becomes readable. */
  lemma DecodeSetDisabled(d: JobDoc, v: bool)
    ensures DecodeJob(SetDisabled(d, v)).Some? <==> d.body.decodes
    ensures d.disabled.NotBool? && d.body.decodes ==> DecodeJob(d).None? && DecodeJob(SetDisabled(d, v)).Some?
    ensures DecodeJob(d).Some? ==> DecodeJob(SetDisabled(d, v)) == Some(DecodeJob(d).value.(disabled := v))
  {
  }

  /** Disable followed by Enable leaves the document as Enable alone would, and restores
      a document whose flag was false to exactly what it was. */
  lemma DisableThenEnable(d: JobDoc)
    ensures SetDisabled(SetDisabled(d, true), false) == SetDisabled(d, false)
    ensures d.disabled == Bool(false) ==> SetDisabled(SetDisabled(d, true), false) == d
  {
  }
}

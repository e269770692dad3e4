/** The `UpdateFirewallStatus` record: one row per (job, firewall address)
    with the firewall's upgrade status. */
module FirewallStatus {
  import opened Js

  /** `FIREWALL_STATUS_CHOICES`: the closed set of statuses. */
  datatype Status = Waiting | Processing | Installing | Updated

  /** `max_length` of the `status` column. */
  const StatusMaxLength := 24
  /** `max_length` of the `ip_address` and `group_name` columns. */
  const TextMaxLength := 256

  /** The value stored in the database for a status choice. */
  function Name(s: Status): (r: string)
    ensures 0 < |r| <= StatusMaxLength
  {
    match s
    case Waiting => "waiting"
    case Processing => "processing"
    case Installing => "installing"
    case Updated => "updated"
  }

  /** Reads a stored status back; anything outside the choices is refused. */
  function ParseStatus(s: string): (r: Option<Status>)
    ensures r.Some? <==> s in {"waiting", "processing", "installing", "updated"}
  {
    if s == "waiting" then Some(Waiting)
    else if s == "processing" then Some(Processing)
    else if s == "installing" then Some(Installing)
    else if s == "updated" then Some(Updated)
    else None
  }

  /** Every choice reads back as itself, so the names are distinct. */
  lemma ParseName(s: Status)
    ensures ParseStatus(Name(s)) == Some(s)
  {
  }

  lemma NameInjective(s: Status, t: Status)
    ensures Name(s) == Name(t) <==> s == t
  {
    ParseName(s);
    ParseName(t);
  }

  /** A stored value that reads back names exactly that value. */
  lemma NameParse(s: string)
    ensures ParseStatus(s).Some? ==> Name(ParseStatus(s).value) == s
  {
  }

  /** A row. `jobId` is a nullable positive-integer column (Django's
      `PositiveIntegerField` admits 0), `groupName` is nullable. */
  datatype StatusRecord = StatusRecord(
    jobId: Option<nat>,
    groupName: Option<string>,
    ipAddress: string,
    status: Status)

  /** What model validation demands of a row: a non-blank address of at
      most 256 characters and a group name of at most 256 characters. */
  predicate ValidRecord(r: StatusRecord) {
    0 < |r.ipAddress| <= TextMaxLength
    && (r.groupName.Some? ==> |r.groupName.value| <= TextMaxLength)
  }

  /** A row created with only its address given: every other column
      takes its default (`job_id` null, `group_name` null, `waiting`). */
  function NewRecord(ip: string): (r: StatusRecord)
    ensures r.jobId.None? && r.groupName.None?
    ensures r.ipAddress == ip && r.status == Waiting
    ensures 0 < |ip| <= TextMaxLength ==> ValidRecord(r)
  {
    StatusRecord(None, None, ip, Waiting)
  }
}

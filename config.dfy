/**
 * The server list of the configuration, as the scheduler and `run_all_now`
 * read it (backup.py:249-268, 302-310), and the job a database entry resolves
 * to: the arguments `run_backup` is called with.
 */
module Config {
  import opened Wrappers

  /** An entry of a server's `databases` list: a bare name or a dict with a `timeout` override. */
  datatype DbEntry = Named(name: string) | Detailed(name: string, timeout: Option<int>)

  /** One entry of `servers`; `None` is a key that is absent from the dict. */
  datatype Server = Server(
    host: string,
    user: string,
    port: Option<int>,
    container: Option<string>,
    timeout: Option<int>,
    schedule: Option<string>,
    intervalHours: Option<int>,
    databases: seq<DbEntry>)

  /** The arguments of one `run_backup` call. */
  datatype Job = Job(host: string, user: string, db: string, port: int, container: Option<string>, timeout: int)

  const DefaultPort: int := 3306
  const DefaultTimeout: int := 3600

  /**
   * The job a database entry of a server resolves to: the entry's own
   * timeout wins over the server's, which wins over 3600 seconds.
   */
  function JobFor(server: Server, entry: DbEntry): (job: Job)
    ensures job.host == server.host && job.user == server.user && job.db == entry.name
    ensures job.port == server.port.GetOr(DefaultPort) && job.container == server.container
    ensures entry.Detailed? && entry.timeout.Some? ==> job.timeout == entry.timeout.value
    ensures !(entry.Detailed? && entry.timeout.Some?) ==> job.timeout == server.timeout.GetOr(DefaultTimeout)
  {
    var serverTimeout := server.timeout.GetOr(DefaultTimeout);
    var timeout := match entry
      case Named(_) => serverTimeout
      case Detailed(_, t) => t.GetOr(serverTimeout);
    Job(server.host, server.user, entry.name, server.port.GetOr(DefaultPort), server.container, timeout)
  }

  /** The jobs of one server, in the order of its `databases` list. */
  function ServerJobs(server: Server): (jobs: seq<Job>)
    ensures |jobs| == |server.databases|
    ensures forall j :: 0 <= j < |jobs| ==> jobs[j] == JobFor(server, server.databases[j])
  {
    seq(|server.databases|, j requires 0 <= j < |server.databases| => JobFor(server, server.databases[j]))
  }

  /** `run_all_now`: every database of every server, in configuration order. */
  function NowJobs(servers: seq<Server>): (jobs: seq<Job>)
    ensures forall job :: job in jobs ==> exists s :: s in servers && job in ServerJobs(s)
    ensures forall s, job :: s in servers && job in ServerJobs(s) ==> job in jobs
    decreases |servers|
  {
    if servers == [] then []
    else
      var init := servers[..|servers| - 1];
      var last := servers[|servers| - 1];
      assert forall s :: s in init ==> s in servers;
      assert forall s :: s in servers ==> s in init || s == last;
      NowJobs(init) + ServerJobs(last)
  }
}

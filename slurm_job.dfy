/**
 One job under management: its record, the string its fingerprint is taken
 of, and the classification of a finished job from what its log shows.
 */
module SlurmJob {
  import opened Text

  /** The lifecycle states of a job. */
  datatype Status = Created | Submitted | Done | Incomplete | Failed

  /**
   The scheduler's id of a job: the integer -1 until the job is first
   submitted, then the digit string read from the `sbatch` output.
   */
  datatype JobId = Unassigned | Assigned(digits: string)

  /** The Gaussian settings a job was generated with. */
  datatype GaussianConfig = GaussianConfig(
    theory: string,
    lightBasisSet: string,
    heavyBasisSet: string,
    genericBasisSet: string,
    maxLightAtomicNumber: int)

  /** One job: a conformer of a molecule run through a list of Gaussian tasks. */
  datatype Job = Job(
    can: string,
    conformation: int,
    maxNumConformers: int,
    tasks: seq<string>,
    config: GaussianConfig,
    jobId: JobId,
    directory: string,
    baseName: string,
    status: Status,
    nSubmissions: nat,
    nSuccessTasks: int)

  /** A job as it is first recorded: not yet given an id, never submitted. */
  function NewJob(can: string, conformation: int, maxNumConformers: int, tasks: seq<string>,
                  config: GaussianConfig, directory: string, baseName: string): (j: Job)
    ensures j.status == Created && j.jobId == Unassigned && j.nSubmissions == 0
    ensures j.can == can && j.conformation == conformation && j.maxNumConformers == maxNumConformers
    ensures j.tasks == tasks && j.config == config && j.directory == directory && j.baseName == baseName
  {
    Job(can, conformation, maxNumConformers, tasks, config, Unassigned, directory, baseName, Created, 0, 0)
  }

  /**
   The string whose MD5 digest keys a job: the canonical smiles, the
   conformation and the conformer count written one after the other with no
   separator, then the tasks joined by commas. The configuration is not part of it.
   */
  function KeyString(j: Job): (s: string)
    ensures var t := Join(",", j.tasks);
            && |s| >= |j.can| + 2 + |t|
            && s[..|j.can|] == j.can
            && s[|s| - |t|..] == t
  {
    j.can + IntToString(j.conformation) + IntToString(j.maxNumConformers) + Join(",", j.tasks)
  }

  /** Only the can, conformation, conformer count and tasks enter the key string. */
  lemma KeyStringIgnoresOtherFields(j: Job, config: GaussianConfig, id: JobId, dir: string, name: string,
                                    st: Status, n: nat, ok: int)
    ensures KeyString(j) == KeyString(j.(config := config, jobId := id, directory := dir, baseName := name,
                                          status := st, nSubmissions := n, nSuccessTasks := ok))
  {
  }

  /**
   For jobs that agree on molecule, conformation and conformer count, the
   key string tells apart any two task lists of non-empty, comma-free task
   names: reordering the tasks changes it.
   */
  lemma KeyStringSeparatesTasks(j1: Job, j2: Job)
    requires j1.can == j2.can && j1.conformation == j2.conformation
    requires j1.maxNumConformers == j2.maxNumConformers
    requires forall k :: 0 <= k < |j1.tasks| ==> j1.tasks[k] != [] && ',' !in j1.tasks[k]
    requires forall k :: 0 <= k < |j2.tasks| ==> j2.tasks[k] != [] && ',' !in j2.tasks[k]
    requires j1.tasks != j2.tasks
    ensures KeyString(j1) != KeyString(j2)
  {
    var p := j1.can + IntToString(j1.conformation) + IntToString(j1.maxNumConformers);
    var t1, t2 := Join(",", j1.tasks), Join(",", j2.tasks);
    if KeyString(j1) == KeyString(j2) {
      assert t1 == (p + t1)[|p|..] == (p + t2)[|p|..] == t2;
      JoinInjective(',', j1.tasks, j2.tasks);
    }
  }

  /**
   Without separators, two conformers of one molecule can share a key
   string: conformer 1 of a 234-conformer run and conformer 12 of a
   34-conformer run both give the digits "1234".
   */
  lemma KeyStringCollision(j: Job)
    ensures var a := j.(conformation := 1, maxNumConformers := 234);
            var b := j.(conformation := 12, maxNumConformers := 34);
            a.conformation != b.conformation && KeyString(a) == KeyString(b)
  {
    assert NatToString(1) == "1";
    assert NatToString(2) == "2";
    assert NatToString(3) == "3";
    assert NatToString(12) == NatToString(1) + "2" == "12";
    assert NatToString(23) == NatToString(2) + "3" == "23";
    assert NatToString(34) == NatToString(3) + "4" == "34";
    assert NatToString(234) == NatToString(23) + "4" == "234";
    assert IntToString(1) + IntToString(234) == "1" + "234" == "12" + "34" == IntToString(12) + IntToString(34);
  }

  // ---------------------------------------------------------------------------
  // Classification of a finished job
  // ---------------------------------------------------------------------------

  /** What the Gaussian log extractor makes of a fetched log file. */
  datatype ExtractorOutcome =
    | Extracted(nTasks: int)          // the log was read; it records nTasks finished tasks
    | NoGeometry                      // the log holds no geometry
    | NegativeFrequency               // the geometry is a saddle point
    | OptimizationIncomplete          // the geometry optimization did not converge

  /** Fetching a finished job's log file from the remote host. */
  datatype LogFetch = LogMissing | LogFetched(outcome: ExtractorOutcome)

  /**
   The status a finished job is given. The extractor's own failures are
   raised when the extractor is built or when n_tasks is read, before the
   count is compared, so they decide the status ahead of the count.
   */
  function Classify(tasks: seq<string>, fetch: LogFetch): (s: Status)
    ensures s == Done || s == Incomplete || s == Failed
    ensures s == Done <==> fetch == LogFetched(Extracted(|tasks|))
    ensures s == Incomplete <==>
              fetch.LogFetched? && (fetch.outcome.NegativeFrequency? || fetch.outcome.OptimizationIncomplete?)
    ensures s == Failed <==>
              fetch.LogMissing? || fetch.outcome.NoGeometry? || (fetch.outcome.Extracted? && fetch.outcome.nTasks != |tasks|)
  {
    match fetch
    case LogMissing => Failed
    case LogFetched(NoGeometry) => Failed
    case LogFetched(NegativeFrequency) => Incomplete
    case LogFetched(OptimizationIncomplete) => Incomplete
    case LogFetched(Extracted(n)) => if |tasks| == n then Done else Failed
  }

  /** A missing log or an extractor failure decides the status whatever the tasks are. */
  lemma ClassifyFailuresIgnoreTasks(t1: seq<string>, t2: seq<string>, fetch: LogFetch)
    requires !(fetch.LogFetched? && fetch.outcome.Extracted?)
    ensures Classify(t1, fetch) == Classify(t2, fetch)
  {
  }
}

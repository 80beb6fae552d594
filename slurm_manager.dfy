/**
 The `slurm_manager` object: the store of jobs under management and the
 operations that move its jobs through their lifecycle. The remote host's
 replies, the log extractor's verdicts and the existing database tags are
 inputs of the operations; each operation's new store is the JobStore
 function of the old one.
 */
module SlurmManager {
  import opened Wrappers
  import opened Text
  import opened SlurmJob
  import opened SlurmOutput
  import opened JobStore

  /** How a resubmission ended: aborted by the job whose input could not be patched, or handed to submission. */
  datatype ResubmitOutcome =
    | Aborted(key: string, reason: AbortReason)
    | Resubmitted(batch: seq<string>, failedAt: Option<string>)

  /** How an upload ended; only the last one changes the store. */
  datatype UploadOutcome = NoDoneJobs | NoDoneMolecules | BlankTag | Uploaded(cans: set<string>)

  /**
   The keys of a set, each once, in an order the caller does not choose.
   A dictionary is iterated in insertion order, which is one of these.
   */
  method Enumerate(s: set<string>) returns (xs: seq<string>)
    ensures Distinct(xs)
    ensures forall k :: k in xs <==> k in s
  {
    xs := [];
    var rest := s;
    while rest != {}
      invariant rest <= s
      invariant Distinct(xs)
      invariant forall k :: k in xs <==> k in s && k !in rest
      decreases |rest|
    {
      var k :| k in rest;
      xs := xs + [k];
      rest := rest - {k};
    }
  }

  class SlurmManager {
    /** The jobs under management, by fingerprint. */
    var jobs: Jobs
    /** The MD5 hex digest the fingerprints are taken with. */
    const digest: string -> string

    ghost predicate Valid()
      reads this
    {
      AllWellFormed(digest, jobs)
    }

    /** A manager with no jobs under management. */
    constructor (digest: string -> string)
      ensures Valid()
      ensures this.digest == digest && jobs == map[]
    {
      this.digest := digest;
      jobs := map[];
    }

    /**
     `create_jobs_for_molecule`: nothing is created when the database
     already holds the molecule under the same configuration; otherwise one
     job per generated input file is recorded under its fingerprint, unless
     a job is already recorded under that fingerprint.
     */
    method CreateJobsForMolecule(can: string, maxNumConformers: int, tasks: seq<string>, config: GaussianConfig,
                                 directory: string, existingTags: seq<string>, files: seq<ConformerFile>)
      requires Valid()
      modifies this
      ensures Valid()
      ensures existingTags != [] ==> jobs == old(jobs)
      ensures existingTags == [] ==>
                jobs == CreateAll(old(jobs), Keyed(digest, Candidates(can, maxNumConformers, tasks, config, directory, files)))
    {
      if existingTags != [] {
        return;
      }
      ghost var es := Keyed(digest, Candidates(can, maxNumConformers, tasks, config, directory, files));
      var i := 0;
      while i < |files|
        invariant 0 <= i <= |files|
        invariant jobs == CreateAll(old(jobs), es[..i])
      {
        var job := NewJob(can, files[i].conformation, maxNumConformers, tasks, config, directory, files[i].baseName);
        var key := digest(KeyString(job));
        CreateAllStep(old(jobs), es, i);
        assert es[i] == (key, job);
        if key !in jobs {
          jobs := jobs[key := job];
        }
        i := i + 1;
      }
      assert es[..|files|] == es;
      CreateAllWellFormed(digest, old(jobs), Candidates(can, maxNumConformers, tasks, config, directory, files));
    }

    /**
     `submit_jobs_from_jobs_dict`: the jobs of the batch are submitted in
     order; each reply of `sbatch` is searched for its job id, and the first
     reply without one raises and ends the batch (failedAt names that job).
     */
    method SubmitJobsFromJobsDict(batch: seq<string>, sbatchOut: string -> string) returns (failedAt: Option<string>)
      requires Valid()
      requires Distinct(batch)
      modifies this
      ensures Valid()
      ensures jobs == AfterSubmit(old(jobs), batch, sbatchOut)
      ensures var n := ParsedPrefix(batch, sbatchOut);
              failedAt == if n < |batch| then Some(batch[n]) else None
    {
      var i := 0;
      failedAt := None;
      while i < |batch|
        invariant 0 <= i <= |batch| && failedAt == None
        invariant forall t :: 0 <= t < i ==> ParseJobId(sbatchOut(batch[t])).Some?
        invariant jobs == MarkAll(old(jobs), PrefixKeys(batch, i), sbatchOut)
      {
        var key := batch[i];
        var id := ParseJobId(sbatchOut(key));
        if id.None? {
          failedAt := Some(key);
          break;
        }
        PrefixKeysStep(batch, i);
        MarkAllStep(old(jobs), PrefixKeys(batch, i), key, sbatchOut);
        if key in jobs {
          jobs := jobs[key := MarkSubmitted(jobs[key], id.value)];
        }
        i := i + 1;
      }
      assert i == ParsedPrefix(batch, sbatchOut);
      AfterSubmitWellFormed(digest, old(jobs), batch, sbatchOut);
    }

    /** `submit_jobs`: the jobs in status created are submitted, in the order returned. */
    method SubmitJobs(sbatchOut: string -> string) returns (batch: seq<string>, failedAt: Option<string>)
      requires Valid()
      modifies this
      ensures Valid()
      ensures Distinct(batch) && forall k :: k in batch <==> k in old(jobs) && old(jobs)[k].status == Created
      ensures jobs == AfterSubmit(old(jobs), batch, sbatchOut)
      ensures var n := ParsedPrefix(batch, sbatchOut);
              failedAt == if n < |batch| then Some(batch[n]) else None
    {
      batch := Enumerate(GetJobs(jobs, Some(Created), AnyCan).Keys);
      failedAt := SubmitJobsFromJobsDict(batch, sbatchOut);
    }

    /** `_retrieve_single_job`: a finished job gets the status its fetched log calls for. */
    method RetrieveSingleJob(key: string, fetch: LogFetch) returns (status: Status)
      requires key in jobs
      modifies this
      ensures status == Classify(old(jobs)[key].tasks, fetch)
      ensures jobs == old(jobs)[key := old(jobs)[key].(status := status)]
    {
      status := Classify(jobs[key].tasks, fetch);
      jobs := jobs[key := jobs[key].(status := status)];
    }

    /**
     `retrieve_jobs`: the jobs whose ids `squeue` no longer lists are
     classified; doneJobs counts those classified done.
     */
    method RetrieveJobs(squeueOut: string, fetchLog: string -> LogFetch) returns (doneJobs: nat)
      requires Valid()
      modifies this
      ensures Valid()
      ensures jobs == Retrieved(old(jobs), squeueOut, fetchLog)
      ensures doneJobs == |DoneAmong(old(jobs), RetrievedKeys(old(jobs), squeueOut), fetchLog)|
    {
      var ids := IdsToCheck(jobs);
      RetrievedFrame(digest, jobs, squeueOut, fetchLog);
      if ids == {} {
        ClassifyAllNone(jobs, fetchLog);
        assert RetrievedKeys(jobs, squeueOut) == {};
        return 0;
      }
      var finished := FinishedIds(ids, UserRunningIds(squeueOut));
      var finishedJobs := FinishedKeys(jobs, finished);
      assert finishedJobs == RetrievedKeys(jobs, squeueOut);
      doneJobs := RetrieveFinished(finishedJobs, fetchLog);
    }

    /** The loop of `retrieve_jobs` over the finished jobs, counting those classified done. */
    method RetrieveFinished(finishedJobs: set<string>, fetchLog: string -> LogFetch) returns (doneJobs: nat)
      requires finishedJobs <= jobs.Keys
      modifies this
      ensures jobs == ClassifyAll(old(jobs), finishedJobs, fetchLog)
      ensures doneJobs == |DoneAmong(old(jobs), finishedJobs, fetchLog)|
    {
      doneJobs := 0;
      ClassifyAllNone(jobs, fetchLog);
      var todo := finishedJobs;
      ghost var visited: set<string> := {};
      while todo != {}
        invariant todo <= finishedJobs && visited == finishedJobs - todo
        invariant jobs == ClassifyAll(old(jobs), visited, fetchLog)
        invariant doneJobs == |DoneAmong(old(jobs), visited, fetchLog)|
        decreases |todo|
      {
        var key :| key in todo;
        ClassifyAllStep(old(jobs), visited, key, fetchLog);
        var status := RetrieveSingleJob(key, fetchLog(key));
        if status == Done {
          doneJobs := doneJobs + 1;
        }
        todo := todo - {key};
        visited := visited + {key};
      }
      assert visited == finishedJobs;
    }

    /**
     `resubmit_incomplete_jobs`: the incomplete jobs are visited in the
     order returned; those submitted MaxSubmissions times already are
     skipped, the input file of each other one is patched with its last
     geometry, and the jobs patched are handed to submission. An exception
     while patching aborts the whole call before anything is submitted.
     */
    method ResubmitIncompleteJobs(patch: string -> PatchInput, sbatchOut: string -> string)
      returns (order: seq<string>, outcome: ResubmitOutcome)
      requires Valid()
      modifies this
      ensures Valid()
      ensures Distinct(order) && forall k :: k in order <==> k in old(jobs) && old(jobs)[k].status == Incomplete
      ensures forall i :: 0 <= i < |order| ==> order[i] in old(jobs)
      ensures var sel := SelectForResubmit(old(jobs), order);
              match FirstAbort(sel, patch)
              case Some(i) => outcome == Aborted(sel[i], PatchCheck(patch(sel[i])).value) && jobs == old(jobs)
              case None =>
                && jobs == AfterSubmit(old(jobs), sel, sbatchOut)
                && var n := ParsedPrefix(sel, sbatchOut);
                   outcome == Resubmitted(sel, if n < |sel| then Some(sel[n]) else None)
    {
      order := Enumerate(GetJobs(jobs, Some(Incomplete), AnyCan).Keys);
      var sel, abort := PatchForResubmit(order, patch);
      if abort.Some? {
        outcome := Aborted(abort.value, PatchCheck(patch(abort.value)).value);
        return;
      }
      SelectForResubmitMembers(jobs, order);
      var failedAt := SubmitJobsFromJobsDict(sel, sbatchOut);
      outcome := Resubmitted(sel, failedAt);
    }

    /**
     The loop of `resubmit_incomplete_jobs`: the jobs under the cap are
     patched in visiting order and collected; the first that cannot be
     patched aborts it (abort names that job).
     */
    method PatchForResubmit(order: seq<string>, patch: string -> PatchInput) returns (sel: seq<string>, abort: Option<string>)
      requires forall i :: 0 <= i < |order| ==> order[i] in jobs
      ensures var all := SelectForResubmit(jobs, order);
              match FirstAbort(all, patch)
              case Some(i) => abort == Some(all[i])
              case None => abort == None && sel == all
    {
      sel := [];
      abort := None;
      var i := 0;
      while i < |order|
        invariant 0 <= i <= |order|
        invariant sel == SelectForResubmit(jobs, order[..i])
        invariant forall t :: 0 <= t < |sel| ==> PatchCheck(patch(sel[t])).None?
      {
        var key := order[i];
        SelectForResubmitStep(jobs, order, i);
        if jobs[key].nSubmissions < MaxSubmissions {
          if PatchCheck(patch(key)).Some? {
            AbortAtVisit(jobs, order, patch, i);
            abort := Some(key);
            return;
          }
          sel := sel + [key];
        }
        i := i + 1;
      }
      assert order[..|order|] == order;
    }

    /**
     `remove_jobs`: the named jobs are deleted in order; a name that is not
     in the store raises KeyError and ends the removal (missing names it).
     */
    method RemoveJobs(names: seq<string>) returns (missing: Option<string>)
      requires Valid()
      requires Distinct(names)
      modifies this
      ensures Valid()
      ensures var n := FoundPrefix(old(jobs), names);
              && jobs == old(jobs) - PrefixKeys(names, n)
              && missing == if n < |names| then Some(names[n]) else None
    {
      var i := 0;
      missing := None;
      while i < |names|
        invariant 0 <= i <= |names| && missing == None
        invariant forall t :: 0 <= t < i ==> names[t] in old(jobs)
        invariant jobs == old(jobs) - PrefixKeys(names, i)
      {
        var name := names[i];
        assert name !in PrefixKeys(names, i);
        if name !in jobs {
          missing := Some(name);
          break;
        }
        RemoveStep(old(jobs), names, i);
        jobs := jobs - {name};
        i := i + 1;
      }
      assert i == FoundPrefix(old(jobs), names);
      RemoveWellFormed(digest, old(jobs), PrefixKeys(names, i));
    }

    /** Deleting jobs that are all in the store. */
    method RemoveAll(s: set<string>)
      requires Valid()
      requires s <= jobs.Keys
      modifies this
      ensures Valid()
      ensures jobs == old(jobs) - s
    {
      var names := Enumerate(s);
      FoundPrefixAll(jobs, names);
      var missing := RemoveJobs(names);
      assert PrefixKeys(names, |names|) == s;
    }

    /**
     `upload_done_molecules_to_db`: when some molecule has all of its jobs
     done, and the tag is not blank, the jobs of those molecules are
     uploaded and then removed.
     */
    method UploadDoneMoleculesToDb(tag: string) returns (outcome: UploadOutcome)
      requires Valid()
      modifies this
      ensures Valid()
      ensures var j0 := old(jobs);
        if GetJobs(j0, Some(Done), AnyCan) == map[] then outcome == NoDoneJobs && jobs == j0
        else if DoneCans(j0) == {} then outcome == NoDoneMolecules && jobs == j0
        else if Strip(tag) == [] then outcome == BlankTag && jobs == j0
        else outcome == Uploaded(DoneCans(j0)) && jobs == j0 - UploadKeys(j0)
    {
      var doneJobs := GetJobs(jobs, Some(Done), AnyCan);
      if |doneJobs| == 0 {
        return NoDoneJobs;
      }
      var doneCans := DoneCans(jobs);
      if doneCans == {} {
        return NoDoneMolecules;
      }
      if Strip(tag) == [] {
        return BlankTag;
      }
      var doneCanJobs := GetJobs(jobs, None, CanList(doneCans));
      RemoveAll(doneCanJobs.Keys);
      outcome := Uploaded(doneCans);
    }

    /** `_scancel`: every job in status submitted is removed from the store. */
    method Scancel()
      requires Valid()
      modifies this
      ensures Valid()
      ensures jobs == old(jobs) - SubmittedJobs(old(jobs))
    {
      RemoveAll(SubmittedJobs(jobs));
    }
  }
}

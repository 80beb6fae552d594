/**
 The job store as a value: a map from fingerprint to job record, and what
 each bookkeeping step of the manager makes of it. The methods of
 SlurmManager are proved against these functions.
 */
module JobStore {
  import opened Wrappers
  import opened Text
  import opened SlurmJob
  import opened SlurmOutput

  type Jobs = map<string, Job>

  predicate Distinct(s: seq<string>)
  {
    forall i, j :: 0 <= i < j < |s| ==> s[i] != s[j]
  }

  /** The fingerprint of a job: the digest of its key string. */
  function KeyOf(digest: string -> string, j: Job): string
  {
    digest(KeyString(j))
  }

  /**
   Jobs that agree on the smiles, the conformation, the conformer count and
   the tasks share their fingerprint, whatever their configuration, id,
   paths, status or counters.
   */
  lemma KeyOfStable(digest: string -> string, j: Job, j': Job)
    requires j'.can == j.can && j'.conformation == j.conformation
    requires j'.maxNumConformers == j.maxNumConformers && j'.tasks == j.tasks
    ensures KeyOf(digest, j') == KeyOf(digest, j)
  {
  }

  /**
   What holds of every entry of the store: it is filed under its own
   fingerprint; it has an id exactly when it has left status created, which
   is exactly when it has been submitted at least once; and its id is the
   digit string read from `sbatch`.
   */
  predicate WellFormed(digest: string -> string, key: string, j: Job)
  {
    && key == KeyOf(digest, j)
    && (j.status == Created <==> j.jobId == Unassigned)
    && (j.status == Created <==> j.nSubmissions == 0)
    && (j.jobId.Assigned? ==> IsDigitString(j.jobId.digits))
  }

  predicate AllWellFormed(digest: string -> string, jobs: Jobs)
  {
    forall k :: k in jobs ==> WellFormed(digest, k, jobs[k])
  }

  // ---------------------------------------------------------------------------
  // get_jobs
  // ---------------------------------------------------------------------------

  /** The `can` argument of get_jobs: none, one canonical smiles, or a list of them. */
  datatype CanFilter = AnyCan | OneCan(can: string) | CanList(cans: set<string>)

  /** The `match` helper of get_jobs; GetJobs states what it selects. */
  predicate Matches(j: Job, status: Option<Status>, can: CanFilter)
  {
    && (status.Some? ==> j.status == status.value)
    && match can
       case AnyCan => true
       case OneCan(c) => j.can in [c]
       case CanList(cs) => j.can in cs
  }

  /** `get_jobs(status, can)`: the entries of the store that match both filters. */
  function GetJobs(jobs: Jobs, status: Option<Status>, can: CanFilter): (r: Jobs)
    ensures r.Keys <= jobs.Keys
    ensures forall k :: k in r ==> r[k] == jobs[k]
    ensures forall k :: k in jobs ==>
              (k in r <==> (status.None? || jobs[k].status == status.value)
                           && (can.OneCan? ==> jobs[k].can == can.can)
                           && (can.CanList? ==> jobs[k].can in can.cans))
  {
    map k | k in jobs && Matches(jobs[k], status, can) :: jobs[k]
  }

  /** A single smiles filters exactly like the one-element list holding it. */
  lemma OneCanIsSingletonList(jobs: Jobs, status: Option<Status>, c: string)
    ensures GetJobs(jobs, status, OneCan(c)) == GetJobs(jobs, status, CanList({c}))
  {
  }

  // ---------------------------------------------------------------------------
  // create_jobs_for_molecule
  // ---------------------------------------------------------------------------

  /** A generated Gaussian input file: its base name and the conformation it holds. */
  datatype ConformerFile = ConformerFile(baseName: string, conformation: int)

  /** The job records built for the generated input files, in the order they are visited. */
  function Candidates(can: string, maxNumConformers: int, tasks: seq<string>, config: GaussianConfig,
                      directory: string, files: seq<ConformerFile>): (cs: seq<Job>)
    ensures |cs| == |files|
    ensures forall i :: 0 <= i < |cs| ==>
              && cs[i].status == Created && cs[i].jobId == Unassigned && cs[i].nSubmissions == 0
              && cs[i].can == can && cs[i].maxNumConformers == maxNumConformers && cs[i].tasks == tasks
              && cs[i].config == config && cs[i].directory == directory
              && cs[i].conformation == files[i].conformation && cs[i].baseName == files[i].baseName
  {
    seq(|files|, i requires 0 <= i < |files| =>
      NewJob(can, files[i].conformation, maxNumConformers, tasks, config, directory, files[i].baseName))
  }

  /**
   The candidates paired with their fingerprints: each fresh candidate is a
   well-formed entry under its key, and candidates that agree on the key's
   fields are filed under the same key, so that the later one is skipped.
   */
  function Keyed(digest: string -> string, cands: seq<Job>): (es: seq<(string, Job)>)
    ensures |es| == |cands|
    ensures forall i :: 0 <= i < |es| ==> es[i].1 == cands[i]
    ensures forall i :: 0 <= i < |es| ==>
              (cands[i].status == Created && cands[i].jobId == Unassigned && cands[i].nSubmissions == 0
               ==> WellFormed(digest, es[i].0, es[i].1))
    ensures forall i, i' :: 0 <= i < |es| && 0 <= i' < |es| ==>
              (cands[i].can == cands[i'].can && cands[i].conformation == cands[i'].conformation
               && cands[i].maxNumConformers == cands[i'].maxNumConformers && cands[i].tasks == cands[i'].tasks
               ==> es[i].0 == es[i'].0)
  {
    seq(|cands|, i requires 0 <= i < |cands| => (KeyOf(digest, cands[i]), cands[i]))
  }

  /**
   Adding one record under its key: a key that is already present is
   skipped and the present record kept; otherwise exactly one entry is added.
   */
  function AddJob<V>(m: map<string, V>, e: (string, V)): (r: map<string, V>)
    ensures forall k :: k in m ==> k in r && r[k] == m[k]
    ensures e.0 in m ==> r == m
    ensures e.0 !in m ==> r.Keys == m.Keys + {e.0} && r[e.0] == e.1
  {
    if e.0 in m then m else m[e.0 := e.1]
  }

  /** A record under a new key grows the store by exactly one entry. */
  lemma AddJobAddsOne<V>(m: map<string, V>, e: (string, V))
    requires e.0 !in m
    ensures |AddJob(m, e)| == |m| + 1
  {
  }

  /**
   Adding the keyed records one after the other: no present record changes
   and every key ends up present.
   */
  function CreateAll<V>(m: map<string, V>, es: seq<(string, V)>): (r: map<string, V>)
    ensures forall k :: k in m ==> k in r && r[k] == m[k]
    ensures forall i :: 0 <= i < |es| ==> es[i].0 in r
    decreases |es|
  {
    if es == [] then m
    else
      var front := es[..|es| - 1];
      assert forall i :: 0 <= i < |front| ==> front[i] == es[i];
      AddJob(CreateAll(m, front), es[|es| - 1])
  }

  /** Adding the records up to i + 1 is adding record i to what adding those before it gave. */
  lemma CreateAllStep<V>(m: map<string, V>, es: seq<(string, V)>, i: nat)
    requires i < |es|
    ensures CreateAll(m, es[..i + 1]) == AddJob(CreateAll(m, es[..i]), es[i])
  {
    assert es[..i + 1][..i] == es[..i];
  }

  /** Every new entry is one of the records added, under its own key. */
  lemma {:induction false} CreateAllNewFromCandidates<V>(m: map<string, V>, es: seq<(string, V)>)
    ensures var r := CreateAll(m, es);
            forall k :: k in r && k !in m ==> (k, r[k]) in es
    decreases |es|
  {
    if es != [] {
      var front := es[..|es| - 1];
      CreateAllNewFromCandidates(m, front);
      assert forall e :: e in front ==> e in es;
    }
  }

  /**
   A new entry is the first record added under its key: later records with
   the same key are skipped.
   */
  lemma {:induction false} CreateAllFirstWins<V>(m: map<string, V>, es: seq<(string, V)>, i: nat)
    requires i < |es| && es[i].0 !in m
    requires forall i' :: 0 <= i' < i ==> es[i'].0 != es[i].0
    ensures CreateAll(m, es)[es[i].0] == es[i].1
    decreases |es|
  {
    var front := es[..|es| - 1];
    if i < |front| {
      assert front[i] == es[i];
      CreateAllFirstWins(m, front, i);
    } else {
      assert es[i].0 !in CreateAll(m, front) by {
        CreateAllNewFromCandidates(m, front);
      }
    }
  }

  /** Adding records whose keys are all present already changes nothing. */
  lemma {:induction false} CreateAllPresent<V>(m: map<string, V>, es: seq<(string, V)>)
    requires forall i :: 0 <= i < |es| ==> es[i].0 in m
    ensures CreateAll(m, es) == m
    decreases |es|
  {
    if es != [] {
      CreateAllPresent(m, es[..|es| - 1]);
    }
  }

  /** Creating the same jobs a second time is a no-op. */
  lemma CreateAllIdempotent<V>(m: map<string, V>, es: seq<(string, V)>)
    ensures CreateAll(CreateAll(m, es), es) == CreateAll(m, es)
  {
    CreateAllPresent(CreateAll(m, es), es);
  }

  /** Fresh jobs added under their fingerprints keep the store well formed. */
  lemma CreateAllWellFormed(digest: string -> string, jobs: Jobs, cands: seq<Job>)
    requires AllWellFormed(digest, jobs)
    requires forall j :: j in cands ==> j.status == Created && j.jobId == Unassigned && j.nSubmissions == 0
    ensures AllWellFormed(digest, CreateAll(jobs, Keyed(digest, cands)))
  {
    var es := Keyed(digest, cands);
    var r := CreateAll(jobs, es);
    CreateAllNewFromCandidates(jobs, es);
    forall k | k in r ensures WellFormed(digest, k, r[k]) {
      if k !in jobs {
        var i :| 0 <= i < |es| && es[i] == (k, r[k]);
        assert r[k] == cands[i] && k == KeyOf(digest, cands[i]);
      }
    }
  }

  // ---------------------------------------------------------------------------
  // submit_jobs_from_jobs_dict
  // ---------------------------------------------------------------------------

  /** A job after a successful `sbatch`: given its id, submitted, counted once more. */
  function MarkSubmitted(j: Job, id: string): (r: Job)
    ensures r.status == Submitted && r.jobId == Assigned(id) && r.nSubmissions == j.nSubmissions + 1
    ensures r.(jobId := j.jobId, status := j.status, nSubmissions := j.nSubmissions) == j
  {
    j.(jobId := Assigned(id), status := Submitted, nSubmissions := j.nSubmissions + 1)
  }

  /**
   How many jobs of the batch are submitted: the batch is worked through in
   order until an `sbatch` reply holds no job id, which raises and ends it.
   */
  function ParsedPrefix(batch: seq<string>, sbatchOut: string -> string): (n: nat)
    ensures n <= |batch|
    ensures forall i :: 0 <= i < n ==> ParseJobId(sbatchOut(batch[i])).Some?
    ensures n < |batch| ==> ParseJobId(sbatchOut(batch[n])).None?
  {
    if batch == [] || ParseJobId(sbatchOut(batch[0])).None? then 0
    else 1 + ParsedPrefix(batch[1..], sbatchOut)
  }

  /** The first n entries of a sequence of keys, as a set. */
  function PrefixKeys(s: seq<string>, n: nat): (ks: set<string>)
    requires n <= |s|
    ensures forall k :: k in ks <==> k in s[..n]
  {
    var ks := set i | 0 <= i < n :: s[i];
    assert forall k :: k in s[..n] ==> k in ks by {
      forall k | k in s[..n] ensures k in ks {
        var i :| 0 <= i < n && s[..n][i] == k;
        assert s[i] == k;
      }
    }
    ks
  }

  lemma PrefixKeysStep(s: seq<string>, n: nat)
    requires n < |s|
    ensures PrefixKeys(s, n + 1) == PrefixKeys(s, n) + {s[n]}
  {
    assert s[..n + 1] == s[..n] + [s[n]];
  }

  /** The jobs of the batch that were submitted. */
  function SubmittedKeys(batch: seq<string>, sbatchOut: string -> string): (ks: set<string>)
    ensures forall k :: k in ks ==> ParseJobId(sbatchOut(k)).Some?
  {
    PrefixKeys(batch, ParsedPrefix(batch, sbatchOut))
  }

  /** The store with the jobs under ks marked submitted with the ids read from their replies. */
  function MarkAll(jobs: Jobs, ks: set<string>, sbatchOut: string -> string): (r: Jobs)
    requires forall k :: k in ks ==> ParseJobId(sbatchOut(k)).Some?
    ensures r.Keys == jobs.Keys
    ensures forall k :: k in jobs && k in ks ==>
              r[k].status == Submitted && r[k].nSubmissions == jobs[k].nSubmissions + 1
              && r[k].jobId == Assigned(ParseJobId(sbatchOut(k)).value)
    ensures forall k :: k in jobs && k !in ks ==> r[k] == jobs[k]
  {
    map k | k in jobs :: if k in ks then MarkSubmitted(jobs[k], ParseJobId(sbatchOut(k)).value) else jobs[k]
  }

  /** Marking one more job is one update of the store. */
  lemma MarkAllStep(jobs: Jobs, ks: set<string>, key: string, sbatchOut: string -> string)
    requires forall k :: k in ks ==> ParseJobId(sbatchOut(k)).Some?
    requires ParseJobId(sbatchOut(key)).Some? && key !in ks
    ensures var r := MarkAll(jobs, ks, sbatchOut);
            MarkAll(jobs, ks + {key}, sbatchOut)
            == if key in jobs then r[key := MarkSubmitted(jobs[key], ParseJobId(sbatchOut(key)).value)] else r
  {
  }

  /** The store after submitting a batch (in full or up to the reply without an id). */
  function AfterSubmit(jobs: Jobs, batch: seq<string>, sbatchOut: string -> string): (r: Jobs)
    ensures r.Keys == jobs.Keys
    ensures forall k :: k in jobs && k !in batch ==> r[k] == jobs[k]
  {
    MarkAll(jobs, SubmittedKeys(batch, sbatchOut), sbatchOut)
  }

  /** Submission keeps the store well formed. */
  lemma AfterSubmitWellFormed(digest: string -> string, jobs: Jobs, batch: seq<string>, sbatchOut: string -> string)
    requires AllWellFormed(digest, jobs)
    ensures AllWellFormed(digest, AfterSubmit(jobs, batch, sbatchOut))
  {
    var r := AfterSubmit(jobs, batch, sbatchOut);
    forall k | k in r ensures WellFormed(digest, k, r[k]) {
      if k in SubmittedKeys(batch, sbatchOut) {
        assert KeyString(r[k]) == KeyString(jobs[k]);
      }
    }
  }

  /**
   What a submission does to the store: no job is added or removed; an
   empty batch changes nothing; every job submitted gets status submitted,
   the id read from its reply and one more submission; every other job is
   unchanged; and submission counters never go down.
   */
  lemma AfterSubmitEffect(jobs: Jobs, batch: seq<string>, sbatchOut: string -> string)
    ensures var r := AfterSubmit(jobs, batch, sbatchOut);
            var n := ParsedPrefix(batch, sbatchOut);
      && r.Keys == jobs.Keys
      && (batch == [] ==> r == jobs)
      && (forall k :: k in jobs && k in batch[..n] ==>
            r[k].status == Submitted && r[k].nSubmissions == jobs[k].nSubmissions + 1
            && Some(r[k].jobId.digits) == ParseJobId(sbatchOut(k)) && IsDigitString(r[k].jobId.digits))
      && (forall k :: k in jobs && k !in batch[..n] ==> r[k] == jobs[k])
      && (forall k :: k in jobs ==> jobs[k].nSubmissions <= r[k].nSubmissions <= jobs[k].nSubmissions + 1)
  {
    if batch == [] {
      assert SubmittedKeys(batch, sbatchOut) == {};
    }
  }

  // ---------------------------------------------------------------------------
  // retrieve_jobs
  // ---------------------------------------------------------------------------

  /** `ids_to_check`: the ids of the submitted jobs. */
  function IdsToCheck(jobs: Jobs): (ids: set<JobId>)
    ensures forall k :: k in jobs && jobs[k].status == Submitted ==> jobs[k].jobId in ids
    ensures forall id :: id in ids ==> exists k :: k in jobs && jobs[k].status == Submitted && jobs[k].jobId == id
  {
    set k | k in jobs && jobs[k].status == Submitted :: jobs[k].jobId
  }

  /** `running_ids`: the ids listed by `squeue` that are being checked. */
  function RunningIds(ids: set<JobId>, listed: seq<string>): (r: set<JobId>)
    ensures forall id :: id in r <==> id in ids && id.Assigned? && id.digits in listed
  {
    set s | s in listed && Assigned(s) in ids :: Assigned(s)
  }

  /**
   `finished_ids`: the ids being checked that `squeue` no longer lists.
   Together with `running_ids` they split the ids being checked in two.
   */
  function FinishedIds(ids: set<JobId>, listed: seq<string>): (r: set<JobId>)
    ensures r !! RunningIds(ids, listed) && r + RunningIds(ids, listed) == ids
    ensures forall id :: id in r <==> id in ids && !(id.Assigned? && id.digits in listed)
  {
    ids - RunningIds(ids, listed)
  }

  /** `finished_jobs`: every job of the store whose id is a finished id. */
  function FinishedKeys(jobs: Jobs, finished: set<JobId>): (ks: set<string>)
    ensures ks <= jobs.Keys
    ensures forall k :: k in jobs ==> (k in ks <==> jobs[k].jobId in finished)
  {
    set k | k in jobs && jobs[k].jobId in finished
  }

  /** The finished keys of a retrieval (none when nothing is submitted). */
  function RetrievedKeys(jobs: Jobs, squeueOut: string): (ks: set<string>)
    ensures ks <= jobs.Keys
    ensures forall k :: k in jobs ==>
              (k in ks <==> jobs[k].jobId in IdsToCheck(jobs)
                            && !(jobs[k].jobId.Assigned? && jobs[k].jobId.digits in UserRunningIds(squeueOut)))
  {
    var ids := IdsToCheck(jobs);
    if ids == {} then {} else FinishedKeys(jobs, FinishedIds(ids, UserRunningIds(squeueOut)))
  }

  /** The store after a retrieval: each finished job gets the status its log calls for. */
  function Retrieved(jobs: Jobs, squeueOut: string, fetchLog: string -> LogFetch): (r: Jobs)
    ensures r.Keys == jobs.Keys
    ensures forall k :: k in jobs && k in RetrievedKeys(jobs, squeueOut) ==>
              r[k] == jobs[k].(status := Classify(jobs[k].tasks, fetchLog(k)))
    ensures forall k :: k in jobs && k !in RetrievedKeys(jobs, squeueOut) ==> r[k] == jobs[k]
  {
    ClassifyAll(jobs, RetrievedKeys(jobs, squeueOut), fetchLog)
  }

  /** The store with the jobs under ks given the status their logs call for. */
  function ClassifyAll(jobs: Jobs, ks: set<string>, fetchLog: string -> LogFetch): Jobs
  {
    map k | k in jobs :: if k in ks then jobs[k].(status := Classify(jobs[k].tasks, fetchLog(k))) else jobs[k]
  }

  /** Classifying no job changes nothing and finds nothing done. */
  lemma ClassifyAllNone(jobs: Jobs, fetchLog: string -> LogFetch)
    ensures ClassifyAll(jobs, {}, fetchLog) == jobs && DoneAmong(jobs, {}, fetchLog) == {}
  {
  }

  /** Classifying one more job is one update of the store, and adds it to the done ones if it is done. */
  lemma ClassifyAllStep(jobs: Jobs, ks: set<string>, key: string, fetchLog: string -> LogFetch)
    requires key in jobs && key !in ks
    ensures var r := ClassifyAll(jobs, ks, fetchLog);
            var st := Classify(jobs[key].tasks, fetchLog(key));
            && ClassifyAll(jobs, ks + {key}, fetchLog) == r[key := jobs[key].(status := st)]
            && |DoneAmong(jobs, ks + {key}, fetchLog)| == |DoneAmong(jobs, ks, fetchLog)| + (if st == Done then 1 else 0)
  {
    var st := Classify(jobs[key].tasks, fetchLog(key));
    var before := DoneAmong(jobs, ks, fetchLog);
    assert key !in before;
    assert DoneAmong(jobs, ks + {key}, fetchLog) == before + (if st == Done then {key} else {});
  }

  /** The finished jobs classified done. */
  function DoneAmong(jobs: Jobs, keys: set<string>, fetchLog: string -> LogFetch): set<string>
  {
    set k | k in keys && k in jobs && Classify(jobs[k].tasks, fetchLog(k)) == Done
  }

  /**
   In a well-formed store only submitted jobs' ids are checked, so a
   retrieval touches no job that was never submitted, changes nothing but
   statuses, and keeps the store well formed.
   */
  lemma RetrievedFrame(digest: string -> string, jobs: Jobs, squeueOut: string, fetchLog: string -> LogFetch)
    requires AllWellFormed(digest, jobs)
    ensures var r := Retrieved(jobs, squeueOut, fetchLog);
      && r.Keys == jobs.Keys
      && (forall k :: k in jobs && jobs[k].status == Created ==> k !in RetrievedKeys(jobs, squeueOut) && r[k] == jobs[k])
      && (forall k :: k in jobs ==> r[k] == jobs[k].(status := r[k].status))
      && AllWellFormed(digest, r)
  {
    var r := Retrieved(jobs, squeueOut, fetchLog);
    IdsToCheckAssigned(digest, jobs);
    forall k | k in r ensures WellFormed(digest, k, r[k]) {
      assert KeyString(r[k]) == KeyString(jobs[k]);
      assert WellFormed(digest, k, jobs[k]);
    }
  }

  /** In a well-formed store every id being checked has been assigned. */
  lemma IdsToCheckAssigned(digest: string -> string, jobs: Jobs)
    requires AllWellFormed(digest, jobs)
    ensures forall id :: id in IdsToCheck(jobs) ==> id.Assigned?
  {
    forall id | id in IdsToCheck(jobs) ensures id.Assigned? {
      var k :| k in jobs && jobs[k].status == Submitted && jobs[k].jobId == id;
      assert WellFormed(digest, k, jobs[k]);
    }
  }

  /** The done count of a retrieval is the number of finished jobs that are now done. */
  lemma RetrievedDoneCount(jobs: Jobs, squeueOut: string, fetchLog: string -> LogFetch)
    ensures var ks := RetrievedKeys(jobs, squeueOut);
            var r := Retrieved(jobs, squeueOut, fetchLog);
            DoneAmong(jobs, ks, fetchLog) == set k | k in ks && k in r && r[k].status == Done
  {
  }

  // ---------------------------------------------------------------------------
  // resubmit_incomplete_jobs
  // ---------------------------------------------------------------------------

  /** The number of submissions after which an incomplete job is no longer resubmitted. */
  const MaxSubmissions := 3

  /** The incomplete jobs, in visiting order, that are still under the resubmission cap. */
  function SelectForResubmit(jobs: Jobs, order: seq<string>): (sel: seq<string>)
    requires forall i :: 0 <= i < |order| ==> order[i] in jobs
    ensures |sel| <= |order|
    ensures forall t :: 0 <= t < |sel| ==> sel[t] in jobs && jobs[sel[t]].nSubmissions < MaxSubmissions
  {
    if order == [] then []
    else
      var front, last := order[..|order| - 1], order[|order| - 1];
      var rest := SelectForResubmit(jobs, front);
      if jobs[last].nSubmissions < MaxSubmissions then rest + [last] else rest
  }

  /** The selection holds exactly the visited jobs that are under the cap. */
  lemma {:induction false} SelectForResubmitIn(jobs: Jobs, order: seq<string>)
    requires forall i :: 0 <= i < |order| ==> order[i] in jobs
    ensures forall k :: k in SelectForResubmit(jobs, order) <==> k in order && jobs[k].nSubmissions < MaxSubmissions
  {
    if order != [] {
      var front, last := order[..|order| - 1], order[|order| - 1];
      SelectForResubmitIn(jobs, front);
      assert order == front + [last];
    }
  }

  /** Visiting each job once selects each job once. */
  lemma {:induction false} SelectForResubmitDistinct(jobs: Jobs, order: seq<string>)
    requires forall i :: 0 <= i < |order| ==> order[i] in jobs
    requires Distinct(order)
    ensures Distinct(SelectForResubmit(jobs, order))
  {
    if order != [] {
      var front, last := order[..|order| - 1], order[|order| - 1];
      var rest := SelectForResubmit(jobs, front);
      assert Distinct(front);
      SelectForResubmitDistinct(jobs, front);
      SelectForResubmitIn(jobs, front);
      assert last !in front;
      if jobs[last].nSubmissions < MaxSubmissions {
        assert last !in rest;
        assert SelectForResubmit(jobs, order) == rest + [last];
      }
    }
  }

  /**
   The selection holds exactly the jobs of the visiting order that are under
   the cap, each once, in visiting order.
   */
  lemma SelectForResubmitMembers(jobs: Jobs, order: seq<string>)
    requires forall i :: 0 <= i < |order| ==> order[i] in jobs
    ensures var sel := SelectForResubmit(jobs, order);
      && (forall k :: k in sel <==> k in order && jobs[k].nSubmissions < MaxSubmissions)
      && (Distinct(order) ==> Distinct(sel))
      && |sel| <= |order|
  {
    SelectForResubmitIn(jobs, order);
    if Distinct(order) {
      SelectForResubmitDistinct(jobs, order);
    }
  }

  /** Selecting from a prefix of the visiting order gives a prefix of the selection. */
  lemma {:induction false} SelectForResubmitPrefix(jobs: Jobs, order: seq<string>, i: nat)
    requires forall i :: 0 <= i < |order| ==> order[i] in jobs
    requires i <= |order|
    ensures SelectForResubmit(jobs, order[..i]) <= SelectForResubmit(jobs, order)
    decreases |order|
  {
    if i < |order| {
      var front := order[..|order| - 1];
      assert front[..i] == order[..i];
      SelectForResubmitPrefix(jobs, front, i);
    } else {
      assert order[..i] == order;
    }
  }

  /** Visiting one more job adds it to the selection exactly when it is under the cap. */
  lemma SelectForResubmitStep(jobs: Jobs, order: seq<string>, i: nat)
    requires forall i :: 0 <= i < |order| ==> order[i] in jobs
    requires i < |order|
    ensures SelectForResubmit(jobs, order[..i + 1])
            == SelectForResubmit(jobs, order[..i]) + (if jobs[order[i]].nSubmissions < MaxSubmissions then [order[i]] else [])
  {
    assert order[..i + 1][..i] == order[..i];
  }

  /**
   What patching a job's input file works from: the coordinate block found
   in the input file (None when the pattern does not match), and the rows
   of the last geometry in the log (None when the extractor raises).
   */
  datatype PatchInput = PatchInput(oldBlock: Option<string>, newRows: Option<seq<seq<string>>>)

  /** Why patching an input file raised, which aborts the resubmission. */
  datatype AbortReason = ExtractorRaised | NoCoordsBlock | LineCountMismatch

  /**
   The check made while patching one job's input file, in the order the
   steps are taken: the extractor is built, the old block is searched for,
   and the two blocks must have the same number of lines.
   */
  function PatchCheck(p: PatchInput): (r: Option<AbortReason>)
    ensures r.None? <==> p.newRows.Some? && p.oldBlock.Some?
                         && SameLineCount(p.oldBlock.value, CoordsBlock(p.newRows.value))
    ensures r == Some(ExtractorRaised) <==> p.newRows.None?
    ensures r == Some(LineCountMismatch) <==>
              (p.newRows.Some? && p.oldBlock.Some? && !SameLineCount(p.oldBlock.value, CoordsBlock(p.newRows.value)))
  {
    if p.newRows.None? then Some(ExtractorRaised)
    else if p.oldBlock.None? then Some(NoCoordsBlock)
    else if !SameLineCount(p.oldBlock.value, CoordsBlock(p.newRows.value)) then Some(LineCountMismatch)
    else None
  }

  /** The first selected job whose input file cannot be patched; its exception aborts the resubmission. */
  function FirstAbort(sel: seq<string>, patch: string -> PatchInput): (r: Option<nat>)
    ensures r.None? <==> forall i :: 0 <= i < |sel| ==> PatchCheck(patch(sel[i])).None?
    ensures r.Some? ==> r.value < |sel| && PatchCheck(patch(sel[r.value])).Some?
                        && forall i :: 0 <= i < r.value ==> PatchCheck(patch(sel[i])).None?
  {
    if sel == [] then None
    else if PatchCheck(patch(sel[0])).Some? then Some(0)
    else
      var tail := sel[1..];
      var r := FirstAbort(tail, patch);
      assert forall i :: 1 <= i < |sel| ==> sel[i] == tail[i - 1];
      if r.None? then None else Some(r.value + 1)
  }

  /** The first abort is at p when p cannot be patched and everything before it can. */
  lemma {:induction false} FirstAbortAt(sel: seq<string>, patch: string -> PatchInput, p: nat)
    requires p < |sel| && PatchCheck(patch(sel[p])).Some?
    requires forall i :: 0 <= i < p ==> PatchCheck(patch(sel[i])).None?
    ensures FirstAbort(sel, patch) == Some(p)
    decreases p
  {
    if p > 0 {
      assert PatchCheck(patch(sel[0])).None?;
      var tail := sel[1..];
      assert tail[p - 1] == sel[p];
      assert forall i :: 0 <= i < p - 1 ==> tail[i] == sel[i + 1];
      FirstAbortAt(tail, patch, p - 1);
    }
  }

  /**
   When the jobs selected from the first i in the visiting order can all be
   patched and job i is under the cap but cannot be, job i is the first
   abort of the whole selection.
   */
  lemma AbortAtVisit(jobs: Jobs, order: seq<string>, patch: string -> PatchInput, i: nat)
    requires forall i :: 0 <= i < |order| ==> order[i] in jobs
    requires i < |order| && jobs[order[i]].nSubmissions < MaxSubmissions && PatchCheck(patch(order[i])).Some?
    requires var sel := SelectForResubmit(jobs, order[..i]);
             forall t :: 0 <= t < |sel| ==> PatchCheck(patch(sel[t])).None?
    ensures var all := SelectForResubmit(jobs, order);
            var p := |SelectForResubmit(jobs, order[..i])|;
            p < |all| && all[p] == order[i] && FirstAbort(all, patch) == Some(p)
  {
    var sel := SelectForResubmit(jobs, order[..i]);
    SelectForResubmitStep(jobs, order, i);
    SelectForResubmitPrefix(jobs, order, i + 1);
    var all := SelectForResubmit(jobs, order);
    assert all[|sel|] == (sel + [order[i]])[|sel|];
    FirstAbortAt(all, patch, |sel|);
  }

  /** A job selected for resubmission goes out with at most the capped number of submissions. */
  lemma ResubmitCap(jobs: Jobs, order: seq<string>, sbatchOut: string -> string)
    requires forall i :: 0 <= i < |order| ==> order[i] in jobs
    ensures var sel := SelectForResubmit(jobs, order);
            var r := AfterSubmit(jobs, sel, sbatchOut);
            forall k :: k in sel ==> k in r && r[k].nSubmissions <= MaxSubmissions
  {
    SelectForResubmitMembers(jobs, order);
  }

  /**
   When the extractor raises for every visited job, as it does again on the
   same log if its verdict at retrieval was an exception from reading it, a
   resubmission with any job under the cap is aborted at its first job.
   */
  lemma ResubmitAbortsWhenExtractorRaises(jobs: Jobs, order: seq<string>, patch: string -> PatchInput)
    requires forall i :: 0 <= i < |order| ==> order[i] in jobs
    requires forall k :: k in order ==> patch(k).newRows.None?
    ensures var sel := SelectForResubmit(jobs, order);
            sel == [] || (FirstAbort(sel, patch) == Some(0) && PatchCheck(patch(sel[0])) == Some(ExtractorRaised))
  {
    SelectForResubmitIn(jobs, order);
  }

  // ---------------------------------------------------------------------------
  // upload_done_molecules_to_db
  // ---------------------------------------------------------------------------

  /** The molecules with jobs in the store. */
  function CansOf(jobs: Jobs): set<string>
  {
    set k | k in jobs :: jobs[k].can
  }

  function JobsOfCan(jobs: Jobs, c: string): set<string>
  {
    set k | k in jobs && jobs[k].can == c
  }

  function DoneJobsOfCan(jobs: Jobs, c: string): set<string>
  {
    set k | k in jobs && jobs[k].can == c && jobs[k].status == Done
  }

  /** The molecules whose count of done jobs equals their count of jobs. */
  function DoneCans(jobs: Jobs): (cs: set<string>)
    ensures cs <= CansOf(jobs)
    ensures forall c :: c in CansOf(jobs) ==> (c in cs <==> |DoneJobsOfCan(jobs, c)| == |JobsOfCan(jobs, c)|)
  {
    set c | c in CansOf(jobs) && |DoneJobsOfCan(jobs, c)| == |JobsOfCan(jobs, c)|
  }

  /** A molecule qualifies for upload exactly when it has jobs and all of them are done. */
  lemma DoneCansAllDone(jobs: Jobs, c: string)
    ensures c in DoneCans(jobs) <==>
              (exists k :: k in jobs && jobs[k].can == c)
              && forall k :: k in jobs && jobs[k].can == c ==> jobs[k].status == Done
  {
    var all, done := JobsOfCan(jobs, c), DoneJobsOfCan(jobs, c);
    assert done <= all;
    if c in DoneCans(jobs) {
      assert |all - done| == |all| - |done| == 0;
      assert all - done == {};
      forall k | k in jobs && jobs[k].can == c ensures jobs[k].status == Done {
        assert k in all;
      }
    }
  }

  /** The jobs handed to upload and then removed: every job of the qualifying molecules. */
  function UploadKeys(jobs: Jobs): (ks: set<string>)
    ensures ks <= jobs.Keys
    ensures forall k :: k in jobs ==> (k in ks <==> jobs[k].can in DoneCans(jobs))
  {
    GetJobs(jobs, None, CanList(DoneCans(jobs))).Keys
  }

  /**
   Upload removes only done jobs, and a molecule with any job that is not
   done (a failed conformer, say) keeps all of its jobs in the store.
   */
  lemma UploadKeysAllDone(jobs: Jobs)
    ensures forall k :: k in UploadKeys(jobs) ==> k in jobs && jobs[k].status == Done
    ensures forall k, k' :: k in jobs && k' in jobs && jobs[k].can == jobs[k'].can && jobs[k'].status != Done
                           ==> k !in UploadKeys(jobs)
    ensures UploadKeys(jobs) != {} ==> GetJobs(jobs, Some(Done), AnyCan) != map[]
  {
    forall k | k in UploadKeys(jobs) ensures k in jobs && jobs[k].status == Done {
      DoneCansAllDone(jobs, jobs[k].can);
    }
    forall k, k' | k in jobs && k' in jobs && jobs[k].can == jobs[k'].can && jobs[k'].status != Done
      ensures k !in UploadKeys(jobs)
    {
      DoneCansAllDone(jobs, jobs[k].can);
    }
    if UploadKeys(jobs) != {} {
      var k :| k in UploadKeys(jobs);
      assert k in GetJobs(jobs, Some(Done), AnyCan);
    }
  }

  // ---------------------------------------------------------------------------
  // remove_jobs and _scancel
  // ---------------------------------------------------------------------------

  /**
   How many of the names are deleted: they are deleted in order until one
   is not in the store, whose `del` raises KeyError and ends the removal.
   */
  function FoundPrefix(jobs: Jobs, names: seq<string>): (n: nat)
    ensures n <= |names|
    ensures forall i :: 0 <= i < n ==> names[i] in jobs
    ensures n < |names| ==> names[n] !in jobs
  {
    if names == [] || names[0] !in jobs then 0 else 1 + FoundPrefix(jobs, names[1..])
  }

  /** Deleting one more name. */
  lemma RemoveStep(jobs: Jobs, names: seq<string>, i: nat)
    requires i < |names|
    ensures jobs - PrefixKeys(names, i + 1) == (jobs - PrefixKeys(names, i)) - {names[i]}
  {
    PrefixKeysStep(names, i);
  }

  /** Names that are all in the store are all deleted. */
  lemma FoundPrefixAll(jobs: Jobs, names: seq<string>)
    requires forall i :: 0 <= i < |names| ==> names[i] in jobs
    ensures FoundPrefix(jobs, names) == |names|
    ensures names[..FoundPrefix(jobs, names)] == names
  {
  }

  /** The jobs that `_scancel` removes: those in status submitted. */
  function SubmittedJobs(jobs: Jobs): (ks: set<string>)
    ensures forall k :: k in ks <==> k in jobs && jobs[k].status == Submitted
  {
    GetJobs(jobs, Some(Submitted), AnyCan).Keys
  }

  /** After the submitted jobs are removed no job is submitted, and every other job is kept as it was. */
  lemma ScancelEffect(jobs: Jobs)
    ensures var r := jobs - SubmittedJobs(jobs);
      && (forall k :: k in r ==> r[k].status != Submitted && r[k] == jobs[k])
      && (forall k :: k in jobs && jobs[k].status != Submitted ==> k in r)
  {
  }

  /** Removal keeps the store well formed. */
  lemma RemoveWellFormed(digest: string -> string, jobs: Jobs, names: set<string>)
    requires AllWellFormed(digest, jobs)
    ensures AllWellFormed(digest, jobs - names)
  {
  }
}

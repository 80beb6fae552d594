# Job lifecycle of the auto-qchem Slurm manager

auto-qchem runs Gaussian DFT calculations for the conformers of a molecule on a
Slurm cluster. The `slurm_manager` object keeps the jobs it manages in a
dictionary. The key of each job is the MD5 digest of a string built from the
job. The value is the job record: its canonical smiles (`can`), conformation,
conformer count, Gaussian tasks, Gaussian configuration, Slurm job id,
directory, base name, status and submission count.

Jobs move through five statuses: created, submitted, done, incomplete and
failed. The operations that move them are:

- **create** records one job per generated input file and skips any key already present.
- **submit** runs `sbatch` for each job and reads the job id out of its reply.
- **retrieve** asks `squeue` which jobs still run and classifies the others from their log.
- **resubmit** patches the geometry of incomplete jobs and submits them again, at most three times in all.
- **upload** picks the molecules whose jobs are all done, then removes those jobs.
- **remove** and **scancel** delete jobs from the store.

This project models that store and those operations in Dafny:

- `wrappers.dfy`: `Option`.
- `text.dfy`: the Python string built-ins the bookkeeping relies on: `splitlines`, `split(',')[0]`, `join`, `strip` and `str(int)`.
- `slurm_job.dfy`: the job record, the key string, and the classification of a finished job.
- `slurm_output.dfy`: the text read back from Slurm:
  - the `job\s*(\d+)\n` search of the `sbatch` reply;
  - the job-id column of `squeue -o %A,%T`;
  - the line count of a coordinate block.
- `job_store.dfy`: the store as a map value. Each operation's effect is a function of the old store, with lemmas about those functions.
- `slurm_manager.dfy`: the class `SlurmManager` with a `jobs` map field. Its methods update the field with the loops of the source and are proved equal to the `JobStore` functions.

The invariant `SlurmManager.Valid` holds before and after every method except `RetrieveSingleJob` and `RetrieveFinished`. Those two are the inner steps of `RetrieveJobs`, which calls them only on jobs whose id is the id of a submitted job, and which proves `Valid` itself. Classifying a job that was never submitted would break the invariant. The invariant says that every job is filed under the digest of its own key string. It also says that three facts agree: whether a job is still created, whether its id is unassigned, and whether it has never been submitted. Finally, an assigned id is a digit string.

Things about the source that the proofs bring out:

- **The key string has no separators.** It is `can + str(conformation) + str(max_num_conformers) + ','.join(tasks)`, and the Gaussian configuration is not part of it. `SlurmJob.KeyStringCollision` shows two jobs of one molecule that share a key: conformer 1 of a 234-conformer run and conformer 12 of a 34-conformer run. `SlurmJob.KeyStringSeparatesTasks` shows that the task list is still told apart. Two creations that differ only in configuration therefore yield one record.
- **Classification follows the code.** Lines 212-213 build the extractor and then compare `len(job.tasks)` with `le.n_tasks`, inside one `try`. The `except` clauses of lines 220-234 catch the extractor's exceptions. Whether the extractor raises while it is built or when `n_tasks` is read, the exception comes before the comparison. So a log without geometry, with a negative frequency or with an unfinished optimization is classified by that exception, whatever its task count is. A task-count mismatch decides the status only when the extractor raises nothing (lines 213-218).
- **A patching failure during resubmission aborts the whole call.** The patch of lines 268-283 has no `try`, and the jobs collected are submitted only after the loop, at line 291. So the line-count `assert` of line 283, or any exception while patching, leaves the method before anything is submitted, even for jobs patched before the failure.
- **A reply without a job id ends a submission batch.** At line 159 `re.search` returns None and `.group(1)` raises, with no `try` around it. The jobs submitted before it keep the state lines 159-161 gave them. The failing job and the ones after it are unchanged, and `_cache` at line 164 is not reached.
- **Resubmission reads the same log again.** Line 268 builds the extractor on `{directory}/{base_name}.log`, the local file that lines 208-209 fetched at retrieval. If the extractor raises NegativeFrequency or OptimizationIncomplete while it is built, it raises again at line 268 for every incomplete job under the cap. `JobStore.ResubmitAbortsWhenExtractorRaises` shows that the resubmission is then aborted at its first job, so nothing is ever resubmitted. If instead the exception comes from reading `n_tasks`, line 268 can succeed. The extractor's code is not part of this model, so the model leaves both readings open.

## Model

| member | source | states |
|---|---|---|
| SlurmJob.NewJob | autoqchem/slurm_manager.py:106-116 | a new job has status created, an unassigned id (-1) and no submissions, and carries the given molecule, conformation, conformer count, tasks, config, directory and base name |
| SlurmJob.KeyString | autoqchem/slurm_manager.py:119-120 | the key string begins with the canonical smiles and ends with the comma-joined tasks, with at least two characters (the two numbers) between them |
| SlurmJob.KeyStringIgnoresOtherFields | autoqchem/slurm_manager.py:119-120 | the key string depends only on can, conformation, conformer count and tasks; config, id, paths, status and counters do not enter it |
| SlurmJob.KeyStringSeparatesTasks | autoqchem/slurm_manager.py:119-120 | for jobs that agree on can, conformation and conformer count, different lists of non-empty comma-free tasks (a reordering, say) give different key strings |
| SlurmJob.KeyStringCollision | autoqchem/slurm_manager.py:119-120 | without separators, conformation 1 with 234 conformers and conformation 12 with 34 conformers give the same key string |
| SlurmJob.Classify | autoqchem/slurm_manager.py:207-234 | the status is done, incomplete or failed; done exactly when the log was fetched and the extractor counts as many tasks as the job has; incomplete exactly on a negative frequency or an unfinished optimization; failed exactly on a missing log, a log without geometry, or a task-count mismatch |
| SlurmJob.ClassifyFailuresIgnoreTasks | autoqchem/slurm_manager.py:207-234 | when the log is missing or the extractor raises, the tasks do not affect the status: the exception is raised before the count is compared |
| Text.SplitTerminated | autoqchem/slurm_manager.py:179 | `splitlines` of a text of newline-terminated lines gives back exactly those lines |
| Text.FirstField | autoqchem/slurm_manager.py:179 | `s.split(',')[0]` is a comma-free prefix of s that ends at the end of s or at its first comma |
| Text.SplitLines | autoqchem/slurm_manager.py:179 | `splitlines` gives lines without line boundaries, no more lines than characters, and no lines exactly for the empty text |
| Text.JoinInjective | autoqchem/slurm_manager.py:120 | `','.join` gives different strings for different lists of non-empty comma-free parts |
| Text.NatToStringRoundTrip | autoqchem/slurm_manager.py:119 | the decimal rendering of a natural number reads back as that number |
| Text.StripEmptyIffBlank | autoqchem/slurm_manager.py:371 | a tag strips to the empty string exactly when every character of it is whitespace |
| Text.Strip | autoqchem/slurm_manager.py:371 | `strip` leaves the slice of the tag after its leading whitespace and before its trailing whitespace, and the slice neither begins nor ends with whitespace |
| Text.IntToString | autoqchem/slurm_manager.py:119 | `str` of an integer is non-empty and begins with a minus sign exactly for a negative number |
| SlurmOutput.SearchJobId | autoqchem/slurm_manager.py:159 | the search from a position returns the match at the leftmost matching position at or after it, or None when no position there matches |
| SlurmOutput.ParseJobIdLeftmost | autoqchem/slurm_manager.py:159 | the id read from an `sbatch` reply is the digit group of the leftmost match of `job\s*(\d+)\n`, and there is none exactly when no position matches |
| SlurmOutput.ParseJobId | autoqchem/slurm_manager.py:159 | an id read from an `sbatch` reply is a non-empty string of digits |
| SlurmOutput.ParseJobIdAfter | autoqchem/slurm_manager.py:159 | "job ", digits and a newline, after text without a 'j', are read as those digits |
| SlurmOutput.SbatchReplyRoundTrip | autoqchem/slurm_manager.py:158-159 | the reply "Submitted batch job N\n" yields the decimal digits of N |
| SlurmOutput.MatchJobIdAt | autoqchem/slurm_manager.py:159 | a match of `job\s*(\d+)\n` at one position yields a non-empty digit string |
| SlurmOutput.MatchJobIdAtComplete | autoqchem/slurm_manager.py:159 | wherever the pattern matches at a position, with any whitespace run and digit run, the matcher yields the digits of that match |
| SlurmOutput.MatchJobIdAtSound | autoqchem/slurm_manager.py:159 | the matcher yields a group only where the pattern matches with that group |
| SlurmOutput.ParseJobIdPattern | autoqchem/slurm_manager.py:159 | the id read is the group of the leftmost position where the pattern matches; there is none exactly when the pattern matches nowhere |
| SlurmOutput.UserRunningIds | autoqchem/slurm_manager.py:178-179 | one id per line after the header, each the whole first comma field of its line: a comma-free prefix that ends at the line's first comma or at its end |
| SlurmOutput.UserRunningIdsOfTable | autoqchem/slurm_manager.py:178-179 | under a header line, `squeue` rows "id,state" yield exactly the list of ids |
| SlurmOutput.CoordsBlockLines | autoqchem/slurm_manager.py:280-283 | a new coordinate block has one line per atom row plus the closing blank line, and two lines when there are no rows |
| SlurmOutput.CoordsBlock | autoqchem/slurm_manager.py:280 | the new coordinate block ends with the blank line that closes it |
| SlurmOutput.SameLineCountOfRows | autoqchem/slurm_manager.py:283 | the line-count assert passes for a non-empty new block exactly when the old block has one line per atom row plus the closing blank line |
| JobStore.GetJobs | autoqchem/slurm_manager.py:423-433 | the result is a sub-map of the store, holding exactly the entries whose status equals the one given (if any) and whose can is the one given or in the list given (if any); the `match` helper is the predicate `JobStore.Matches` |
| JobStore.OneCanIsSingletonList | autoqchem/slurm_manager.py:428-430 | filtering by one smiles is filtering by the one-element list that holds it |
| JobStore.Candidates | autoqchem/slurm_manager.py:101-116 | one record per generated file, in file order, each created, without an id, never submitted, and carrying the molecule's settings with the file's conformation and base name |
| JobStore.Keyed | autoqchem/slurm_manager.py:119-126 | each candidate keeps its position; a fresh candidate is a well-formed entry under its key; candidates agreeing on smiles, conformation, conformer count and tasks get the same key, so the later one is skipped |
| JobStore.KeyOfStable | autoqchem/slurm_manager.py:119-120 | jobs that agree on smiles, conformation, conformer count and tasks get the same fingerprint, whatever their configuration, id, paths, status or counters |
| JobStore.AddJob | autoqchem/slurm_manager.py:122-129 | all present entries are kept; a key already present leaves the store unchanged; otherwise exactly that key is added, with that record |
| JobStore.AddJobAddsOne | autoqchem/slurm_manager.py:129 | a record under a new key grows the store by exactly one entry |
| JobStore.CreateAll | autoqchem/slurm_manager.py:101-129 | after adding the records in turn, every present entry is kept and every record's key is present |
| JobStore.CreateAllStep | autoqchem/slurm_manager.py:101-129 | adding the first i + 1 records is adding record i to the result of adding the first i |
| JobStore.CreateAllNewFromCandidates | autoqchem/slurm_manager.py:101-129 | every entry that was not present before is one of the records added, under its own key |
| JobStore.CreateAllFirstWins | autoqchem/slurm_manager.py:122-129 | a new key ends up holding the first record added under it; later ones with the same key are skipped |
| JobStore.CreateAllPresent | autoqchem/slurm_manager.py:122-127 | adding records whose keys are all present changes nothing |
| JobStore.CreateAllIdempotent | autoqchem/slurm_manager.py:122-127 | creating the same jobs twice gives the same store as creating them once |
| JobStore.CreateAllWellFormed | autoqchem/slurm_manager.py:106-129 | fresh jobs filed under their digests keep the store well formed |
| JobStore.MarkSubmitted | autoqchem/slurm_manager.py:159-161 | a submitted job has status submitted, the id read, one more submission, and every other field unchanged |
| JobStore.ParsedPrefix | autoqchem/slurm_manager.py:152-161 | the batch is submitted up to (not including) the first reply without a job id; every reply before it has one |
| JobStore.PrefixKeys | autoqchem/slurm_manager.py:152 | the set of the first n keys of the batch holds exactly the keys of that prefix |
| JobStore.SubmittedKeys | autoqchem/slurm_manager.py:152-161 | every job counted as submitted has a reply with a job id |
| JobStore.MarkAll | autoqchem/slurm_manager.py:159-161 | marking keeps every key; each marked job is submitted with one more submission and the id read from its reply; every other job is unchanged |
| JobStore.AfterSubmit | autoqchem/slurm_manager.py:152-161 | submission keeps every key and leaves every job outside the batch unchanged |
| JobStore.MarkAllStep | autoqchem/slurm_manager.py:152-161 | submitting one more job of the batch is one update of its entry |
| JobStore.AfterSubmitEffect | autoqchem/slurm_manager.py:147-164 | submission adds and removes no key; an empty batch changes nothing; each job submitted is submitted with one more submission and the digit id read from its reply; every other job is unchanged; counters never decrease and grow by at most one |
| JobStore.AfterSubmitWellFormed | autoqchem/slurm_manager.py:159-161 | submission keeps the store well formed |
| JobStore.IdsToCheck | autoqchem/slurm_manager.py:169 | the ids checked are exactly the ids of the submitted jobs |
| JobStore.RunningIds | autoqchem/slurm_manager.py:180 | an id is running exactly when it is being checked and is listed by `squeue` |
| JobStore.FinishedIds | autoqchem/slurm_manager.py:181 | the finished ids and the running ids are disjoint and together are the ids being checked; an id is finished exactly when it is checked and not listed |
| JobStore.FinishedKeys | autoqchem/slurm_manager.py:186 | the finished jobs are exactly the jobs of the store whose id is a finished id |
| JobStore.RetrievedKeys | autoqchem/slurm_manager.py:169-186 | a job is retrieved exactly when its id is the id of a submitted job and `squeue` no longer lists it |
| JobStore.Retrieved | autoqchem/slurm_manager.py:186-194 | a retrieval keeps every key, gives each retrieved job the status its log calls for, and leaves every other job unchanged |
| JobStore.IdsToCheckAssigned | autoqchem/slurm_manager.py:169 | in a well-formed store every id checked is an assigned one, never the -1 of a created job |
| JobStore.ClassifyAllNone | autoqchem/slurm_manager.py:169-172 | with no finished job nothing changes and nothing is done |
| JobStore.ClassifyAllStep | autoqchem/slurm_manager.py:191-194 | classifying one more finished job updates only its status and adds one to the done count exactly when it is classified done |
| JobStore.RetrievedFrame | autoqchem/slurm_manager.py:169-198 | in a well-formed store a retrieval keeps every key, never touches a job that was never submitted, changes no field but the status, and keeps the store well formed |
| JobStore.RetrievedDoneCount | autoqchem/slurm_manager.py:187-194 | the jobs counted done are exactly the finished jobs whose new status is done |
| JobStore.SelectForResubmit | autoqchem/slurm_manager.py:257-262 | the selection is no longer than the visiting order, and every job in it is in the store and under the cap of 3 |
| JobStore.SelectForResubmitIn | autoqchem/slurm_manager.py:257-262 | a job is selected exactly when it is visited and has fewer than 3 submissions |
| JobStore.SelectForResubmitDistinct | autoqchem/slurm_manager.py:257-289 | visiting each job once selects each job once |
| JobStore.SelectForResubmitMembers | autoqchem/slurm_manager.py:257-262 | the selection holds exactly the visited jobs with fewer than 3 submissions, each once, and is no longer than the visiting order |
| JobStore.SelectForResubmitStep | autoqchem/slurm_manager.py:257-289 | visiting one more job appends it to the selection exactly when it is under the cap |
| JobStore.SelectForResubmitPrefix | autoqchem/slurm_manager.py:257-289 | the selection from a prefix of the visiting order is a prefix of the whole selection |
| JobStore.PatchCheck | autoqchem/slurm_manager.py:268-283 | patching succeeds exactly when the extractor yields a geometry, the old block is found, and the two blocks have the same line count; the extractor's failure comes first; a line-count mismatch is reported exactly when both blocks exist and their counts differ |
| JobStore.FirstAbort | autoqchem/slurm_manager.py:257-289 | None exactly when every selected job can be patched; otherwise the index of the first one that cannot, all before it being patchable |
| JobStore.FirstAbortAt | autoqchem/slurm_manager.py:257-289 | the first abort is at p when p cannot be patched and everything before it can |
| JobStore.AbortAtVisit | autoqchem/slurm_manager.py:257-289 | the first job under the cap that cannot be patched, when all selected before it can, is the first abort of the whole selection |
| JobStore.ResubmitCap | autoqchem/slurm_manager.py:260-291 | every job resubmitted goes out with at most 3 submissions in all |
| JobStore.ResubmitAbortsWhenExtractorRaises | autoqchem/slurm_manager.py:208-212 | when the extractor raises again for every visited job, a resubmission with any job under the cap aborts at its first job, with the extractor's failure as the reason |
| JobStore.DoneCansAllDone | autoqchem/slurm_manager.py:312-314 | a molecule qualifies for upload exactly when it has jobs in the store and all of them are done |
| JobStore.DoneCans | autoqchem/slurm_manager.py:312-314 | the qualifying molecules are molecules of the store, and a molecule qualifies exactly when its done count equals its job count |
| JobStore.UploadKeys | autoqchem/slurm_manager.py:329 | the jobs uploaded are exactly the jobs of the store whose molecule qualifies |
| JobStore.UploadKeysAllDone | autoqchem/slurm_manager.py:329-350 | the jobs uploaded and removed are all done; a molecule with any job that is not done keeps all its jobs; jobs are uploaded only when some job is done |
| JobStore.FoundPrefix | autoqchem/slurm_manager.py:456-462 | the names are deleted up to the first one missing from the store, whose `del` raises; every name before it is present |
| JobStore.FoundPrefixAll | autoqchem/slurm_manager.py:456-462 | names that are all in the store are all deleted |
| JobStore.RemoveStep | autoqchem/slurm_manager.py:462 | deleting one more name removes exactly that key |
| JobStore.RemoveWellFormed | autoqchem/slurm_manager.py:462 | deleting entries keeps the store well formed |
| JobStore.ScancelEffect | autoqchem/slurm_manager.py:487 | after the submitted jobs are removed no job is submitted, and every job that was not submitted is kept unchanged |
| JobStore.SubmittedJobs | autoqchem/slurm_manager.py:487 | the jobs `_scancel` removes are exactly the jobs in status submitted |
| SlurmManager.Enumerate | autoqchem/slurm_manager.py:152 | the keys of a dictionary, each once and nothing else, in an order the caller does not choose; insertion order is one of them |
| SlurmManager.SlurmManager.constructor | autoqchem/slurm_manager.py:33 | a new manager has no jobs under management and is well formed |
| SlurmManager.SlurmManager.CreateJobsForMolecule | autoqchem/slurm_manager.py:92-129 | with existing database tags the store is unchanged; otherwise the generated jobs are added in turn under their digests, skipping keys already present; the store stays well formed |
| SlurmManager.SlurmManager.SubmitJobsFromJobsDict | autoqchem/slurm_manager.py:139-164 | the new store is the store with every job before the first reply without an id marked submitted; failedAt names that job, or is None when the batch goes through |
| SlurmManager.SlurmManager.SubmitJobs | autoqchem/slurm_manager.py:132-137 | the batch is every created job, each once, and is submitted as above |
| SlurmManager.SlurmManager.RetrieveSingleJob | autoqchem/slurm_manager.py:200-241 | the job gets and returns the status for its fetched log; no other entry changes |
| SlurmManager.SlurmManager.RetrieveJobs | autoqchem/slurm_manager.py:166-198 | the jobs whose ids `squeue` no longer lists get their classified status; the count returned is the number classified done; nothing changes when no job is submitted |
| SlurmManager.SlurmManager.RetrieveFinished | autoqchem/slurm_manager.py:186-196 | the finished jobs are classified one by one, and the done counter counts those classified done |
| SlurmManager.SlurmManager.ResubmitIncompleteJobs | autoqchem/slurm_manager.py:243-291 | the incomplete jobs are visited once each; at the first selected job that cannot be patched the call aborts with the store unchanged; otherwise the jobs under the cap are submitted as above |
| SlurmManager.SlurmManager.PatchForResubmit | autoqchem/slurm_manager.py:257-289 | collects the visited jobs under the cap, in order, or names the first of them that cannot be patched |
| SlurmManager.SlurmManager.RemoveJobs | autoqchem/slurm_manager.py:449-463 | the names are deleted in order up to the first one not in the store, which is returned; all other entries are unchanged |
| SlurmManager.SlurmManager.RemoveAll | autoqchem/slurm_manager.py:456-462 | names all in the store are all deleted, and nothing else |
| SlurmManager.SlurmManager.UploadDoneMoleculesToDb | autoqchem/slurm_manager.py:306-350 | nothing changes when no job is done, when no molecule has all its jobs done, or when the tag is blank; otherwise the molecules with all jobs done are uploaded and exactly their jobs removed |
| SlurmManager.SlurmManager.Scancel | autoqchem/slurm_manager.py:482-487 | exactly the submitted jobs are removed |

## Left out

- The SSH connection (`connect`), `put`, `get`, `run` and `cd` are network I/O. The replies of `sbatch` and `squeue`, and whether a log could be fetched, are parameters of the operations. So are the extractor's verdict on each job and its input-file patching data.
- The remote clean-up after a retrieval (`rm slurm-<id>.out`, `rm <base>.*`) is a remote command with no effect on the store.
- The pickle cache is not modelled: it is neither loaded in the constructor nor saved after each batch. Also left out are `cleanup_empty_dirs`, `os.remove` of job files, and the reading and rewriting of the `.gjf` input file. These are filesystem I/O.
- The MongoDB client, `db_check_exists` and `insert_one` are left out; the existing tags are a parameter of creation.
- The conformer deduplication by RMSD (OpenBabel), the descriptor extraction and the Boltzmann weights of `_upload_can_to_db` are left out. They are a foreign geometry library and floating-point arithmetic, and they do not change the store.
- The internals of `gaussian_input_generator` and `gaussian_log_extractor` are external parsers. Their results are values: the generated files, `ExtractorOutcome`, and `PatchInput`.
- MD5 is the class field `digest`, an arbitrary function of the key string. Its collision-freedom is not assumed anywhere.
- The `_create_slurm_file_from_gaussian_file` template, the `squeue` display and the pandas reshaping of `get_job_stats` are formatting and library calls. The done-count test of `get_job_stats` is stated directly as `JobStore.DoneCans`.
- Python dictionaries are iterated in insertion order, and `get_jobs` (line 433) keeps the order of `self.jobs`. That order decides which prefix of a batch is submitted before a reply without an id (lines 152-159), and which job aborts a resubmission (lines 257-283). The model does not track insertion order. `SlurmManager.Enumerate` returns the keys in an order the caller does not choose, and insertion order is one of the orders allowed, so every property proved holds for it. Each method that depends on the order returns the order or the batch it used.
- ResubmitIncompleteJobs: the extractor's verdict at retrieval (`fetchLog`) and its result when the resubmission patches the input (`patch`) are independent parameters. Both read the same local log, but the extractor's code is not part of this model, so the model does not know which of its steps raises. `JobStore.ResubmitAbortsWhenExtractorRaises` states what follows when both raise.
- CreateJobsForMolecule: the conformation is given with each generated file. The parse `int(base_name.split("_conf_")[1])` and its exceptions on a malformed file name are not modelled.
- SubmitJobsFromJobsDict: the batch is given by keys, and a key in the store stands for the store's own record. A dictionary holding records that are not in the store is not modelled. The requirement that the keys be distinct holds for every dictionary.
- RemoveJobs: the names are distinct, as the keys of a dictionary are. The `os.remove` of a missing `.sh` or `.gjf` file, which raises before the entry is deleted, is not modelled. The argument is taken to be a dictionary other than the store itself, as it is at lines 350 and 487, which pass fresh dictionaries. When the store itself is passed, the loop at lines 456-462 deletes from the dictionary it iterates over: the source removes the first job's files and entry, then raises `RuntimeError` (dictionary changed size during iteration), and `_cache` at line 463 is not reached. The model deletes every name instead.
- RetrieveJobs: exceptions of the extractor other than the four it classifies are not modelled, and neither is a failure of the remote clean-up. Either would abort the loop.
- PatchCheck: the `assert` at line 283 is taken to run. Under `python -O` asserts are stripped, and a block with a different line count would be written and resubmitted. `LineCountMismatch` does not model that mode.
- UploadDoneMoleculesToDb: the tag is a string, so `isinstance(tag, str)` always holds. The `assert` on the stripped tag at line 371 is taken to run. Under `python -O` it is stripped, and a blank tag would be uploaded. `BlankTag` does not model that mode. The `assert job.can == can` on the selected jobs always holds. An exception from the database or from deduplication is not modelled.
- `\d` and `\s` in the job-id pattern are read as ASCII digits and as the characters of Python's `str.isspace`. Python's `re` also accepts other Unicode decimal digits, which the model does not.

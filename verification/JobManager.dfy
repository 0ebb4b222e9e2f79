/**
  The in-order scheduler: a ring of 128 job slots over out-of-order lanes.

  `jobs`, `earliestJob` and `nextJob` are the fields of `IMB_MGR`; `holder` stands for the
  `job_in_lane` tables of all lanes together, read per slot.  The lanes are known by contract only:
  a submit queues the job and may hand back any job of that lane, a flush hands back one job of the
  lane unless the lane is empty.
*/
module JobManager {
  import opened Wrappers
  import opened ImbJob
  import opened JobCheck
  import opened Dispatch
  import opened Scheduling

  const JOB_SIZE := 184 // sizeof(IMB_JOB) on an LP64 target

  function AdvJobs(p: int): int {
    if p + JOB_SIZE >= MAX_JOBS * JOB_SIZE then 0 else p + JOB_SIZE
  }

  /** Byte offset of the slot of the k-th job since the start. */
  function Offset(k: nat): int {
    k % MAX_JOBS * JOB_SIZE
  }

  /** Advancing an offset moves on by one job, round the ring. */
  lemma OffsetLaw(k: nat)
    ensures 0 <= Offset(k) == k % 128 * 184 && Offset(k) / JOB_SIZE == k % MAX_JOBS
    ensures AdvJobs(Offset(k)) == Offset(k + 1)
  {
    var s := k % MAX_JOBS;
    assert (k + 1) % MAX_JOBS == if s + 1 == MAX_JOBS then 0 else s + 1;
  }

  /** Slots of two jobs within one turn of each other. */
  lemma SlotLaw(done: nat, sent: nat)
    requires done <= sent <= done + MAX_JOBS
    ensures sent % MAX_JOBS == done % MAX_JOBS <==> sent == done || sent == done + MAX_JOBS
    ensures sent < done + MAX_JOBS ==> (sent % MAX_JOBS - done % MAX_JOBS) % MAX_JOBS == sent - done
  {
    var turns := sent / MAX_JOBS - done / MAX_JOBS;
    assert sent - done == MAX_JOBS * turns + (sent % MAX_JOBS - done % MAX_JOBS);
    assert 0 <= turns <= 1;
  }

  /** Two offsets within one turn of each other are equal exactly when the jobs are the same or a
      full turn apart. */
  lemma OffsetLaws(done: nat, sent: nat)
    requires done <= sent <= done + MAX_JOBS
    ensures 0 <= Offset(sent) && Offset(sent) / JOB_SIZE == sent % MAX_JOBS
    ensures 0 <= Offset(done) && Offset(done) / JOB_SIZE == done % MAX_JOBS
    ensures AdvJobs(Offset(sent)) == Offset(sent + 1)
    ensures AdvJobs(Offset(done)) == Offset(done + 1)
    ensures Offset(done) == Offset(sent) <==> sent == done || sent == done + MAX_JOBS
    ensures sent < done + MAX_JOBS ==> (sent % MAX_JOBS - done % MAX_JOBS) % MAX_JOBS == sent - done
  {
    hide *;
    OffsetLaw(done);
    OffsetLaw(sent);
    SlotLaw(done, sent);
    SameOffset(done, sent);
  }

  lemma SameOffset(i: nat, j: nat)
    ensures Offset(i) == Offset(j) <==> i % MAX_JOBS == j % MAX_JOBS
  {
  }

  class Manager {
    const build: Build
    const jobs: array<Job>
    var earliestJob: int // byte offset, -1 if none
    var nextJob: int     // byte offset
    var holder: seq<Option<Lane>>

    ghost var submitted: seq<Submission>
    ghost var returned: seq<Job>

    ghost function View(): Ring
      reads this, jobs
    {
      Ring(jobs[..], holder, submitted, |returned|)
    }

    /** The offsets say where the window starts and ends. */
    ghost predicate Offsets()
      reads this
    {
      && jobs.Length == MAX_JOBS
      && |returned| <= |submitted| < |returned| + MAX_JOBS
      && nextJob == Offset(|submitted|)
      && earliestJob == (if |submitted| == |returned| then -1 else Offset(|returned|))
    }

    ghost predicate Valid()
      reads this, jobs
    {
      && Coherent(build, View(), None)
      && Offsets()
      && Faithful(returned, submitted)
    }

    constructor (b: Build)
      ensures Valid() && submitted == [] && returned == [] && build == b
      ensures fresh(jobs)
    {
      build := b;
      jobs := new Job[MAX_JOBS](_ => Job(BlankRequest(), BEING_PROCESSED));
      earliestJob, nextJob := -1, 0;
      holder := seq(MAX_JOBS, _ => None);
      submitted, returned := [], [];
    }

    static function BlankRequest(): Request {
      Request(0, 0, (0, 0, 0), (0, 0, 0), 0, 0, 0, 0, 0, 0, 0, 0, 0, 0, 0, 0, 0, 0,
              NullCipher, Encrypt, NullHash, CipherHash, 0, 0, 0)
    }

    // ------------------------------------------------------------------ lanes, by contract

    /** Ends a stage of the job in slot `k` that is not queued. */
    method Finish(k: int, status: nat)
      requires Coherent(build, View(), Some(k)) && jobs[k].status < COMPLETED
      requires Reaches(build, jobs[k], status) && !NextAction(build, jobs[k]).ToLane?
      modifies jobs
      ensures Coherent(build, View(), Some(k)) && Progress(old(jobs[..]), jobs[..])
      ensures jobs[..] == old(jobs[..])[k := old(jobs[k]).(status := status)]
      ensures Pending(jobs[..]) < old(Pending(jobs[..]))
    {
      hide JobsOk, HeldOk, NextAction, Pending, Reaches, Progress;
      var j := jobs[k].(status := status);
      FinishKeeps(build, View(), k, j);
      ghost var before := jobs[..];
      jobs[k] := j;
      assert jobs[..] == before[k := j];
    }

    /** A lane hands back one of its jobs, with the bit of its stage set. */
    method LaneRelease(l: Lane, k: int)
      requires Coherent(build, View(), None)
      requires 0 <= k < MAX_JOBS && holder[k] == Some(l)
      modifies this`holder, jobs
      ensures Coherent(build, View(), Some(k)) && Progress(old(jobs[..]), jobs[..])
      ensures jobs[k] == old(jobs[k]).(status := SetBit(old(jobs[k].status), LaneBit(l)))
      ensures jobs[k].status != BEING_PROCESSED
      ensures Pending(jobs[..]) < old(Pending(jobs[..]))
    {
      hide JobsOk, HeldOk, Pending, Progress, Reaches;
      TakeKeeps(build, View(), k, l);
      var j := jobs[k].(status := SetBit(jobs[k].status, LaneBit(l)));
      ghost var before := jobs[..];
      holder := holder[k := None];
      jobs[k] := j;
      assert jobs[..] == before[k := j];
    }

    /** The job in slot `s`, which was `was` before the submit code set its length, can enter the lane
        `l`: it is in that lane's stage and in no lane yet. */
    ghost predicate Entering(l: Lane, s: int, was: Job)
      reads this, jobs
    {
      && 0 <= s < jobs.Length && jobs[s] == Entered(was) && was.status < COMPLETED
      && Coherent(build, View().(jobs := jobs[..][s := was]), Some(s))
      && WaitLane(build, was) == Some(l)
    }

    /** A lane takes a job in and keeps it for now. */
    method LaneKeep(l: Lane, s: int, ghost was: Job)
      requires Entering(l, s, was)
      modifies this`holder
      ensures holder == old(holder)[s := Some(l)]
      ensures Coherent(build, View(), None) && Busy(View())
      ensures Progress(old(jobs[..][s := was]), jobs[..])
      ensures Pending(jobs[..]) == old(Pending(jobs[..][s := was]))
    {
      hide JobsOk, HeldOk, Pending, Progress, Entered, WaitLane;
      ghost var before := View().(jobs := jobs[..][s := was]);
      QueueKeeps(build, before, s, l);
      assert holder[s] == None; // a job is never queued twice
      assert before.jobs[s := Entered(was)] == jobs[..];
      holder := holder[s := Some(l)];
    }

    /** SUBMIT_JOB_<lane>(ooo, job) */
    method LaneSubmit(l: Lane, s: int, ghost was: Job) returns (r: Option<int>)
      requires Entering(l, s, was)
      modifies this`holder, jobs
      ensures Coherent(build, View(), r) && Progress(old(jobs[..][s := was]), jobs[..])
      ensures r.Some? ==> jobs[r.value].status != BEING_PROCESSED
      ensures r.Some? ==> Pending(jobs[..]) < old(Pending(jobs[..][s := was]))
      ensures r.None? ==> Pending(jobs[..]) == old(Pending(jobs[..][s := was])) && Busy(View())
    {
      hide JobsOk, HeldOk, Pending, Busy, Entered, WaitLane;
      LaneKeep(l, s, was);
      if * {
        r := None;
      } else {
        assert holder[s] == Some(l);
        var k :| 0 <= k < MAX_JOBS && holder[k] == Some(l);
        LaneRelease(l, k);
        r := Some(k);
      }
    }

    /** FLUSH_JOB_<lane>(ooo) */
    method LaneFlush(l: Lane) returns (r: Option<int>)
      requires Coherent(build, View(), None)
      modifies this`holder, jobs
      ensures Coherent(build, View(), r) && Progress(old(jobs[..]), jobs[..])
      ensures r.Some? ==> jobs[r.value].status != BEING_PROCESSED
      ensures r.Some? ==> Pending(jobs[..]) < old(Pending(jobs[..]))
      ensures r.None? ==> jobs[..] == old(jobs[..]) && holder == old(holder)
      ensures r.None? <==> (forall s :: 0 <= s < MAX_JOBS ==> old(holder[s]) != Some(l))
    {
      if k :| 0 <= k < MAX_JOBS && holder[k] == Some(l) {
        LaneRelease(l, k);
        r := Some(k);
      } else {
        r := None;
      }
    }

    /** JOB_CUSTOM_CIPHER and JOB_CUSTOM_HASH on a job whose stage is not done, by the return code of
        the application's callback. */
    method EndCallback(s: int, bit: nat, failed: bool)
      requires Coherent(build, View(), Some(s)) && jobs[s].status < COMPLETED
      requires NextAction(build, jobs[s]) == Custom && bit == NextBit(jobs[s])
      modifies jobs
      ensures Coherent(build, View(), Some(s)) && Progress(old(jobs[..]), jobs[..])
      ensures
        var after := if failed then INTERNAL_ERROR else SetBit(old(jobs[s].status), bit);
        jobs[..] == old(jobs[..])[s := old(jobs[s]).(status := after)]
      ensures jobs[s].status != BEING_PROCESSED
      ensures Pending(jobs[..]) < old(Pending(jobs[..]))
    {
      hide JobsOk, HeldOk, Pending;
      StageReaches(build, View(), s);
      if failed {
        Finish(s, INTERNAL_ERROR);
      } else {
        Finish(s, SetBit(jobs[s].status, bit));
      }
    }

    /** The callback's return code is the application's, so either outcome is possible. */
    method RunCallback(s: int, bit: nat)
      requires Coherent(build, View(), Some(s)) && jobs[s].status < COMPLETED
      requires NextAction(build, jobs[s]) == Custom && bit == NextBit(jobs[s])
      modifies jobs
      ensures Coherent(build, View(), Some(s)) && Progress(old(jobs[..]), jobs[..])
      ensures jobs[s] == old(jobs[s]).(status := jobs[s].status)
      ensures jobs[s].status == INTERNAL_ERROR || jobs[s].status == SetBit(old(jobs[s].status), bit)
      ensures jobs[s].status != BEING_PROCESSED
      ensures Pending(jobs[..]) < old(Pending(jobs[..]))
    {
      hide JobsOk, HeldOk, NextAction, Pending, Progress;
      var failed: bool := *;
      EndCallback(s, bit, failed);
    }

    // ------------------------------------------------------------------ stages

    /** SUBMIT_JOB_AES */
    method SubmitAesJob(s: int) returns (r: Option<int>)
      requires Coherent(build, View(), Some(s))
      requires jobs[s].status < COMPLETED && CipherNext(jobs[s])
      modifies this`holder, jobs
      ensures Coherent(build, View(), r) && Progress(old(jobs[..]), jobs[..])
      ensures r.Some? ==> jobs[r.value].status != BEING_PROCESSED
      ensures r.Some? ==> Pending(jobs[..]) < old(Pending(jobs[..]))
      ensures r.None? ==> Pending(jobs[..]) == old(Pending(jobs[..])) && Busy(View())
      ensures !NextAction(build, old(jobs[s])).ToLane? ==>
        r == Some(s) && StageDone(build, old(jobs[s]), jobs[s])
    {
      hide JobsOk, HeldOk, Pending, Busy, Progress;
      StageReaches(build, View(), s);
      match SubmitAes(build, jobs[s].req) {
        case ToLane(l) =>
          assert jobs[..][s := jobs[s]] == jobs[..];
          r := LaneSubmit(l, s, jobs[s]);
        case InlineBoth =>
          Finish(s, COMPLETED);
          r := Some(s);
        case Custom =>
          RunCallback(s, COMPLETED_AES);
          r := Some(s);
        case Inline =>
          Finish(s, SetBit(jobs[s].status, COMPLETED_AES));
          r := Some(s);
        case Assumed =>
          Finish(s, SetBit(jobs[s].status, COMPLETED_AES));
          r := Some(s);
      }
    }

    /** SUBMIT_JOB_HASH */
    method SubmitHashJob(s: int) returns (r: Option<int>)
      requires Coherent(build, View(), Some(s))
      requires jobs[s].status < COMPLETED && !CipherNext(jobs[s])
      modifies this`holder, jobs
      ensures Coherent(build, View(), r) && Progress(old(jobs[..]), jobs[..])
      ensures r.Some? ==> jobs[r.value].status != BEING_PROCESSED
      ensures r.Some? ==> Pending(jobs[..]) < old(Pending(jobs[..]))
      ensures r.None? ==> Pending(jobs[..]) == old(Pending(jobs[..])) && Busy(View())
      ensures !NextAction(build, old(jobs[s])).ToLane? ==>
        r == Some(s) && StageDone(build, old(jobs[s]), jobs[s])
    {
      hide JobsOk, HeldOk, Pending, Busy, Progress;
      StageReaches(build, View(), s);
      match SubmitHash(jobs[s].req) {
        case ToLane(l) =>
          r := SubmitHashLane(l, s);
        case Custom =>
          RunCallback(s, COMPLETED_HMAC);
          r := Some(s);
        case Inline =>
          Finish(s, SetBit(jobs[s].status, COMPLETED_HMAC));
          r := Some(s);
        case Assumed =>
          Finish(s, SetBit(jobs[s].status, COMPLETED_HMAC));
          r := Some(s);
        case InlineBoth =>
          assert false;
      }
    }

    method SubmitHashLane(l: Lane, s: int) returns (r: Option<int>)
      requires Coherent(build, View(), Some(s))
      requires jobs[s].status < COMPLETED && !CipherNext(jobs[s])
      requires WaitLane(build, jobs[s]) == Some(l)
      modifies this`holder, jobs
      ensures Coherent(build, View(), r) && Progress(old(jobs[..]), jobs[..])
      ensures r.Some? ==> jobs[r.value].status != BEING_PROCESSED
      ensures r.Some? ==> Pending(jobs[..]) < old(Pending(jobs[..]))
      ensures r.None? ==> Pending(jobs[..]) == old(Pending(jobs[..])) && Busy(View())
    {
      hide JobsOk, HeldOk, Pending, Busy, Progress;
      ghost var was, before := jobs[s], jobs[..];
      LengthToBits(s);
      assert jobs[..][s := was] == before;
      r := LaneSubmit(l, s, was);
    }

    /** The AES-CMAC lanes count bits, the caller's length is in bytes. */
    method LengthToBits(s: int)
      requires 0 <= s < jobs.Length && !CipherNext(jobs[s])
      modifies jobs
      ensures jobs[..] == old(jobs[..])[s := Entered(old(jobs[s]))]
      ensures
        var was := old(jobs[s]);
        jobs[s] ==
        if was.req.hashAlg == AesCmac
        then was.(req := was.req.(hashLen := 8 * was.req.hashLen % 0x1_0000_0000_0000_0000))
        else was
    {
      if jobs[s].req.hashAlg == AesCmac {
        ghost var before := jobs[..];
        jobs[s] := jobs[s].(req := BitLength(jobs[s].req));
        assert jobs[..] == before[s := jobs[s]];
      }
    }

    /** RESUBMIT_JOB: carries a returned, half-done job to its other stage, and so on with whatever
        that hands back, until something finished, or nothing, comes back. */
    method ResubmitJob(job: Option<int>) returns (r: Option<int>)
      requires Coherent(build, View(), job)
      requires job.Some? ==> jobs[job.value].status != BEING_PROCESSED
      modifies this`holder, jobs
      ensures Coherent(build, View(), None) && Progress(old(jobs[..]), jobs[..])
      ensures r.Some? ==> Queued(View(), r.value) && jobs[r.value].status >= COMPLETED
      ensures r.None? && (job.Some? || old(Busy(View()))) ==> Busy(View())
      ensures Pending(jobs[..]) <= old(Pending(jobs[..]))
    {
      hide Busy, NextAction, Pending, JobsOk, HeldOk, Reaches, StageDone;
      r := job;
      while r.Some? && jobs[r.value].status < COMPLETED
        invariant Coherent(build, View(), r) && Progress(old(jobs[..]), jobs[..])
        invariant r.Some? ==> jobs[r.value].status != BEING_PROCESSED
        invariant r.None? && (job.Some? || old(Busy(View()))) ==> Busy(View())
        invariant Pending(jobs[..]) <= old(Pending(jobs[..]))
        decreases Pending(jobs[..]), r.Some?
      {
        StageReaches(build, View(), r.value);
        if jobs[r.value].status == COMPLETED_HMAC {
          r := SubmitAesJob(r.value);
        } else {
          r := SubmitHashJob(r.value);
        }
      }
      if r.Some? {
        SettleKeeps(build, View(), r.value);
      }
    }

    /** The first stage of a new job, by its chain order. */
    method SubmitFirstStage(s: int) returns (r: Option<int>)
      requires Coherent(build, View(), Some(s)) && jobs[s].status == BEING_PROCESSED
      modifies this`holder, jobs
      ensures Coherent(build, View(), r) && Progress(old(jobs[..]), jobs[..])
      ensures r.Some? ==> jobs[r.value].status != BEING_PROCESSED
      ensures r.None? ==> Busy(View())
    {
      if jobs[s].req.chainOrder == CipherHash {
        r := SubmitAesJob(s);
      } else {
        r := SubmitHashJob(s);
      }
    }

    /** submit_new_job */
    method SubmitNewJob(s: int) returns (r: Option<int>)
      requires Coherent(build, View(), Some(s)) && jobs[s].status == BEING_PROCESSED
      modifies this`holder, jobs
      ensures Coherent(build, View(), None) && Progress(old(jobs[..]), jobs[..])
      ensures r.Some? ==> Queued(View(), r.value) && jobs[r.value].status >= COMPLETED
      ensures r.None? ==> Busy(View())
    {
      hide JobsOk, HeldOk, Busy, Pending;
      var tmp := SubmitFirstStage(s);
      r := ResubmitJob(tmp);
    }

    // ------------------------------------------------------------------ flushing

    /** FLUSH_JOB_CUSTOM_CIPHER and FLUSH_JOB_CUSTOM_HASH: the job itself, as it is once its bit is
        set. */
    method FlushCustom(s: int, bit: nat) returns (r: Option<int>)
      requires 0 <= s < jobs.Length && (bit == COMPLETED_AES || bit == COMPLETED_HMAC)
      requires SetBit(jobs[s].status, bit) == jobs[s].status
      ensures r == Some(s)
    {
      r := Some(s);
    }

    /** FLUSH_JOB_AES for a waiting job.  NULL only if the job is past its cipher stage; and the job
        itself, untouched, if that stage was a custom one. */
    method FlushAesJob(s: int) returns (r: Option<int>)
      requires Coherent(build, View(), None) && Queued(View(), s) && jobs[s].status < COMPLETED
      requires CipherNext(jobs[s]) || jobs[s].status != BEING_PROCESSED
      modifies this`holder, jobs
      ensures FlushAes(build, old(jobs[s].req)) == FromCustom ==>
        r == Some(s) && jobs[..] == old(jobs[..]) && holder == old(holder)
      ensures FlushAes(build, old(jobs[s].req)) != FromCustom ==>
        && Coherent(build, View(), r) && Progress(old(jobs[..]), jobs[..])
        && (r.Some? ==> jobs[r.value].status != BEING_PROCESSED)
        && (r.Some? ==> Pending(jobs[..]) < old(Pending(jobs[..])))
        && (r.None? ==> jobs[..] == old(jobs[..]) && holder == old(holder) && !CipherNext(jobs[s]))
    {
      hide JobsOk, HeldOk, Pending;
      FlushFindsWaitingJob(build, View(), s);
      StageReaches(build, View(), s);
      match FlushAes(build, jobs[s].req) {
        case FromLane(l) =>
          r := LaneFlush(l);
        case Nothing =>
          r := None;
        case FromCustom =>
          r := FlushCustom(s, COMPLETED_AES);
        case FromDefault =>
          assert false;
      }
    }

    /** FLUSH_JOB_HASH for a waiting job, likewise. */
    method FlushHashJob(s: int) returns (r: Option<int>)
      requires Coherent(build, View(), None) && Queued(View(), s) && jobs[s].status < COMPLETED
      requires !CipherNext(jobs[s]) || jobs[s].status != BEING_PROCESSED
      modifies this`holder, jobs
      ensures FlushHash(old(jobs[s].req)) == FromCustom ==>
        r == Some(s) && jobs[..] == old(jobs[..]) && holder == old(holder)
      ensures FlushHash(old(jobs[s].req)) != FromCustom ==>
        && Coherent(build, View(), r) && Progress(old(jobs[..]), jobs[..])
        && (r.Some? ==> jobs[r.value].status != BEING_PROCESSED)
        && (r.Some? ==> Pending(jobs[..]) < old(Pending(jobs[..])))
        && (r.None? ==> jobs[..] == old(jobs[..]) && holder == old(holder) && CipherNext(jobs[s]))
    {
      hide JobsOk, HeldOk, Pending;
      FlushFindsWaitingJob(build, View(), s);
      StageReaches(build, View(), s);
      match FlushHash(jobs[s].req) {
        case FromLane(l) =>
          r := LaneFlush(l);
        case FromDefault =>
          // "if HMAC is complete then return NULL": a waiting job never has it incomplete here
          assert jobs[s].status == COMPLETED_HMAC;
          r := None;
        case FromCustom =>
          r := FlushCustom(s, COMPLETED_HMAC);
        case Nothing =>
          assert false;
      }
    }

    /** One turn of the loop of complete_job, up to RESUBMIT_JOB: for a CIPHER_HASH job the cipher
        lane, and if that yields nothing the hash lane; the other way round for any other job.  It
        never comes up empty.  An unsupported job comes back itself, still held. */
    method FlushForward(s: int) returns (r: Option<int>)
      requires Coherent(build, View(), None) && Queued(View(), s) && jobs[s].status < COMPLETED
      modifies this`holder, jobs
      ensures r.Some?
      ensures Supported(build, old(jobs[s].req)) ==>
        && Coherent(build, View(), r) && Progress(old(jobs[..]), jobs[..])
        && jobs[r.value].status != BEING_PROCESSED
        && Pending(jobs[..]) < old(Pending(jobs[..]))
      ensures !Supported(build, old(jobs[s].req)) ==>
        r == Some(s) && jobs[..] == old(jobs[..]) && holder == old(holder)
    {
      hide JobsOk, HeldOk, Pending, Supported;
      FlushFindsWaitingJob(build, View(), s);
      if jobs[s].req.chainOrder == CipherHash {
        r := FlushAesJob(s);
        if r.None? {
          r := FlushHashJob(s);
        }
      } else {
        r := FlushHashJob(s);
        if r.None? {
          r := FlushAesJob(s);
        }
      }
    }

    /** One turn of the loop of complete_job.  `again`: the flushed job is in a lane, and RESUBMIT_JOB
        is about to submit it to that lane a second time.  What the lane makes of that is beyond its
        contract, so the turn stops there. */
    method FlushTurn(s: int) returns (again: bool)
      requires Coherent(build, View(), None) && Queued(View(), s) && jobs[s].status < COMPLETED
      modifies this`holder, jobs
      ensures again <==> !Supported(build, old(jobs[s].req))
      ensures again ==>
        jobs[..] == old(jobs[..]) && holder == old(holder) && SubmittedAgain(build, View(), s)
      ensures !again ==>
        && Coherent(build, View(), None) && Progress(old(jobs[..]), jobs[..])
        && Pending(jobs[..]) < old(Pending(jobs[..]))
    {
      hide JobsOk, HeldOk, Busy, Pending, Supported;
      UnsupportedIsQueuedTwice(build, View(), s);
      ghost var supported := Supported(build, jobs[s].req);
      var tmp := FlushForward(s);
      if supported {
        SlotFacts(build, View(), tmp, tmp.value);
      }
      again := InLane(tmp.value);
      if !again {
        var _ := ResubmitJob(tmp);
      }
    }

    /** The job in slot `s` is in a lane. */
    predicate InLane(s: int)
      requires 0 <= s < |holder|
      reads this
    {
      holder[s].Some?
    }

    /** complete_job: flushes whatever it takes until this one job is finished; it fails, at once, on an
        unfinished job exactly if that is not supported. */
    method CompleteJob(s: int) returns (again: bool)
      requires Coherent(build, View(), None) && Queued(View(), s)
      modifies this`holder, jobs
      ensures again <==> old(jobs[s].status) < COMPLETED && !Supported(build, old(jobs[s].req))
      ensures again ==>
        jobs[..] == old(jobs[..]) && holder == old(holder) && SubmittedAgain(build, View(), s)
      ensures !again ==>
        && Coherent(build, View(), None) && Progress(old(jobs[..]), jobs[..])
        && jobs[s].status >= COMPLETED
    {
      hide Pending, Supported, NextAction, JobsOk, HeldOk;
      again := false;
      ghost var e := EntryOf(View(), s);
      SupportedAsSubmitted(build, View(), s);
      while jobs[s].status < COMPLETED && !again
        invariant Progress(old(jobs[..]), jobs[..]) && Queued(View(), s)
        invariant !again ==> Coherent(build, View(), None)
        invariant !again ==>
          Supported(build, e.req) || (jobs[..] == old(jobs[..]) && holder == old(holder))
        invariant again ==>
          && jobs[..] == old(jobs[..]) && holder == old(holder) && SubmittedAgain(build, View(), s)
          && !Supported(build, e.req)
        decreases Pending(jobs[..]), !again
      {
        SupportedAsSubmitted(build, View(), s);
        again := FlushTurn(s);
      }
    }

    // ------------------------------------------------------------------ the ring

    /** Notes in the log that the oldest job goes back to the application. */
    ghost method HandBack()
      requires Coherent(build, View(), None) && Faithful(returned, submitted)
      requires |submitted| > |returned| && jobs[First(View())].status >= COMPLETED
      modifies this`returned
      ensures Coherent(build, View(), None) && Faithful(returned, submitted)
      ensures returned == old(returned) + [jobs[|old(returned)| % MAX_JOBS]]
    {
      HandBackKeeps(build, View());
      returned := returned + [jobs[First(View())]];
    }

    /** GET_NEXT_JOB: the slot the application may fill; no job under way lives there. */
    method GetNextJob() returns (s: int)
      requires Valid()
      ensures s == |submitted| % MAX_JOBS && 0 <= s < jobs.Length && !Queued(View(), s)
    {
      OffsetLaws(|returned|, |submitted|);
      s := nextJob / JOB_SIZE;
    }

    /** The application writing a job descriptor through the pointer from GET_NEXT_JOB. */
    method Fill(s: int, job: Job)
      requires Valid() && s == |submitted| % MAX_JOBS
      modifies jobs
      ensures Valid() && jobs[s] == job
      ensures forall q :: 0 <= q < jobs.Length && q != s ==> jobs[q] == old(jobs[q])
    {
      hide JobsOk, HeldOk, Faithful, Offset;
      FillKeeps(build, View(), s, job);
      ghost var before := jobs[..];
      jobs[s] := job;
      assert jobs[..] == before[s := job];
    }

    /** The first half of submit_job_and_check: refuse the job or set it going. */
    method StartJob(s: int, refused: bool) returns (r: Option<int>)
      requires Coherent(build, View(), None) && Faithful(returned, submitted)
      requires jobs.Length == MAX_JOBS && |submitted| - |returned| < MAX_JOBS
      requires s == |submitted| % MAX_JOBS
      modifies this`holder, this`submitted, jobs
      ensures Coherent(build, View(), None) && Faithful(returned, submitted)
      ensures submitted == old(submitted) + [Submission(old(jobs[s].req), refused)]
      ensures r.Some? ==> Queued(View(), r.value) && jobs[r.value].status >= COMPLETED
      ensures r.None? ==> Busy(View())
    {
      OpenWindow(s, refused);
      if refused {
        SettleKeeps(build, View(), s);
        r := Some(s);
      } else {
        r := SubmitNewJob(s);
      }
    }

    /** The status is set, and from here on the slot belongs to a job under way. */
    method OpenWindow(s: int, refused: bool)
      requires Coherent(build, View(), None) && Faithful(returned, submitted)
      requires jobs.Length == MAX_JOBS && |submitted| - |returned| < MAX_JOBS
      requires s == |submitted| % MAX_JOBS
      modifies this`submitted, jobs
      ensures Coherent(build, View(), Some(s)) && Faithful(returned, submitted)
      ensures
        var status := if refused then INVALID_ARGS else BEING_PROCESSED;
        jobs[..] == old(jobs[..])[s := old(jobs[s]).(status := status)]
      ensures submitted == old(submitted) + [Submission(old(jobs[s].req), refused)]
    {
      var j := jobs[s].(status := if refused then INVALID_ARGS else BEING_PROCESSED);
      EnterKeeps(build, View(), s, j, refused);
      ghost var before := jobs[..];
      jobs[s] := j;
      submitted := submitted + [Submission(j.req, refused)];
      assert jobs[..] == before[s := j];
    }

    /** What every call of the library returns: `again` if complete_job broke off because it was about
        to submit the oldest job to the lane that holds it, which is not a supported one. */
    ghost predicate BrokenOff()
      reads this, jobs
    {
      && Coherent(build, View(), None) && Faithful(returned, submitted)
      && |returned| < |submitted|
      && SubmittedAgain(build, View(), First(View()))
      && !Supported(build, submitted[|returned|].req) && !submitted[|returned|].refused
    }

    /** submit_job_and_check: SUBMIT_JOB with `check`, SUBMIT_JOB_NOCHECK without.  Answers with the
        oldest job if that one is finished, and forces it to be when the ring is full. */
    method SubmitJobAndCheck(check: bool) returns (r: Option<int>, again: bool)
      requires Valid()
      modifies this`holder, this`earliestJob, this`nextJob, this`submitted, this`returned, jobs
      ensures if again then BrokenOff() else Valid()
      ensures
        var req := old(jobs[|submitted| % MAX_JOBS].req);
        submitted == old(submitted) + [Submission(req, check && IsJobInvalid(req))]
      ensures again ==> r == None && |submitted| == |returned| + MAX_JOBS
      ensures match r
        case Some(s) => 0 <= s < jobs.Length && returned == old(returned) + [jobs[s]]
        case None => returned == old(returned) && jobs[First(View())].status < COMPLETED
    {
      hide Coherent, Faithful, Busy, Offset, IsJobInvalid, Supported, SubmittedAgain;
      OffsetLaws(|returned|, |submitted|);
      var s := nextJob / JOB_SIZE;
      var job := StartJob(s, check && IsJobInvalid(jobs[s].req));
      r, again := Collect(job);
    }

    /** The second half of submit_job_and_check: `job` came back from submit_new_job. */
    method Collect(job: Option<int>) returns (r: Option<int>, again: bool)
      requires Coherent(build, View(), None) && Faithful(returned, submitted)
      requires jobs.Length == MAX_JOBS && |returned| < |submitted| <= |returned| + MAX_JOBS
      requires nextJob == Offset(|submitted| - 1)
      requires earliestJob == if |submitted| - 1 == |returned| then -1 else Offset(|returned|)
      requires job.Some? ==> Queued(View(), job.value) && jobs[job.value].status >= COMPLETED
      requires job.None? ==> Busy(View())
      modifies this`holder, this`earliestJob, this`nextJob, this`returned, jobs
      ensures if again then BrokenOff() else Valid()
      ensures again <==>
        && |submitted| == |old(returned)| + MAX_JOBS
        && old(jobs[First(View())].status) < COMPLETED
        && !Supported(build, submitted[|old(returned)|].req)
      ensures again ==> r == None
      ensures |submitted| - 1 == |old(returned)| ==> r == job
      ensures match r
        case Some(s) => 0 <= s < jobs.Length && returned == old(returned) + [jobs[s]]
        case None => returned == old(returned) && jobs[First(View())].status < COMPLETED
    {
      hide Coherent, Faithful, Busy, AdvJobs, Offset, Supported, SubmittedAgain;
      OffsetLaws(|returned|, |submitted| - 1);
      OffsetLaws(|returned|, |submitted|);
      again := false;
      if earliestJob < 0 {
        // state was previously empty
        LoneJob(build, View());
        if job.None? {
          earliestJob := nextJob;
        }
        nextJob := AdvJobs(nextJob);
        r := job;
        if job.Some? {
          HandBack();
        }
        return;
      }
      nextJob := AdvJobs(nextJob);
      if earliestJob == nextJob {
        // Full
        r, again := FinishOldest(earliestJob / JOB_SIZE);
        if again {
          return;
        }
        earliestJob := AdvJobs(earliestJob);
        return;
      }
      // not full
      r := Some(earliestJob / JOB_SIZE);
      if jobs[r.value].status < COMPLETED {
        r := None;
        return;
      }
      earliestJob := AdvJobs(earliestJob);
      HandBack();
    }

    /** complete_job on the oldest job, which is then handed back. */
    method FinishOldest(s: int) returns (r: Option<int>, again: bool)
      requires Coherent(build, View(), None) && Faithful(returned, submitted)
      requires |returned| < |submitted| && s == First(View())
      modifies this`holder, this`returned, jobs
      ensures again <==>
        old(jobs[s].status) < COMPLETED && !Supported(build, submitted[|old(returned)|].req)
      ensures again ==>
        && r == None && BrokenOff() && returned == old(returned)
        && jobs[..] == old(jobs[..]) && holder == old(holder)
      ensures !again ==>
        && Coherent(build, View(), None) && Faithful(returned, submitted)
        && r == Some(s) && returned == old(returned) + [jobs[s]]
    {
      hide Faithful, Supported, SubmittedAgain, JobsOk, HeldOk;
      OldestEntry(build, View());
      SupportedAsSubmitted(build, View(), s);
      again := CompleteJob(s);
      if again {
        return None, true;
      }
      HandBack();
      r := Some(s);
    }

    /** FLUSH_JOB: finishes the oldest job and hands it back; NULL only when the ring is empty. */
    method FlushJob() returns (r: Option<int>, again: bool)
      requires Valid()
      modifies this`holder, this`earliestJob, this`returned, jobs
      ensures if again then BrokenOff() else Valid()
      ensures again <==>
        && |old(returned)| < |submitted|
        && old(jobs[First(View())].status) < COMPLETED
        && !Supported(build, submitted[|old(returned)|].req)
      ensures r.None? <==> again || |old(returned)| == |submitted|
      ensures r.Some? ==> 0 <= r.value < jobs.Length && returned == old(returned) + [jobs[r.value]]
      ensures r.None? ==> returned == old(returned)
    {
      hide Coherent, Faithful, AdvJobs, Offset, Supported, SubmittedAgain;
      OffsetLaws(|returned|, |submitted|);
      if |returned| < |submitted| {
        OffsetLaws(|returned| + 1, |submitted|);
      }
      if earliestJob < 0 {
        return None, false;
      }
      r, again := FinishOldest(earliestJob / JOB_SIZE);
      if again {
        return;
      }
      earliestJob := AdvJobs(earliestJob);
      if earliestJob == nextJob {
        earliestJob := -1;
      }
    }

    /** GET_COMPLETED_JOB: hands back the oldest job if it is finished already. */
    method GetCompletedJob() returns (r: Option<int>)
      requires Valid()
      modifies this`earliestJob, this`returned
      ensures Valid()
      ensures r.None? <==>
        |old(returned)| == |submitted| || jobs[|old(returned)| % MAX_JOBS].status < COMPLETED
      ensures r.Some? ==> 0 <= r.value < jobs.Length && returned == old(returned) + [jobs[r.value]]
      ensures r.None? ==> returned == old(returned)
    {
      hide Coherent, Faithful, AdvJobs, Offset;
      OffsetLaws(|returned|, |submitted|);
      if |returned| < |submitted| {
        OffsetLaws(|returned| + 1, |submitted|);
      }
      if earliestJob < 0 {
        return None;
      }
      r := Some(earliestJob / JOB_SIZE);
      if jobs[r.value].status < COMPLETED {
        return None;
      }
      earliestJob := AdvJobs(earliestJob);
      if earliestJob == nextJob {
        earliestJob := -1;
      }
      HandBack();
    }

    /** QUEUE_SIZE: the number of jobs under way, from the two offsets alone. */
    method QueueSize() returns (n: int)
      requires Valid()
      ensures n == |submitted| - |returned| && 0 <= n < MAX_JOBS
    {
      hide Coherent, Faithful, Offset;
      OffsetLaws(|returned|, |submitted|);
      if earliestJob < 0 {
        return 0;
      }
      var a := nextJob / JOB_SIZE;
      var b := earliestJob / JOB_SIZE;
      n := (a - b) % MAX_JOBS; // masking with MAX_JOBS - 1 is the Euclidean remainder
    }
  }

  // -------------------------------------------------------------------- whole runs

  /** What an application can do: fill the next slot and submit it, flush, or poll. */
  datatype Call = Submit(job: Job, check: bool) | Flush | Poll

  /** The submissions among a sequence of calls. */
  function Submissions(calls: seq<Call>): seq<Submission> {
    if calls == [] then []
    else
      var c := calls[|calls| - 1];
      Submissions(calls[..|calls| - 1]) +
      if c.Submit? then [Submission(c.job.req, c.check && IsJobInvalid(c.job.req))] else []
  }

  lemma {:induction false} SubmissionsPrefix(calls: seq<Call>, i: nat)
    requires i <= |calls|
    ensures Submissions(calls[..i]) <= Submissions(calls)
    decreases |calls|
  {
    if i < |calls| {
      SubmissionsPrefix(calls[..|calls| - 1], i);
      assert calls[..|calls| - 1][..i] == calls[..i];
    } else {
      assert calls[..i] == calls;
    }
  }

  lemma FaithfulPrefix(out: seq<Job>, log: seq<Submission>, all: seq<Submission>)
    requires Faithful(out, log) && log <= all
    ensures Faithful(out, all)
  {
  }

  /** Any calls in any order, then flushing until NULL.  The application gets the jobs back in the
      order of submission, once each, finished, and refused exactly when validation fails: all of
      them, unless at some point complete_job is to finish a job that is not supported and not
      finished yet; then the run breaks off in front of that job. */
  method Run(b: Build, calls: seq<Call>) returns (out: seq<Job>, drained: nat, broken: bool)
    ensures Faithful(out, Submissions(calls))
    ensures !broken ==> |out| == |Submissions(calls)| && drained <= |out| && drained < MAX_JOBS
    ensures broken ==>
      && |out| < |Submissions(calls)|
      && !Supported(b, Submissions(calls)[|out|].req) && !Submissions(calls)[|out|].refused
  {
    hide Faithful, Supported, SubmittedAgain;
    var m := new Manager(b);
    out, drained, broken := [], 0, false;
    var i := 0;
    while i < |calls| && !broken
      invariant i <= |calls| && fresh(m) && fresh(m.jobs) && m.build == b
      invariant m.submitted == Submissions(calls[..i]) && m.returned == out
      invariant if broken then m.BrokenOff() else m.Valid()
    {
      assert calls[..i + 1][..i] == calls[..i];
      out, broken := Answered(m, calls[i], out);
      i := i + 1;
    }
    SubmissionsPrefix(calls, i);
    assert calls[..|calls|] == calls;
    if !broken {
      out, drained, broken := Drain(m, out);
    }
    FaithfulPrefix(out, m.submitted, Submissions(calls));
  }

  /** One call, and the job that it returns. */
  method Answered(m: Manager, c: Call, sofar: seq<Job>) returns (out: seq<Job>, broken: bool)
    requires m.Valid() && sofar == m.returned
    modifies m, m.jobs
    ensures m.submitted == old(m.submitted) + Submissions([c]) && m.returned == out
    ensures if broken then m.BrokenOff() else m.Valid()
  {
    hide *;
    out := sofar;
    var r;
    r, broken := Perform(m, c);
    if r.Some? {
      out := out + [m.jobs[r.value]];
    }
  }

  /** FLUSH_JOB until it returns NULL. */
  method Drain(m: Manager, sofar: seq<Job>) returns (out: seq<Job>, drained: nat, broken: bool)
    requires m.Valid() && sofar == m.returned
    modifies m, m.jobs
    ensures m.submitted == old(m.submitted) && m.returned == out
    ensures old(|m.returned|) <= |out| == old(|m.returned|) + drained <= |m.submitted|
    ensures if broken then m.BrokenOff() else m.Valid() && |out| == |m.submitted|
    ensures drained < MAX_JOBS
  {
    hide Faithful, Supported, SubmittedAgain, Coherent;
    drained := 0;
    out := sofar;
    var r;
    r, broken := m.FlushJob();
    while r.Some?
      invariant m.submitted == old(m.submitted)
      invariant if broken then m.BrokenOff() else m.Valid()
      invariant broken ==> r.None?
      invariant |out| == old(|m.returned|) + drained
      invariant r.Some? ==> 0 <= r.value < m.jobs.Length && m.returned == out + [m.jobs[r.value]]
      invariant r.None? ==> m.returned == out && (broken || |out| == |m.submitted|)
      invariant |m.returned| <= |m.submitted|
      decreases |m.submitted| - |m.returned|, r.Some?
    {
      out := out + [m.jobs[r.value]];
      drained := drained + 1;
      r, broken := m.FlushJob();
    }
  }

  /** One call of the application. */
  method Perform(m: Manager, c: Call) returns (r: Option<int>, broken: bool)
    requires m.Valid()
    modifies m, m.jobs
    ensures if broken then m.BrokenOff() else m.Valid()
    ensures m.submitted == old(m.submitted) + Submissions([c])
    ensures r.Some? ==>
      0 <= r.value < m.jobs.Length && m.returned == old(m.returned) + [m.jobs[r.value]]
    ensures r.None? ==> m.returned == old(m.returned)
  {
    hide Faithful, Supported, SubmittedAgain, Coherent;
    assert [c][..0] == [];
    broken := false;
    match c {
      case Submit(job, check) =>
        var s := m.GetNextJob();
        m.Fill(s, job);
        r, broken := m.SubmitJobAndCheck(check);
      case Flush =>
        r, broken := m.FlushJob();
      case Poll =>
        r := m.GetCompletedJob();
    }
  }

  lemma CustomFacts(b: Build)
    ensures
      var r := CustomAheadOfHmac();
      && !IsJobInvalid(r) && !Supported(b, r)
      && NextAction(b, Job(r, BEING_PROCESSED)) == Custom
      && NextBit(Job(r, BEING_PROCESSED)) == COMPLETED_AES
      && !CipherNext(Job(r, COMPLETED_AES)) && Entered(Job(r, COMPLETED_AES)) == Job(r, COMPLETED_AES)
      && WaitLane(b, Job(r, COMPLETED_AES)) == Some(HmacSha1Lane)
  {
    UnsupportedIsAccepted(b);
  }

  /** SUBMIT_JOB of that request, up to its lane: the callback succeeds and the lane keeps the job. */
  method SubmitCustom(m: Manager)
    requires m.Valid() && m.submitted == [] && m.returned == []
    modifies m, m.jobs
    ensures Coherent(m.build, m.View(), None) && Faithful(m.returned, m.submitted) && Busy(m.View())
    ensures m.submitted == [Submission(CustomAheadOfHmac(), false)] && m.returned == []
    ensures m.nextJob == old(m.nextJob) && m.earliestJob == old(m.earliestJob)
    ensures m.jobs.Length == MAX_JOBS
  {
    hide JobsOk, HeldOk, Faithful, Pending, Progress, CustomAheadOfHmac, IsJobInvalid, NextAction,
      Entered, WaitLane, Busy, Offset;
    CustomFacts(m.build);
    ghost var r := CustomAheadOfHmac();
    var s := m.GetNextJob();
    m.Fill(s, Job(CustomAheadOfHmac(), BEING_PROCESSED));
    m.OpenWindow(s, IsJobInvalid(m.jobs[s].req));
    assert m.jobs[s] == Job(r, BEING_PROCESSED);
    m.EndCallback(s, COMPLETED_AES, false);
    assert m.jobs[s] == Job(r, COMPLETED_AES);
    ghost var before := m.View();
    m.LengthToBits(s);
    assert m.jobs[..][s := m.jobs[s]] == m.jobs[..] == before.jobs;
    assert m.View().(jobs := m.jobs[..][s := m.jobs[s]]) == before;
    m.LaneKeep(HmacSha1Lane, s, m.jobs[s]);
  }

  /** It does break off: a custom cipher ahead of HMAC-SHA1, accepted by validation, and then FLUSH_JOB.
      These are the calls SUBMIT_JOB makes, with the return code of the callback and the lane's choice
      filled in. */
  method CustomAheadOfLane(b: Build) returns (m: Manager, again: bool)
    ensures fresh(m) && again && m.BrokenOff()
    ensures m.returned == [] && m.submitted == [Submission(CustomAheadOfHmac(), false)]
    ensures SubmittedAgain(b, m.View(), 0)
  {
    hide JobsOk, HeldOk, Faithful, CustomAheadOfHmac, Supported, SubmittedAgain, Busy, IsJobInvalid;
    CustomFacts(b);
    m := new Manager(b);
    SubmitCustom(m);
    var r;
    r, again := m.Collect(None);
    r, again := m.FlushJob();
  }
}

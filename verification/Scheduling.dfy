/**
  What the scheduler relies on: the stage a job waits in, the lane that holds it there, the
  occupied window of the ring, the amount of work left, and the invariant that ties them together.
*/
module Scheduling {
  import opened Wrappers
  import opened ImbJob
  import opened JobCheck
  import opened Dispatch

  const MAX_JOBS := 128

  // ------------------------------------------------------------------ one job

  /** The cipher stage is next: the first stage of a CIPHER_HASH job, the second of any other. */
  predicate CipherNext(j: Job) {
    j.status == COMPLETED_HMAC || (j.status == BEING_PROCESSED && j.req.chainOrder == CipherHash)
  }

  function FirstBit(r: Request): nat {
    if r.chainOrder == CipherHash then COMPLETED_AES else COMPLETED_HMAC
  }

  /** The bit of the stage an unfinished job is in. */
  function NextBit(j: Job): nat {
    if CipherNext(j) then COMPLETED_AES else COMPLETED_HMAC
  }

  function NextAction(b: Build, j: Job): Action {
    if CipherNext(j) then SubmitAes(b, j.req) else SubmitHash(j.req)
  }

  /** The lane in which a job of this status waits, if its next stage has one. */
  function WaitLane(b: Build, j: Job): Option<Lane> {
    match NextAction(b, j)
    case ToLane(l) => Some(l)
    case _ => None
  }

  /** The flush complete_job tries first. */
  function FirstFlush(b: Build, r: Request): Flush {
    if r.chainOrder == CipherHash then FlushAes(b, r) else FlushHash(r)
  }

  /** Not a custom callback ahead of a stage that is queued. */
  predicate Supported(b: Build, r: Request) {
    FirstFlush(b, r) == FromCustom ==>
    if r.chainOrder == CipherHash then !SubmitHash(r).ToLane? else !SubmitAes(b, r).ToLane?
  }

  /** The jobs that are not supported: an encryption by callback ahead of a queued hash, or a hash by
      callback ahead of a queued cipher. */
  lemma SupportedIff(b: Build, r: Request)
    ensures
      Supported(b, r)
      <==>
      if r.chainOrder == CipherHash
      then r.cipherMode == CustomCipher && r.direction == Encrypt ==> !SubmitHash(r).ToLane?
      else r.hashAlg == CustomHash ==> !SubmitAes(b, r).ToLane?
  {
    hide SubmitHash, SubmitAes;
    OtherActions(b, r);
  }

  /** The engines that do cipher and hash in one pass. */
  predicate OnePass(r: Request) {
    r.cipherMode == Gcm || r.cipherMode == PonAesCntr
  }

  /** What the submit code makes of a job that it queues. */
  function Entered(j: Job): Job {
    if !CipherNext(j) && j.req.hashAlg == AesCmac then j.(req := BitLength(j.req)) else j
  }

  /** The hash stage has begun; `waiting` in a lane if unfinished. */
  predicate HashBegun(j: Job, waiting: bool) {
    if j.status == INVALID_ARGS then false
    else if j.req.chainOrder != CipherHash then j.status != BEING_PROCESSED || waiting
    else if j.status == COMPLETED then !OnePass(j.req)
    else j.status == COMPLETED_AES && waiting
  }

  /** The request as it comes back: an AES-CMAC length was multiplied by 8 once, when the hash stage
      began, and nothing else has changed. */
  function Delivered(r: Request, begun: bool): Request {
    if r.hashAlg == AesCmac && begun then BitLength(r) else r
  }

  /** Only the custom callbacks can end a job with STS_INTERNAL_ERROR. */
  predicate UsesCallback(r: Request) {
    r.cipherMode == CustomCipher || r.hashAlg == CustomHash
  }

  /** One step on a job's way: 0, then the bit of its first stage, then finished; never back, and
      past a stage only where the cipher engine does both in one pass. */
  predicate Reaches(b: Build, j: Job, after: nat) {
    || (j.status == BEING_PROCESSED && after == FirstBit(j.req) && NextAction(b, j) != InlineBoth)
    || (j.status == FirstBit(j.req) && after == COMPLETED)
    || (j.status == BEING_PROCESSED && after == COMPLETED && NextAction(b, j) == InlineBoth)
    || (j.status < COMPLETED && after == INTERNAL_ERROR && UsesCallback(j.req))
  }

  /** What a stage that is not queued makes of its job. */
  predicate StageDone(b: Build, before: Job, after: Job) {
    var done := SetBit(before.status, NextBit(before));
    && after.req == before.req
    && match NextAction(b, before)
       case InlineBoth => after.status == COMPLETED
       case Custom => after.status == done || after.status == INTERNAL_ERROR
       case ToLane(_) => false
       case _ => after.status == done
  }

  /** Stages still to run. */
  function Stages(status: nat): nat {
    if status >= COMPLETED then 0 else if status == BEING_PROCESSED then 2 else 1
  }

  function Pending(jobs: seq<Job>): nat {
    if jobs == [] then 0 else Pending(jobs[..|jobs| - 1]) + Stages(jobs[|jobs| - 1].status)
  }

  lemma {:induction false} PendingUpdate(jobs: seq<Job>, i: nat, j: Job)
    requires i < |jobs|
    ensures Pending(jobs[i := j]) == Pending(jobs) - Stages(jobs[i].status) + Stages(j.status)
  {
    var n := |jobs| - 1;
    if i < n {
      PendingUpdate(jobs[..n], i, j);
      assert jobs[i := j][..n] == jobs[..n][i := j];
    } else {
      assert jobs[i := j][..n] == jobs[..n];
    }
  }

  /** No job goes back, and a finished job is left alone. */
  ghost predicate Progress(before: seq<Job>, after: seq<Job>) {
    && |before| == |after|
    && forall s :: 0 <= s < |before| ==>
      && before[s].status <= after[s].status
      && (before[s].status >= COMPLETED ==> after[s] == before[s])
  }

  // ------------------------------------------------------------------ the ring

  /** A log entry: what was submitted and whether validation refused it. */
  datatype Submission = Submission(req: Request, refused: bool)

  /** The slots, the lane that holds each of them, the log of submissions, and how many of those
      have been handed back. */
  datatype Ring = Ring(jobs: seq<Job>, holder: seq<Option<Lane>>, log: seq<Submission>, done: nat)

  predicate Shape(v: Ring) {
    && |v.jobs| == |v.holder| == MAX_JOBS
    && v.done <= |v.log| <= v.done + MAX_JOBS
  }

  /** Slot of the oldest job under way. */
  function First(v: Ring): nat {
    v.done % MAX_JOBS
  }

  /** Steps from slot `first` forward to slot `s`, round the ring. */
  function Distance(first: nat, s: nat): int {
    if first <= s then s - first else s + MAX_JOBS - first
  }

  /** Slot `s` belongs to a job under way. */
  predicate Queued(v: Ring, s: int) {
    0 <= s < MAX_JOBS && Distance(First(v), s) < |v.log| - v.done
  }

  function EntryOf(v: Ring, s: int): Submission
    requires Shape(v) && Queued(v, s)
  {
    v.log[v.done + Distance(First(v), s)]
  }

  /** A job under way: it is the one submitted and its status fits its chain order. */
  predicate JobOk(j: Job, e: Submission, waiting: bool) {
    && j.req == Delivered(e.req, HashBegun(j, waiting))
    && (j.status == INVALID_ARGS <==> e.refused)
    && (j.status < COMPLETED ==> j.status == BEING_PROCESSED || j.status == FirstBit(j.req))
    && (j.status == COMPLETED_AES && j.req.chainOrder == CipherHash ==> !OnePass(j.req))
    && (j.status == INTERNAL_ERROR ==> UsesCallback(j.req))
    && j.status <= INTERNAL_ERROR
  }

  /** The lane that must hold slot `s`. */
  function Home(b: Build, v: Ring, floating: Option<int>, s: int): Option<Lane>
    requires Shape(v) && 0 <= s < MAX_JOBS
  {
    if Queued(v, s) && floating != Some(s) && v.jobs[s].status < COMPLETED
    then WaitLane(b, v.jobs[s]) else None
  }

  /** Every job under way is in order. */
  ghost predicate JobsOk(v: Ring, floating: Option<int>)
    requires Shape(v)
  {
    forall s :: Queued(v, s) ==> JobOk(v.jobs[s], EntryOf(v, s), floating != Some(s))
  }

  /** Every unfinished job but `floating` is held by exactly the lane its status calls for; the lanes
      hold nothing else. */
  ghost predicate HeldOk(b: Build, v: Ring, floating: Option<int>)
    requires Shape(v)
  {
    && (forall s :: 0 <= s < MAX_JOBS ==> v.holder[s] == Home(b, v, floating, s))
    && (forall s :: Queued(v, s) && floating != Some(s) && v.jobs[s].status < COMPLETED ==>
          v.holder[s].Some?)
  }

  ghost predicate Coherent(b: Build, v: Ring, floating: Option<int>) {
    && Shape(v)
    && JobsOk(v, floating)
    && HeldOk(b, v, floating)
    && (floating.Some? ==> Queued(v, floating.value))
  }

  /** Some lane holds a job. */
  ghost predicate Busy(v: Ring) {
    exists s :: 0 <= s < |v.holder| && v.holder[s].Some?
  }

  /** The job handed back is the one submitted, finished: refused, ended by its callback, or else
      completed; the length of a completed AES-CMAC job was multiplied by 8, once. */
  predicate Answers(j: Job, e: Submission) {
    && j.status in {COMPLETED, INVALID_ARGS, INTERNAL_ERROR}
    && (j.status == INVALID_ARGS <==> e.refused)
    && (j.status == INTERNAL_ERROR ==> UsesCallback(e.req))
    && j.req == Delivered(e.req, HashBegun(j, false))
  }

  /** For a job that validation accepts and that has no callback: it ends as COMPLETED, as it was
      submitted but for the length of an AES-CMAC message, which is 8 times the one given. */
  lemma OrdinaryAnswer(j: Job, e: Submission)
    requires Answers(j, e) && !e.refused && !UsesCallback(e.req)
    ensures j.status == COMPLETED
    ensures !IsJobInvalid(e.req) ==>
      j.req ==
      if e.req.hashAlg == AesCmac then e.req.(hashLen := 8 * e.req.hashLen % 0x1_0000_0000_0000_0000)
      else e.req
  {
    hide IsJobInvalid;
    if !IsJobInvalid(e.req) {
      AcceptedPairs(e.req);
    }
  }

  /** FIFO, each exactly once: the jobs handed back answer the first submissions, in order. */
  ghost predicate Faithful(returned: seq<Job>, log: seq<Submission>) {
    && |returned| <= |log|
    && forall k :: 0 <= k < |returned| ==> Answers(returned[k], log[k])
  }

  // ------------------------------------------------------------------ what each step keeps

  /** One slot changes, and `floating` is that slot or none. */
  predicate OneSlot(v: Ring, w: Ring, k: int, fv: Option<int>, fw: Option<int>) {
    && Shape(v) && Shape(w) && 0 <= k < MAX_JOBS
    && w.log == v.log && w.done == v.done
    && (forall q :: 0 <= q < MAX_JOBS && q != k ==>
          w.jobs[q] == v.jobs[q] && w.holder[q] == v.holder[q])
    && (fv == None || fv == Some(k)) && (fw == None || fw == Some(k))
  }

  lemma JobsElsewhere(v: Ring, w: Ring, k: int, fv: Option<int>, fw: Option<int>)
    requires OneSlot(v, w, k, fv, fw) && JobsOk(v, fv)
    requires Queued(w, k) ==> JobOk(w.jobs[k], EntryOf(w, k), fw != Some(k))
    ensures JobsOk(w, fw)
  {
    hide JobOk;
    forall s | Queued(w, s)
      ensures JobOk(w.jobs[s], EntryOf(w, s), fw != Some(s))
    {
      assert Queued(v, s) && EntryOf(w, s) == EntryOf(v, s);
      assert JobOk(v.jobs[s], EntryOf(v, s), fv != Some(s));
    }
  }

  lemma HeldElsewhere(b: Build, v: Ring, w: Ring, k: int, fv: Option<int>, fw: Option<int>)
    requires OneSlot(v, w, k, fv, fw) && HeldOk(b, v, fv)
    requires w.holder[k] == Home(b, w, fw, k)
    requires Queued(w, k) && fw != Some(k) && w.jobs[k].status < COMPLETED ==> w.holder[k].Some?
    ensures HeldOk(b, w, fw)
  {
    hide WaitLane;
    forall s | 0 <= s < MAX_JOBS
      ensures w.holder[s] == Home(b, w, fw, s)
    {
      assert v.holder[s] == Home(b, v, fv, s);
    }
  }

  /** A stage of the floating job ends at once. */
  lemma FinishKeeps(b: Build, v: Ring, k: int, j: Job)
    requires Coherent(b, v, Some(k)) && v.jobs[k].status < COMPLETED
    requires j.req == v.jobs[k].req && Reaches(b, v.jobs[k], j.status)
    requires !NextAction(b, v.jobs[k]).ToLane?
    ensures Coherent(b, v.(jobs := v.jobs[k := j]), Some(k))
    ensures Progress(v.jobs, v.jobs[k := j])
    ensures Pending(v.jobs[k := j]) < Pending(v.jobs)
  {
    hide NextAction, JobsOk, HeldOk, JobOk;
    PendingUpdate(v.jobs, k, j);
    var w := v.(jobs := v.jobs[k := j]);
    SlotFacts(b, v, Some(k), k);
    FinishedJob(b, v.jobs[k], EntryOf(v, k), j);
    JobsElsewhere(v, w, k, Some(k), Some(k));
    HeldElsewhere(b, v, w, k, Some(k), Some(k));
  }

  lemma SlotFacts(b: Build, v: Ring, floating: Option<int>, k: int)
    requires Coherent(b, v, floating) && 0 <= k < MAX_JOBS
    ensures v.holder[k] == Home(b, v, floating, k)
    ensures Queued(v, k) ==> JobOk(v.jobs[k], EntryOf(v, k), floating != Some(k))
    ensures Queued(v, k) && floating != Some(k) && v.jobs[k].status < COMPLETED ==> v.holder[k].Some?
  {
  }

  /** The same for the job alone: an AES-CMAC job is in its cipher stage then. */
  lemma FinishedJob(b: Build, was: Job, e: Submission, j: Job)
    requires JobOk(was, e, false) && was.status < COMPLETED
    requires j.req == was.req && Reaches(b, was, j.status) && !NextAction(b, was).ToLane?
    ensures JobOk(j, e, false) && was.status <= j.status && Stages(j.status) < Stages(was.status)
  {
  }

  /** Where a floating job can go next. */
  lemma StageReaches(b: Build, v: Ring, k: int)
    requires Shape(v) && (JobsOk(v, Some(k)) || JobsOk(v, None))
    requires Queued(v, k) && v.jobs[k].status < COMPLETED
    ensures
      var j := v.jobs[k];
      && (j.status == BEING_PROCESSED || j.status == FirstBit(j.req))
      && (NextAction(b, j) == Custom ==> Reaches(b, j, INTERNAL_ERROR))
      && (!NextAction(b, j).InlineBoth? ==> Reaches(b, j, SetBit(j.status, NextBit(j))))
      && (NextAction(b, j).InlineBoth? ==> Reaches(b, j, COMPLETED))
  {
    hide NextAction, Reaches, SetBit, NextBit, FirstBit;
    var j := v.jobs[k];
    if JobsOk(v, Some(k)) {
      JobReaches(b, j, EntryOf(v, k), false);
    } else {
      JobReaches(b, j, EntryOf(v, k), true);
    }
  }

  lemma JobReaches(b: Build, j: Job, e: Submission, waiting: bool)
    requires JobOk(j, e, waiting) && j.status < COMPLETED
    ensures j.status == BEING_PROCESSED || j.status == FirstBit(j.req)
    ensures NextAction(b, j) == Custom ==> Reaches(b, j, INTERNAL_ERROR)
    ensures !NextAction(b, j).InlineBoth? ==> Reaches(b, j, SetBit(j.status, NextBit(j)))
    ensures NextAction(b, j).InlineBoth? ==> Reaches(b, j, COMPLETED)
  {
    hide Delivered, HashBegun;
  }

  /** Turning a byte length into bits changes nothing the scheduler looks at. */
  lemma BitLengthKeeps(b: Build, j: Job)
    ensures NextAction(b, Entered(j)) == NextAction(b, j) && CipherNext(Entered(j)) == CipherNext(j)
    ensures Entered(j).status == j.status
    ensures FirstBit(Entered(j).req) == FirstBit(j.req)
    ensures Supported(b, Entered(j).req) == Supported(b, j.req)
  {
    DispatchIgnoresHashLen(b, j, Entered(j));
  }

  /** The floating job is queued in the lane of its next stage. */
  lemma QueueKeeps(b: Build, v: Ring, s: int, l: Lane)
    requires Coherent(b, v, Some(s)) && v.jobs[s].status < COMPLETED
    requires WaitLane(b, v.jobs[s]) == Some(l)
    ensures v.holder[s] == None // a job is never queued twice
    ensures
      var w := v.(jobs := v.jobs[s := Entered(v.jobs[s])], holder := v.holder[s := Some(l)]);
      && Coherent(b, w, None)
      && Busy(w)
      && Progress(v.jobs, w.jobs)
      && Pending(w.jobs) == Pending(v.jobs)
  {
    hide NextAction, JobsOk, HeldOk, JobOk, Entered, Supported;
    var j := Entered(v.jobs[s]);
    var w := v.(jobs := v.jobs[s := j], holder := v.holder[s := Some(l)]);
    BitLengthKeeps(b, v.jobs[s]);
    PendingUpdate(v.jobs, s, j);
    SlotFacts(b, v, Some(s), s);
    QueuedJob(b, v.jobs[s], EntryOf(v, s), l);
    assert w.holder[s].Some?;
    JobsElsewhere(v, w, s, Some(s), None);
    HeldElsewhere(b, v, w, s, Some(s), None);
  }

  lemma QueuedJob(b: Build, j: Job, e: Submission, l: Lane)
    requires JobOk(j, e, false) && j.status < COMPLETED && WaitLane(b, j) == Some(l)
    ensures JobOk(Entered(j), e, true)
  {
  }

  /** A lane sets the bit of the stage its jobs wait for. */
  lemma LaneOfStage(b: Build, j: Job, l: Lane)
    requires WaitLane(b, j) == Some(l)
    ensures LaneBit(l) == NextBit(j)
  {
    FlushDrainsSubmitLane(b, j.req, l);
  }

  /** A lane lets go of a job: it is under way, unfinished, and in the stage of this lane, whose bit is
      now set. */
  lemma TakeKeeps(b: Build, v: Ring, k: int, l: Lane)
    requires Coherent(b, v, None) && 0 <= k < MAX_JOBS && v.holder[k] == Some(l)
    ensures v.jobs[k].status < COMPLETED && LaneBit(l) == NextBit(v.jobs[k])
    ensures
      var j := v.jobs[k].(status := SetBit(v.jobs[k].status, LaneBit(l)));
      var w := v.(jobs := v.jobs[k := j], holder := v.holder[k := None]);
      && Reaches(b, v.jobs[k], j.status)
      && Coherent(b, w, Some(k))
      && Progress(v.jobs, w.jobs)
      && Pending(w.jobs) < Pending(v.jobs)
  {
    hide NextAction, JobsOk, HeldOk, JobOk, Reaches;
    SlotFacts(b, v, None, k);
    LaneOfStage(b, v.jobs[k], l);
    var j := v.jobs[k].(status := SetBit(v.jobs[k].status, LaneBit(l)));
    var w := v.(jobs := v.jobs[k := j], holder := v.holder[k := None]);
    TakenJob(b, v.jobs[k], EntryOf(v, k), j);
    PendingUpdate(v.jobs, k, j);
    JobsElsewhere(v, w, k, None, Some(k));
    HeldElsewhere(b, v, w, k, None, Some(k));
  }

  lemma TakenJob(b: Build, was: Job, e: Submission, j: Job)
    requires JobOk(was, e, true) && was.status < COMPLETED && WaitLane(b, was).Some?
    requires j == was.(status := SetBit(was.status, NextBit(was)))
    ensures JobOk(j, e, false) && Reaches(b, was, j.status)
    ensures was.status <= j.status && Stages(j.status) < Stages(was.status)
  {
  }

  /** A finished job needs no lane. */
  lemma SettleKeeps(b: Build, v: Ring, k: int)
    requires Coherent(b, v, Some(k)) && v.jobs[k].status >= COMPLETED
    ensures Coherent(b, v, None)
  {
    hide NextAction, JobsOk, HeldOk, JobOk;
    SlotFacts(b, v, Some(k), k);
    FinishedEitherWay(v.jobs[k], EntryOf(v, k));
    JobsElsewhere(v, v, k, Some(k), None);
    HeldElsewhere(b, v, v, k, Some(k), None);
  }

  lemma FinishedEitherWay(j: Job, e: Submission)
    requires j.status >= COMPLETED
    ensures JobOk(j, e, false) == JobOk(j, e, true)
  {
  }

  /** The window moves, and the slots in both windows keep their log entries. */
  ghost predicate SameEntries(v: Ring, w: Ring, s: int) {
    && Shape(v) && Shape(w)
    && (forall q :: q != s ==> (Queued(w, q) <==> Queued(v, q)))
    && (forall q :: q != s && Queued(v, q) ==> EntryOf(w, q) == EntryOf(v, q))
  }

  lemma JobsInBoth(v: Ring, w: Ring, s: int, floating: Option<int>)
    requires SameEntries(v, w, s) && JobsOk(v, None) && (floating == None || floating == Some(s))
    requires forall q :: 0 <= q < MAX_JOBS && q != s ==> w.jobs[q] == v.jobs[q]
    requires Queued(w, s) ==> JobOk(w.jobs[s], EntryOf(w, s), floating != Some(s))
    ensures JobsOk(w, floating)
  {
    hide JobOk, EntryOf;
    forall q | Queued(w, q)
      ensures JobOk(w.jobs[q], EntryOf(w, q), floating != Some(q))
    {
      assert q != s ==> JobOk(v.jobs[q], EntryOf(v, q), true);
    }
  }

  lemma HeldInBoth(b: Build, v: Ring, w: Ring, s: int, floating: Option<int>)
    requires SameEntries(v, w, s) && HeldOk(b, v, None) && 0 <= s < MAX_JOBS
    requires floating == None || floating == Some(s)
    requires w.holder == v.holder && forall q :: 0 <= q < MAX_JOBS && q != s ==> w.jobs[q] == v.jobs[q]
    requires v.holder[s] == None
    requires Queued(w, s) ==> floating == Some(s)
    ensures HeldOk(b, w, floating)
  {
    hide WaitLane, EntryOf;
    forall q | 0 <= q < MAX_JOBS
      ensures w.holder[q] == Home(b, w, floating, q)
    {
      assert v.holder[q] == Home(b, v, None, q);
    }
  }

  lemma OneMoreEntry(v: Ring, w: Ring, s: int)
    requires Shape(v) && |v.log| - v.done < MAX_JOBS && s == |v.log| % MAX_JOBS
    requires |w.log| == |v.log| + 1 && w.log[..|v.log|] == v.log && w.done == v.done
    requires |w.jobs| == |w.holder| == MAX_JOBS
    ensures !Queued(v, s) && Queued(w, s) && EntryOf(w, s) == w.log[|v.log|]
    ensures SameEntries(v, w, s)
  {
    forall q | q != s && Queued(v, q)
      ensures EntryOf(w, q) == EntryOf(v, q)
    {
      assert w.log[..|v.log|][v.done + Distance(First(v), q)] == w.log[v.done + Distance(First(v), q)];
    }
  }

  /** The window opens for one more job, which starts out in no lane. */
  lemma EnterKeeps(b: Build, v: Ring, s: int, j: Job, refused: bool)
    requires Coherent(b, v, None) && |v.log| - v.done < MAX_JOBS
    requires s == |v.log| % MAX_JOBS
    requires j.status == if refused then INVALID_ARGS else BEING_PROCESSED
    ensures !Queued(v, s)
    ensures
      var w := v.(jobs := v.jobs[s := j], log := v.log + [Submission(j.req, refused)]);
      Coherent(b, w, Some(s)) && EntryOf(w, s) == Submission(j.req, refused)
  {
    hide NextAction, JobsOk, HeldOk, Queued, EntryOf;
    var w := v.(jobs := v.jobs[s := j], log := v.log + [Submission(j.req, refused)]);
    OneMoreEntry(v, w, s);
    SlotFacts(b, v, None, s);
    JobsInBoth(v, w, s, Some(s));
    HeldInBoth(b, v, w, s, Some(s));
  }

  lemma OneEntryLess(v: Ring, w: Ring)
    requires Shape(v) && |v.log| > v.done && w == v.(done := v.done + 1)
    ensures Queued(v, First(v)) && EntryOf(v, First(v)) == v.log[v.done]
    ensures !Queued(w, First(v)) && SameEntries(v, w, First(v))
  {
  }

  /** The window closes behind the oldest job, once that is finished. */
  lemma HandBackKeeps(b: Build, v: Ring)
    requires Coherent(b, v, None) && |v.log| > v.done
    requires v.jobs[First(v)].status >= COMPLETED
    ensures Coherent(b, v.(done := v.done + 1), None)
    ensures Answers(v.jobs[First(v)], v.log[v.done])
  {
    hide NextAction, JobsOk, HeldOk, Queued, EntryOf;
    var w := v.(done := v.done + 1);
    OneEntryLess(v, w);
    SlotFacts(b, v, None, First(v));
    FinishedAnswers(v.jobs[First(v)], EntryOf(v, First(v)));
    JobsInBoth(v, w, First(v), None);
    HeldInBoth(b, v, w, First(v), None);
  }

  lemma FinishedAnswers(j: Job, e: Submission)
    requires JobOk(j, e, true) && j.status >= COMPLETED
    ensures Answers(j, e)
  {
  }

  /** The application may overwrite a slot outside the window. */
  lemma FillKeeps(b: Build, v: Ring, s: int, j: Job)
    requires Coherent(b, v, None) && 0 <= s < MAX_JOBS && !Queued(v, s)
    ensures Coherent(b, v.(jobs := v.jobs[s := j]), None)
  {
    hide NextAction, JobsOk, HeldOk, JobOk;
    SlotFacts(b, v, None, s);
    var w := v.(jobs := v.jobs[s := j]);
    JobsElsewhere(v, w, s, None, None);
    HeldElsewhere(b, v, w, s, None, None);
  }

  lemma DispatchIgnoresHashLen(b: Build, j: Job, k: Job)
    requires k == j.(req := j.req.(hashLen := k.req.hashLen))
    ensures NextAction(b, k) == NextAction(b, j) && CipherNext(k) == CipherNext(j)
    ensures Supported(b, k.req) == Supported(b, j.req)
  {
  }

  // ------------------------------------------------------------------ consequences

  /** An empty ring means empty lanes. */
  lemma EmptyRingEmptyLanes(b: Build, v: Ring)
    requires Coherent(b, v, None) && |v.log| == v.done
    ensures !Busy(v)
  {
    assert forall s :: 0 <= s < MAX_JOBS ==> v.holder[s] == Home(b, v, None, s);
  }

  /** A job in a lane is under way and unfinished. */
  lemma HeldIsUnderWay(b: Build, v: Ring, s: int)
    requires Coherent(b, v, None) && 0 <= s < MAX_JOBS && v.holder[s].Some?
    ensures Queued(v, s) && v.jobs[s].status < COMPLETED
  {
    assert v.holder[s] == Home(b, v, None, s);
  }

  /** With one job under way, the job is in a lane if anything is, and it is the one that can come
      back. */
  lemma LoneJob(b: Build, v: Ring)
    requires Coherent(b, v, None)
    ensures |v.log| == v.done + 1 && Busy(v) ==> v.jobs[First(v)].status < COMPLETED
    ensures |v.log| == v.done + 1 ==> forall s :: Queued(v, s) ==> s == First(v)
  {
    hide NextAction;
    if |v.log| == v.done + 1 && Busy(v) {
      var s :| 0 <= s < MAX_JOBS && v.holder[s].Some?;
      HeldIsUnderWay(b, v, s);
    }
  }

  /** The flush of the stage a job waits in empties the very lane that holds it; for a supported job
      the flush of a stage it has passed finds a lane or nothing, never the job itself. */
  lemma FlushFindsWaitingJob(b: Build, v: Ring, s: int)
    requires Coherent(b, v, None) && Queued(v, s) && v.jobs[s].status < COMPLETED
    ensures
      var j := v.jobs[s];
      && v.holder[s].Some?
      && (CipherNext(j) ==> FlushAes(b, j.req) == FromLane(v.holder[s].value))
      && (!CipherNext(j) ==> FlushHash(j.req) == FromLane(v.holder[s].value))
      && (Supported(b, j.req) <==> FirstFlush(b, j.req) != FromCustom)
      && (FirstFlush(b, j.req) == FromCustom ==> j.status == FirstBit(j.req))
  {
    assert v.holder[s] == Home(b, v, None, s) == WaitLane(b, v.jobs[s]);
    assert JobOk(v.jobs[s], EntryOf(v, s), true);
  }

  /** What complete_job is about to do to the job in slot `s`: the callback of its first stage is done,
      so the flush hands the job back as it is, while a lane holds it; and the stage RESUBMIT_JOB then
      runs queues it in that lane. */
  predicate SubmittedAgain(b: Build, v: Ring, s: int) {
    && Shape(v) && Queued(v, s)
    && v.jobs[s].status == FirstBit(v.jobs[s].req)
    && FirstFlush(b, v.jobs[s].req) == FromCustom
    && v.holder[s].Some?
    && NextAction(b, v.jobs[s]) == ToLane(v.holder[s].value)
  }

  /** That happens to an unfinished job exactly if it is not supported. */
  lemma UnsupportedIsQueuedTwice(b: Build, v: Ring, s: int)
    requires Coherent(b, v, None) && Queued(v, s) && v.jobs[s].status < COMPLETED
    ensures SubmittedAgain(b, v, s) <==> !Supported(b, v.jobs[s].req)
  {
    FlushFindsWaitingJob(b, v, s);
    assert v.holder[s] == Home(b, v, None, s) == WaitLane(b, v.jobs[s]);
  }

  /** The oldest job under way. */
  lemma OldestEntry(b: Build, v: Ring)
    requires Coherent(b, v, None) && |v.log| > v.done
    ensures Queued(v, First(v)) && EntryOf(v, First(v)) == v.log[v.done]
    ensures v.jobs[First(v)].status < COMPLETED ==> !v.log[v.done].refused
  {
    assert JobOk(v.jobs[First(v)], EntryOf(v, First(v)), true);
  }

  /** Being supported is a matter of the request as submitted. */
  lemma SupportedAsSubmitted(b: Build, v: Ring, s: int)
    requires Coherent(b, v, None) && Queued(v, s)
    ensures Supported(b, v.jobs[s].req) == Supported(b, EntryOf(v, s).req)
  {
    assert JobOk(v.jobs[s], EntryOf(v, s), true);
    DispatchIgnoresHashLen(b, Job(EntryOf(v, s).req, 0), Job(v.jobs[s].req, 0));
  }

  /** A request that validation accepts and that is not supported: a custom cipher ahead of
      HMAC-SHA1. */
  function CustomAheadOfHmac(): Request {
    Request(0, 0, (0, 0, 0), (0, 0, 0), 0, 1, 1, 0, 0, 0, 64, 0, 0, 1, 20, 0, 0, 0,
            CustomCipher, Encrypt, HmacSha1, CipherHash, 0, 1, 0)
  }

  lemma UnsupportedIsAccepted(b: Build)
    ensures var r := CustomAheadOfHmac(); !IsJobInvalid(r) && !Supported(b, r)
  {
  }
}

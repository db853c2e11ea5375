/**
 * The DynamoDB stream handler.  It looks the machine image up once, then
 * walks the batch's records: every INSERT yields one `RunInstances`
 * attempt, whose failure is swallowed; anything else that throws is caught
 * by the outer handler and ends the batch.  The two SDK calls are inputs:
 * what `DescribeImages` gave, and whether the n-th `RunInstances` attempt
 * succeeded.  The handler's observable behaviour is the sequence of calls
 * it makes and the reason, if any, it stopped early.
 */
module StreamHandler {
  import opened Wrappers
  import opened ImageSelection
  import InputMarker
  import UserData
  import opened LaunchRequest

  /** The `S` member of a DynamoDB attribute value; no other member is read. */
  datatype AttributeValue = AttributeValue(s: Option<string>)

  type Item = map<string, AttributeValue>

  /** One stream record; `newImage` is `record.dynamodb?.NewImage`. */
  datatype StreamRecord = StreamRecord(eventName: Option<string>, newImage: Option<Item>)

  /** `event.Records`, `None` when it is missing or not an array. */
  datatype Event = Event(records: Option<seq<StreamRecord>>)

  /** What `DescribeImages` gave: a thrown error, or a result whose `Images` may be absent. */
  datatype DescribeOutcome = DescribeThrew | Described(images: Option<seq<Image>>)

  datatype Filter = Filter(name: string, values: seq<string>)
  datatype ImageQuery = ImageQuery(filters: seq<Filter>, owners: seq<string>)

  /** The fixed image criteria: Ubuntu 22.04 amd64 server, HVM, EBS, published by Canonical. */
  const Query: ImageQuery := ImageQuery(
    [Filter("name", ["ubuntu/images/hvm-ssd/ubuntu-jammy-22.04-amd64-server-*"]),
     Filter("architecture", ["x86_64"]),
     Filter("virtualization-type", ["hvm"]),
     Filter("root-device-type", ["ebs"])],
    ["099720109477"])

  /** An SDK call the handler makes. */
  datatype Call = DescribeImages(query: ImageQuery) | RunInstances(request: Request, succeeded: bool)

  /** What the outer `catch` caught. */
  datatype Failure =
    | DescribeFailed
    | NoImage(error: SelectError)
    | NoRecordsArray     // 'Event does not contain Records array'
    | MalformedNewImage  // a TypeError reading `newItem.<field>.S`

  datatype Outcome = Completed | Aborted(failure: Failure)

  /** The calls made, in order, and how the handler ended. */
  datatype Trace = Trace(calls: seq<Call>, outcome: Outcome)

  /** The three fields of a new job record, each possibly `undefined`. */
  datatype Job = Job(id: Option<string>, textInput: Option<string>, inputFilePath: Option<string>)

  /**
   * `newItem?.<key>.S`: `undefined` when there is no new image at all; a
   * TypeError when the new image lacks the attribute.
   */
  function ReadString(item: Option<Item>, key: string): Result<Option<string>, Failure>
  {
    match item
    case None => Ok(None)
    case Some(m) => if key in m then Ok(m[key].s) else Err(MalformedNewImage)
  }

  predicate HasJobFields(item: Item) {
    "id" in item && "text_input" in item && "input_file_path" in item
  }

  /** Lines 43-46: the id, the text and the recorded file path of a new record. */
  function ReadJob(item: Option<Item>): (r: Result<Job, Failure>)
    ensures r.Ok? <==> item.None? || HasJobFields(item.value)
    ensures item.None? ==> r == Ok(Job(None, None, None))
    ensures item.Some? && HasJobFields(item.value) ==>
      r == Ok(Job(item.value["id"].s, item.value["text_input"].s, item.value["input_file_path"].s))
  {
    match ReadString(item, "id")
    case Err(e) => Err(e)
    case Ok(id) =>
      match ReadString(item, "text_input")
      case Err(e) => Err(e)
      case Ok(text) =>
        match ReadString(item, "input_file_path")
        case Err(e) => Err(e)
        case Ok(path) => Ok(Job(id, text, path))
  }

  predicate IsInsert(rec: StreamRecord) {
    rec.eventName == Some("INSERT")
  }

  /** An INSERT record whose new image lacks one of the job's fields. */
  predicate IsMalformed(rec: StreamRecord) {
    IsInsert(rec) && ReadJob(rec.newImage).Err?
  }

  /** `s3Path?.replace('.Input', '')`. */
  function StripPath(path: Option<string>): Option<string> {
    match path
    case None => None
    case Some(p) => Some(InputMarker.StripInputMarker(p))
  }

  /** The user-data script of a job. */
  function JobScript(config: Config, job: Job): string {
    UserData.RenderUserData(config.scriptBucketName, job.id, job.textInput,
                            StripPath(job.inputFilePath), config.tableName)
  }

  function JobRequest(config: Config, amiId: Option<string>, job: Job): Request {
    BuildLaunchRequest(config, amiId, JobScript(config, job))
  }

  /** How a job becomes its launch request once the image is chosen. */
  function Launcher(config: Config, amiId: Option<string>): Job -> Request {
    job => JobRequest(config, amiId, job)
  }

  /** The request builder of the deployment `config`, for each possible image. */
  function Launchers(config: Config): Option<string> -> Job -> Request {
    amiId => Launcher(config, amiId)
  }

  /** The records loop so far: the launch attempts made, and whether a record threw. */
  datatype Progress = Progress(calls: seq<Call>, stopped: bool)

  /** One iteration of the loop after `calls` attempts. */
  function StepRecord(launcher: Job -> Request, rec: StreamRecord, calls: seq<Call>,
                      accepted: nat -> bool): Progress
  {
    if !IsInsert(rec) then Progress(calls, false)
    else
      var job := ReadJob(rec.newImage);
      if job.Err? then Progress(calls, true)
      else Progress(calls + [RunInstances(launcher(job.value), accepted(|calls|))], false)
  }

  /** The loop over `records`, stopping at the first record that throws. */
  function RunRecords(launcher: Job -> Request, records: seq<StreamRecord>, accepted: nat -> bool): Progress
    decreases |records|
  {
    if records == [] then Progress([], false)
    else
      var p := RunRecords(launcher, records[..|records| - 1], accepted);
      if p.stopped then p else StepRecord(launcher, records[|records| - 1], p.calls, accepted)
  }

  /**
   * The whole handler, as a function of its inputs, for a given way
   * `launcherFor` of turning a job into a request once the image is chosen;
   * the deployed handler uses `Launchers(config)`.
   */
  function Handle(launcherFor: Option<string> -> Job -> Request, describe: DescribeOutcome, event: Event,
                  accepted: nat -> bool): (t: Trace)
    ensures |t.calls| >= 1 && t.calls[0] == DescribeImages(Query)
  {
    var lookup := [DescribeImages(Query)];
    match describe
    case DescribeThrew => Trace(lookup, Aborted(DescribeFailed))
    case Described(images) =>
      match SelectImage(images)
      case Err(e) => Trace(lookup, Aborted(NoImage(e)))
      case Ok(amiId) =>
        match event.records
        case None => Trace(lookup, Aborted(NoRecordsArray))
        case Some(records) =>
          var p := RunRecords(launcherFor(amiId), records, accepted);
          Trace(lookup + p.calls, if p.stopped then Aborted(MalformedNewImage) else Completed)
  }

  lemma RunRecordsSnoc(launcher: Job -> Request, records: seq<StreamRecord>, rec: StreamRecord,
                       accepted: nat -> bool)
    ensures var p := RunRecords(launcher, records, accepted);
      RunRecords(launcher, records + [rec], accepted)
      == if p.stopped then p else StepRecord(launcher, rec, p.calls, accepted)
  {
    assert (records + [rec])[..|records|] == records;
  }

  /** Once a record has thrown, later records change nothing. */
  lemma {:induction false} StoppedStays(launcher: Job -> Request, records: seq<StreamRecord>, k: nat,
                                        accepted: nat -> bool)
    requires k <= |records| && RunRecords(launcher, records[..k], accepted).stopped
    ensures RunRecords(launcher, records, accepted) == RunRecords(launcher, records[..k], accepted)
    decreases |records| - k
  {
    if k < |records| {
      RunRecordsSnoc(launcher, records[..k], records[k], accepted);
      assert records[..k] + [records[k]] == records[..k + 1];
      StoppedStays(launcher, records, k + 1, accepted);
    } else {
      assert records[..k] == records;
    }
  }

  /** The body of the loop for one record, after the attempts `launches`. */
  method ProcessRecord(launcher: Job -> Request, rec: StreamRecord, launches: seq<Call>,
                       accepted: nat -> bool)
    returns (launches': seq<Call>, stopped: bool)
    ensures Progress(launches', stopped) == StepRecord(launcher, rec, launches, accepted)
  {
    launches', stopped := launches, false;
    if IsInsert(rec) {
      var job := ReadJob(rec.newImage);
      if job.Err? {
        stopped := true;
        return;
      }
      var request := launcher(job.value);
      var succeeded := accepted(|launches|);
      launches' := launches + [RunInstances(request, succeeded)];
    }
  }

  /**
   * The `for (const record of event.Records)` loop: one launch attempt per
   * INSERT, in record order, a failed attempt swallowed, and the loop left
   * at the first record whose fields cannot be read.
   */
  method ProcessRecords(launcher: Job -> Request, records: seq<StreamRecord>, accepted: nat -> bool)
    returns (launches: seq<Call>, stopped: bool)
    ensures Progress(launches, stopped) == RunRecords(launcher, records, accepted)
    ensures forall j :: 0 <= j < |launches| ==> launches[j].RunInstances?
  {
    launches, stopped := [], false;
    var i := 0;
    while i < |records|
      invariant 0 <= i <= |records|
      invariant RunRecords(launcher, records[..i], accepted) == Progress(launches, false)
      invariant forall j :: 0 <= j < |launches| ==> launches[j].RunInstances?
    {
      ghost var before := launches;
      launches, stopped := ProcessRecord(launcher, records[i], launches, accepted);
      LoopStep(launcher, records, i, accepted);
      StepKeepsLaunches(launcher, records[i], before, accepted);
      if stopped {
        StoppedStays(launcher, records, i + 1, accepted);
        return;
      }
      i := i + 1;
    }
    assert records[..i] == records;
  }

  /** The loop over one more record is one more step. */
  lemma LoopStep(launcher: Job -> Request, records: seq<StreamRecord>, i: nat, accepted: nat -> bool)
    requires i < |records| && !RunRecords(launcher, records[..i], accepted).stopped
    ensures RunRecords(launcher, records[..i + 1], accepted)
            == StepRecord(launcher, records[i], RunRecords(launcher, records[..i], accepted).calls, accepted)
  {
    assert records[..i] + [records[i]] == records[..i + 1];
    RunRecordsSnoc(launcher, records[..i], records[i], accepted);
  }

  /** A step adds only `RunInstances` calls. */
  lemma StepKeepsLaunches(launcher: Job -> Request, rec: StreamRecord, calls: seq<Call>, accepted: nat -> bool)
    requires forall j :: 0 <= j < |calls| ==> calls[j].RunInstances?
    ensures var after := StepRecord(launcher, rec, calls, accepted).calls;
      forall j :: 0 <= j < |after| ==> after[j].RunInstances?
  {
  }

  /**
   * The handler.  One image lookup comes first, whatever the batch; the
   * image errors abort before `Records` is examined; a missing `Records`
   * aborts with no launch; otherwise the records are processed as
   * `RunRecords` says.
   */
  method HandleBatch(config: Config, describe: DescribeOutcome, event: Event, accepted: nat -> bool)
    returns (calls: seq<Call>, outcome: Outcome)
    ensures Trace(calls, outcome) == Handle(Launchers(config), describe, event, accepted)
    ensures |calls| >= 1 && calls[0] == DescribeImages(Query)
    ensures forall i :: 1 <= i < |calls| ==> calls[i].RunInstances?
    ensures describe.DescribeThrew? ==> calls == [DescribeImages(Query)] && outcome == Aborted(DescribeFailed)
    ensures describe.Described? && (describe.images == None || describe.images == Some([])) ==>
      calls == [DescribeImages(Query)] && outcome == Aborted(NoImage(NoImagesFound))
    ensures describe.Described? && describe.images.Some? && describe.images.value != [] &&
            !HasDated(describe.images.value) ==>
      calls == [DescribeImages(Query)] && outcome == Aborted(NoImage(NoDatedImageFound))
    ensures describe.Described? && describe.images.Some? && HasDated(describe.images.value) &&
            event.records.None? ==>
      calls == [DescribeImages(Query)] && outcome == Aborted(NoRecordsArray)
  {
    calls := [DescribeImages(Query)];
    if describe.DescribeThrew? {
      outcome := Aborted(DescribeFailed);
      return;
    }
    var selected := SelectImage(describe.images);
    if selected.Err? {
      outcome := Aborted(NoImage(selected.error));
      return;
    }
    if event.records.None? {
      outcome := Aborted(NoRecordsArray);
      return;
    }
    var launches, stopped := ProcessRecords(Launcher(config, selected.value), event.records.value, accepted);
    calls := calls + launches;
    outcome := if stopped then Aborted(MalformedNewImage) else Completed;
  }

  /** No INSERT record of `records` is malformed. */
  predicate WellFormed(records: seq<StreamRecord>) {
    forall i :: 0 <= i < |records| ==> !IsMalformed(records[i])
  }

  /** The jobs of the INSERT records, in record order: the reference for what is launched. */
  function InsertJobs(records: seq<StreamRecord>): seq<Job>
    requires WellFormed(records)
  {
    if records == [] then []
    else
      var rest := InsertJobs(records[1..]);
      if IsInsert(records[0]) then [ReadJob(records[0].newImage).value] + rest else rest
  }

  lemma {:induction false} InsertJobsSnoc(records: seq<StreamRecord>, rec: StreamRecord)
    requires WellFormed(records) && !IsMalformed(rec)
    ensures WellFormed(records + [rec])
    ensures InsertJobs(records + [rec]) ==
      InsertJobs(records) + if IsInsert(rec) then [ReadJob(rec.newImage).value] else []
    decreases |records|
  {
    var all := records + [rec];
    assert forall i :: 0 <= i < |records| ==> all[i] == records[i];
    assert all[|records|] == rec;
    if records != [] {
      assert all[1..] == records[1..] + [rec];
      InsertJobsSnoc(records[1..], rec);
    } else {
      assert all[1..] == [];
    }
  }

  /**
   * A batch without malformed INSERT records runs to the end and makes one
   * attempt per INSERT record, in order, the n-th with the n-th result.
   */
  lemma {:induction false} RunRecordsWellFormed(launcher: Job -> Request, records: seq<StreamRecord>,
                                                accepted: nat -> bool)
    requires WellFormed(records)
    ensures var p := RunRecords(launcher, records, accepted);
      var jobs := InsertJobs(records);
      && !p.stopped
      && |p.calls| == |jobs|
      && forall i :: 0 <= i < |jobs| ==> p.calls[i] == RunInstances(launcher(jobs[i]), accepted(i))
    decreases |records|
  {
    if records != [] {
      var init, last := records[..|records| - 1], records[|records| - 1];
      assert records == init + [last];
      assert forall i :: 0 <= i < |init| ==> init[i] == records[i];
      InsertJobsSnoc(init, last);
      RunRecordsWellFormed(launcher, init, accepted);
      RunRecordsSnoc(launcher, init, last, accepted);
    }
  }

  /** The loop stops at the first malformed INSERT record, keeping the attempts before it. */
  lemma RunRecordsStops(launcher: Job -> Request, records: seq<StreamRecord>, m: nat, accepted: nat -> bool)
    requires m < |records| && IsMalformed(records[m])
    ensures var p := RunRecords(launcher, records[..m], accepted);
      p.stopped || RunRecords(launcher, records, accepted) == Progress(p.calls, true)
  {
    var p := RunRecords(launcher, records[..m], accepted);
    if !p.stopped {
      assert RunRecords(launcher, records[..m + 1], accepted) == Progress(p.calls, true) by {
        assert records[..m] + [records[m]] == records[..m + 1];
        RunRecordsSnoc(launcher, records[..m], records[m], accepted);
        StepMalformed(launcher, records[m], p.calls, accepted);
      }
      StoppedStays(launcher, records, m + 1, accepted);
    }
  }

  /** A malformed INSERT record stops the loop and adds no attempt. */
  lemma StepMalformed(launcher: Job -> Request, rec: StreamRecord, calls: seq<Call>, accepted: nat -> bool)
    requires IsMalformed(rec)
    ensures StepRecord(launcher, rec, calls, accepted) == Progress(calls, true)
  {
  }

  /** Which launch attempts succeed changes neither the requests nor where the loop stops. */
  lemma {:induction false} RunRecordsIgnoresResults(launcher: Job -> Request, records: seq<StreamRecord>,
                                                    accepted1: nat -> bool, accepted2: nat -> bool)
    ensures var p1, p2 := RunRecords(launcher, records, accepted1), RunRecords(launcher, records, accepted2);
      && p1.stopped == p2.stopped
      && |p1.calls| == |p2.calls|
      && forall i :: 0 <= i < |p1.calls| ==>
           && p1.calls[i].RunInstances? && p2.calls[i].RunInstances?
           && p1.calls[i].request == p2.calls[i].request
           && p1.calls[i].succeeded == accepted1(i)
    decreases |records|
  {
    if records != [] {
      var init := records[..|records| - 1];
      RunRecordsIgnoresResults(launcher, init, accepted1, accepted2);
    }
  }

  /**
   * A batch of well-formed records, with a dated image: the handler looks
   * the image up once, chooses an image (the first newest one, by
   * `SelectsFirstNewest`), and launches every INSERT record's job with it,
   * in record order; other records launch nothing.
   */
  lemma BatchLaunchesInserts(launcherFor: Option<string> -> Job -> Request, images: seq<Image>,
                             records: seq<StreamRecord>, accepted: nat -> bool)
    requires HasDated(images) && WellFormed(records)
    ensures SelectImage(Some(images)).Ok?
    ensures var t := Handle(launcherFor, Described(Some(images)), Event(Some(records)), accepted);
      var amiId := SelectImage(Some(images)).value;
      var jobs := InsertJobs(records);
      && t.outcome == Completed
      && |t.calls| == 1 + |jobs|
      && t.calls[0] == DescribeImages(Query)
      && forall i :: 0 <= i < |jobs| ==>
           t.calls[i + 1] == RunInstances(launcherFor(amiId)(jobs[i]), accepted(i))
  {
    var k := SelectsFirstNewest(images);
    RunRecordsWellFormed(launcherFor(images[k].imageId), records, accepted);
  }

  /** In the deployed handler, the job of an INSERT record is launched with the request `JobRequest` builds. */
  lemma DeployedLaunch(config: Config, amiId: Option<string>, job: Job)
    ensures Launchers(config)(amiId)(job) == JobRequest(config, amiId, job)
  {
  }

  /**
   * A record whose new image lacks one of the job's fields ends the batch:
   * the attempts already made stand, and no later record is looked at.
   */
  lemma BatchStopsAtMalformed(launcherFor: Option<string> -> Job -> Request, describe: DescribeOutcome,
                              records: seq<StreamRecord>, m: nat, accepted: nat -> bool)
    requires m < |records| && IsMalformed(records[m]) && WellFormed(records[..m])
    ensures var before := Handle(launcherFor, describe, Event(Some(records[..m])), accepted);
      Handle(launcherFor, describe, Event(Some(records)), accepted)
      == if before.outcome == Completed then Trace(before.calls, Aborted(MalformedNewImage)) else before
  {
    if describe.Described? && SelectImage(describe.images).Ok? {
      var launcher := launcherFor(SelectImage(describe.images).value);
      RunRecordsWellFormed(launcher, records[..m], accepted);
      RunRecordsStops(launcher, records, m, accepted);
    }
  }

  /**
   * A failed `RunInstances` is swallowed: whatever the attempts' results,
   * the same requests are made and the handler ends the same way.
   */
  lemma LaunchFailuresIsolated(launcherFor: Option<string> -> Job -> Request, describe: DescribeOutcome,
                               event: Event, accepted1: nat -> bool, accepted2: nat -> bool)
    ensures var t1, t2 := Handle(launcherFor, describe, event, accepted1), Handle(launcherFor, describe, event, accepted2);
      && t1.outcome == t2.outcome
      && |t1.calls| == |t2.calls|
      && t1.calls[0] == t2.calls[0]
      && forall i :: 1 <= i < |t1.calls| ==>
           && t1.calls[i].RunInstances? && t2.calls[i].RunInstances?
           && t1.calls[i].request == t2.calls[i].request
           && t1.calls[i].succeeded == accepted1(i - 1)
  {
    if describe.Described? && SelectImage(describe.images).Ok? && event.records.Some? {
      var launcher := launcherFor(SelectImage(describe.images).value);
      var records := event.records.value;
      var p1, p2 := RunRecords(launcher, records, accepted1), RunRecords(launcher, records, accepted2);
      RunRecordsIgnoresResults(launcher, records, accepted1, accepted2);
      LookupThenAgree(p1.calls, p2.calls, accepted1);
    }
  }

  /** Attempts that agree as `RunRecordsIgnoresResults` says still agree after the image lookup. */
  lemma LookupThenAgree(c1: seq<Call>, c2: seq<Call>, accepted1: nat -> bool)
    requires |c1| == |c2|
    requires forall i :: 0 <= i < |c1| ==>
      && c1[i].RunInstances? && c2[i].RunInstances?
      && c1[i].request == c2[i].request
      && c1[i].succeeded == accepted1(i)
    ensures var d1, d2 := [DescribeImages(Query)] + c1, [DescribeImages(Query)] + c2;
      && |d1| == |d2|
      && forall i :: 1 <= i < |d1| ==>
           && d1[i].RunInstances? && d2[i].RunInstances?
           && d1[i].request == d2[i].request
           && d1[i].succeeded == accepted1(i - 1)
  {
    var d1, d2 := [DescribeImages(Query)] + c1, [DescribeImages(Query)] + c2;
    forall i | 1 <= i < |d1| ensures d1[i] == c1[i - 1] && d2[i] == c2[i - 1] {
    }
  }

  /** A MODIFY or REMOVE record (anything but INSERT) at the end of a batch changes nothing. */
  lemma NonInsertIgnored(launcherFor: Option<string> -> Job -> Request, describe: DescribeOutcome,
                         records: seq<StreamRecord>, rec: StreamRecord, accepted: nat -> bool)
    requires !IsInsert(rec)
    ensures Handle(launcherFor, describe, Event(Some(records + [rec])), accepted)
            == Handle(launcherFor, describe, Event(Some(records)), accepted)
  {
    if describe.Described? && SelectImage(describe.images).Ok? {
      RunRecordsSnoc(launcherFor(SelectImage(describe.images).value), records, rec, accepted);
    }
  }

  /**
   * A well-formed INSERT record at the end of a batch still running adds
   * exactly one attempt, for its job, carrying the next attempt's result.
   */
  lemma RunRecordsInsert(launcher: Job -> Request, records: seq<StreamRecord>, rec: StreamRecord,
                         accepted: nat -> bool)
    requires IsInsert(rec) && !IsMalformed(rec)
    requires !RunRecords(launcher, records, accepted).stopped
    ensures var p := RunRecords(launcher, records, accepted);
      RunRecords(launcher, records + [rec], accepted) ==
      Progress(p.calls + [RunInstances(launcher(ReadJob(rec.newImage).value), accepted(|p.calls|))], false)
  {
    RunRecordsSnoc(launcher, records, rec, accepted);
  }
}

/** What `StartApp` decides, as a function of its arguments and of what the commands it runs report. */
module LaunchDecision {
  import opened CLib
  import opened VmTable
  import opened TableRuns
  import LaunchArgs

  /** Everything `StartApp` learns from files and commands. */
  datatype Outcomes = Outcomes(policyFile: bool, manifestFile: bool, policyParsed: bool, digestParsed: bool,
                               policy: string, imageId: string, customerId: string, goldenHash: string,
                               signature: string, mountDirMade: bool, mountStatus: int, verifierStatus: int,
                               unmountStatus: int, hashFile: Option<string>)

  const HASH_CHARS: nat := 64
  const HASH_BUFFER: nat := 65

  function LaunchPolicy(o: Outcomes): string {
    if o.policy == "MeasureOnly" then AUDIT else if o.policy == "MeasureAndEnforce" then ENFORCE else ""
  }

  /** `strncpy_s` of at most 64 characters of the line `fgets` read. */
  function ImageHash(line: string): string { line[..Min(|line|, HASH_CHARS)] }

  function GoldenHash(o: Outcomes): string { StrCpyS(HASH_BUFFER, o.goldenHash) }

  /** Refused before anything is looked at, failed, let through unmeasured, or measured. */
  datatype Decision = Refused | Failed | Unmeasured | Measured(policy: string, verified: bool, imageHash: string)

  predicate Complete(f: LaunchArgs.Fields) {
    f.uuid != "" && (f.docker ==> f.mountPath != "" && f.name != "")
  }

  predicate PolicyRead(o: Outcomes) { o.policyFile && o.manifestFile && o.policyParsed && o.digestParsed }

  /** Mounting is for VMs only. */
  predicate ImageMeasured(docker: bool, o: Outcomes) {
    (!docker ==> o.mountDirMade && o.mountStatus == 0 && o.unmountStatus == 0) && o.verifierStatus == 0
      && o.hashFile.Some?
  }

  function Decide(f: LaunchArgs.Fields, o: Outcomes): Decision {
    if !Complete(f) then Refused
    else if !PolicyRead(o) then Failed
    else if LaunchPolicy(o) == "" then Unmeasured
    else if !ImageMeasured(f.docker, o) then Failed
    else Measured(LaunchPolicy(o), ImageHash(o.hashFile.value) == GoldenHash(o), ImageHash(o.hashFile.value))
  }

  function InstanceType(f: LaunchArgs.Fields): int {
    if f.docker then INSTANCE_TYPE_DOCKER else INSTANCE_TYPE_VM
  }

  function UpdateOf(f: LaunchArgs.Fields, o: Outcomes, d: Decision, dir: string): Update
    requires d.Measured?
  {
    Update(Meta(o.imageId, o.customerId, d.imageHash, o.signature, dir), d.policy, d.verified,
           if f.docker then Some(f.name) else None)
  }

  /** `rgHash`, which nothing fills. */
  const NO_HASH: string := Zeros(32)

  ghost function ChildOf(t: Table, procid: int, uuid: string): int {
    if IdOf(t, uuid) == 0 then procid else IdOf(t, uuid)
  }

  /** The id `StartApp` hands back, or -1 for a launch it records but does not allow. */
  ghost function ReplyOf(t: Table, procid: int, f: LaunchArgs.Fields, d: Decision): Option<int> {
    match d
    case Refused => None
    case Failed => None
    case Unmeasured => Some(procid)
    case Measured(policy, verified, _) =>
      Some(if !verified && policy == ENFORCE then -1 else ChildOf(t, procid, f.uuid))
  }

  ghost function TableAfter(build: Build, t: Table, procid: int, f: LaunchArgs.Fields, o: Outcomes, now: int,
                            dir: string): Table {
    var d := Decide(f, o);
    if !d.Measured? then t
    else
      var child := ChildOf(t, procid, f.uuid);
      var added := if IdOf(t, f.uuid) == 0
                   then Inserted(t, procid, NewEntry(build, f.kernel, f.uuid, NO_HASH, InstanceType(f), now)) else t;
      AfterUpdate(build, added, child, UpdateOf(f, o, d, dir))
  }

  // ---- What the decision means -------------------------------------------------------------------------

  /** The measurement file's line shows the hash the policy asks for: 64 characters of it, or all of a shorter hash. */
  predicate HashShown(golden: string, line: string) {
    if |golden| == HASH_CHARS then golden <= line else 0 < |golden| < HASH_CHARS && line == golden
  }

  /** The policy has no hash, or one that fits no hash buffer, and the measurement file shows nothing either. */
  predicate NothingCompared(golden: string, line: string) {
    (golden == "" || |golden| > HASH_CHARS) && line == ""
  }

  /**
   * Launching is in order: the request is complete, the policy was read, and either the policy asks for
   * no measurement, or the image was measured and, under enforcement, shows the policy's hash, or there
   * was nothing to compare.
   */
  predicate Admitted(f: LaunchArgs.Fields, o: Outcomes) {
    && Complete(f) && PolicyRead(o)
    && (o.policy == "MeasureOnly" || o.policy == "MeasureAndEnforce" ==> ImageMeasured(f.docker, o))
    && (o.policy == "MeasureAndEnforce" ==>
          HashShown(o.goldenHash, o.hashFile.value) || NothingCompared(o.goldenHash, o.hashFile.value))
  }

  lemma PoliciesDiffer()
    ensures AUDIT != ENFORCE && AUDIT != "" && ENFORCE != "" && "MeasureOnly" != "MeasureAndEnforce"
  {
    assert AUDIT[0] == 'A' && ENFORCE[0] == 'E';
    assert |"MeasureOnly"| != |"MeasureAndEnforce"|;
  }

  /** What the comparison of the two cut strings says about the policy's hash and the line as they are. */
  lemma ComparisonMeans(o: Outcomes, line: string)
    ensures ImageHash(line) == GoldenHash(o) <==> HashShown(o.goldenHash, line) || NothingCompared(o.goldenHash, line)
  {
    var golden := o.goldenHash;
    if |golden| < HASH_CHARS {
      assert |line| <= HASH_CHARS ==> line[..|line|] == line;
    } else if |golden| == HASH_CHARS {
      assert |line| >= HASH_CHARS ==> (golden <= line <==> line[..HASH_CHARS] == golden);
    }
  }

  /** A launch that is not measured gets the id of its request, any other the id of its entry. */
  ghost function IdGiven(t: Table, procid: int, f: LaunchArgs.Fields, o: Outcomes): int {
    if LaunchPolicy(o) == "" then procid else ChildOf(t, procid, f.uuid)
  }

  /** A positive id comes back exactly for an admitted launch whose id is positive, and it is that id. */
  lemma PositiveIffAdmitted(t: Table, procid: int, f: LaunchArgs.Fields, o: Outcomes)
    ensures var r := ReplyOf(t, procid, f, Decide(f, o));
            && (r.Some? && r.value > 0 <==> Admitted(f, o) && IdGiven(t, procid, f, o) > 0)
            && (r.Some? && r.value > 0 ==> r.value == IdGiven(t, procid, f, o))
  {
    PoliciesDiffer();
    if o.hashFile.Some? {
      ComparisonMeans(o, o.hashFile.value);
    }
    hide ImageHash, GoldenHash, HashShown, NothingCompared, IdOf;
  }

  /** The answer to a launch. */
  ghost function StartReply(t: Table, procid: int, f: LaunchArgs.Fields, o: Outcomes): Option<int> {
    ReplyOf(t, procid, f, Decide(f, o))
  }

  /** Each of these alone denies a launch: a missing argument, an unread policy, a failed step of the measuring. */
  lemma FailingSteps(t: Table, procid: int, f: LaunchArgs.Fields, o: Outcomes)
    ensures f.uuid == "" ==> StartReply(t, procid, f, o) == None
    ensures f.docker && (f.mountPath == "" || f.name == "") ==> StartReply(t, procid, f, o) == None
    ensures !o.policyFile || !o.manifestFile ==> StartReply(t, procid, f, o) == None
    ensures !o.policyParsed || !o.digestParsed ==> StartReply(t, procid, f, o) == None
    ensures o.policy == "MeasureOnly" || o.policy == "MeasureAndEnforce" ==>
              && (o.verifierStatus != 0 ==> StartReply(t, procid, f, o) == None)
              && (o.hashFile == None ==> StartReply(t, procid, f, o) == None)
              && (!f.docker && !o.mountDirMade ==> StartReply(t, procid, f, o) == None)
              && (!f.docker && o.mountStatus != 0 ==> StartReply(t, procid, f, o) == None)
              && (!f.docker && o.unmountStatus != 0 ==> StartReply(t, procid, f, o) == None)
  {
    PoliciesDiffer();
  }

  /** And nothing else does: without these, there is an answer, and under enforcement the hash decides what it is. */
  lemma SucceedingSteps(t: Table, procid: int, f: LaunchArgs.Fields, o: Outcomes)
    requires f.uuid != "" && (f.docker ==> f.mountPath != "" && f.name != "")
    requires o.policyFile && o.manifestFile && o.policyParsed && o.digestParsed
    ensures o.policy != "MeasureOnly" && o.policy != "MeasureAndEnforce" ==> StartReply(t, procid, f, o) == Some(procid)
    ensures (o.policy == "MeasureOnly" || o.policy == "MeasureAndEnforce")
            && o.verifierStatus == 0 && o.hashFile.Some?
            && (f.docker || (o.mountDirMade && o.mountStatus == 0 && o.unmountStatus == 0)) ==>
              var known := WithUuid(t, f.uuid) != {} && IdOf(t, f.uuid) != 0;
              var shown := if 0 < |o.goldenHash| < 64 then o.hashFile.value == o.goldenHash
                           else if |o.goldenHash| == 64 then o.goldenHash <= o.hashFile.value
                           else o.hashFile.value == "";
              StartReply(t, procid, f, o) == Some(if o.policy == "MeasureAndEnforce" && !shown then -1
                                                  else if known then IdOf(t, f.uuid) else procid)
  {
    PoliciesDiffer();
    if o.hashFile.Some? {
      ComparisonMeans(o, o.hashFile.value);
    }
    hide ImageHash, GoldenHash;
  }

  /** Ids are positive as long as those in the table are and the request counter has not come round to 0. */
  lemma IdsGivenArePositive(t: Table, procid: int, f: LaunchArgs.Fields, o: Outcomes)
    requires procid > 0 && forall id :: id in t ==> id > 0
    ensures IdGiven(t, procid, f, o) > 0
  {
  }

  /** An admitted launch that was measured under enforcement is in the table, verified. */
  lemma MeasuredIsRecorded(build: Build, t: Table, procid: int, f: LaunchArgs.Fields, o: Outcomes, now: int,
                           dir: string)
    requires Decide(f, o).Measured?
    ensures var child := ChildOf(t, procid, f.uuid);
            var t1 := TableAfter(build, t, procid, f, o, now, dir);
            && child in t1
            && t1[child].policy == LaunchPolicy(o)
               && t1[child].verified == (ImageHash(o.hashFile.value) == GoldenHash(o))
            && (t1[child].policy == ENFORCE && !t1[child].verified ==> t1[child].status == VM_STATUS_CANCELLED)
            && forall id :: id in t1 && id != child ==> id in t && t1[id] == t[id]
  {
    PoliciesDiffer();
  }

  /** A launch without an answer or without measurement leaves the table alone. */
  lemma UnmeasuredKeepsTable(build: Build, t: Table, procid: int, f: LaunchArgs.Fields, o: Outcomes, now: int,
                             dir: string)
    requires StartReply(t, procid, f, o) == None || (o.policy != "MeasureOnly" && o.policy != "MeasureAndEnforce")
    ensures TableAfter(build, t, procid, f, o, now, dir) == t
  {
    PoliciesDiffer();
  }

  /** What a measured launch of an unknown VM enters in the table, field by field. */
  lemma LaunchedEntry(build: Build, t: Table, procid: int, f: LaunchArgs.Fields, o: Outcomes, now: int, dir: string)
    requires StartReply(t, procid, f, o) != None && (o.policy == "MeasureOnly" || o.policy == "MeasureAndEnforce")
    requires WithUuid(t, f.uuid) == {} && procid !in t && |f.uuid| < UUID_SIZE
    ensures o.hashFile.Some?
    ensures var t1 := TableAfter(build, t, procid, f, o, now, dir); t1 == t[procid := t1[procid]]
    ensures var e := TableAfter(build, t, procid, f, o, now, dir)[procid];
            && e.uuid == f.uuid && e.exeFile == f.kernel && e.statusTime == now
            && e.instanceType == (if f.docker then 1 else 0)
            && e.instanceName == (if f.docker && |f.name| < 512 then f.name else "")
            && e.policy == (if o.policy == "MeasureOnly" then "Audit" else "Enforce")
            && e.status
               == (if e.policy == "Enforce" && !e.verified then 0 else if f.docker || build == Windows then 1 else 2)
    ensures FilledIn(TableAfter(build, t, procid, f, o, now, dir)[procid], o, dir)
  {
    PoliciesDiffer();
    ComparisonMeans(o, o.hashFile.value);
    assert |AUDIT| == 5 && |ENFORCE| == 7;
    hide ImageHash, GoldenHash;
  }

  /** And what it changes for a VM that has an entry: data and verdict, and of a Linux VM's status only a refusal. */
  lemma RelaunchedEntry(build: Build, t: Table, procid: int, f: LaunchArgs.Fields, o: Outcomes, now: int, dir: string)
    requires StartReply(t, procid, f, o) != None && (o.policy == "MeasureOnly" || o.policy == "MeasureAndEnforce")
    requires IdOf(t, f.uuid) != 0
    ensures o.hashFile.Some?
    ensures var id, t1 := IdOf(t, f.uuid), TableAfter(build, t, procid, f, o, now, dir); t1 == t[id := t1[id]]
    ensures var e0, e := t[IdOf(t, f.uuid)], TableAfter(build, t, procid, f, o, now, dir)[IdOf(t, f.uuid)];
            && e.uuid == e0.uuid && e.exeFile == e0.exeFile && e.statusTime == e0.statusTime
               && e.instanceType == e0.instanceType
            && e.instanceName == (if f.docker then if |f.name| < 512 then f.name else "" else e0.instanceName)
            && e.policy == (if o.policy == "MeasureOnly" then "Audit" else "Enforce")
            && e.status == (if e.policy == "Enforce" && !e.verified then 0
                            else if e0.instanceType == 1 || build == Windows then 1 else e0.status)
    ensures FilledIn(TableAfter(build, t, procid, f, o, now, dir)[IdOf(t, f.uuid)], o, dir)
  {
    PoliciesDiffer();
    ComparisonMeans(o, o.hashFile.value);
    assert |AUDIT| == 5 && |ENFORCE| == 7;
    hide ImageHash, GoldenHash, IdOf;
  }

  /** After a measured launch the VM's first entry has the launch's verdict. */
  lemma VerdictIsKept(build: Build, t: Table, procid: int, f: LaunchArgs.Fields, o: Outcomes, now: int, dir: string)
    returns (id: int)
    requires StartReply(t, procid, f, o) != None && (o.policy == "MeasureOnly" || o.policy == "MeasureAndEnforce")
    requires procid !in t && |f.uuid| < UUID_SIZE && forall j :: j in t ==> 0 < j
    ensures o.hashFile.Some? && IsFirst(TableAfter(build, t, procid, f, o, now, dir), f.uuid, id)
    ensures FilledIn(TableAfter(build, t, procid, f, o, now, dir)[id], o, dir)
  {
    var t1 := TableAfter(build, t, procid, f, o, now, dir);
    if IdOf(t, f.uuid) == 0 {
      id := procid;
      LaunchedEntry(build, t, procid, f, o, now, dir);
      forall j | j in t ensures t[j].uuid != f.uuid {
        assert j !in WithUuid(t, f.uuid);
      }
    } else {
      id := IdOf(t, f.uuid);
      RelaunchedEntry(build, t, procid, f, o, now, dir);
    }
    hide TableAfter, FilledIn, StartReply;
  }

  /** The policy's and the measurement's data, each cut off whole where its field is too small; and the verdict. */
  predicate FilledIn(e: Entry, o: Outcomes, dir: string)
    requires o.hashFile.Some?
  {
    && e.meta.imageId == (if |o.imageId| < 256 then o.imageId else "")
    && e.meta.customerId == (if |o.customerId| < 256 then o.customerId else "")
    && e.meta.manifestSignature == (if |o.signature| < 512 then o.signature else "")
    && e.meta.manifestDir == (if |dir| < 1024 then dir else "")
    && e.meta.manifestHash == o.hashFile.value[..Min(|o.hashFile.value|, 64)]
    && (e.verified <==> if 0 < |o.goldenHash| < 64 then o.hashFile.value == o.goldenHash
                        else if |o.goldenHash| == 64 then o.goldenHash <= o.hashFile.value
                        else o.hashFile.value == "")
  }

  /** Under enforcement and with a hash the buffer holds, a positive id means that the image shows this hash. */
  lemma EnforcedMeansHashShown(t: Table, procid: int, f: LaunchArgs.Fields, o: Outcomes)
    requires o.policy == "MeasureAndEnforce" && 0 < |o.goldenHash| <= HASH_CHARS
    ensures var r := ReplyOf(t, procid, f, Decide(f, o));
            r.Some? && r.value > 0 ==> o.hashFile.Some? && HashShown(o.goldenHash, o.hashFile.value)
  {
    PositiveIffAdmitted(t, procid, f, o);
    hide HashShown, Decide, IdGiven;
  }

  /**
   * Without such a hash it does not: an empty measurement file is let through under enforcement when the
   * policy's hash is missing or longer than 64 characters.
   */
  lemma EmptyMeasurementAdmitted(t: Table, procid: int, f: LaunchArgs.Fields, o: Outcomes)
    requires Complete(f) && PolicyRead(o) && ImageMeasured(f.docker, o) && o.policy == "MeasureAndEnforce"
    requires (o.goldenHash == "" || |o.goldenHash| > HASH_CHARS) && o.hashFile == Some("")
             && IdGiven(t, procid, f, o) > 0
    ensures var r := ReplyOf(t, procid, f, Decide(f, o));
            r.Some? && r.value > 0 && !HashShown(o.goldenHash, o.hashFile.value)
  {
    PositiveIffAdmitted(t, procid, f, o);
    hide Decide, IdGiven;
  }

  /** A golden hash shorter than 64 characters matches the whole line and nothing else. */
  lemma ShortHashNeedsBareLine(o: Outcomes, line: string)
    requires 0 < |o.goldenHash| < HASH_CHARS
    ensures ImageHash(line) == GoldenHash(o) <==> line == o.goldenHash
  {
    ComparisonMeans(o, line);
  }

  /** So it is never found in a line that ends in a newline. */
  lemma NewlineNeverMatches(o: Outcomes, hash: string)
    requires 0 < |o.goldenHash| < HASH_CHARS && '\n' !in o.goldenHash
    ensures ImageHash(hash + "\n") != GoldenHash(o)
  {
    ShortHashNeedsBareLine(o, hash + "\n");
    assert (hash + "\n")[|hash|] == '\n';
  }

  /** One of 64 characters is compared with the first 64 of the line; a longer one counts as empty. */
  lemma LongHashComparesPrefix(o: Outcomes, line: string)
    requires |o.goldenHash| >= HASH_CHARS
    ensures ImageHash(line) == GoldenHash(o) <==>
            if |o.goldenHash| == HASH_CHARS then o.goldenHash <= line else line == ""
  {
    ComparisonMeans(o, line);
  }

  /**
   * Left alone between its locked steps, a measured launch does to the table of the interleaved machine
   * what `StartApp` does to its own.
   */
  lemma UndisturbedLaunch(c: Config, s: State, tid: nat, f: LaunchArgs.Fields, o: Outcomes, dir: string)
    requires Decide(f, o).Measured? && InPhase(s, tid, LookingUp)
    requires var x := s.launches[tid]; x.uuid == f.uuid && x.file == f.kernel && x.hash == NO_HASH
                                       && x.instanceType == InstanceType(f)
                                          && x.update == UpdateOf(f, o, Decide(f, o), dir)
    ensures var s3 := Step(c, Step(c, Step(c, s, LookUp(tid)), Add(tid)), Apply(tid));
            && s3.table == TableAfter(c.build, s.table, s.launches[tid].procid, f, o, s.clock, dir)
            && InPhase(s3, tid, Spawning)
  {
    hide IdOf, Decide, UpdateOf, NewEntry, AfterUpdate, Inserted;
    var x := s.launches[tid];
    var s1 := Step(c, s, LookUp(tid));
    var s2 := Step(c, s1, Add(tid));
    var e := NewEntry(c.build, f.kernel, f.uuid, NO_HASH, InstanceType(f), s.clock);
    assert s2.table == if IdOf(s.table, f.uuid) == 0
                       then Inserted(s.table, x.procid, e) else s.table;
    assert s2.launches[tid].phase == Updating(ChildOf(s.table, x.procid, f.uuid));
    assert ChildOf(s.table, x.procid, f.uuid) in s2.table by { ChildIsThere(s.table, x.procid, f.uuid, e); }
  }

  lemma ChildIsThere(t: Table, procid: int, uuid: string, e: Entry)
    ensures ChildOf(t, procid, uuid) in if IdOf(t, uuid) == 0 then Inserted(t, procid, e) else t
  {
  }
}

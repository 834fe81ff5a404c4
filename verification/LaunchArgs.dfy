/** `StartApp`'s flag parser: a cursor that moves inside an iteration, and what it makes of a vector. */
module LaunchArgs {
  import opened CLib
  import opened VmTable

  const PATH_SIZE: nat := 1024
  const MOUNT_SIZE: nat := 128
  const MAX_ARGS: nat := 30

  /** The flags that take a value, in the order `StartApp` tests them; the bare one comes after `Disk`. */
  datatype Flag = Kernel | Ramdisk | Config | Uuid | Disk | MountPath | Name

  function FlagText(flag: Flag): string {
    match flag
    case Kernel => "-kernel"
    case Ramdisk => "-ramdisk"
    case Config => "-config"
    case Uuid => "-uuid"
    case Disk => "-disk"
    case MountPath => "-mount_path"
    case Name => "-name"
  }

  const DOCKER := "-docker_instance"

  /** The place of a flag among the tests of one iteration; the bare flag is tested at 5. */
  function Rank(flag: Flag): nat {
    match flag
    case Kernel => 0
    case Ramdisk => 1
    case Config => 2
    case Uuid => 3
    case Disk => 4
    case MountPath => 6
    case Name => 7
  }

  /** A flag that is still to be tested when the cursor has moved to the value of `flag`. */
  ghost predicate IsLaterFlag(flag: Flag, s: string) {
    (s == DOCKER && Rank(flag) < 5) || exists other :: Rank(other) > Rank(flag) && s == FlagText(other)
  }

  /** The letter after the dash tells the flags with values apart. */
  function Letter(flag: Flag): char {
    match flag
    case Kernel => 'k'
    case Ramdisk => 'r'
    case Config => 'c'
    case Uuid => 'u'
    case Disk => 'd'
    case MountPath => 'm'
    case Name => 'n'
  }

  lemma TextsDiffer(a: Flag, b: Flag)
    ensures FlagText(a) == FlagText(b) <==> a == b
    ensures FlagText(a) != DOCKER
  {
    assert FlagText(a)[1] == Letter(a) && FlagText(b)[1] == Letter(b);
    assert FlagText(Disk)[2] == 'i' && DOCKER[1] == 'd' && DOCKER[2] == 'o';
  }

  lemma FlagsStartWithDash(s: string)
    requires s == "" || s[0] != '-'
    ensures forall flag :: !IsLaterFlag(flag, s)
  {
    assert forall flag :: FlagText(flag)[0] == '-';
    assert DOCKER[0] == '-';
  }

  datatype Fields = Fields(kernel: string, ramdisk: string, config: Option<string>, uuid: string, disk: string,
                           mountPath: string, name: string, docker: bool)

  const NO_FIELDS := Fields("", "", None, "", "", "", "", false)

  /** Storing one value, with the size of its field. */
  function Set(f: Fields, flag: Flag, value: string): Fields {
    match flag
    case Kernel => f.(kernel := StrCpyS(PATH_SIZE, value))
    case Ramdisk => f.(ramdisk := StrCpyS(PATH_SIZE, value))
    case Config => f.(config := Some(value))
    case Uuid => f.(uuid := StrCpyS(UUID_SIZE, value))
    case Disk => f.(disk := StrCpyS(PATH_SIZE, value))
    case MountPath => f.(mountPath := StrCpyS(MOUNT_SIZE, value))
    case Name => f.(name := StrCpyS(INSTANCENAME_SIZE, value))
  }

  // ---- What the loop does to any vector ----------------------------------------------------------------

  /** Cursor and fields in the middle of an iteration; `None` once a value was read past the vector. */
  type Cursor = Option<(nat, Fields)>

  function Test(av: seq<string>, c: Cursor, flag: Flag): (r: Cursor)
    ensures r.Some? ==> c.Some? && r.value.0 >= c.value.0 && (c.value.0 < |av| ==> r.value.0 < |av|)
  {
    match c
    case None => None
    case Some((i, f)) =>
      if i < |av| && av[i] == FlagText(flag) then
        if i + 1 < |av| then Some((i + 1, Set(f, flag, av[i + 1]))) else None
      else c
  }

  function TestDocker(av: seq<string>, c: Cursor): (r: Cursor)
    ensures r.Some? <==> c.Some?
    ensures r.Some? ==> r.value.0 == c.value.0
  {
    match c
    case None => None
    case Some((i, f)) => if i < |av| && av[i] == DOCKER then Some((i, f.(docker := true))) else c
  }

  /** Each test looks at the string the cursor is on by then, which may be the value just stored. */
  function Iteration(av: seq<string>, c: Cursor): (r: Cursor)
    ensures r.Some? ==> c.Some? && r.value.0 >= c.value.0 && (c.value.0 < |av| ==> r.value.0 < |av|)
  {
    var d := Test(av, Test(av, Test(av, Test(av, Test(av, c, Kernel), Ramdisk), Config), Uuid), Disk);
    Test(av, Test(av, TestDocker(av, d), MountPath), Name)
  }

  /** The whole loop from cursor `i`; `None` for a vector that ends in a flag still awaiting its value. */
  function Scan(av: seq<string>, i: nat, f: Fields): Option<Fields>
    decreases |av| - i
  {
    if i >= |av| then Some(f)
    else
      match Iteration(av, Some((i, f)))
      case None => None
      case Some((j, g)) => Scan(av, j + 1, g)
  }

  // ---- The loop itself -----------------------------------------------------------------------------------

  /** One of the tests in the body: on its flag, the cursor moves to the value and the value is stored. */
  method TakeValue(av: seq<string>, start: nat, before: Fields, flag: Flag) returns (i: nat, f: Fields)
    requires start < |av| && Test(av, Some((start, before)), flag).Some?
    ensures Test(av, Some((start, before)), flag) == Some((i, f)) && start <= i < |av|
  {
    i, f := start, before;
    if av[i] == FlagText(flag) {
      i := i + 1;
      f := Set(f, flag, av[i]);
    }
  }

  method ParseArgs(av: seq<string>) returns (f: Fields)
    requires Scan(av, 0, NO_FIELDS).Some?
    ensures Some(f) == Scan(av, 0, NO_FIELDS)
  {
    hide Test;
    f := NO_FIELDS;
    var i := 0;
    while i < |av|
      invariant 0 <= i
      invariant Scan(av, i, f) == Scan(av, 0, NO_FIELDS)
      decreases |av| - i
    {
      i, f := TakeValue(av, i, f, Kernel);
      i, f := TakeValue(av, i, f, Ramdisk);
      i, f := TakeValue(av, i, f, Config);
      i, f := TakeValue(av, i, f, Uuid);
      i, f := TakeValue(av, i, f, Disk);
      if av[i] == DOCKER {
        f := f.(docker := true);
      }
      i, f := TakeValue(av, i, f, MountPath);
      i, f := TakeValue(av, i, f, Name);
      i := i + 1;
    }
  }

  lemma TestStaysInside(av: seq<string>, c: Cursor, flag: Flag)
    requires c.Some? && c.value.0 < |av| && av[|av| - 1] != FlagText(flag)
    ensures Test(av, c, flag).Some? && Test(av, c, flag).value.0 < |av|
  {
  }

  /** The last string of the vector takes no value. */
  ghost predicate EndsPlain(av: seq<string>) { av != [] && forall flag :: av[|av| - 1] != FlagText(flag) }

  lemma IterationStaysInside(av: seq<string>, c: Cursor)
    requires c.Some? && c.value.0 < |av| && EndsPlain(av)
    ensures Iteration(av, c).Some? && Iteration(av, c).value.0 < |av|
  {
    hide Test, FlagText;
    TestStaysInside(av, c, Kernel);
    var c1 := Test(av, c, Kernel);
    TestStaysInside(av, c1, Ramdisk);
    var c2 := Test(av, c1, Ramdisk);
    TestStaysInside(av, c2, Config);
    var c3 := Test(av, c2, Config);
    TestStaysInside(av, c3, Uuid);
    var c4 := Test(av, c3, Uuid);
    TestStaysInside(av, c4, Disk);
    var c5 := TestDocker(av, Test(av, c4, Disk));
    TestStaysInside(av, c5, MountPath);
    TestStaysInside(av, Test(av, c5, MountPath), Name);
  }

  lemma ScanStep(av: seq<string>, i: nat, f: Fields)
    requires i < |av| && Iteration(av, Some((i, f))).Some?
    ensures var c := Iteration(av, Some((i, f))).value; Scan(av, i, f) == Scan(av, c.0 + 1, c.1)
  {
    hide Iteration;
  }

  lemma ScanAtEnd(av: seq<string>, i: nat, f: Fields)
    requires i >= |av|
    ensures Scan(av, i, f) == Some(f)
  {
  }

  /** A vector whose last string is no flag is never read past its end, whatever flags stand where values belong. */
  lemma {:induction false} NeverReadPastEnd(av: seq<string>, i: nat, f: Fields)
    requires EndsPlain(av)
    ensures Scan(av, i, f).Some?
    decreases |av| - i
  {
    hide Iteration, EndsPlain, Scan;
    if i >= |av| {
      ScanAtEnd(av, i, f);
    } else {
      IterationStaysInside(av, Some((i, f)));
      var c := Iteration(av, Some((i, f)));
      ScanStep(av, i, f);
      NeverReadPastEnd(av, c.value.0 + 1, c.value.1);
    }
  }

  // ---- The uuid, whatever the vector -----------------------------------------------------------------------

  /** It is one of the strings, short enough for its field, or empty. */
  predicate UuidIsArg(av: seq<string>, f: Fields) { f.uuid == "" || (f.uuid in av && |f.uuid| < UUID_SIZE) }

  lemma TestKeepsUuid(av: seq<string>, c: Cursor, flag: Flag)
    requires c.Some? ==> UuidIsArg(av, c.value.1)
    ensures Test(av, c, flag).Some? ==> UuidIsArg(av, Test(av, c, flag).value.1)
  {
    hide FlagText;
  }

  lemma IterationKeepsUuid(av: seq<string>, c: Cursor)
    requires c.Some? && UuidIsArg(av, c.value.1)
    ensures Iteration(av, c).Some? ==> UuidIsArg(av, Iteration(av, c).value.1)
  {
    var c1 := Test(av, c, Kernel);
    var c2 := Test(av, c1, Ramdisk);
    var c3 := Test(av, c2, Config);
    var c4 := Test(av, c3, Uuid);
    var c5 := Test(av, c4, Disk);
    var c6 := TestDocker(av, c5);
    var c7 := Test(av, c6, MountPath);
    hide Test, FlagText;
    TestKeepsUuid(av, c, Kernel);
    TestKeepsUuid(av, c1, Ramdisk);
    TestKeepsUuid(av, c2, Config);
    TestKeepsUuid(av, c3, Uuid);
    TestKeepsUuid(av, c4, Disk);
    assert c6.Some? ==> UuidIsArg(av, c6.value.1);
    TestKeepsUuid(av, c6, MountPath);
    TestKeepsUuid(av, c7, Name);
  }

  lemma {:induction false} ScanKeepsUuid(av: seq<string>, i: nat, f: Fields)
    requires UuidIsArg(av, f) && Scan(av, i, f).Some?
    ensures UuidIsArg(av, Scan(av, i, f).value)
    decreases |av| - i
  {
    hide UuidIsArg, Iteration, Scan;
    if i >= |av| {
      ScanAtEnd(av, i, f);
    } else {
      IterationKeepsUuid(av, Some((i, f)));
      if Iteration(av, Some((i, f))) == None {
        NoIterationNoScan(av, i, f);
      }
      ScanStep(av, i, f);
      var c := Iteration(av, Some((i, f))).value;
      ScanKeepsUuid(av, c.0 + 1, c.1);
    }
  }

  lemma NoIterationNoScan(av: seq<string>, i: nat, f: Fields)
    requires i < |av| && Iteration(av, Some((i, f))) == None
    ensures Scan(av, i, f) == None
  {
    hide Iteration;
  }

  // ---- Vectors made of flags with their values ---------------------------------------------------------

  datatype Item = Opt(flag: Flag, value: string) | DockerInstance

  /** A value that is itself a flag yet to be tested would be taken for one. */
  ghost predicate Proper(items: seq<Item>) {
    forall k :: 0 <= k < |items| && items[k].Opt? ==> !IsLaterFlag(items[k].flag, items[k].value)
  }

  function Strings(item: Item): seq<string> {
    match item
    case Opt(flag, value) => [FlagText(flag), value]
    case DockerInstance => [DOCKER]
  }

  function Flatten(items: seq<Item>): seq<string> {
    if items == [] then [] else Strings(items[0]) + Flatten(items[1..])
  }

  /** The value of the last occurrence of a flag. */
  function LastValue(items: seq<Item>, flag: Flag): Option<string> {
    if items == [] then None
    else if LastValue(items[1..], flag).Some? then LastValue(items[1..], flag)
    else if items[0].Opt? && items[0].flag == flag then Some(items[0].value)
    else None
  }

  predicate IsLast(items: seq<Item>, flag: Flag, k: nat) {
    && k < |items| && items[k].Opt? && items[k].flag == flag
    && forall j :: k < j < |items| && items[j].Opt? ==> items[j].flag != flag
  }

  lemma {:induction false} LastValueIsLast(items: seq<Item>, flag: Flag)
    ensures forall k: nat :: IsLast(items, flag, k) ==> LastValue(items, flag) == Some(items[k].value)
    ensures LastValue(items, flag) == None <==> forall k :: 0 <= k < |items| && items[k].Opt? ==> items[k].flag != flag
  {
    if items != [] {
      var rest := items[1..];
      LastValueIsLast(rest, flag);
      assert forall j :: 0 < j < |items| ==> items[j] == rest[j - 1];
      forall k: nat | IsLast(items, flag, k) ensures LastValue(items, flag) == Some(items[k].value) {
        assert k > 0 ==> IsLast(rest, flag, k - 1);
      }
    }
  }

  /** A field of `dmax` bytes after the vector. */
  function Stored(items: seq<Item>, flag: Flag, dmax: nat, before: string): string {
    match LastValue(items, flag)
    case None => before
    case Some(v) => StrCpyS(dmax, v)
  }

  /** Every field from the last occurrence of its own flag, whatever else is in the vector. */
  function FieldsOf(items: seq<Item>, f: Fields): Fields {
    Fields(Stored(items, Kernel, PATH_SIZE, f.kernel), Stored(items, Ramdisk, PATH_SIZE, f.ramdisk),
           if LastValue(items, Config).Some? then LastValue(items, Config) else f.config,
           Stored(items, Uuid, UUID_SIZE, f.uuid), Stored(items, Disk, PATH_SIZE, f.disk),
           Stored(items, MountPath, MOUNT_SIZE, f.mountPath), Stored(items, Name, INSTANCENAME_SIZE, f.name),
           f.docker || DockerInstance in items)
  }

  lemma IterationOnPair(av: seq<string>, i: nat, f: Fields, flag: Flag)
    requires i + 1 < |av| && av[i] == FlagText(flag) && !IsLaterFlag(flag, av[i + 1])
    ensures Iteration(av, Some((i, f))) == Some((i + 1, Set(f, flag, av[i + 1])))
  {
    hide Set, FlagText;
    forall other
      ensures (FlagText(other) == av[i + 1] ==> Rank(other) <= Rank(flag))
              && (FlagText(other) == av[i] <==> other == flag)
    {
      TextsDiffer(flag, other);
    }
    TextsDiffer(flag, flag);
  }

  /** If the value is a later flag, the cursor moves past it, or over the end, or the bare flag is noted. */
  lemma IterationOnLaterFlag(av: seq<string>, i: nat, f: Fields, flag: Flag)
    requires i + 1 < |av| && av[i] == FlagText(flag) && IsLaterFlag(flag, av[i + 1])
    ensures var r := Iteration(av, Some((i, f)));
            r == None || r.value.0 > i + 1 || (av[i + 1] == DOCKER && r.value.1.docker)
  {
    hide Set, FlagText;
    forall a, b ensures FlagText(a) == FlagText(b) <==> a == b {
      TextsDiffer(a, b);
    }
    TextsDiffer(flag, flag);
    if av[i + 1] == DOCKER {
      forall other ensures FlagText(other) != av[i + 1] {
        TextsDiffer(other, other);
      }
    }
  }

  /**
   * One iteration takes a flag with its value and nothing else exactly when the value is not a flag still
   * to be tested, or is the bare flag and this was noted before.
   */
  lemma PairTakenAloneIff(av: seq<string>, i: nat, f: Fields, flag: Flag)
    requires i + 1 < |av| && av[i] == FlagText(flag)
    ensures Iteration(av, Some((i, f))) == Some((i + 1, Set(f, flag, av[i + 1]))) <==>
            !IsLaterFlag(flag, av[i + 1]) || (av[i + 1] == DOCKER && f.docker)
  {
    if IsLaterFlag(flag, av[i + 1]) {
      if av[i + 1] == DOCKER {
        IterationOnBareFlag(av, i, f, flag);
      } else {
        IterationOnLaterFlag(av, i, f, flag);
      }
    } else {
      IterationOnPair(av, i, f, flag);
    }
    hide Iteration, IsLaterFlag, FlagText;
  }

  lemma IterationOnBareFlag(av: seq<string>, i: nat, f: Fields, flag: Flag)
    requires i + 1 < |av| && av[i] == FlagText(flag) && av[i + 1] == DOCKER && IsLaterFlag(flag, DOCKER)
    ensures Iteration(av, Some((i, f))) == Some((i + 1, Set(f, flag, DOCKER).(docker := true)))
  {
    hide Set, FlagText;
    forall a, b ensures (FlagText(a) == FlagText(b) <==> a == b) && FlagText(a) != DOCKER {
      TextsDiffer(a, b);
    }
  }

  lemma IterationOnDocker(av: seq<string>, i: nat, f: Fields)
    requires i < |av| && av[i] == DOCKER
    ensures Iteration(av, Some((i, f))) == Some((i, f.(docker := true)))
  {
    hide Set, FlagText;
    forall other ensures FlagText(other) != av[i] {
      TextsDiffer(other, other);
    }
  }

  function Effect(item: Item, f: Fields): Fields {
    match item
    case Opt(flag, value) => Set(f, flag, value)
    case DockerInstance => f.(docker := true)
  }

  lemma StoredStep(items: seq<Item>, flag: Flag, dmax: nat, before: string)
    requires items != []
    ensures Stored(items, flag, dmax, before)
         == Stored(items[1..], flag, dmax,
                   if items[0].Opt? && items[0].flag == flag then StrCpyS(dmax, items[0].value) else before)
  {
    hide StrCpyS;
  }

  lemma FieldsStep(items: seq<Item>, f: Fields)
    requires items != []
    ensures FieldsOf(items, f) == FieldsOf(items[1..], Effect(items[0], f))
  {
    assert LastValue(items, Config) == if LastValue(items[1..], Config).Some? then LastValue(items[1..], Config)
                                       else if items[0].Opt? && items[0].flag == Config then Some(items[0].value)
                                       else None;
    hide StrCpyS, Stored, LastValue;
    assert DockerInstance in items <==> items[0] == DockerInstance || DockerInstance in items[1..];
    StoredStep(items, Kernel, PATH_SIZE, f.kernel);
    StoredStep(items, Ramdisk, PATH_SIZE, f.ramdisk);
    StoredStep(items, Uuid, UUID_SIZE, f.uuid);
    StoredStep(items, Disk, PATH_SIZE, f.disk);
    StoredStep(items, MountPath, MOUNT_SIZE, f.mountPath);
    StoredStep(items, Name, INSTANCENAME_SIZE, f.name);
  }

  lemma StepOver(av: seq<string>, pre: seq<string>, item: Item, after: seq<string>, f: Fields)
    requires av == pre + Strings(item) + after && (item.Opt? ==> !IsLaterFlag(item.flag, item.value))
    ensures Scan(av, |pre|, f) == Scan(av, |pre + Strings(item)|, Effect(item, f))
  {
    hide Iteration, Set, IsLaterFlag, FlagText;
    assert av[|pre|] == Strings(item)[0];
    match item
    case Opt(flag, value) =>
      assert av[|pre| + 1] == value;
      IterationOnPair(av, |pre|, f, flag);
    case DockerInstance =>
      IterationOnDocker(av, |pre|, f);
  }

  lemma FlattenStep(items: seq<Item>)
    requires items != []
    ensures Flatten(items) == Strings(items[0]) + Flatten(items[1..])
  {
  }

  lemma FlattenNothing(f: Fields)
    ensures Flatten([]) == [] && FieldsOf([], f) == f
  {
  }

  lemma {:induction false} ScanItems(pre: seq<string>, items: seq<Item>, f: Fields)
    requires Proper(items)
    ensures Scan(pre + Flatten(items), |pre|, f) == Some(FieldsOf(items, f))
    decreases |items|
  {
    hide Scan, FieldsOf, Effect, Iteration, Strings, IsLaterFlag, Flatten;
    var av := pre + Flatten(items);
    if items == [] {
      FlattenNothing(f);
      ScanAtEnd(av, |pre|, f);
    } else {
      var item, rest := items[0], items[1..];
      FlattenStep(items);
      assert av == pre + Strings(item) + Flatten(rest);
      StepOver(av, pre, item, Flatten(rest), f);
      ScanItems(pre + Strings(item), rest, Effect(item, f));
      FieldsStep(items, f);
    }
  }

  /**
   * For every vector of flag/value pairs and bare `-docker_instance` whose values are not flags tested
   * after their own, each field ends as the value of the last occurrence of its flag.
   */
  lemma LastOccurrenceWins(items: seq<Item>)
    requires Proper(items)
    ensures Scan(Flatten(items), 0, NO_FIELDS) == Some(FieldsOf(items, NO_FIELDS))
  {
    ScanItems([], items, NO_FIELDS);
    assert [] + Flatten(items) == Flatten(items);
  }

  /** The values must not be flags: here the kernel's name is taken for `-ramdisk` as well. */
  lemma FlagAsValueIsTakenTwice()
    ensures var items := [Opt(Kernel, FlagText(Ramdisk)), Opt(Uuid, "u")];
            Scan(Flatten(items), 0, NO_FIELDS).Some?
              && Scan(Flatten(items), 0, NO_FIELDS).value.ramdisk != FieldsOf(items, NO_FIELDS).ramdisk
  {
    var items := [Opt(Kernel, FlagText(Ramdisk)), Opt(Uuid, "u")];
    assert items[1..] == [Opt(Uuid, "u")] && items[1..][1..] == [];
    var av := Flatten(items);
    assert av == [FlagText(Kernel), FlagText(Ramdisk), FlagText(Uuid), "u"];
    LastValueIsLast(items, Ramdisk);
    hide LastValue, FlagText;
    forall a, b ensures FlagText(a) == FlagText(b) <==> a == b {
      TextsDiffer(a, b);
    }
    TextsDiffer(Uuid, Uuid);
    var c := Test(av, Test(av, Some((0, NO_FIELDS)), Kernel), Ramdisk);
    assert c.Some? && c.value.0 == 2 && c.value.1.ramdisk == StrCpyS(PATH_SIZE, FlagText(Uuid));
    assert StrCpyS(PATH_SIZE, FlagText(Uuid)) != "" by { UuidFits(); }
    var r := Iteration(av, Some((0, NO_FIELDS)));
    assert r.Some? && r.value.0 == 3 && r.value.1.ramdisk == c.value.1.ramdisk;
    assert Scan(av, 0, NO_FIELDS) == Scan(av, 4, r.value.1);
  }

  lemma UuidFits()
    ensures StrCpyS(PATH_SIZE, FlagText(Uuid)) != ""
  {
  }

  // ---- The vector the proxy sends ------------------------------------------------------------------------

  function ProxyItems(kernel: string, ramdisk: string, disk: string, uuid: string): seq<Item> {
    [Opt(Kernel, kernel), Opt(Ramdisk, ramdisk), Opt(Disk, disk), Opt(Uuid, uuid), Opt(Config, "config")]
  }

  function ProxyVector(kernel: string, ramdisk: string, disk: string, uuid: string): (av: seq<string>)
    ensures |av| == 10 <= MAX_ARGS
  {
    ["-kernel", kernel, "-ramdisk", ramdisk, "-disk", disk, "-uuid", uuid, "-config", "config"]
  }

  /** So the proxy's vector, which ends in "config", is parsed whatever its strings are. */
  lemma ProxyVectorScans(kernel: string, ramdisk: string, disk: string, uuid: string)
    ensures Scan(ProxyVector(kernel, ramdisk, disk, uuid), 0, NO_FIELDS).Some?
  {
    forall flag ensures "config" != FlagText(flag) {
      assert FlagText(flag)[0] == '-';
    }
    NeverReadPastEnd(ProxyVector(kernel, ramdisk, disk, uuid), 0, NO_FIELDS);
  }

  /** None of the proxy's strings is a flag that its place in the vector exposes it to. */
  ghost predicate NotFlags(kernel: string, ramdisk: string, disk: string, uuid: string) {
    !IsLaterFlag(Kernel, kernel) && !IsLaterFlag(Ramdisk, ramdisk) && !IsLaterFlag(Disk, disk)
      && !IsLaterFlag(Uuid, uuid)
  }

  /** The proxy's vector is parsed to what was put in, field sizes permitting. */
  lemma ProxyVectorParsed(kernel: string, ramdisk: string, disk: string, uuid: string)
    requires NotFlags(kernel, ramdisk, disk, uuid)
    ensures Scan(ProxyVector(kernel, ramdisk, disk, uuid), 0, NO_FIELDS)
         == Some(Fields(StrCpyS(PATH_SIZE, kernel), StrCpyS(PATH_SIZE, ramdisk), Some("config"),
                        StrCpyS(UUID_SIZE, uuid), StrCpyS(PATH_SIZE, disk), "", "", false))
  {
    hide Scan, IsLaterFlag, StrCpyS;
    var items := ProxyItems(kernel, ramdisk, disk, uuid);
    FlagsStartWithDash("config");
    LastOccurrenceWins(items);
    ProxyStrings(kernel, ramdisk, disk, uuid);
    ProxyValues(kernel, ramdisk, disk, uuid);
    hide LastValue, Flatten;
  }

  /** The same for a Docker launch: mount path, name and the bare flag. */
  lemma DockerVectorParsed(mountPath: string, name: string, uuid: string)
    requires !IsLaterFlag(MountPath, mountPath) && !IsLaterFlag(Name, name) && !IsLaterFlag(Uuid, uuid)
    ensures Scan(["-docker_instance", "-mount_path", mountPath, "-name", name, "-uuid", uuid], 0, NO_FIELDS)
         == Some(Fields("", "", None, if |uuid| < 65 then uuid else "", "", if |mountPath| < 128 then mountPath else "",
                        if |name| < 512 then name else "", true))
  {
    var items := [DockerInstance, Opt(MountPath, mountPath), Opt(Name, name), Opt(Uuid, uuid)];
    hide Scan, IsLaterFlag;
    LastOccurrenceWins(items);
    var i1, i2, i3 := items[1..], items[1..][1..], items[1..][1..][1..];
    assert i1[0] == items[1] && i2[0] == items[2] && i3[0] == items[3] && i3[1..] == [];
    assert Flatten(i3) == Strings(i3[0]) && Flatten(i2) == Strings(i2[0]) + Flatten(i3);
    assert Flatten(i1) == Strings(i1[0]) + Flatten(i2);
    assert Flatten(items) == ["-docker_instance", "-mount_path", mountPath, "-name", name, "-uuid", uuid];
    hide Flatten;
    LastAt(items, MountPath, 1);
    LastAt(items, Name, 2);
    LastAt(items, Uuid, 3);
    NoneAt(items, Kernel);
    NoneAt(items, Ramdisk);
    NoneAt(items, Config);
    NoneAt(items, Disk);
    hide LastValue;
  }

  lemma LastAt(items: seq<Item>, flag: Flag, k: nat)
    requires IsLast(items, flag, k)
    ensures LastValue(items, flag) == Some(items[k].value)
  {
    LastValueIsLast(items, flag);
  }

  lemma NoneAt(items: seq<Item>, flag: Flag)
    requires forall k :: 0 <= k < |items| && items[k].Opt? ==> items[k].flag != flag
    ensures LastValue(items, flag) == None
  {
    LastValueIsLast(items, flag);
  }

  lemma ProxyValues(kernel: string, ramdisk: string, disk: string, uuid: string)
    ensures var items := ProxyItems(kernel, ramdisk, disk, uuid);
            && LastValue(items, Kernel) == Some(kernel) && LastValue(items, Ramdisk) == Some(ramdisk)
            && LastValue(items, Disk) == Some(disk) && LastValue(items, Uuid) == Some(uuid)
            && LastValue(items, Config) == Some("config")
            && LastValue(items, MountPath) == None && LastValue(items, Name) == None && DockerInstance !in items
  {
    hide LastValue;
    var items := ProxyItems(kernel, ramdisk, disk, uuid);
    LastAt(items, Kernel, 0);
    LastAt(items, Ramdisk, 1);
    LastAt(items, Disk, 2);
    LastAt(items, Uuid, 3);
    LastAt(items, Config, 4);
    NoneAt(items, MountPath);
    NoneAt(items, Name);
  }

  lemma ProxyStrings(kernel: string, ramdisk: string, disk: string, uuid: string)
    ensures Flatten(ProxyItems(kernel, ramdisk, disk, uuid)) == ProxyVector(kernel, ramdisk, disk, uuid)
  {
    var items := ProxyItems(kernel, ramdisk, disk, uuid);
    var i1, i2, i3, i4 := items[1..], items[1..][1..], items[1..][1..][1..], items[1..][1..][1..][1..];
    assert i1[0] == items[1] && i2[0] == items[2] && i3[0] == items[3] && i4[0] == items[4] && i4[1..] == [];
    assert Flatten(i4) == Strings(i4[0]);
    assert Flatten(i3) == Strings(i3[0]) + Flatten(i4);
    assert Flatten(i2) == Strings(i2[0]) + Flatten(i3);
    assert Flatten(i1) == Strings(i1[0]) + Flatten(i2);
  }
}

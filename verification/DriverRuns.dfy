/** The driver called again and again: whole runs on the disk itself. */
module DriverRuns {
  import opened Words
  import opened Sectors
  import opened FatTable
  import opened Directory
  import opened Volume
  import opened Storage
  import opened Catalog
  import opened Runs
  import opened FileSystem
  import opened Layout
  import opened Fat16
  import opened Confinement

  /** One operation by the driver. */
  method Perform(driver: FileDriver, op: Op, ghost s: State) returns (ok: bool)
    requires driver.Ready() && Inv(s.vol, s.cat) && Allowed(s.cat, op) && driver.Volume() == s.vol
    modifies driver.drive
    ensures driver.Ready() && SameHead(old(driver.drive.sectors), driver.drive.sectors, driver.vol.partitionLba)
    ensures driver.Volume() == After(s, op).vol
    ensures (op.Create? ==> Reachable(s.vol, op.place)) && ok == Step(s.vol, op).ok
  {
    ReachableIfKnown(s.vol, s.cat, PlaceOf(op));
    match op {
      case MakeDir(name, ext) =>
        var cluster;
        ok, cluster := driver.MkdirRoot(name, ext);
      case Create(place, name, ext, bytes) =>
        ghost var mid, cluster, index;
        ok, mid, cluster, index := driver.CreateFile(place, name, ext, bytes);
    }
  }

  /** A run of operations on the disk is the run of the state machine, and leaves the sectors up
      to the boot sector alone. */
  method PerformAll(driver: FileDriver, ops: seq<Op>, ghost s: State)
    requires driver.Ready() && Inv(s.vol, s.cat) && Legal(s, ops) && driver.Volume() == s.vol
    modifies driver.drive
    ensures driver.Ready() && SameHead(old(driver.drive.sectors), driver.drive.sectors, driver.vol.partitionLba)
    ensures driver.Volume() == Run(s, ops).vol
    decreases |ops|
  {
    if ops == [] {
      return;
    }
    var ok := Perform(driver, ops[0], s);
    PerformAll(driver, ops[1..], After(s, ops[0]));
  }

  /** While the free clusters of the partition suffice, a run of the driver changes no sector
      outside the partition, and every file stays readable to its end. */
  method PerformInPartition(driver: FileDriver, ops: seq<Op>, sectorCount: U32, ghost s: State)
    requires driver.Ready() && Inv(s.vol, s.cat) && Legal(s, ops) && driver.Volume() == s.vol
    requires Accepted(sectorCount) && driver.vol.partitionLba + sectorCount <= |driver.drive.sectors|
    requires Inside(s.cat, Limit(sectorCount)) && AllFit(s, ops, Limit(sectorCount))
    modifies driver.drive
    ensures driver.Ready() && driver.Volume() == Run(s, ops).vol
    ensures SameOutsidePartition(old(driver.drive.sectors), driver.drive.sectors, driver.vol.partitionLba, sectorCount)
    ensures Inside(Run(s, ops).cat, Limit(sectorCount))
    ensures forall f :: f in Run(s, ops).cat.files ==> Readable(Run(s, ops).cat.files[f].chain)
  {
    ghost var disk := driver.drive.sectors;
    PerformAll(driver, ops, s);
    RunStaysInPartition(disk, driver.drive.sectors, driver.vol.partitionLba, sectorCount, s, ops);
  }

  /** What a caller asks of the name it creates, when `pre` comes before and `post` after. */
  ghost predicate NameFits(op: Op, pre: seq<Op>, post: seq<Op>) {
    && Proper8Dot3(KeyOf(op)) && NoLower(KeyOf(op)) && !StartsDeleted(op)
    && Others(pre, PlaceOf(op), KeyOf(op)) && Others(post, PlaceOf(op), KeyOf(op))
  }

  /** Each call names a directory that exists at its time, on a fresh volume. */
  ghost predicate Scenario(data: seq<Sector>, pre: seq<Op>, op: Op, post: seq<Op>) {
    && op.Create? && Legal(Fresh(data), pre)
    && var s := Run(Fresh(data), pre);
       Allowed(s.cat, op) && Legal(After(s, op), post)
  }

  /** Find the file and read it into the buffer. */
  method FindAndRead(driver: FileDriver, place: Place, name: CStr, ext: CStr, buffer: array<Byte>)
    returns (found: Option<Dirent>, ok: bool)
    requires driver.Ready() && Reachable(driver.Volume(), place)
    modifies buffer
    ensures found == Lookup(SlotsOf(driver.Volume(), place), Query(name, ext))
    ensures found.Some? && found.value.cluster == 0 ==> ok && buffer[..] == old(buffer[..])
    ensures found.Some? && found.value.cluster != 0 ==>
              Reads(Deliver(driver.Volume(), found.value.cluster, found.value.size), ok,
                    old(buffer[..]), buffer[..], buffer.Length)
  {
    found := driver.Find(place, name, ext);
    ok := false;
    if found.Some? {
      ghost var visited;
      ok, visited := driver.ReadFile(found.value.cluster, found.value.size, buffer, buffer.Length);
    }
  }

  /** The state of a scenario just before its file is created, and at its end. */
  ghost function Before(data: seq<Sector>, pre: seq<Op>): (s: State)
    requires Legal(Fresh(data), pre)
    ensures Inv(s.vol, s.cat)
  {
    Run(Fresh(data), pre)
  }

  ghost function AtEnd(data: seq<Sector>, pre: seq<Op>, op: Op, post: seq<Op>): (t: State)
    requires Scenario(data, pre, op, post)
    ensures Inv(t.vol, t.cat)
  {
    Run(After(Before(data, pre), op), post)
  }

  /** Format and mount, any calls, create a file, any calls. */
  method Play(driver: FileDriver, p: U32, sectorCount: U32, pre: seq<Op>, op: Op, post: seq<Op>, ghost data: seq<Sector>)
    returns (created: bool)
    requires |driver.drive.sectors| <= MAX_SECTORS && Accepted(sectorCount)
    requires p + NON_DATA_SECTORS <= |driver.drive.sectors| && data == driver.drive.sectors[p + NON_DATA_SECTORS..]
    requires Scenario(data, pre, op, post)
    modifies driver, driver.drive
    ensures driver.Ready() && driver.Volume() == AtEnd(data, pre, op, post).vol
    ensures Reachable(Before(data, pre).vol, op.place) && created == Step(Before(data, pre).vol, op).ok
  {
    ghost var s := Before(data, pre);
    var mounted := driver.FormatAndMount(p, sectorCount);
    PerformAll(driver, pre, Fresh(data));
    created := Perform(driver, op, s);
    PerformAll(driver, post, After(s, op));
  }

  /** What looking the file up at the end gives. */
  ghost predicate FoundWhole(t: Vol, place: Place, query: seq<Byte>, bytes: seq<Byte>)
    requires Shaped(t) && Reachable(t, place)
  {
    var found := Lookup(SlotsOf(t, place), query);
    && found.Some? && found.value.size == |bytes|
    && if bytes == [] then found.value.cluster == 0
       else found.value.cluster != 0 && Deliver(t, found.value.cluster, |bytes|) == Delivered(bytes)
  }

  lemma CreatedIsWhole(data: seq<Sector>, pre: seq<Op>, op: Op, post: seq<Op>, name: CStr, ext: CStr)
    requires op.Create? && Spells(name, op.name) && Spells(ext, op.ext)
    requires Scenario(data, pre, op, post) && NameFits(op, pre, post)
    ensures Reachable(Before(data, pre).vol, op.place) && Reachable(AtEnd(data, pre, op, post).vol, op.place)
    ensures var s := Before(data, pre);
            Step(s.vol, op).ok && LinksBelowEndMarks(s.vol.fat, |op.bytes|) ==>
              FoundWhole(AtEnd(data, pre, op, post).vol, op.place, Query(name, ext), op.bytes)
  {
    var s := Before(data, pre);
    StillReachable(s, op, post);
    if Step(s.vol, op).ok && LinksBelowEndMarks(s.vol.fat, |op.bytes|) {
      FileRoundTrip(data, pre, op, post, s, name, ext);
    }
  }

  /** The whole story: format and mount, any calls, create a file, any calls, find it and read it.
      If the create succeeded, and the file needed at most one cluster then or the free clusters
      below the end marks sufficed, the file is found under any spelling with its exact size and the buffer holds
      its bytes, as many as fit. */
  method FileSurvives(driver: FileDriver, p: U32, sectorCount: U32, pre: seq<Op>, op: Op, post: seq<Op>,
                      name: CStr, ext: CStr, buffer: array<Byte>, ghost data: seq<Sector>)
    returns (created: bool, found: Option<Dirent>, ok: bool)
    requires |driver.drive.sectors| <= MAX_SECTORS && Accepted(sectorCount)
    requires p + NON_DATA_SECTORS <= |driver.drive.sectors| && data == driver.drive.sectors[p + NON_DATA_SECTORS..]
    requires Scenario(data, pre, op, post) && NameFits(op, pre, post) && Spells(name, op.name) && Spells(ext, op.ext)
    modifies driver, driver.drive, buffer
    ensures Reachable(Before(data, pre).vol, op.place) && created == Step(Before(data, pre).vol, op).ok
    ensures created && LinksBelowEndMarks(Before(data, pre).vol.fat, |op.bytes|) ==>
              && found.Some? && found.value.size == |op.bytes| && ok
              && buffer[..] == Filled(old(buffer[..]), op.bytes, buffer.Length)
  {
    created := Play(driver, p, sectorCount, pre, op, post, data);
    CreatedIsWhole(data, pre, op, post, name, ext);
    ghost var was := buffer[..];
    found, ok := FindAndRead(driver, op.place, name, ext, buffer);
    assert Filled(was, [], buffer.Length) == was;
  }

  lemma StillReachable(s: State, op: Op, post: seq<Op>)
    requires Inv(s.vol, s.cat) && op.Create? && Allowed(s.cat, op) && Legal(After(s, op), post)
    ensures Reachable(s.vol, op.place) && Reachable(Run(After(s, op), post).vol, op.place)
  {
    var t := Run(After(s, op), post);
    ReachableIfKnown(s.vol, s.cat, op.place);
    StepExtends(s, op);
    RunExtends(After(s, op), post);
    ReachableIfKnown(t.vol, t.cat, op.place);
  }
}

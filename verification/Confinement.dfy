/** An accepted partition size bounds everything a run touches. */
module Confinement {
  import opened Words
  import opened Sectors
  import opened FatTable
  import opened Volume
  import opened Catalog
  import opened Runs
  import opened FileSystem
  import opened Layout

  /** One past the last cluster of the partition. */
  function Limit(sectorCount: U32): nat
    requires Accepted(sectorCount)
  {
    ClusterCount(sectorCount) + 2
  }

  /** The clusters of the partition are below the end marks, in the table and on the disk. */
  lemma LimitFits(disk: seq<Sector>, p: nat, sectorCount: U32)
    requires Accepted(sectorCount) && p + sectorCount <= |disk|
    ensures 2 <= Limit(sectorCount) <= END_MARKS && Limit(sectorCount) <= FAT_ENTRIES
    ensures p + NON_DATA_SECTORS <= |disk|
    ensures CLUSTER_SECTORS * (Limit(sectorCount) - 2) <= |View(disk, p).data|
  {
  }

  predicate SameOutsidePartition(before: seq<Sector>, after: seq<Sector>, p: nat, sectorCount: nat) {
    |after| == |before| && forall j :: 0 <= j < |before| && !(p <= j < p + sectorCount) ==> after[j] == before[j]
  }

  lemma OutsidePartition(disk: seq<Sector>, after: seq<Sector>, p: nat, sectorCount: U32)
    requires Accepted(sectorCount) && p + sectorCount <= |disk| == |after|
    requires SameHead(disk, after, p)
    requires SameFrom(View(disk, p).data, View(after, p).data, Limit(sectorCount))
    ensures SameOutsidePartition(disk, after, p, sectorCount)
  {
    var here, there := View(disk, p).data, View(after, p).data;
    forall j | 0 <= j < |disk| && !(p <= j < p + sectorCount) ensures after[j] == disk[j] {
      if j >= p + sectorCount {
        var k := j - (p + NON_DATA_SECTORS);
        assert CLUSTER_SECTORS * (Limit(sectorCount) - 2) <= k;
        assert disk[j] == here[k] && after[j] == there[k];
      }
    }
  }

  /** A run of operations that the free clusters of the partition suffice for, on a volume whose
      objects lie in it: afterwards they still do, every file is readable to its end, and no
      sector outside the partition has changed. `disk` and `after` are the disk before and after
      a run of the driver, whose operations leave the sectors up to the boot sector alone. */
  lemma RunStaysInPartition(disk: seq<Sector>, after: seq<Sector>, p: nat, sectorCount: U32, s: State, ops: seq<Op>)
    requires Accepted(sectorCount) && p + sectorCount <= |disk| == |after| && SameHead(disk, after, p)
    requires Inv(s.vol, s.cat) && Legal(s, ops) && s.vol == View(disk, p) && Run(s, ops).vol == View(after, p)
    requires Inside(s.cat, Limit(sectorCount)) && AllFit(s, ops, Limit(sectorCount))
    ensures var t := Run(s, ops);
            && Inside(t.cat, Limit(sectorCount))
            && (forall f :: f in t.cat.files ==> Readable(t.cat.files[f].chain))
            && SameOutsidePartition(disk, after, p, sectorCount)
  {
    LimitFits(disk, p, sectorCount);
    RunConfined(s, ops, Limit(sectorCount));
    OutsidePartition(disk, after, p, sectorCount);
  }
}

/** One copy of the file allocation table: 16-bit entries packed into sectors. */
module FatTable {
  import opened Words
  import opened Sectors

  const FAT_SECTORS := 256
  const ENTRIES_PER_SECTOR := 256
  const FAT_ENTRIES := 0x1_0000
  const END_OF_CHAIN: U16 := 0xFFFF

  /** The entry of cluster `c`, as `fat_read_entry` decodes it. */
  function Entry(table: seq<Sector>, c: nat): U16
    requires c < ENTRIES_PER_SECTOR * |table|
  {
    Le16(table[c / ENTRIES_PER_SECTOR], 2 * (c % ENTRIES_PER_SECTOR))
  }

  /** The read-modify-write of one sector done by `fat_write_entry`. */
  function SetEntry(table: seq<Sector>, c: nat, v: U16): (r: seq<Sector>)
    requires c < ENTRIES_PER_SECTOR * |table|
    ensures |r| == |table|
  {
    var i := c / ENTRIES_PER_SECTOR;
    table[i := PatchSector(table[i], 2 * (c % ENTRIES_PER_SECTOR), v)]
  }

  function PatchSector(s: Sector, at: nat, v: U16): Sector
    requires at + 2 <= SECTOR_SIZE
  {
    s[at := v % 0x100][at + 1 := v / 0x100 % 0x100]
  }

  /** All the entries of a table. */
  function Entries(table: seq<Sector>): seq<U16> {
    seq(256 * |table|, c requires 0 <= c < 256 * |table| => Entry(table, c))
  }

  /** Writing one packed entry changes that entry and no other. */
  lemma EntriesAfterSet(table: seq<Sector>, c: nat, v: U16)
    requires c < 256 * |table|
    ensures Entries(SetEntry(table, c, v)) == Entries(table)[c := v]
  {
    var after := SetEntry(table, c, v);
    forall k | 0 <= k < 256 * |table|
      ensures Entry(after, k) == if k == c then v else Entry(table, k)
    {
      assert k / 256 == c / 256 && k % 256 == c % 256 ==> k == c;
    }
  }
}

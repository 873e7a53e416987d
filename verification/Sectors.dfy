/** The disk as the file system sees it: an array of 512-byte sectors. */
module Sectors {
  import opened Words

  const SECTOR_SIZE := 512

  type Sector = s: seq<Byte> | |s| == 512 witness seq(512, _ => 0)

  const BLANK: Sector := seq(512, _ => 0)

  /** The ATA drive behind `ata_read_sector` and `ata_write_sector`. In-range transfers
      succeed; a transfer past the last sector is refused and changes nothing. */
  class Drive {
    var sectors: seq<Sector>

    constructor (sectors: seq<Sector>)
      ensures this.sectors == sectors
    {
      this.sectors := sectors;
    }

    /** `buffer` is what the caller's buffer held before the call. */
    method Read(lba: nat, buffer: Sector) returns (ok: bool, sector: Sector)
      ensures ok <==> lba < |sectors|
      ensures sector == if ok then sectors[lba] else buffer
    {
      ok := lba < |sectors|;
      sector := if ok then sectors[lba] else buffer;
    }

    method Write(lba: nat, sector: Sector) returns (ok: bool)
      modifies this
      ensures ok <==> lba < |old(sectors)|
      ensures sectors == if ok then old(sectors)[lba := sector] else old(sectors)
    {
      ok := lba < |sectors|;
      if ok {
        sectors := sectors[lba := sector];
      }
    }
  }
}

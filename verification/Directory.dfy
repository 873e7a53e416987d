/** Directories: 32-byte slots packed sixteen to a sector, and the list they stand for. */
module Directory {
  import opened Words
  import opened Sectors

  /** A C string without its terminator. */
  type CStr = s: seq<Byte> | 0 !in s

  type Slot = s: seq<Byte> | |s| == 32 witness seq(32, _ => 0)

  const SLOT_SIZE := 32
  const ATTR_DIRECTORY: Byte := 0x10
  const ATTR_FILE: Byte := 0x20
  const ATTR_LONG_NAME: Byte := 0x0F
  const DELETED: Byte := 0xE5

  datatype Option<+T> = None | Some(value: T)

  /** What `fat16_list_*` and `fat16_find_*` report: trimmed names and decoded fields. */
  datatype Dirent = Dirent(name: seq<Byte>, ext: seq<Byte>, attr: Byte, cluster: U16, size: U32)

  // ---------------------------------------------------------------- one slot

  /** Truncate or pad with spaces to exactly `len` bytes. */
  function Pad(s: CStr, len: nat): (p: seq<Byte>)
    ensures |p| == len
  {
    seq(len, i requires 0 <= i < len => if i < |s| then s[i] else 0x20)
  }

  /** The eleven name bytes of an entry. */
  function Key(name: CStr, ext: CStr): (k: seq<Byte>)
    ensures |k| == 11
  {
    Pad(name, 8) + Pad(ext, 3)
  }

  function Upper(b: Byte): Byte {
    if 0x61 <= b <= 0x7A then b - 32 else b
  }

  /** The bytes a query must find on disk: only the query is upper-cased. */
  function Query(name: CStr, ext: CStr): (k: seq<Byte>)
    ensures |k| == 11
  {
    var k := Key(name, ext);
    seq(11, i requires 0 <= i < 11 => Upper(k[i]))
  }

  /** The bytes of an entry before its cluster field. */
  function SlotHead(name: CStr, ext: CStr, attr: Byte): (h: seq<Byte>)
    ensures |h| == 26
  {
    Key(name, ext) + [attr] + seq(14, _ => 0)
  }

  function MakeSlot(name: CStr, ext: CStr, attr: Byte, cluster: nat, size: nat): Slot {
    SlotHead(name, ext, attr) + (Bytes16(cluster) + Bytes32(size))
  }

  /** Drop trailing spaces. */
  function Trim(s: seq<Byte>): (t: seq<Byte>)
    ensures t <= s
    ensures t == [] || t[|t| - 1] != 0x20
    ensures forall i :: |t| <= i < |s| ==> s[i] == 0x20
  {
    if s != [] && s[|s| - 1] == 0x20 then Trim(s[..|s| - 1]) else s
  }

  function Cluster(e: Slot): U16 {
    Le16(e, 26)
  }

  function Size(e: Slot): U32 {
    Le32(e, 28)
  }

  function Parse(e: Slot): Dirent {
    Dirent(Trim(e[..8]), Trim(e[8..11]), e[11], Cluster(e), Size(e))
  }

  lemma BytesRoundTrip(cluster: U16, size: U32)
    ensures Le16(Bytes16(cluster) + Bytes32(size), 0) == cluster
    ensures Le32(Bytes16(cluster) + Bytes32(size), 2) == size
  {
    var b, w := Bytes16(cluster) + Bytes32(size), Bytes32(size);
    assert b[2] == w[0] && b[3] == w[1] && b[4] == w[2] && b[5] == w[3];
    assert size == size % 0x100 + 0x100 * (size / 0x100);
    assert size / 0x100 == size / 0x100 % 0x100 + 0x100 * (size / 0x1_0000);
    assert size / 0x1_0000 == size / 0x1_0000 % 0x100 + 0x100 * (size / 0x100_0000);
  }

  /** Decoding an encoded slot gives back every field that fits its width. The first byte
      is never 0, and marks the slot as deleted exactly when the name starts with 0xE5. */
  lemma SlotRoundTrip(name: CStr, ext: CStr, attr: Byte, cluster: U16, size: U32)
    ensures var e := MakeSlot(name, ext, attr, cluster, size);
            && e[..11] == Key(name, ext) && e[11] == attr
            && Cluster(e) == cluster && Size(e) == size && e[0] != 0
            && (e[0] == DELETED <==> name != [] && name[0] == DELETED)
  {
    var e := MakeSlot(name, ext, attr, cluster, size);
    var h, t := SlotHead(name, ext, attr), Bytes16(cluster) + Bytes32(size);
    assert h[..11] == Key(name, ext) && h[0] == Key(name, ext)[0];
    assert e[..11] == h[..11];
    assert forall i :: 0 <= i < 6 ==> e[26 + i] == t[i];
    BytesRoundTrip(cluster, size);
  }

  /** A short name without trailing space survives padding and trimming. */
  lemma TrimPad(s: CStr, len: nat)
    requires |s| <= len && (s == [] || s[|s| - 1] != 0x20)
    ensures Trim(Pad(s, len)) == s
  {
    var p := Pad(s, len);
    var t := Trim(p);
    assert forall i :: 0 <= i < len ==> p[i] == if i < |s| then s[i] else 0x20;
    assert |t| <= |s| by {
      assert t == p[..|t|];
    }
    assert |t| >= |s|;
  }

  /** A key equals its own query exactly when it has no lower-case letter. */
  predicate NoLower(k: seq<Byte>) {
    forall i :: 0 <= i < |k| ==> !(0x61 <= k[i] <= 0x7A)
  }

  lemma QueryFindsItself(name: CStr, ext: CStr)
    ensures Query(name, ext) == Key(name, ext) <==> NoLower(Key(name, ext))
  {
    var k := Key(name, ext);
    if NoLower(k) {
      assert forall i :: 0 <= i < 11 ==> Query(name, ext)[i] == k[i];
    } else {
      var i :| 0 <= i < |k| && 0x61 <= k[i] <= 0x7A;
      assert Query(name, ext)[i] != k[i];
    }
  }

  /** The same text up to the case of the letters: lower-case letters in `s` stand for the
      capitals 32 below them. */
  predicate Spells(s: seq<Byte>, t: seq<Byte>) {
    && |s| == |t|
    && forall i :: 0 <= i < |s| ==> s[i] == t[i] || (0x61 <= s[i] <= 0x7A && s[i] as int - 32 == t[i])
  }

  /** A query finds the bytes of every name without lower-case letters that it spells. */
  lemma QueryFindsSpelled(name: CStr, ext: CStr, n: CStr, e: CStr)
    requires Spells(name, n) && Spells(ext, e) && NoLower(Key(n, e))
    ensures Query(name, ext) == Key(n, e)
  {
    var q, k := Key(name, ext), Key(n, e);
    forall i | 0 <= i < 11 ensures Query(name, ext)[i] == k[i] {
      assert i < 8 ==> q[i] == Pad(name, 8)[i] && k[i] == Pad(n, 8)[i];
      assert i >= 8 ==> q[i] == Pad(ext, 3)[i - 8] && k[i] == Pad(e, 3)[i - 8];
    }
  }

  /** The part of a name that a field of `len` bytes keeps. */
  function Short(s: seq<Byte>, len: nat): seq<Byte> {
    if |s| <= len then s else s[..len]
  }

  lemma {:induction false} TrimSpaces(s: seq<Byte>, n: nat)
    ensures Trim(s + seq(n, _ => 0x20)) == Trim(s)
  {
    var p := s + seq(n, _ => 0x20);
    if n == 0 {
      assert p == s;
    } else {
      assert p[..|p| - 1] == s + seq(n - 1, _ => 0x20);
      TrimSpaces(s, n - 1);
    }
  }

  lemma TrimOfPad(s: CStr, len: nat)
    ensures Trim(Pad(s, len)) == Trim(Short(s, len))
  {
    var t := Short(s, len);
    assert Pad(s, len) == t + seq(len - |t|, _ => 0x20);
    TrimSpaces(t, len - |t|);
  }

  /** What list and find report of an entry: its name and extension as far as they fit, without
      trailing spaces, and its other fields. */
  lemma ParseShows(name: CStr, ext: CStr, attr: Byte, cluster: U16, size: U32)
    ensures Parse(MakeSlot(name, ext, attr, cluster, size))
         == Dirent(Trim(Short(name, 8)), Trim(Short(ext, 3)), attr, cluster, size)
  {
    var e := MakeSlot(name, ext, attr, cluster, size);
    SlotRoundTrip(name, ext, attr, cluster, size);
    assert e[..8] == e[..11][..8] == Pad(name, 8);
    assert e[8..11] == e[..11][8..] == Pad(ext, 3);
    TrimOfPad(name, 8);
    TrimOfPad(ext, 3);
  }

  // ---------------------------------------------------------------- packing

  function SlotAt(ss: seq<Sector>, i: nat): Slot
    requires i < 16 * |ss|
  {
    ss[i / 16][i % 16 * SLOT_SIZE..i % 16 * SLOT_SIZE + SLOT_SIZE]
  }

  function Overlay(s: Sector, i: nat, e: Slot): Sector
    requires i < 16
  {
    s[..i * SLOT_SIZE] + e + s[i * SLOT_SIZE + SLOT_SIZE..]
  }

  function SetSlot(ss: seq<Sector>, i: nat, e: Slot): (r: seq<Sector>)
    requires i < 16 * |ss|
    ensures |r| == |ss|
  {
    ss[i / 16 := Overlay(ss[i / 16], i % 16, e)]
  }

  function Slots(ss: seq<Sector>): seq<Slot> {
    seq(16 * |ss|, i requires 0 <= i < 16 * |ss| => SlotAt(ss, i))
  }

  lemma SlotsAfterSet(ss: seq<Sector>, i: nat, e: Slot)
    requires i < 16 * |ss|
    ensures Slots(SetSlot(ss, i, e)) == Slots(ss)[i := e]
  {
    forall k | 0 <= k < 16 * |ss|
      ensures SlotAt(SetSlot(ss, i, e), k) == if k == i then e else SlotAt(ss, k)
    {
      OverlayAt(ss[i / 16], i % 16, e, k % 16);
    }
  }

  lemma OverlayAt(s: Sector, i: nat, e: Slot, k: nat)
    requires i < 16 && k < 16
    ensures Overlay(s, i, e)[k * SLOT_SIZE..k * SLOT_SIZE + SLOT_SIZE]
         == if k == i then e else s[k * SLOT_SIZE..k * SLOT_SIZE + SLOT_SIZE]
  {
  }

  // ---------------------------------------------------------------- the list

  predicate Vacant(e: Slot) {
    e[0] == 0 || e[0] == DELETED
  }

  predicate Hidden(e: Slot) {
    e[0] == DELETED || e[11] == ATTR_LONG_NAME
  }

  /** Where a new entry goes, or `|slots|` when the directory is full. */
  function FirstVacant(slots: seq<Slot>): (i: nat)
    ensures i <= |slots|
    ensures i < |slots| ==> Vacant(slots[i])
    ensures forall k :: 0 <= k < i ==> !Vacant(slots[k])
  {
    if slots == [] || Vacant(slots[0]) then 0 else 1 + FirstVacant(slots[1..])
  }

  /** A scan by sectors that has found no vacancy so far finds the first one in the sector that
      has it. */
  lemma FirstVacantInSector(ss: seq<Sector>, s: nat, i: nat)
    requires s < |ss| && i <= 16 && 16 * s <= FirstVacant(Slots(ss))
    requires forall k :: 0 <= k < i ==> !Vacant(SlotAt([ss[s]], k))
    requires i < 16 ==> Vacant(SlotAt([ss[s]], i))
    ensures if i < 16 then FirstVacant(Slots(ss)) == 16 * s + i else 16 * (s + 1) <= FirstVacant(Slots(ss))
  {
    var v := FirstVacant(Slots(ss));
    assert v < 16 * (s + 1) ==> v / 16 == s && Slots(ss)[v] == SlotAt([ss[s]], v - 16 * s);
    assert i < 16 ==> (16 * s + i) / 16 == s && Slots(ss)[16 * s + i] == SlotAt([ss[s]], i);
  }

  /** What one slot in use adds to a listing. */
  function Reported(e: Slot): seq<Dirent> {
    if Hidden(e) then [] else [Parse(e)]
  }

  /** The entries a listing reports: it stops at the first never-used slot. */
  function Listing(slots: seq<Slot>): seq<Dirent> {
    if slots == [] || slots[0][0] == 0 then []
    else Reported(slots[0]) + Listing(slots[1..])
  }

  function Lookup(slots: seq<Slot>, query: seq<Byte>): Option<Dirent> {
    if slots == [] || slots[0][0] == 0 then None
    else if !Hidden(slots[0]) && slots[0][..11] == query then Some(Parse(slots[0]))
    else Lookup(slots[1..], query)
  }

  lemma FilledStep(was: seq<Dirent>, entries: seq<Dirent>, maxEntries: int, d: Dirent)
    requires maxEntries <= |was|
    ensures Filled(was, entries + [d], maxEntries)
         == if |entries| < maxEntries then Filled(was, entries, maxEntries)[|entries| := d]
            else Filled(was, entries, maxEntries)
  {
  }

  predicate Ended(slots: seq<Slot>) {
    exists i :: 0 <= i < |slots| && slots[i][0] == 0
  }

  lemma EndedNext(slots: seq<Slot>, i: nat)
    requires i < |slots| && !Ended(slots[..i])
    ensures if slots[i][0] == 0 then Ended(slots) else !Ended(slots[..i + 1])
  {
    assert forall k :: 0 <= k < i ==> slots[..i][k] == slots[k];
  }

  lemma SlotOfSector(sector: Sector, i: nat)
    requires i < 16
    ensures Slots([sector])[i] == sector[i * 32..i * 32 + 32]
  {
    assert [sector][i / 16] == sector;
  }

  lemma SectorsSplit(ss: seq<Sector>, s: nat)
    requires s < |ss|
    ensures Slots(ss[s..]) == Slots([ss[s]]) + Slots(ss[s + 1..])
  {
    var rest := ss[s + 1..];
    forall i | 0 <= i < 16 * (|rest| + 1)
      ensures Slots(ss[s..])[i] == (Slots([ss[s]]) + Slots(rest))[i]
    {
      if i >= 16 {
        assert (i - 16) / 16 == i / 16 - 1 && (i - 16) % 16 == i % 16;
        assert ss[s..][i / 16] == rest[(i - 16) / 16];
      }
    }
  }

  lemma EndedTail(a: seq<Slot>)
    requires a != [] && a[0][0] != 0
    ensures Ended(a) <==> Ended(a[1..])
  {
    if Ended(a) {
      var i :| 0 <= i < |a| && a[i][0] == 0;
      assert a[1..][i - 1][0] == 0;
    }
  }

  /** Scanning a directory piece by piece: the rest counts only while no never-used slot has
      been met. */
  lemma {:induction false} ListingSplit(a: seq<Slot>, b: seq<Slot>)
    ensures Listing(a + b) == Listing(a) + ListedBehind(a, b)
  {
    if a == [] {
      assert a + b == b;
    } else if a[0][0] == 0 {
      ListingStops(a, b);
    } else {
      ListingSplit(a[1..], b);
      ListingGoesOn(a, b);
    }
  }

  /** What the slots `b` add when they come behind `a`. */
  function ListedBehind(a: seq<Slot>, b: seq<Slot>): seq<Dirent> {
    if Ended(a) then [] else Listing(b)
  }

  lemma ListingStops(a: seq<Slot>, b: seq<Slot>)
    requires a != [] && a[0][0] == 0
    ensures Listing(a + b) == Listing(a) + ListedBehind(a, b)
  {
    assert (a + b)[0] == a[0];
  }

  lemma ListingGoesOn(a: seq<Slot>, b: seq<Slot>)
    requires a != [] && a[0][0] != 0
    requires Listing(a[1..] + b) == Listing(a[1..]) + ListedBehind(a[1..], b)
    ensures Listing(a + b) == Listing(a) + ListedBehind(a, b)
  {
    var e, tail := a[0], a[1..];
    EndedTail(a);
    ListingCons(e, tail);
    ListingCons(e, tail + b);
    Regrouped(a, b);
    Joined(Reported(e), Listing(tail), ListedBehind(tail, b));
  }

  lemma Regrouped(a: seq<Slot>, b: seq<Slot>)
    requires a != []
    ensures a == [a[0]] + a[1..] && a + b == [a[0]] + (a[1..] + b)
  {
  }

  lemma Joined(x: seq<Dirent>, y: seq<Dirent>, z: seq<Dirent>)
    ensures x + (y + z) == x + y + z
  {
  }

  /** `now` has been reported, and the slots from `i` on give the rest of `all`. */
  predicate ListsOn(slots: seq<Slot>, i: nat, now: seq<Dirent>, all: seq<Dirent>)
    requires i <= |slots|
  {
    now + Listing(slots[i..]) == all
  }

  lemma ListsNext(slots: seq<Slot>, i: nat, now: seq<Dirent>, all: seq<Dirent>)
    requires i < |slots| && ListsOn(slots, i, now, all)
    ensures if slots[i][0] == 0 then now == all
            else if Hidden(slots[i]) then ListsOn(slots, i + 1, now, all)
            else ListsOn(slots, i + 1, now + [Parse(slots[i])], all)
  {
    var rest := Listing(slots[i + 1..]);
    assert slots[i..][1..] == slots[i + 1..];
    if slots[i][0] != 0 && !Hidden(slots[i]) {
      assert now + ([Parse(slots[i])] + rest) == now + [Parse(slots[i])] + rest;
    }
  }

  lemma ListsDone(slots: seq<Slot>, now: seq<Dirent>, all: seq<Dirent>)
    requires ListsOn(slots, |slots|, now, all)
    ensures now == all
  {
    assert slots[|slots|..] == [];
  }

  lemma ListingBySector(ss: seq<Sector>, s: nat, now: seq<Dirent>)
    requires s < |ss|
    ensures now + Listing(Slots(ss[s..]))
         == now + Listing(Slots([ss[s]])) + (if Ended(Slots([ss[s]])) then [] else Listing(Slots(ss[s + 1..])))
  {
    SectorsSplit(ss, s);
    ListingSplit(Slots([ss[s]]), Slots(ss[s + 1..]));
  }

  lemma ListingEnds(ss: seq<Sector>)
    ensures [] + Listing(Slots(ss[0..])) == Listing(Slots(ss))
    ensures forall now: seq<Dirent> :: now + Listing(Slots(ss[|ss|..])) == now
  {
    assert ss[0..] == ss;
    assert Listing(Slots(ss[|ss|..])) == [];
  }

  lemma ListingCons(e: Slot, b: seq<Slot>)
    ensures Listing([e] + b) == if e[0] == 0 then [] else Reported(e) + Listing(b)
  {
    assert ([e] + b)[0] == e && ([e] + b)[1..] == b;
  }

  /** What one slot adds to a listing: nothing and the end if it was never used; nothing if it is
      deleted or part of a long name; else its entry. */
  lemma ListingOfSlot(a: seq<Slot>, e: Slot, b: seq<Slot>)
    requires !Ended(a)
    ensures Listing(a + ([e] + b))
         == Listing(a) + if e[0] == 0 then []
                         else if e[0] == 0xE5 || e[11] == 0x0F then Listing(b)
                         else [Parse(e)] + Listing(b)
  {
    ListingSplit(a, [e] + b);
    ListingCons(e, b);
    assert [] + Listing(b) == Listing(b);
  }

  lemma {:induction false} LookupSplit(a: seq<Slot>, b: seq<Slot>, query: seq<Byte>)
    ensures Lookup(a + b, query)
         == if Lookup(a, query).Some? || Ended(a) then Lookup(a, query) else Lookup(b, query)
  {
    if a == [] {
      assert a + b == b;
    } else if a[0][0] != 0 {
      assert (a + b)[1..] == a[1..] + b;
      LookupSplit(a[1..], b, query);
      EndedTail(a);
    }
  }

  /** No slot in use lies after a never-used one. */
  predicate Compact(slots: seq<Slot>) {
    forall i, j :: 0 <= i < j < |slots| && slots[i][0] == 0 ==> slots[j][0] == 0
  }

  predicate Visible(e: Slot) {
    e[0] != 0 && !Hidden(e)
  }

  /** `i` is the first visible slot carrying `query`. */
  predicate FirstMatch(slots: seq<Slot>, query: seq<Byte>, i: nat) {
    && i < |slots| && Visible(slots[i]) && slots[i][..11] == query
    && forall k :: 0 <= k < i && Visible(slots[k]) ==> slots[k][..11] != query
  }

  /** On a compact directory the scan that stops at the first never-used slot misses
      nothing: it returns the first visible entry with the queried name, and fails only
      when there is none. */
  lemma {:induction false} LookupIsFirstMatch(slots: seq<Slot>, query: seq<Byte>)
    requires Compact(slots)
    ensures forall i: nat :: FirstMatch(slots, query, i) ==> Lookup(slots, query) == Some(Parse(slots[i]))
    ensures Lookup(slots, query).None? ==>
              forall i :: 0 <= i < |slots| && Visible(slots[i]) ==> slots[i][..11] != query
  {
    if slots == [] {
    } else if slots[0][0] == 0 {
      assert forall i :: 0 <= i < |slots| ==> slots[i][0] == 0;
    } else if !Hidden(slots[0]) && slots[0][..11] == query {
    } else {
      var rest := slots[1..];
      LookupIsFirstMatch(rest, query);
      forall i: nat | FirstMatch(slots, query, i)
        ensures Lookup(slots, query) == Some(Parse(slots[i]))
      {
        assert forall k :: 0 <= k < |rest| ==> rest[k] == slots[k + 1];
        assert FirstMatch(rest, query, i - 1);
      }
      forall i | 0 <= i < |slots| && Visible(slots[i]) && Lookup(slots, query).None?
        ensures slots[i][..11] != query
      {
        if i > 0 { assert slots[i] == rest[i - 1]; }
      }
    }
  }

  lemma InsertKeepsCompact(slots: seq<Slot>, e: Slot)
    requires Compact(slots) && e[0] != 0
    requires FirstVacant(slots) < |slots|
    ensures Compact(slots[FirstVacant(slots) := e])
  {
    var v := FirstVacant(slots);
    var after := slots[v := e];
    forall i, j | 0 <= i < j < |after| && after[i][0] == 0
      ensures after[j][0] == 0
    {
      assert slots[i][0] == 0 && i != v;
      assert v < i;
      assert slots[j][0] == 0;
    }
  }

  lemma AllUsed(slots: seq<Slot>, v: nat)
    requires v <= FirstVacant(slots)
    ensures !Ended(slots[..v])
  {
  }

  lemma NothingListed(slots: seq<Slot>)
    requires slots != [] ==> slots[0][0] == 0
    ensures Listing(slots) == []
  {
  }

  lemma ListingOfOne(e: Slot)
    requires Visible(e)
    ensures Listing([e]) == [Parse(e)] && !Ended([e])
  {
    assert [e][1..] == [];
    assert [e][0] == e;
  }

  lemma ListingUpTo(pre: seq<Slot>, tail: seq<Slot>)
    requires !Ended(pre) && (tail != [] ==> tail[0][0] == 0)
    ensures Listing(pre + tail) == Listing(pre)
  {
    ListingSplit(pre, tail);
    NothingListed(tail);
  }

  lemma ListingWith(pre: seq<Slot>, e: Slot)
    requires !Ended(pre) && Visible(e)
    ensures Listing(pre + [e]) == Listing(pre) + [Parse(e)] && !Ended(pre + [e])
  {
    ListingSplit(pre, [e]);
    ListingOfOne(e);
    forall i | 0 <= i < |pre + [e]| ensures (pre + [e])[i][0] != 0 {
      if i < |pre| { assert (pre + [e])[i] == pre[i]; }
    }
  }

  /** Without deleted slots, inserting appends to the listing: entries are reported in
      creation order. */
  lemma ListingAfterInsert(slots: seq<Slot>, e: Slot)
    requires Compact(slots) && FirstVacant(slots) < |slots|
    requires forall i :: 0 <= i < |slots| ==> slots[i][0] != DELETED
    requires Visible(e)
    ensures Listing(slots[FirstVacant(slots) := e]) == Listing(slots) + [Parse(e)]
  {
    var v := FirstVacant(slots);
    var pre, post := slots[..v], slots[v + 1..];
    AllUsed(slots, v);
    CutAt(slots, v, e);
    ListingUpTo(pre, slots[v..]);
    ListingWith(pre, e);
    ListingUpTo(pre + [e], post);
  }

  lemma CutAt(slots: seq<Slot>, v: nat, e: Slot)
    requires v < |slots| && Compact(slots) && slots[v][0] == 0
    ensures slots == slots[..v] + slots[v..] && slots[v := e] == slots[..v] + [e] + slots[v + 1..]
    ensures slots[v..][0][0] == 0 && (slots[v + 1..] != [] ==> slots[v + 1..][0][0] == 0)
  {
  }
}

/** The append-only record log kept on one 4 KiB flash page (nvmc_control.c).

    The page is a sequence of 1024 words indexed from the page start. A record is a
    size word (the payload length in bytes) followed by size/4 payload words; an
    all-ones word at a record boundary marks the start of free space. */
module FlashLog {
  import opened CInt

  const PageBytes: nat := 0x1000
  const WordBytes: nat := 4
  const PageWords: nat := 0x400
  /** The erased-flash pattern, also the end-of-log sentinel. */
  const Erased: uint32 := 0xFFFF_FFFF

  /** Words occupied by a record whose size word is `size`: the size word and size/4 payload words. */
  function Footprint(size: uint32): nat {
    1 + size / WordBytes
  }

  /** `to` is reached from `from` by stepping over whole records, none of whose size words is erased. */
  ghost predicate Reaches(page: seq<uint32>, from: nat, to: nat)
    decreases (to as int) - from
  {
    from == to ||
    (from < to && from < |page| && page[from] != Erased &&
     Reaches(page, from + Footprint(page[from]), to))
  }

  /** `record` starts a record whose footprint ends exactly on the erased word `free`. */
  ghost predicate IsLastRecord(page: seq<uint32>, record: nat, free: nat) {
    record < free < |page| && page[record] != Erased &&
    free == record + Footprint(page[record]) && page[free] == Erased
  }

  /** Outcome of the boundary scan: no record before the sentinel, the last record
      and the sentinel that follows it, or no sentinel before the end of the page. */
  datatype Scan = NoRecord | LastAt(record: nat, free: nat) | PageFull

  /** The scan of nvmc_find_last_address, resumed at word `addr` with `last` the
      boundary of the record just stepped over. */
  function ScanFrom(page: seq<uint32>, addr: nat, last: Option<nat>): (r: Scan)
    requires last.Some? ==>
      last.value < |page| && page[last.value] != Erased && addr == last.value + Footprint(page[last.value])
    ensures r.NoRecord? <==> last.None? && addr < |page| && page[addr] == Erased
    ensures r.LastAt? ==> IsLastRecord(page, r.record, r.free) && Reaches(page, addr, r.free)
    ensures r.PageFull? ==> forall f: nat :: Reaches(page, addr, f) && f < |page| ==> page[f] != Erased
    decreases |page| - addr
  {
    if addr >= |page| then PageFull
    else if page[addr] == Erased then
      (match last
       case None => NoRecord
       case Some(l) => LastAt(l, addr))
    else ScanFrom(page, addr + Footprint(page[addr]), Some(addr))
  }

  /** The scan from the page start: no record when the first word is the sentinel; otherwise the
      last record on the chain of whole-record steps from the start, or a full page when no boundary
      on that chain inside the page holds the sentinel. */
  function ScanPage(page: seq<uint32>): (r: Scan)
    ensures r.NoRecord? <==> |page| > 0 && page[0] == Erased
    ensures r.LastAt? ==> Reaches(page, 0, r.record) && IsLastRecord(page, r.record, r.free)
    ensures r.PageFull? ==> forall f: nat :: Reaches(page, 0, f) && f < |page| ==> page[f] != Erased
  {
    var s := ScanFrom(page, 0, None);
    if s.LastAt? then ScanReachesRecord(page, 0, None); s else s
  }

  /** The scan stops at the sentinel that follows the first record on the chain whose
      successor boundary is erased. */
  lemma {:induction false} ScanFindsRecord(page: seq<uint32>, addr: nat, last: Option<nat>, c: nat)
    requires last.Some? ==>
      last.value < |page| && page[last.value] != Erased && addr == last.value + Footprint(page[last.value])
    requires Reaches(page, addr, c) && c < |page| && page[c] != Erased
    requires c + Footprint(page[c]) < |page| && page[c + Footprint(page[c])] == Erased
    ensures ScanFrom(page, addr, last) == LastAt(c, c + Footprint(page[c]))
    decreases (c as int) - addr
  {
    if addr != c {
      ScanFindsRecord(page, addr + Footprint(page[addr]), Some(addr), c);
    }
  }

  /** A record on the chain whose footprint reaches or crosses the page end makes the scan report a full page. */
  lemma {:induction false} ScanOverrunsPage(page: seq<uint32>, addr: nat, last: Option<nat>, c: nat)
    requires last.Some? ==>
      last.value < |page| && page[last.value] != Erased && addr == last.value + Footprint(page[last.value])
    requires Reaches(page, addr, c) && c < |page| && page[c] != Erased
    requires c + Footprint(page[c]) >= |page|
    ensures ScanFrom(page, addr, last) == PageFull
    decreases (c as int) - addr
  {
    if addr != c {
      ScanOverrunsPage(page, addr + Footprint(page[addr]), Some(addr), c);
    }
  }

  /** Reaching `to` depends only on the words before `to`. */
  lemma {:induction false} ReachesFrame(p: seq<uint32>, q: seq<uint32>, from: nat, to: nat)
    requires |p| == |q| && to <= |p|
    requires forall k :: from <= k < to ==> p[k] == q[k]
    requires Reaches(p, from, to)
    ensures Reaches(q, from, to)
    decreases (to as int) - from
  {
    if from != to {
      ReachesFrame(p, q, from + Footprint(p[from]), to);
    }
  }

  /** The record the scan reports is reached from where the scan starts, or is the record it was handed. */
  lemma {:induction false} ScanReachesRecord(page: seq<uint32>, addr: nat, last: Option<nat>)
    requires last.Some? ==>
      last.value < |page| && page[last.value] != Erased && addr == last.value + Footprint(page[last.value])
    requires ScanFrom(page, addr, last).LastAt?
    ensures Reaches(page, addr, ScanFrom(page, addr, last).record) ||
      (last.Some? && ScanFrom(page, addr, last).record == last.value)
    decreases |page| - addr
  {
    if addr < |page| && page[addr] != Erased {
      ScanReachesRecord(page, addr + Footprint(page[addr]), Some(addr));
    }
  }

  // ---------------------------------------------------------------- reading

  /** Outcome of nvmc_read_last_data: nothing usable, or the last record's payload and the sentinel after it. */
  datatype ReadResult = Miss | Hit(payload: seq<uint32>, free: nat)

  /** What reading the last record with configured block size `size` yields. */
  function ReadLastSpec(page: seq<uint32>, size: uint32): (r: ReadResult)
    ensures r.Hit? ==>
      |r.payload| == size / WordBytes && Footprint(size) <= r.free < |page| && page[r.free] == Erased &&
      page[r.free - Footprint(size)] == size && r.payload == page[r.free - Footprint(size) + 1 .. r.free]
    ensures r.Hit? <==> ScanPage(page).LastAt? && page[ScanPage(page).record] == size
    ensures r.Hit? ==> r.free == ScanPage(page).free && r.free - Footprint(size) == ScanPage(page).record
  {
    match ScanPage(page)
    case LastAt(l, f) => if page[l] == size then Hit(page[l + 1 .. f], f) else Miss
    case _ => Miss
  }

  // ---------------------------------------------------------------- writing

  /** The erase test of nvmc_write_data, in bytes relative to the page start. */
  function WillErase(eraseNeeded: bool, cursor: nat, size: uint32): (r: bool)
    ensures eraseNeeded ==> r
    ensures !r ==> cursor + Footprint(size) <= PageWords
    ensures !eraseNeeded && size % WordBytes == 0 ==> (r <==> cursor + Footprint(size) > PageWords)
  {
    eraseNeeded || cursor * WordBytes + size + WordBytes > PageBytes
  }

  /** An erased page. */
  function Blank(): (r: seq<uint32>)
    ensures |r| == PageWords && forall k :: 0 <= k < |r| ==> r[k] == Erased
  {
    seq(PageWords, _ => Erased)
  }

  /** `n` words from `from` on are erased, so each can be written once. */
  ghost predicate Writable(page: seq<uint32>, from: nat, n: nat) {
    from + n <= |page| && forall k :: from <= k < from + n ==> page[k] == Erased
  }

  /** The page after the record (size word then size/4 words of `data`) is placed at word `at`. */
  function Appended(page: seq<uint32>, at: nat, size: uint32, data: seq<uint32>): (r: seq<uint32>)
    requires at + Footprint(size) <= |page| && size / WordBytes <= |data|
    ensures |r| == |page| && r[at] == size
    ensures r[at + 1 .. at + Footprint(size)] == data[.. size / WordBytes]
    ensures forall k :: 0 <= k < |page| && !(at <= k < at + Footprint(size)) ==> r[k] == page[k]
  {
    Placed(page, at, [size] + data[.. size / WordBytes])
  }

  /** `page` with `words` written from word `at` on. */
  function Placed(page: seq<uint32>, at: nat, words: seq<uint32>): (r: seq<uint32>)
    requires at + |words| <= |page|
    ensures |r| == |page|
  {
    page[..at] + words + page[at + |words|..]
  }

  /** Writing the next word after a placed run extends the run. */
  lemma PlacedExtend(page: seq<uint32>, at: nat, words: seq<uint32>, w: uint32)
    requires at + |words| < |page|
    ensures Placed(page, at, words)[at + |words| := w] == Placed(page, at, words + [w])
  {
    var a := Placed(page, at, words)[at + |words| := w];
    var b := Placed(page, at, words + [w]);
    assert forall k :: 0 <= k < |a| ==> a[k] == b[k];
  }

  /** Flash contents and cursor after a write. */
  datatype Written = Written(page: seq<uint32>, cursor: nat)

  /** nvmc_write_data, given whether the page is erased first. */
  function WriteWith(page: seq<uint32>, erase: bool, cursor: nat, size: uint32, data: seq<uint32>): (r: Written)
    requires |page| == PageWords && size / WordBytes <= |data|
    requires (if erase then 0 else cursor) + Footprint(size) <= PageWords
    ensures |r.page| == PageWords && r.cursor <= PageWords
    ensures r.cursor == (if erase then 0 else cursor) + Footprint(size)
    ensures r.page[r.cursor - Footprint(size)] == size
    ensures r.page[r.cursor - Footprint(size) + 1 .. r.cursor] == data[.. size / WordBytes]
    ensures forall k :: 0 <= k < PageWords && !(r.cursor - Footprint(size) <= k < r.cursor) ==>
      r.page[k] == if erase then Erased else page[k]
  {
    var start := if erase then 0 else cursor;
    Written(Appended(if erase then Blank() else page, start, size, data), start + Footprint(size))
  }

  /** nvmc_write_data as written: erase first exactly when the flag is set or the record would pass the page end. */
  function WriteSpec(page: seq<uint32>, eraseNeeded: bool, cursor: nat, size: uint32, data: seq<uint32>): (r: Written)
    requires |page| == PageWords && size + WordBytes <= PageBytes && size / WordBytes <= |data|
    ensures |r.page| == PageWords && r.cursor <= PageWords
    ensures !WillErase(eraseNeeded, cursor, size) ==>
      r.cursor == cursor + Footprint(size) &&
      forall k :: 0 <= k < PageWords && !(cursor <= k < r.cursor) ==> r.page[k] == page[k]
    ensures WillErase(eraseNeeded, cursor, size) ==>
      r.cursor == Footprint(size) && forall k :: r.cursor <= k < PageWords ==> r.page[k] == Erased
  {
    WriteWith(page, WillErase(eraseNeeded, cursor, size), cursor, size, data)
  }

  /** The log is well formed up to `cursor`: a chain of records from the page start, then erased words only. */
  ghost predicate Formatted(page: seq<uint32>, cursor: nat) {
    cursor <= |page| && Reaches(page, 0, cursor) && forall k :: cursor <= k < |page| ==> page[k] == Erased
  }

  /** On a well-formed log every word a write touches without erasing is still erased. */
  lemma FormattedIsWritable(page: seq<uint32>, eraseNeeded: bool, cursor: nat, size: uint32)
    requires |page| == PageWords && Formatted(page, cursor)
    ensures WillErase(eraseNeeded, cursor, size) || Writable(page, cursor, Footprint(size))
  {
  }

  /** A successful read leaves the cursor on a boundary of a well-formed log, provided the words after the sentinel are erased. */
  lemma ReadLeavesFormatted(page: seq<uint32>, size: uint32)
    requires ReadLastSpec(page, size).Hit?
    requires forall k :: ReadLastSpec(page, size).free <= k < |page| ==> page[k] == Erased
    ensures Formatted(page, ReadLastSpec(page, size).free)
  {
    ReachesStep(page, 0, ScanPage(page).record);
  }

  /** One more record step extends a chain. */
  lemma {:induction false} ReachesStep(page: seq<uint32>, from: nat, c: nat)
    requires Reaches(page, from, c) && c < |page| && page[c] != Erased
    ensures Reaches(page, from, c + Footprint(page[c]))
    decreases (c as int) - from
  {
    if from != c {
      ReachesStep(page, from + Footprint(page[from]), c);
    }
  }

  /** A write keeps the log well formed. */
  lemma WriteKeepsFormatted(page: seq<uint32>, eraseNeeded: bool, cursor: nat, size: uint32, data: seq<uint32>)
    requires |page| == PageWords && size + WordBytes <= PageBytes && size / WordBytes <= |data|
    requires WillErase(eraseNeeded, cursor, size) || Formatted(page, cursor)
    ensures Formatted(WriteSpec(page, eraseNeeded, cursor, size, data).page, WriteSpec(page, eraseNeeded, cursor, size, data).cursor)
  {
    var w := WriteSpec(page, eraseNeeded, cursor, size, data);
    var erase := WillErase(eraseNeeded, cursor, size);
    var base := if erase then Blank() else page;
    var start := if erase then 0 else cursor;
    assert Reaches(base, 0, start);
    ReachesFrame(base, w.page, 0, start);
    ReachesStep(w.page, 0, start);
  }

  /** The record just written is the one the scan stops at, provided the footprint leaves the sentinel word inside the page. */
  lemma WrittenRecordIsLast(page: seq<uint32>, erase: bool, cursor: nat, size: uint32, data: seq<uint32>)
    requires |page| == PageWords && size + WordBytes <= PageBytes && size / WordBytes <= |data|
    requires (if erase then 0 else cursor) + Footprint(size) <= PageWords
    requires erase || Formatted(page, cursor)
    ensures var w := WriteWith(page, erase, cursor, size, data);
      w.cursor < PageWords ==> ReadLastSpec(w.page, size) == Hit(data[.. size / WordBytes], w.cursor)
    ensures var w := WriteWith(page, erase, cursor, size, data);
      w.cursor == PageWords ==> ReadLastSpec(w.page, size) == Miss
  {
    var w := WriteWith(page, erase, cursor, size, data);
    var start := if erase then 0 else cursor;
    WrittenRecordReached(page, erase, cursor, size, data);
    if w.cursor < PageWords {
      ScanFindsRecord(w.page, 0, None, start);
    } else {
      ScanOverrunsPage(w.page, 0, None, start);
    }
  }

  /** The chain of records still reaches the start of the record just written, which holds its size word. */
  lemma WrittenRecordReached(page: seq<uint32>, erase: bool, cursor: nat, size: uint32, data: seq<uint32>)
    requires |page| == PageWords && size + WordBytes <= PageBytes && size / WordBytes <= |data|
    requires (if erase then 0 else cursor) + Footprint(size) <= PageWords
    requires erase || Formatted(page, cursor)
    ensures var w := WriteWith(page, erase, cursor, size, data);
      var start := if erase then 0 else cursor;
      Reaches(w.page, 0, start) && w.page[start] == size
  {
    var w := WriteWith(page, erase, cursor, size, data);
    var base := if erase then Blank() else page;
    var start := if erase then 0 else cursor;
    assert Reaches(base, 0, start);
    ReachesFrame(base, w.page, 0, start);
  }

  /** Round trip of the log as written: after a write whose record stops short of the page end,
      reading the last record with the same block size yields exactly the data written. */
  lemma RoundTrip(page: seq<uint32>, eraseNeeded: bool, cursor: nat, size: uint32, data: seq<uint32>)
    requires |page| == PageWords && size + WordBytes <= PageBytes && size / WordBytes <= |data|
    requires WillErase(eraseNeeded, cursor, size) || Formatted(page, cursor)
    requires WriteSpec(page, eraseNeeded, cursor, size, data).cursor < PageWords
    ensures WillErase(eraseNeeded, cursor, size) || Writable(page, cursor, Footprint(size))
    ensures ReadLastSpec(WriteSpec(page, eraseNeeded, cursor, size, data).page, size) ==
      Hit(data[.. size / WordBytes], WriteSpec(page, eraseNeeded, cursor, size, data).cursor)
  {
    if !WillErase(eraseNeeded, cursor, size) {
      FormattedIsWritable(page, eraseNeeded, cursor, size);
    }
    WrittenRecordIsLast(page, WillErase(eraseNeeded, cursor, size), cursor, size, data);
  }

  /** A write whose record ends exactly at the page end passes the erase test, and its record cannot be read back. */
  lemma ExactFillIsLost(page: seq<uint32>, eraseNeeded: bool, cursor: nat, size: uint32, data: seq<uint32>)
    requires |page| == PageWords && size + WordBytes <= PageBytes && size / WordBytes <= |data|
    requires Formatted(page, cursor) && !eraseNeeded
    requires cursor * WordBytes + size + WordBytes == PageBytes && size % WordBytes == 0
    ensures !WillErase(eraseNeeded, cursor, size)
    ensures WriteSpec(page, eraseNeeded, cursor, size, data).cursor == PageWords
    ensures ReadLastSpec(WriteSpec(page, eraseNeeded, cursor, size, data).page, size) == Miss
  {
    WrittenRecordIsLast(page, false, cursor, size, data);
  }

  /** A concrete instance: one 4092-byte record written to an erased page fills it and is lost on reboot. */
  lemma FullPageRecordIsLost(data: seq<uint32>)
    requires |data| >= 1023
    ensures WriteSpec(Blank(), false, 0, 4092, data).cursor == PageWords
    ensures ReadLastSpec(WriteSpec(Blank(), false, 0, 4092, data).page, 4092) == Miss
  {
    WrittenRecordIsLast(Blank(), false, 0, 4092, data);
  }

  /** The corrected erase test: erase also when the record would end exactly at the page end. */
  function WillEraseFixed(eraseNeeded: bool, cursor: nat, size: uint32): bool {
    eraseNeeded || cursor * WordBytes + size + WordBytes >= PageBytes
  }

  /** nvmc_write_data with the corrected erase test. */
  function WriteFixed(page: seq<uint32>, eraseNeeded: bool, cursor: nat, size: uint32, data: seq<uint32>): (r: Written)
    requires |page| == PageWords && size + WordBytes < PageBytes && size / WordBytes <= |data|
    ensures r.cursor < PageWords
  {
    WriteWith(page, WillEraseFixed(eraseNeeded, cursor, size), cursor, size, data)
  }

  /** Round trip with the corrected erase test: it holds for every record that leaves room for the sentinel. */
  lemma RoundTripFixed(page: seq<uint32>, eraseNeeded: bool, cursor: nat, size: uint32, data: seq<uint32>)
    requires |page| == PageWords && size + WordBytes < PageBytes && size / WordBytes <= |data|
    requires WillEraseFixed(eraseNeeded, cursor, size) || Formatted(page, cursor)
    ensures ReadLastSpec(WriteFixed(page, eraseNeeded, cursor, size, data).page, size) ==
      Hit(data[.. size / WordBytes], WriteFixed(page, eraseNeeded, cursor, size, data).cursor)
  {
    WrittenRecordIsLast(page, WillEraseFixed(eraseNeeded, cursor, size), cursor, size, data);
  }

  /** A successful read does not make the next write safe: a stray word after the sentinel
      survives the read, and the write that follows does not erase it first. */
  lemma StrayWordSurvivesRead()
    ensures var page := Blank()[0 := 4][1 := 7][3 := 5];
      ReadLastSpec(page, 4) == Hit([7], 2) && !WillErase(false, 2, 4) && !Writable(page, 2, Footprint(4))
  {
    var page := Blank()[0 := 4][1 := 7][3 := 5];
    assert page[2] == Erased;
    assert ScanFrom(page, 2, Some(0)) == LastAt(0, 2);
    assert ScanPage(page) == LastAt(0, 2) by { assert page[0] == 4 && Footprint(4) == 2; }
    assert page[1 .. 2] == [7];
    assert page[3] != Erased;
  }

  /** Writing right after nvmc_initialize, without a read, may target words already written. */
  lemma InitializeAloneMayOverwrite()
    ensures var page := Appended(Blank(), 0, 12, [1, 2, 3]);
      Formatted(page, 4) && !WillErase(false, 0, 12) && !Writable(page, 0, Footprint(12))
  {
    var page := Appended(Blank(), 0, 12, [1, 2, 3]);
    assert Reaches(page, 4, 4);
  }

  // ---------------------------------------------------------------- the driver state

  /** nvmc_context together with the flash page it manages. */
  class NvmcContext {
    /** The page, word-indexed from its start; it outlives the context across resets. */
    const flash: array<uint32>
    var eraseNeeded: bool
    /** writable_block_size, in bytes. */
    var blockSize: uint32
    /** current_address, as a word offset from the page start. */
    var cursor: nat

    ghost predicate Valid()
      reads this
    {
      flash.Length == PageWords && cursor <= PageWords
    }

    /** Boot: the static initialiser of nvmc_context followed by nvmc_initialize(size). */
    constructor (flash: array<uint32>, size: uint32)
      requires flash.Length == PageWords
      ensures Valid() && this.flash == flash
      ensures !eraseNeeded && blockSize == size && cursor == 0
    {
      this.flash := flash;
      eraseNeeded := false;
      blockSize := size;
      cursor := 0;
    }

    /** nvmc_initialize: fixes the block size and puts the cursor at the page start; the erase flag is kept. */
    method Initialize(size: uint32)
      requires Valid()
      modifies this`blockSize, this`cursor
      ensures Valid() && blockSize == size && cursor == 0
    {
      blockSize := size;
      cursor := 0;
    }

    /** nvmc_find_last_address: the boundary scan; a scan that runs off the page sets the erase flag. */
    method FindLastAddress() returns (r: Scan)
      requires Valid()
      modifies this`eraseNeeded
      ensures r == ScanPage(flash[..])
      ensures eraseNeeded == (old(eraseNeeded) || r.PageFull?)
    {
      var addr: nat := 0;
      var last: Option<nat> := None;
      while addr < PageWords
        invariant last.Some? ==>
          last.value < PageWords && flash[last.value] != Erased && addr == last.value + Footprint(flash[last.value])
        invariant ScanFrom(flash[..], addr, last) == ScanPage(flash[..])
        decreases PageWords - addr
      {
        var size := flash[addr];
        if size == Erased {
          r := if last.None? then NoRecord else LastAt(last.value, addr);
          return;
        }
        last := Some(addr);
        addr := addr + Footprint(size);
      }
      eraseNeeded := true;
      r := PageFull;
    }

    /** nvmc_read_last_data: copies the last record's payload into `buffer` when its size word
        equals the block size and returns that size; otherwise sets the erase flag and returns 0. */
    method ReadLast(buffer: array<uint32>) returns (n: uint32)
      requires Valid() && buffer != flash && blockSize / WordBytes <= buffer.Length
      modifies this`eraseNeeded, this`cursor, buffer
      ensures Valid()
      ensures ReadLastSpec(flash[..], blockSize).Hit? ==>
        n == blockSize && cursor == ReadLastSpec(flash[..], blockSize).free && eraseNeeded == old(eraseNeeded) &&
        buffer[.. blockSize / WordBytes] == ReadLastSpec(flash[..], blockSize).payload &&
        buffer[blockSize / WordBytes ..] == old(buffer[blockSize / WordBytes ..])
      ensures ReadLastSpec(flash[..], blockSize).Miss? ==>
        n == 0 && eraseNeeded && cursor == old(cursor) && buffer[..] == old(buffer[..])
    {
      var scan := FindLastAddress();
      if scan.PageFull? {
        return 0;
      }
      if scan.NoRecord? {
        // The firmware reads this size word from absolute address 0, outside the page;
        // the model takes the size-mismatch branch that read leads to.
        eraseNeeded := true;
        return 0;
      }
      var size := flash[scan.record];
      if size != blockSize {
        eraseNeeded := true;
        return 0;
      }
      cursor := scan.record + 1;
      var i := 0;
      while i < blockSize / WordBytes
        invariant 0 <= i <= blockSize / WordBytes
        invariant cursor == scan.record + 1 + i && eraseNeeded == old(eraseNeeded)
        invariant buffer[..i] == flash[scan.record + 1 .. cursor]
        invariant buffer[blockSize / WordBytes ..] == old(buffer[blockSize / WordBytes ..])
      {
        buffer[i] := flash[cursor];
        cursor := cursor + 1;
        i := i + 1;
      }
      n := blockSize;
    }

    /** nvmc_erase_page: every word of the page becomes erased. */
    method ErasePage()
      requires Valid()
      modifies flash
      ensures flash[..] == Blank()
    {
      forall k | 0 <= k < flash.Length {
        flash[k] := Erased;
      }
    }

    /** nvmc_write_word: flash bits only go from 1 to 0, so a word is written only where it is erased. */
    method WriteWord(addr: nat, value: uint32)
      requires Valid() && addr < flash.Length && flash[addr] == Erased
      modifies flash
      ensures flash[..] == old(flash[..])[addr := value]
    {
      flash[addr] := value;
    }

    /** nvmc_write_data: erases the page first when needed, then appends the size word and
        size/4 words of `data` at the cursor. */
    method WriteData(data: seq<uint32>)
      requires Valid() && blockSize + WordBytes <= PageBytes && blockSize / WordBytes <= |data|
      requires WillErase(eraseNeeded, cursor, blockSize) || Writable(flash[..], cursor, Footprint(blockSize))
      modifies this`eraseNeeded, this`cursor, flash
      ensures Valid() && !eraseNeeded
      ensures Written(flash[..], cursor) == WriteSpec(old(flash[..]), old(eraseNeeded), old(cursor), blockSize, data)
    {
      if WillErase(eraseNeeded, cursor, blockSize) {
        ErasePage();
        eraseNeeded := false;
        cursor := 0;
      }
      AppendRecord(data);
    }

    /** The append part of nvmc_write_data: the size word, then the payload words, each at the post-incremented cursor. */
    method AppendRecord(data: seq<uint32>)
      requires Valid() && blockSize / WordBytes <= |data|
      requires Writable(flash[..], cursor, Footprint(blockSize))
      modifies this`cursor, flash
      ensures Valid() && cursor == old(cursor) + Footprint(blockSize)
      ensures flash[..] == Appended(old(flash[..]), old(cursor), blockSize, data)
    {
      ghost var base := flash[..];
      ghost var start := cursor;
      PlacedExtend(base, start, [], blockSize);
      WriteWord(cursor, blockSize);
      cursor := cursor + 1;
      var i := 0;
      while i < blockSize / WordBytes
        invariant 0 <= i <= blockSize / WordBytes && cursor == start + 1 + i
        invariant flash[..] == Placed(base, start, [blockSize] + data[..i])
      {
        assert base[cursor] == Erased;
        PlacedExtend(base, start, [blockSize] + data[..i], data[i]);
        assert [blockSize] + data[..i] + [data[i]] == [blockSize] + data[..i + 1];
        WriteWord(cursor, data[i]);
        cursor := cursor + 1;
        i := i + 1;
      }
    }
  }

  /** Write a record, reset (a fresh context with the same block size over the same page), read it back. */
  method WriteThenReboot(ctx: NvmcContext, data: seq<uint32>, buffer: array<uint32>) returns (n: uint32)
    requires ctx.Valid() && ctx.blockSize + WordBytes <= PageBytes && ctx.blockSize / WordBytes <= |data|
    requires buffer != ctx.flash && ctx.blockSize / WordBytes <= buffer.Length
    requires WillErase(ctx.eraseNeeded, ctx.cursor, ctx.blockSize) || Formatted(ctx.flash[..], ctx.cursor)
    requires WriteSpec(ctx.flash[..], ctx.eraseNeeded, ctx.cursor, ctx.blockSize, data).cursor < PageWords
    modifies ctx, ctx.flash, buffer
    ensures n == old(ctx.blockSize)
    ensures buffer[.. n / WordBytes] == data[.. n / WordBytes]
  {
    WriteRecord(ctx, data);
    n := ReadAfterReset(ctx.flash, ctx.blockSize, buffer, data[.. ctx.blockSize / WordBytes], ctx.cursor);
  }

  /** nvmc_write_data on a context whose log is well formed (or about to be erased): afterwards the
      record just written is the one nvmc_read_last_data finds, and the cursor is just past it. */
  method WriteRecord(ctx: NvmcContext, data: seq<uint32>)
    requires ctx.Valid() && ctx.blockSize + WordBytes <= PageBytes && ctx.blockSize / WordBytes <= |data|
    requires WillErase(ctx.eraseNeeded, ctx.cursor, ctx.blockSize) || Formatted(ctx.flash[..], ctx.cursor)
    requires WriteSpec(ctx.flash[..], ctx.eraseNeeded, ctx.cursor, ctx.blockSize, data).cursor < PageWords
    modifies ctx`eraseNeeded, ctx`cursor, ctx.flash
    ensures ctx.Valid()
    ensures ReadLastSpec(ctx.flash[..], ctx.blockSize) == Hit(data[.. ctx.blockSize / WordBytes], ctx.cursor)
  {
    ghost var page, eraseNeeded, cursor, size := ctx.flash[..], ctx.eraseNeeded, ctx.cursor, ctx.blockSize;
    if !WillErase(eraseNeeded, cursor, size) {
      FormattedIsWritable(page, eraseNeeded, cursor, size);
    }
    ctx.WriteData(data);
    ghost var w := Written(ctx.flash[..], ctx.cursor);
    assert w == WriteSpec(page, eraseNeeded, cursor, size, data);
    RoundTrip(page, eraseNeeded, cursor, size, data);
  }

  /** After a reset a fresh context over the same page reads back the last record. */
  method ReadAfterReset(flash: array<uint32>, size: uint32, buffer: array<uint32>, ghost payload: seq<uint32>, ghost free: nat)
    returns (n: uint32)
    requires flash.Length == PageWords && buffer != flash && size / WordBytes <= buffer.Length
    requires ReadLastSpec(flash[..], size) == Hit(payload, free)
    modifies buffer
    ensures n == size && buffer[.. size / WordBytes] == payload
  {
    var rebooted := new NvmcContext(flash, size);
    n := rebooted.ReadLast(buffer);
  }
}

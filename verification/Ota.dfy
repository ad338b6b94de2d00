/** Firmware images in flash: backup, restore and verification on NOR flash, where erasing sets all
    bits of a page and writing only clears bits, and where any operation may fail. */
module Ota {
  import opened Basics
  import opened Crc

  const PAGE: nat := 0x1000
  const CHUNK: nat := 0x100
  const PAGES: nat := 25
  const IMAGE: nat := 0x19000        // 25 pages

  const CURRENT_FIRMWARE: nat := 0x2
  const GOLDEN_IMAGE: nat := 0x19
  const FIRMWARE: nat := 0x2000      // the first byte of the installed firmware
  const METADATA_SPACE: nat := 0x100
  const METADATA_LENGTH: nat := 16

  const VERIFY_SLOT_OK: int := 0
  const VERIFY_SLOT_SPI_ERROR: int := -1
  const VERIFY_SLOT_CRC_ERROR: int := -2

  const ERASED := Byte(true, true, true, true, true, true, true, true)

  function And(a: Byte, b: Byte): Byte {
    Byte(a.b7 && b.b7, a.b6 && b.b6, a.b5 && b.b5, a.b4 && b.b4, a.b3 && b.b3, a.b2 && b.b2, a.b1 && b.b1, a.b0 && b.b0)
  }

  function Or(a: Byte, b: Byte): Byte {
    Byte(a.b7 || b.b7, a.b6 || b.b6, a.b5 || b.b5, a.b4 || b.b4, a.b3 || b.b3, a.b2 || b.b2, a.b1 || b.b1, a.b0 || b.b0)
  }

  /** A failed write has cleared some of the bits it should clear; a later one finishes the job. */
  lemma PartialWrite(was: Byte, data: Byte, mask: Byte)
    ensures And(And(was, Or(data, mask)), data) == And(was, data)
    ensures And(And(was, data), data) == And(was, data)
    ensures And(ERASED, data) == data
  {
  }

  /** The page number of a slot: the golden image, or one of three downloads. */
  function SlotPage(slot: nat): (page: nat)
    requires slot <= 3
  {
    if slot == 0 then GOLDEN_IMAGE else if slot == 1 then 0x32 else if slot == 2 then 0x4B else 0x64
  }

  function SlotStart(slot: nat): (at: nat)
    requires slot <= 3
    ensures at == SlotPage(slot) * PAGE
    ensures at + IMAGE <= 0x7D000 && at % PAGE == 0
  {
    if slot == 0 then 0x19000 else if slot == 1 then 0x32000 else if slot == 2 then 0x4B000 else 0x64000
  }

  // ----- contents -----

  function Filled(n: nat): (s: seq<Byte>)
    ensures |s| == n && forall i :: 0 <= i < n ==> s[i] == ERASED
  {
    seq(n, _ => ERASED)
  }

  /** What another operation may have left outside a region. */
  ghost predicate SameOutside(before: seq<Byte>, after: seq<Byte>, at: nat, n: nat) {
    && |before| == |after| && at + n <= |before|
    && before[..at] == after[..at] && before[at + n..] == after[at + n..]
  }

  lemma OverwriteFrom(before: seq<Byte>, after: seq<Byte>, at: nat, from: seq<Byte>)
    requires at + |from| <= |before| && SameOutside(before, after, at, |from|) && after[at..at + |from|] == from
    ensures after == Overwrite(before, at, from)
  {
    assert after == after[..at] + after[at..at + |from|] + after[at + |from|..];
  }

  lemma SameOutsideTwice(a: seq<Byte>, b: seq<Byte>, c: seq<Byte>, at: nat, n: nat, at': nat, n': nat)
    requires SameOutside(a, b, at, n) && SameOutside(b, c, at', n') && at <= at' && at' + n' <= at + n
    ensures SameOutside(a, c, at, n)
  {
    assert c[..at] == c[..at'][..at] && b[..at] == b[..at'][..at];
    assert c[at + n..] == c[at' + n'..][at + n - at' - n'..] && b[at + n..] == b[at' + n'..][at + n - at' - n'..];
  }

  // ----- a device whose flash operations may fail -----

  /** What happens to one flash operation: it works, it does nothing, or it fails half-way and
      leaves some damage. */
  datatype Event = Works | Refused | Damaged(junk: nat -> Byte)

  /** The next n operations work. */
  predicate AllWork(events: seq<Event>, n: nat) {
    forall i :: 0 <= i < n && i < |events| ==> events[i] == Works
  }

  /** What is still to come after n operations. */
  function After(events: seq<Event>, n: nat): seq<Event> {
    if n < |events| then events[n..] else []
  }

  lemma AfterMore(events: seq<Event>, n: nat, k: nat)
    ensures After(After(events, n), k) == After(events, n + k)
    ensures AllWork(events, n) && AllWork(After(events, n), k) <==> AllWork(events, n + k)
  {
    if AllWork(events, n + k) {
      assert forall i :: 0 <= i < |After(events, n)| ==> After(events, n)[i] == events[n + i];
    }
    if AllWork(events, n) && AllWork(After(events, n), k) {
      forall i | 0 <= i < n + k && i < |events| ensures events[i] == Works {
        if i >= n { assert events[i] == After(events, n)[i - n]; }
      }
    }
  }

  class Device {
    const ext: array<Byte>       // external flash
    const flash: array<Byte>     // internal flash
    var events: seq<Event>       // the fate of the next operations; all others work

    constructor (ext: array<Byte>, flash: array<Byte>, events: seq<Event>)
      ensures this.ext == ext && this.flash == flash && this.events == events
    {
      this.ext, this.flash, this.events := ext, flash, events;
    }

    ghost predicate Valid() {
      ext != flash && ext.Length >= 0x7D000 && ext.Length < TWO_TO_THE_32 - 8 && flash.Length >= FIRMWARE + IMAGE
    }

    method Next() returns (e: Event)
      modifies this`events
      ensures |events| <= |old(events)| && (e != Works ==> |events| < |old(events)|)
      ensures events == After(old(events), 1) && (e == Works <==> AllWork(old(events), 1))
    {
      if events == [] {
        return Works;
      }
      e, events := events[0], events[1..];
    }

    /** Opening the external flash. */
    method Open() returns (ok: bool)
      modifies this`events
      ensures |events| <= |old(events)| && (!ok ==> |events| < |old(events)|)
      ensures ok == AllWork(old(events), 1) && events == After(old(events), 1)
    {
      hide AllWork, After;
      var e := Next();
      ok := e == Works;
    }

    /** Erasing a region of either flash. */
    method Erase(memory: array<Byte>, at: nat, n: nat) returns (ok: bool)
      requires at + n <= memory.Length
      modifies this`events, memory
      ensures |events| <= |old(events)| && (!ok ==> |events| < |old(events)|)
      ensures SameOutside(old(memory[..]), memory[..], at, n)
      ensures ok ==> memory[..][at..at + n] == Filled(n)
    {
      var e := Next();
      if e == Works {
        forall i | at <= i < at + n {
          memory[i] := ERASED;
        }
      } else if e.Damaged? {
        forall i | at <= i < at + n {
          memory[i] := e.junk(i - at);
        }
      }
      ok := e == Works;
    }

    /** Writing to either flash. */
    method Write(memory: array<Byte>, at: nat, data: seq<Byte>) returns (ok: bool)
      requires at + |data| <= memory.Length
      modifies this`events, memory
      ensures |events| <= |old(events)| && (!ok ==> |events| < |old(events)|)
      ensures SameOutside(old(memory[..]), memory[..], at, |data|)
      ensures Anded(memory[..][at..at + |data|], data) == Anded(old(memory[..])[at..at + |data|], data)
      ensures ok ==> memory[..][at..at + |data|] == Anded(old(memory[..])[at..at + |data|], data)
    {
      hide And, Or;
      ghost var before := memory[..];
      var e := Next();
      if e == Works {
        forall i | at <= i < at + |data| {
          memory[i] := And(memory[i], data[i - at]);
        }
      } else if e.Damaged? {
        forall i | at <= i < at + |data| {
          memory[i] := And(memory[i], Or(data[i - at], e.junk(i - at)));
        }
      }
      ok := e == Works;
      forall i | 0 <= i < |data| ensures And(memory[at + i], data[i]) == And(before[at + i], data[i]) {
        PartialWrite(before[at + i], data[i], if e.Damaged? then e.junk(i) else ERASED);
      }
    }

    /** Reading the external flash; the driver rejects what lies outside. */
    method Read(at: nat, n: nat) returns (ok: bool, data: seq<Byte>)
      modifies this`events
      ensures |events| <= |old(events)| && (!ok && at + n <= ext.Length ==> |events| < |old(events)|)
      ensures ok ==> at + n <= ext.Length && data == ext[..][at..at + n]
      ensures ok == (AllWork(old(events), 1) && at + n <= ext.Length) && events == After(old(events), 1)
    {
      hide AllWork, After;
      var e := Next();
      ok := e == Works && at + n <= ext.Length;
      data := if ok then ext[at..at + n] else [];
    }

    /** erase_extflash_page. */
    method EraseExtflashPage(at: nat) returns (status: int)
      requires at + PAGE <= ext.Length
      modifies this`events, ext
      ensures |events| <= |old(events)| && (status != 0 ==> |events| < |old(events)|)
      ensures SameOutside(old(ext[..]), ext[..], at, PAGE)
      ensures status == 0 ==> ext[..][at..at + PAGE] == Filled(PAGE)
    {
      var access := Open();
      if !access {
        return -1;
      }
      access := Erase(ext, at, PAGE);
      status := if access then 0 else -1;
    }

    /** Erasing one page of the external flash until it works. */
    method EraseUntilDone(at: nat)
      requires at + PAGE <= ext.Length
      modifies this`events, ext
      ensures SameOutside(old(ext[..]), ext[..], at, PAGE) && ext[..][at..at + PAGE] == Filled(PAGE)
    {
      hide SameOutside;
      ghost var before := ext[..];
      var status := EraseExtflashPage(at);
      while status != 0
        invariant SameOutside(before, ext[..], at, PAGE)
        invariant status == 0 ==> ext[..][at..at + PAGE] == Filled(PAGE)
        decreases |events|, status != 0
      {
        ghost var middle := ext[..];
        status := EraseExtflashPage(at);
        SameOutsideTwice(before, middle, ext[..], at, PAGE, at, PAGE);
      }
    }

    /** erase_ota_image: every page of the slot, and nothing else. */
    method EraseOtaImage(slot: nat) returns (status: int)
      requires Valid() && slot <= 3
      modifies this`events, ext
      ensures status == 0 && ext[..] == Overwrite(old(ext[..]), SlotStart(slot), Filled(IMAGE))
    {
      hide SameOutside, SlotStart, Filled;
      ghost var before, start := ext[..], SlotStart(slot);
      assert SameOutside(before, before, start, IMAGE) by { NothingChanged(before, start, IMAGE); }
      var base := SlotPage(slot);
      for page := 0 to PAGES
        invariant SameOutside(before, ext[..], start, IMAGE)
        invariant ext[..][start..start + page * PAGE] == Filled(page * PAGE)
      {
        ghost var middle, at := ext[..], start + page * PAGE;
        EraseUntilDone((base + page) * PAGE);
        SameOutsideTwice(before, middle, ext[..], start, IMAGE, at, PAGE);
        KeepsBefore(middle, ext[..], at, PAGE, start);
        FilledMore(ext[..], start, page * PAGE, PAGE);
      }
      OverwriteFrom(before, ext[..], start, Filled(IMAGE));
      status := 0;
    }

    /** store_firmware_data. */
    method StoreFirmwareData(at: nat, data: seq<Byte>) returns (status: int)
      requires at + |data| <= ext.Length
      modifies this`events, ext
      ensures |events| <= |old(events)| && (status != 0 ==> |events| < |old(events)|)
      ensures SameOutside(old(ext[..]), ext[..], at, |data|)
      ensures Anded(ext[..][at..at + |data|], data) == Anded(old(ext[..])[at..at + |data|], data)
      ensures status == 0 ==> ext[..][at..at + |data|] == Anded(old(ext[..])[at..at + |data|], data)
    {
      var access := Open();
      if !access {
        return -1;
      }
      access := Write(ext, at, data);
      status := if access then 0 else -1;
    }

    /** Storing one chunk until it works; on erased flash the chunk then reads back. */
    method StoreUntilDone(at: nat, data: seq<Byte>)
      requires at + |data| <= ext.Length && ext[..][at..at + |data|] == Filled(|data|)
      modifies this`events, ext
      ensures SameOutside(old(ext[..]), ext[..], at, |data|) && ext[..][at..at + |data|] == data
    {
      hide SameOutside, Anded, Filled;
      ghost var before := ext[..];
      OntoErased(data);
      var status := StoreFirmwareData(at, data);
      while status != 0
        invariant SameOutside(before, ext[..], at, |data|)
        invariant Anded(ext[..][at..at + |data|], data) == data
        invariant status == 0 ==> ext[..][at..at + |data|] == data
        decreases |events|, status != 0
      {
        ghost var middle := ext[..];
        status := StoreFirmwareData(at, data);
        SameOutsideTwice(before, middle, ext[..], at, |data|, at, |data|);
      }
    }

    /** One page of backup_golden_image: chunk by chunk onto an erased page. */
    method BackupPage(from: nat, to: nat)
      requires Valid() && from + PAGE <= flash.Length && to + PAGE <= ext.Length
      requires ext[..][to..to + PAGE] == Filled(PAGE)
      modifies this`events, ext
      ensures SameOutside(old(ext[..]), ext[..], to, PAGE)
      ensures ext[..][to..to + PAGE] == flash[..][from..from + PAGE]
    {
      hide SameOutside, Filled;
      ghost var before := ext[..];
      NothingChanged(before, to, PAGE);
      var chunk := 0;
      while chunk < PAGE
        invariant chunk <= PAGE && chunk % CHUNK == 0
        invariant SameOutside(before, ext[..], to, PAGE)
        invariant ext[..][to..to + chunk] == flash[..][from..from + chunk]
        invariant ext[..][to + chunk..to + PAGE] == Filled(PAGE - chunk)
      {
        ghost var middle, at := ext[..], to + chunk;
        var data := flash[from + chunk..from + chunk + CHUNK];
        FilledParts(middle, at, CHUNK, PAGE - chunk);
        StoreUntilDone(to + chunk, data);
        PageGrows(before, middle, ext[..], to, flash[..], from, chunk);
        chunk := chunk + CHUNK;
      }
    }

    /** backup_golden_image: slot 0 becomes a copy of the installed firmware, whatever fails on the
        way; all else in external flash stays. */
    method BackupGoldenImage() returns (status: int)
      requires Valid()
      modifies this`events, ext
      ensures status == 0
      ensures ext[..] == Overwrite(old(ext[..]), SlotStart(0), flash[..][FIRMWARE..FIRMWARE + IMAGE])
    {
      hide SameOutside, Filled, SlotStart;
      ghost var before, start := ext[..], SlotStart(0);
      var erased := EraseOtaImage(0);
      ErasedRegion(before, ext[..], start);
      for page := 0 to PAGES
        invariant SameOutside(before, ext[..], start, IMAGE)
        invariant ext[..][start..start + page * PAGE] == flash[..][FIRMWARE..FIRMWARE + page * PAGE]
        invariant ext[..][start + page * PAGE..start + IMAGE] == Filled(IMAGE - page * PAGE)
      {
        ghost var middle, at := ext[..], start + page * PAGE;
        FilledParts(middle, at, PAGE, IMAGE - page * PAGE);
        BackupPage((CURRENT_FIRMWARE + page) * PAGE, (GOLDEN_IMAGE + page) * PAGE);
        SameOutsideTwice(before, middle, ext[..], start, IMAGE, at, PAGE);
        KeepsBefore(middle, ext[..], at, PAGE, start);
        KeepsBehind(middle, ext[..], at, PAGE, start + IMAGE);
        Extended(ext[..], start, flash[..], FIRMWARE, page * PAGE, PAGE);
      }
      OverwriteFrom(before, ext[..], start, flash[..][FIRMWARE..FIRMWARE + IMAGE]);
      status := 0;
    }

    /** FlashSectorErase until it works. */
    method EraseSector(at: nat)
      requires at + PAGE <= flash.Length
      modifies this`events, flash
      ensures |events| <= |old(events)|
      ensures SameOutside(old(flash[..]), flash[..], at, PAGE) && flash[..][at..at + PAGE] == Filled(PAGE)
    {
      hide SameOutside;
      ghost var before := flash[..];
      var ok := Erase(flash, at, PAGE);
      while !ok
        invariant |events| <= |old(events)| && SameOutside(before, flash[..], at, PAGE)
        invariant ok ==> flash[..][at..at + PAGE] == Filled(PAGE)
        decreases |events|, !ok
      {
        ghost var middle := flash[..];
        ok := Erase(flash, at, PAGE);
        SameOutsideTwice(before, middle, flash[..], at, PAGE, at, PAGE);
      }
    }

    /** FlashProgram until it works, on erased flash. */
    method ProgramUntilDone(at: nat, data: seq<Byte>)
      requires at + |data| <= flash.Length && flash[..][at..at + |data|] == Filled(|data|)
      modifies this`events, flash
      ensures |events| <= |old(events)|
      ensures SameOutside(old(flash[..]), flash[..], at, |data|) && flash[..][at..at + |data|] == data
    {
      hide SameOutside, Anded, Filled;
      ghost var before := flash[..];
      OntoErased(data);
      var ok := Write(flash, at, data);
      while !ok
        invariant |events| <= |old(events)| && SameOutside(before, flash[..], at, |data|)
        invariant Anded(flash[..][at..at + |data|], data) == data
        invariant ok ==> flash[..][at..at + |data|] == data
        decreases |events|, !ok
      {
        ghost var middle := flash[..];
        ok := Write(flash, at, data);
        SameOutsideTwice(before, middle, flash[..], at, |data|, at, |data|);
      }
    }

    /** update_firmware_page: one internal page is replaced, or reading failed and it is erased. */
    method UpdateFirmwarePage(source: nat, destination: nat) returns (status: int)
      requires Valid() && source + PAGE <= ext.Length && destination + PAGE <= flash.Length
      modifies this`events, flash
      ensures |events| <= |old(events)| && (status != 0 ==> |events| < |old(events)|)
      ensures SameOutside(old(flash[..]), flash[..], destination, PAGE)
      ensures status == 0 ==> flash[..][destination..destination + PAGE] == old(ext[..])[source..source + PAGE]
    {
      hide SameOutside, Filled;
      ghost var before := flash[..];
      EraseSector(destination);
      var access := Open();
      if !access {
        return -1;
      }
      var pageData;
      access, pageData := Read(source, PAGE);
      if !access {
        return -1;
      }
      ghost var middle := flash[..];
      ProgramUntilDone(destination, pageData);
      SameOutsideTwice(before, middle, flash[..], destination, PAGE, destination, PAGE);
      status := 0;
    }

    /** update_firmware: the installed firmware becomes a copy of a slot, whatever fails on the way;
        all else in internal flash stays. */
    method UpdateFirmware(slot: nat) returns (status: int)
      requires Valid() && slot <= 3
      modifies this`events, flash
      ensures status == 0
      ensures flash[..] == Overwrite(old(flash[..]), FIRMWARE, old(ext[..])[SlotStart(slot)..SlotStart(slot) + IMAGE])
    {
      hide SameOutside;
      ghost var before := flash[..];
      var start := SlotPage(slot) * PAGE;
      assert start == SlotStart(slot);
      hide SlotStart, SlotPage;
      NothingChanged(before, FIRMWARE, IMAGE);
      for page := 0 to PAGES
        invariant SameOutside(before, flash[..], FIRMWARE, IMAGE)
        invariant flash[..][FIRMWARE..FIRMWARE + page * PAGE] == ext[..][start..start + page * PAGE]
      {
        UpdatePage(before, start, page);
      }
      OverwriteFrom(before, flash[..], FIRMWARE, ext[..][start..start + IMAGE]);
      status := 0;
    }

    /** One turn of that loop: the page until it works. */
    method UpdatePage(ghost before: seq<Byte>, start: nat, page: nat)
      requires Valid() && start + IMAGE <= ext.Length && page < PAGES
      requires SameOutside(before, flash[..], FIRMWARE, IMAGE)
      requires flash[..][FIRMWARE..FIRMWARE + page * PAGE] == ext[..][start..start + page * PAGE]
      modifies this`events, flash
      ensures SameOutside(before, flash[..], FIRMWARE, IMAGE)
      ensures flash[..][FIRMWARE..FIRMWARE + (page + 1) * PAGE] == ext[..][start..start + (page + 1) * PAGE]
    {
      hide SameOutside;
      ghost var middle := flash[..];
      var source, destination := start + page * PAGE, (page + CURRENT_FIRMWARE) * PAGE;
      var status := UpdateFirmwarePage(source, destination);
      while status != 0
        invariant SameOutside(middle, flash[..], destination, PAGE)
        invariant status == 0 ==> flash[..][destination..destination + PAGE] == ext[..][source..source + PAGE]
        decreases |events|, status != 0
      {
        ghost var again := flash[..];
        status := UpdateFirmwarePage(source, destination);
        SameOutsideTwice(middle, again, flash[..], destination, PAGE, destination, PAGE);
      }
      SameOutsideTwice(before, middle, flash[..], FIRMWARE, IMAGE, destination, PAGE);
      KeepsBefore(middle, flash[..], destination, PAGE, FIRMWARE);
      Extended(flash[..], FIRMWARE, ext[..], start, page * PAGE, PAGE);
    }

    /** get_ota_slot_metadata. */
    method GetOtaSlotMetadata(slot: nat) returns (status: int, metadata: seq<Byte>)
      requires Valid() && slot <= 3
      modifies this`events
      ensures |events| <= |old(events)| && (status != 0 ==> |events| < |old(events)|)
      ensures status == 0 ==> metadata == Metadata(ext[..], slot)
      ensures (status == 0 <==> AllWork(old(events), 2)) && events == AfterMetadata(old(events))
    {
      hide AllWork, After;
      AfterMore(events, 1, 1);
      metadata := [];
      var access := Open();
      if !access {
        return -1, [];
      }
      access, metadata := Read(SlotPage(slot) * PAGE, METADATA_LENGTH);
      status := if access then 0 else -1;
    }

    /** verify_ota_slot. The status of reading the metadata is not looked at: when it fails, the
        verdict is about whatever the stack then holds. */
    method VerifyOtaSlot(slot: nat, stack: seq<Byte>) returns (status: int, ghost metadata: seq<Byte>)
      requires Valid() && slot <= 3 && |stack| == METADATA_LENGTH
      modifies this`events
      ensures metadata == if AllWork(old(events), 2) then Metadata(ext[..], slot) else stack
      ensures status == Outcome(ext[..], slot, metadata, AfterMetadata(old(events)))
    {
      hide Verdict, WordsRead, Metadata, AfterMetadata, After, AllWork;
      ghost var before := AfterMetadata(events);
      var readStatus, m := GetOtaSlotMetadata(slot);
      if readStatus != 0 {
        m := stack;
      }
      metadata := m;
      var address := SlotPage(slot) * PAGE + METADATA_SPACE;
      var end := (address + SizeOf(m)) % TWO_TO_THE_32;
      AfterMore(before, 1, WordsRead(address, end));
      var access := Open();
      if !access {
        return VERIFY_SLOT_SPI_ERROR, metadata;
      }
      status := CompareCrc(slot, m, address, end);
    }

    /** The second half of verify_ota_slot: the CRC of the image, and its comparison. */
    method CompareCrc(slot: nat, m: seq<Byte>, address: nat, end: nat) returns (status: int)
      requires Valid() && slot <= 3 && |m| == METADATA_LENGTH
      requires address == SlotPage(slot) * PAGE + METADATA_SPACE && end == (address + SizeOf(m)) % TWO_TO_THE_32
      modifies this`events
      ensures status ==
        if AllWork(old(events), WordsRead(address, end)) then Verdict(ext[..], slot, m) else VERIFY_SLOT_SPI_ERROR
    {
      hide ImageCrc, Bits, Run, ImageWords, SizeOf, ShadowOf, AllWork, WordsRead;
      var ok, crc, bytes := CrcOfWords(address, end);
      if !ok {
        return VERIFY_SLOT_SPI_ERROR;
      }
      crc := Crc16(crc, ZERO);
      crc := Crc16(crc, ZERO);
      TwoZeros(bytes.value);
      status := if ShadowOf(m) != crc then VERIFY_SLOT_CRC_ERROR else VERIFY_SLOT_OK;
    }

    /** The loop of verify_ota_slot: words of four bytes from start to end, or a failed read. */
    method CrcOfWords(start: nat, end: nat) returns (ok: bool, crc: seq<bool>, ghost bytes: Option<seq<Byte>>)
      requires Valid() && start <= 0x7D000
      modifies this`events
      ensures |crc| == WIDTH && ok == bytes.Some?
      ensures bytes == if AllWork(old(events), WordsRead(start, end)) then ImageWords(ext[..], start, end) else None
      ensures bytes.Some? ==> crc == Run(Zeros(WIDTH), Bits(bytes.value))
    {
      hide Run, Bits, AllWork, After;
      crc := Zeros(WIDTH);
      ghost var k := 0;
      NothingHappened(events);
      var address := start;
      RunNone(crc, Bits([]));
      while address < end
        invariant start <= address <= ext.Length && (address - start) % 4 == 0
        invariant start < end ==> address < end + 4
        invariant start >= end ==> address == start
        invariant address == start + 4 * k && AllWork(old(events), k) && events == After(old(events), k)
        invariant |crc| == WIDTH && crc == Run(Zeros(WIDTH), Bits(ext[..][start..address]))
      {
        AfterMore(old(events), k, 1);
        MoreWords(old(events), start, end, k);
        var access, word := Read(address, 4);
        if !access {
          return false, crc, None;
        }
        ghost var before := crc;
        RunNone(before, Bits(word[..0]));
        for i := 0 to 4
          invariant events == After(old(events), k + 1)
          invariant |crc| == WIDTH && crc == Run(before, Bits(word[..i]))
        {
          crc := Crc16(crc, word[i]);
          OneMore(before, word[..i], word[i]);
          assert word[..i + 1] == word[..i] + [word[i]];
        }
        assert word[..4] == word;
        BitsAppend(ext[..][start..address], word);
        RunAppend(Zeros(WIDTH), Bits(ext[..][start..address]), Bits(word));
        assert ext[..][start..address + 4] == ext[..][start..address] + word;
        address, k := address + 4, k + 1;
      }
      ok, bytes := true, Some(ext[..][start..address]);
    }
  }

  // ----- verification -----

  /** The metadata of a slot: CRC, CRC shadow, size, identifier and version, little-endian. */
  function Metadata(ext: seq<Byte>, slot: nat): (m: seq<Byte>)
    requires slot <= 3 && |ext| >= 0x7D000
    ensures |m| == METADATA_LENGTH
  {
    ext[SlotStart(slot)..SlotStart(slot) + METADATA_LENGTH]
  }

  function ByteValue(b: Byte): nat {
    (if b.b7 then 128 else 0) + (if b.b6 then 64 else 0) + (if b.b5 then 32 else 0) + (if b.b4 then 16 else 0)
    + (if b.b3 then 8 else 0) + (if b.b2 then 4 else 0) + (if b.b1 then 2 else 0) + (if b.b0 then 1 else 0)
  }

  function ShadowOf(m: seq<Byte>): seq<bool>
    requires |m| == METADATA_LENGTH
  {
    ByteBits(m[3]) + ByteBits(m[2])
  }

  function SizeOf(m: seq<Byte>): nat
    requires |m| == METADATA_LENGTH
  {
    ByteValue(m[4]) + 0x100 * ByteValue(m[5]) + 0x1_0000 * ByteValue(m[6]) + 0x100_0000 * ByteValue(m[7])
  }

  /** The bytes that verification reads: whole words, so up to three bytes behind the image. */
  function ImageWords(ext: seq<Byte>, start: nat, end: nat): Option<seq<Byte>> {
    var n := if start < end then (end - start + 3) / 4 * 4 else 0;
    if start + n <= |ext| then Some(ext[start..start + n]) else None
  }

  /** How many words that takes. */
  function WordsRead(start: nat, end: nat): nat {
    if start < end then (end - start + 3) / 4 else 0
  }

  /** Reading metadata takes two operations; if the first one fails, only that. */
  function AfterMetadata(events: seq<Event>): seq<Event> {
    After(events, if AllWork(events, 1) then 2 else 1)
  }

  lemma NothingHappened(events: seq<Event>)
    ensures AllWork(events, 0) && After(events, 0) == events
  {
  }

  lemma MoreWords(events: seq<Event>, start: nat, end: nat, k: nat)
    ensures start + 4 * k < end && !AllWork(events, k + 1) ==> !AllWork(events, WordsRead(start, end))
  {
  }

  /** What verify_ota_slot says when nothing fails on the way. */
  function Verdict(ext: seq<Byte>, slot: nat, m: seq<Byte>): int
    requires slot <= 3 && |m| == METADATA_LENGTH
  {
    var start := SlotStart(slot) + METADATA_SPACE;
    match ImageWords(ext, start, (start + SizeOf(m)) % TWO_TO_THE_32)
    case None => VERIFY_SLOT_SPI_ERROR
    case Some(image) => if ShadowOf(m) == ImageCrc(image) then VERIFY_SLOT_OK else VERIFY_SLOT_CRC_ERROR
  }

  /** What it says in general: the verdict on the metadata it goes by, unless the flash cannot be
      opened, or a word of the image cannot be read. */
  function Outcome(ext: seq<Byte>, slot: nat, m: seq<Byte>, events: seq<Event>): int
    requires slot <= 3 && |m| == METADATA_LENGTH
  {
    var start := SlotStart(slot) + METADATA_SPACE;
    var words := WordsRead(start, (start + SizeOf(m)) % TWO_TO_THE_32);
    if AllWork(events, 1 + words) then Verdict(ext, slot, m) else VERIFY_SLOT_SPI_ERROR
  }

  /** If the metadata cannot be read, the stack is zero and the flash can be opened the next time, then
      every slot verifies, whatever it holds: an image of size 0 has the CRC 0. */
  lemma UnreadMetadataVerifies(ext: seq<Byte>, slot: nat, events: seq<Event>)
    requires slot <= 3 && |ext| >= 0x7D000 && !AllWork(events, 2) && AllWork(AfterMetadata(events), 1)
    ensures Outcome(ext, slot, ZeroMetadata(), AfterMetadata(events)) == VERIFY_SLOT_OK
    ensures Verdict(ext, slot, ZeroMetadata()) == VERIFY_SLOT_OK
  {
    hide ImageCrc, After, AllWork, SizeOf, ShadowOf;
    var m, start := ZeroMetadata(), SlotStart(slot) + METADATA_SPACE;
    ZeroFields();
    NothingHasZeroCrc();
    NoWords(ext, start);
  }

  lemma NoWords(ext: seq<Byte>, start: nat)
    requires start <= |ext|
    ensures WordsRead(start, start) == 0 && ImageWords(ext, start, start).Some?
      && ImageWords(ext, start, start).value == []
  {
  }

  lemma ZeroFields()
    ensures SizeOf(ZeroMetadata()) == 0 && ShadowOf(ZeroMetadata()) == Zeros(WIDTH)
  {
  }

  function ZeroMetadata(): (m: seq<Byte>)
    ensures |m| == METADATA_LENGTH
  {
    seq(METADATA_LENGTH, _ => ZERO)
  }

  lemma NothingHasZeroCrc()
    ensures ImageCrc([]) == Zeros(WIDTH)
  {
    hide Run;
    var bits := Bits([] + [ZERO, ZERO]);
    assert [] + [ZERO, ZERO] == [ZERO] + [ZERO];
    assert Bits([ZERO]) == ByteBits(ZERO) + [];
    BitsAppend([ZERO], [ZERO]);
    ZerosKeep(Zeros(WIDTH), bits);
  }

  lemma TwoZeros(image: seq<Byte>)
    ensures ImageCrc(image) == Run(Run(Run(Zeros(WIDTH), Bits(image)), ByteBits(ZERO)), ByteBits(ZERO))
  {
    hide Run, ByteBits, Bits;
    OneMore(Zeros(WIDTH), image, ZERO);
    OneMore(Zeros(WIDTH), image + [ZERO], ZERO);
    assert image + [ZERO] + [ZERO] == image + [ZERO, ZERO];
  }

  lemma OneMore(crc: seq<bool>, bytes: seq<Byte>, b: Byte)
    requires |crc| == WIDTH
    ensures Run(crc, Bits(bytes + [b])) == Run(Run(crc, Bits(bytes)), ByteBits(b))
  {
    hide Run, ByteBits;
    assert Bits([b]) == ByteBits(b) + [] == ByteBits(b);
    BitsAppend(bytes, [b]);
    RunAppend(crc, Bits(bytes), ByteBits(b));
  }

  /** Of two images with the same metadata that differ in a burst of up to sixteen bits, at most
      one verifies. */
  lemma BurstNeverVerifies(ext: seq<Byte>, ext': seq<Byte>, slot: nat, m: seq<Byte>, start: nat)
    requires slot <= 3 && |ext| == |ext'| && |m| == METADATA_LENGTH
    requires var at := SlotStart(slot) + METADATA_SPACE; var end := (at + SizeOf(m)) % TWO_TO_THE_32;
      && ImageWords(ext, at, end).Some?
      && DifferInBurst(ImageWords(ext, at, end).value, ImageWords(ext', at, end).value, start)
    ensures Verdict(ext, slot, m) != VERIFY_SLOT_OK || Verdict(ext', slot, m) != VERIFY_SLOT_OK
  {
    hide ImageCrc, DifferInBurst, SizeOf, ShadowOf;
    var at := SlotStart(slot) + METADATA_SPACE;
    var end := (at + SizeOf(m)) % TWO_TO_THE_32;
    BurstDetected(ImageWords(ext, at, end).value, ImageWords(ext', at, end).value, start);
  }

  // ----- runs -----

  /** Both memories, and the operations on them as the methods above leave them. */
  datatype Memory = Memory(ext: seq<Byte>, flash: seq<Byte>)

  datatype Operation =
    | EraseSlot(slot: nat)
    | StoreData(at: nat, contents: seq<Byte>)   // whatever a call of store_firmware_data leaves there
    | Update(slot: nat)
    | Scramble(contents: seq<Byte>)             // anything at all happens to internal flash

  ghost predicate Sized(m: Memory) {
    |m.ext| >= 0x7D000 && |m.flash| >= FIRMWARE + IMAGE
  }

  function Backup(m: Memory): (m': Memory)
    requires Sized(m)
    ensures Sized(m')
  {
    m.(ext := Overwrite(m.ext, SlotStart(0), m.flash[FIRMWARE..FIRMWARE + IMAGE]))
  }

  function Restore(m: Memory, slot: nat): (m': Memory)
    requires Sized(m) && slot <= 3
    ensures Sized(m')
  {
    m.(flash := Overwrite(m.flash, FIRMWARE, m.ext[SlotStart(slot)..SlotStart(slot) + IMAGE]))
  }

  /** An operation that leaves slot 0 alone. */
  ghost predicate Allowed(op: Operation, m: Memory) {
    match op
    case EraseSlot(slot) => 1 <= slot <= 3
    case StoreData(at, contents) => SlotStart(1) <= at && at + |contents| <= |m.ext|
    case Update(slot) => slot <= 3
    case Scramble(contents) => |contents| == |m.flash|
  }

  function Apply(op: Operation, m: Memory): (m': Memory)
    requires Sized(m) && Allowed(op, m)
    ensures Sized(m') && |m'.ext| == |m.ext| && |m'.flash| == |m.flash|
  {
    match op
    case EraseSlot(slot) => m.(ext := Overwrite(m.ext, SlotStart(slot), Filled(IMAGE)))
    case StoreData(at, contents) => m.(ext := Overwrite(m.ext, at, contents))
    case Update(slot) => Restore(m, slot)
    case Scramble(contents) => m.(flash := contents)
  }

  ghost predicate AllAllowed(ops: seq<Operation>, m: Memory)
    requires Sized(m)
    decreases |ops|
  {
    ops != [] ==> Allowed(ops[0], m) && AllAllowed(ops[1..], Apply(ops[0], m))
  }

  function ApplyAll(ops: seq<Operation>, m: Memory): (m': Memory)
    requires Sized(m) && AllAllowed(ops, m)
    ensures Sized(m')
    decreases |ops|
  {
    if ops == [] then m else ApplyAll(ops[1..], Apply(ops[0], m))
  }

  function SlotImage(m: Memory, slot: nat): seq<Byte>
    requires Sized(m) && slot <= 3
  {
    m.ext[SlotStart(slot)..SlotStart(slot) + IMAGE]
  }

  lemma GoldenKept(op: Operation, m: Memory)
    requires Sized(m) && Allowed(op, m)
    ensures SlotImage(Apply(op, m), 0) == SlotImage(m, 0)
  {
  }

  lemma {:induction false} GoldenKeptThroughout(ops: seq<Operation>, m: Memory)
    requires Sized(m) && AllAllowed(ops, m)
    ensures SlotImage(ApplyAll(ops, m), 0) == SlotImage(m, 0)
    decreases |ops|
  {
    hide SlotImage, Apply, Allowed;
    if ops != [] {
      GoldenKept(ops[0], m);
      GoldenKeptThroughout(ops[1..], Apply(ops[0], m));
    }
  }

  /** A backup changes no other slot. */
  lemma BackupKeepsSlots(m: Memory, slot: nat)
    requires Sized(m) && 1 <= slot <= 3
    ensures SlotImage(Backup(m), slot) == SlotImage(m, slot) && Backup(m).flash == m.flash
  {
  }

  /** After a backup, and whatever then happens outside slot 0, restoring the golden image brings
      back exactly the firmware that was backed up. */
  lemma FactoryRestore(m: Memory, ops: seq<Operation>)
    requires Sized(m) && AllAllowed(ops, Backup(m))
    ensures Restore(ApplyAll(ops, Backup(m)), 0).flash[FIRMWARE..FIRMWARE + IMAGE]
      == m.flash[FIRMWARE..FIRMWARE + IMAGE]
  {
    hide ApplyAll, AllAllowed;
    GoldenKeptThroughout(ops, Backup(m));
    assert SlotImage(Backup(m), 0) == m.flash[FIRMWARE..FIRMWARE + IMAGE];
  }

  lemma NothingChanged(s: seq<Byte>, at: nat, n: nat)
    requires at + n <= |s|
    ensures SameOutside(s, s, at, n)
  {
  }

  /** A change behind a position leaves what was before it. */
  lemma KeepsBefore(before: seq<Byte>, after: seq<Byte>, at: nat, n: nat, from: nat)
    requires SameOutside(before, after, at, n) && from <= at
    ensures |after| == |before| && after[from..at] == before[from..at]
  {
    assert after[from..at] == after[..at][from..] && before[from..at] == before[..at][from..];
  }

  lemma KeepsBehind(before: seq<Byte>, after: seq<Byte>, at: nat, n: nat, to: nat)
    requires SameOutside(before, after, at, n) && at + n <= to <= |before|
    ensures |after| == |before| && after[at + n..to] == before[at + n..to]
  {
    assert after[at + n..to] == after[at + n..][..to - at - n] && before[at + n..to] == before[at + n..][..to - at - n];
  }

  lemma FilledMore(s: seq<Byte>, start: nat, done: nat, n: nat)
    requires start + done + n <= |s|
    requires s[start..start + done] == Filled(done) && s[start + done..start + done + n] == Filled(n)
    ensures s[start..start + done + n] == Filled(done + n)
  {
    assert s[start..start + done + n] == s[start..start + done] + s[start + done..start + done + n];
  }

  lemma FilledParts(s: seq<Byte>, at: nat, n: nat, total: nat)
    requires at + total <= |s| && n <= total && s[at..at + total] == Filled(total)
    ensures s[at..at + n] == Filled(n) && s[at + n..at + total] == Filled(total - n)
  {
    assert s[at..at + n] == s[at..at + total][..n] && s[at + n..at + total] == s[at..at + total][n..];
  }

  lemma Extended(s: seq<Byte>, at: nat, t: seq<Byte>, from: nat, done: nat, n: nat)
    requires at + done + n <= |s| && from + done + n <= |t|
    requires s[at..at + done] == t[from..from + done]
    requires s[at + done..at + done + n] == t[from + done..from + done + n]
    ensures s[at..at + done + n] == t[from..from + done + n]
  {
    assert s[at..at + done + n] == s[at..at + done] + s[at + done..at + done + n];
    assert t[from..from + done + n] == t[from..from + done] + t[from + done..from + done + n];
  }

  /** One more chunk of a page has been copied. */
  lemma PageGrows(before: seq<Byte>, middle: seq<Byte>, after: seq<Byte>, to: nat, flash: seq<Byte>, from: nat,
                  chunk: nat)
    requires chunk + CHUNK <= PAGE && to + PAGE <= |before| && from + PAGE <= |flash|
    requires SameOutside(before, middle, to, PAGE) && SameOutside(middle, after, to + chunk, CHUNK)
    requires middle[to..to + chunk] == flash[from..from + chunk]
    requires middle[to + chunk + CHUNK..to + PAGE] == Filled(PAGE - chunk - CHUNK)
    requires after[to + chunk..to + chunk + CHUNK] == flash[from + chunk..from + chunk + CHUNK]
    ensures SameOutside(before, after, to, PAGE)
    ensures after[to..to + chunk + CHUNK] == flash[from..from + chunk + CHUNK]
    ensures after[to + chunk + CHUNK..to + PAGE] == Filled(PAGE - chunk - CHUNK)
  {
    hide SameOutside, Filled;
    var at := to + chunk;
    SameOutsideTwice(before, middle, after, to, PAGE, at, CHUNK);
    KeepsBefore(middle, after, at, CHUNK, to);
    KeepsBehind(middle, after, at, CHUNK, to + PAGE);
    Extended(after, to, flash, from, chunk, CHUNK);
  }

  lemma ErasedRegion(before: seq<Byte>, after: seq<Byte>, at: nat)
    requires at + IMAGE <= |before| && after == Overwrite(before, at, Filled(IMAGE))
    ensures SameOutside(before, after, at, IMAGE) && after[at..at + IMAGE] == Filled(IMAGE)
  {
  }

  lemma OntoErased(data: seq<Byte>)
    ensures Anded(Filled(|data|), data) == data
  {
  }

  function Anded(was: seq<Byte>, data: seq<Byte>): (s: seq<Byte>)
    requires |was| == |data|
    ensures |s| == |data|
  {
    seq(|data|, i requires 0 <= i < |data| => And(was[i], data[i]))
  }
}

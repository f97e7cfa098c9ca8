/** A block device whose every operation may fail, and the boot-record operations on it. */
module BlockDevice {
  import opened Bytes
  import opened Results
  import opened BootConfig

  type Block = b: seq<byte> | |b| == BLOCK_SIZE
    ghost witness Zeros(BLOCK_SIZE)

  /** Only blocks from `lo` up to `hi`, and the two boot-record slots, may differ. */
  ghost predicate SameOutside(a: seq<Block>, b: seq<Block>, lo: nat, hi: nat, boot: nat) {
    && |a| == |b|
    && forall i :: 0 <= i < |a| && !(lo <= i < hi) && i != boot && i != boot + 1 ==> a[i] == b[i]
  }

  /** The `n`-th operation fails if it has an entry in the matching table. A failed write leaves the given
      bytes behind. */
  datatype Faults = Faults(onRead: map<nat, BlockError>, onWrite: map<nat, (BlockError, Block)>,
                           onFlush: map<nat, BlockError>)

  function ReadAt(f: Faults, blocks: seq<Block>, lba: nat, tick: nat): Result<Block, BlockError> {
    if lba >= |blocks| then Err(OutOfRange)
    else if tick in f.onRead then Err(f.onRead[tick])
    else Ok(blocks[lba])
  }

  function WriteAt(f: Faults, blocks: seq<Block>, lba: nat, b: Block, tick: nat): (Result<(), BlockError>, seq<Block>) {
    if lba >= |blocks| then (Err(OutOfRange), blocks)
    else if tick in f.onWrite then (Err(f.onWrite[tick].0), blocks[lba := f.onWrite[tick].1])
    else (Ok(()), blocks[lba := b])
  }

  function FlushAt(f: Faults, tick: nat): Result<(), BlockError> {
    if tick in f.onFlush then Err(f.onFlush[tick]) else Ok(())
  }

  class Disk {
    var blocks: seq<Block>
    const blockSize: nat
    const faults: Faults
    var clock: nat
    /** Everything the device has held, in order: where power may be cut. */
    ghost var trail: seq<seq<Block>>

    constructor (blocks: seq<Block>, blockSize: nat, faults: Faults)
      ensures this.blocks == blocks && this.blockSize == blockSize && this.faults == faults
      ensures clock == 0 && trail == [blocks]
    {
      this.blocks, this.blockSize, this.faults := blocks, blockSize, faults;
      clock, trail := 0, [blocks];
    }

    ghost predicate ReadsWork() {
      faults.onRead == map[]
    }

    ghost predicate AllWorks() {
      faults == Faults(map[], map[], map[])
    }

    method ReadBlock(lba: nat) returns (r: Result<Block, BlockError>)
      modifies this`clock
      ensures clock == old(clock) + 1
      ensures r == ReadAt(faults, blocks, lba, clock)
    {
      clock := clock + 1;
      if lba >= |blocks| {
        return Err(OutOfRange);
      }
      if clock in faults.onRead {
        return Err(faults.onRead[clock]);
      }
      return Ok(blocks[lba]);
    }

    method WriteBlock(lba: nat, b: Block) returns (r: Result<(), BlockError>)
      modifies this`clock, this`blocks, this`trail
      ensures clock == old(clock) + 1
      ensures (r, blocks) == WriteAt(faults, old(blocks), lba, b, clock)
      ensures trail == old(trail) + [blocks]
    {
      clock := clock + 1;
      if lba >= |blocks| {
        trail := trail + [blocks];
        return Err(OutOfRange);
      }
      if clock in faults.onWrite {
        blocks := blocks[lba := faults.onWrite[clock].1];
        trail := trail + [blocks];
        return Err(faults.onWrite[clock].0);
      }
      blocks := blocks[lba := b];
      trail := trail + [blocks];
      return Ok(());
    }

    method Flush() returns (r: Result<(), BlockError>)
      modifies this`clock
      ensures clock == old(clock) + 1
      ensures r == FlushAt(faults, clock)
    {
      clock := clock + 1;
      return if clock in faults.onFlush then Err(faults.onFlush[clock]) else Ok(());
    }
  }

  // ----- boot records on the device -----

  /** What a fault-free read of one record slot gives. */
  function SlotAt(sha: Digest, blocks: seq<Block>, boot: nat, p: Pos): Read {
    if boot + p.Delta() < |blocks| then Decode(sha, blocks[boot + p.Delta()]) else Err(BootError.Block(OutOfRange))
  }

  /** Some boot record is valid. */
  predicate Bootable(sha: Digest, blocks: seq<Block>, boot: nat) {
    PickActive(SlotAt(sha, blocks, boot, SlotX), SlotAt(sha, blocks, boot, SlotY)).Ok?
  }

  /** Everything appended to the device's history changes nothing but the boot slots. */
  ghost predicate OnlyBoot(before: seq<Block>, trail0: seq<seq<Block>>, trail: seq<seq<Block>>, boot: nat) {
    && trail0 <= trail
    && forall k :: |trail0| <= k < |trail| ==> SameOutside(before, trail[k], 0, 0, boot)
  }

  ghost predicate StaysBootable(sha: Digest, trail0: seq<seq<Block>>, trail: seq<seq<Block>>, boot: nat) {
    trail0 <= trail && forall k :: |trail0| <= k < |trail| ==> Bootable(sha, trail[k], boot)
  }

  /** What a read of one record slot gives at a given tick. */
  function Seen(f: Faults, sha: Digest, blocks: seq<Block>, boot: nat, p: Pos, tick: nat): (r: Read)
    ensures SeenAs(SlotAt(sha, blocks, boot, p), r)
    ensures f.onRead == map[] ==> r == SlotAt(sha, blocks, boot, p)
  {
    var b := ReadAt(f, blocks, boot + p.Delta(), tick);
    if b.Err? then Err(BootError.Block(b.error)) else Decode(sha, b.value)
  }

  /** What the two reads of the records give. */
  function SeenActive(f: Faults, blockSize: nat, sha: Digest, blocks: seq<Block>, boot: nat, tick: nat)
    : Result<(Record, Pos), BootError>
  {
    if blockSize != BLOCK_SIZE then Err(BootError.Block(Unaligned))
    else PickActive(Seen(f, sha, blocks, boot, SlotX, tick + 1), Seen(f, sha, blocks, boot, SlotY, tick + 2))
  }

  /** Writing one record and flushing: the answer and what the device then holds. */
  function WriteRun(f: Faults, sha: Digest, blocks: seq<Block>, boot: nat, p: Pos, rec: Record, tick: nat)
    : (Result<(), BootError>, seq<Block>)
  {
    var (w, after) := WriteAt(f, blocks, boot + p.Delta(), Encode(sha, rec), tick + 1);
    var done := if w.Err? then w else FlushAt(f, tick + 2);
    (if done.Err? then Err(BootError.Block(done.error)) else Ok(()), after)
  }

  /** An update under a table of faults. */
  function UpdateRun(f: Faults, blockSize: nat, sha: Digest, blocks: seq<Block>, boot: nat, rec: Record, tick: nat)
    : (Result<Pos, BootError>, seq<Block>)
  {
    if blockSize != BLOCK_SIZE then (Err(BootError.Block(Unaligned)), blocks)
    else
      var p := Checked(Seen(f, sha, blocks, boot, SlotX, tick + 1), Seen(f, sha, blocks, boot, SlotY, tick + 2), rec);
      if p.Err? then (p, blocks)
      else
        var (w, after) := WriteRun(f, sha, blocks, boot, p.value, rec, tick + 2);
        (if w.Err? then Err(w.error) else p, after)
  }

  /** Staging under a table of faults. The records are read once for the generation and again by the update. */
  function StageRun(f: Faults, blockSize: nat, sha: Digest, blocks: seq<Block>, boot: nat, active: Squash, tick: nat)
    : (Result<(Record, Pos), BootError>, seq<Block>)
  {
    var picked := SeenActive(f, blockSize, sha, blocks, boot, tick);
    if picked == Err(BothSlotsInvalid) then
      var rec := Record(true, active, true, 1, false);
      var (w, after) := WriteRun(f, sha, blocks, boot, SlotX, rec, tick + 2);
      (if w.Err? then Err(w.error) else Ok((rec, SlotX)), after)
    else if picked.Err? then (picked, blocks)
    else if picked.value.0.generation == U64_MAX then (Err(GenerationNotMonotonic), blocks)
    else
      var rec := Record(true, active, true, picked.value.0.generation + 1, false);
      var (p, after) := UpdateRun(f, blockSize, sha, blocks, boot, rec, tick + 2);
      (if p.Err? then Err(p.error) else Ok((rec, p.value)), after)
  }

  /** Confirming a boot under a table of faults. */
  function ConfirmRun(f: Faults, blockSize: nat, sha: Digest, blocks: seq<Block>, boot: nat, tick: nat)
    : (Result<(), BootError>, seq<Block>)
  {
    var picked := SeenActive(f, blockSize, sha, blocks, boot, tick);
    if picked.Err? then (Err(picked.error), blocks)
    else if picked.value.0.bootSuccess then (Ok(()), blocks)
    else if picked.value.0.generation == U64_MAX then (Err(GenerationOverflow), blocks)
    else
      var rec := Record(true, picked.value.0.active, false, picked.value.0.generation + 1, true);
      var (p, after) := UpdateRun(f, blockSize, sha, blocks, boot, rec, tick + 2);
      (if p.Err? then Err(p.error) else Ok(()), after)
  }

  /** Clearing the valid flag of one record under a table of faults. */
  function MarkRun(f: Faults, blockSize: nat, sha: Digest, blocks: seq<Block>, boot: nat, p: Pos, tick: nat)
    : (Result<(), BootError>, seq<Block>)
  {
    if blockSize != BLOCK_SIZE then (Err(BootError.Block(Unaligned)), blocks)
    else
      var b := ReadAt(f, blocks, boot + p.Delta(), tick + 1);
      if b.Err? then (Err(BootError.Block(b.error)), blocks)
      else
        var rec := Decode(sha, b.value);
        if rec.Err? then (Ok(()), blocks)
        else WriteRun(f, sha, blocks, boot, p, rec.value.(valid := false), tick + 1)
  }

  /** Clearing the record that is not active under a table of faults. */
  function GiveUpRun(f: Faults, blockSize: nat, sha: Digest, blocks: seq<Block>, boot: nat, tick: nat): seq<Block> {
    var picked := SeenActive(f, blockSize, sha, blocks, boot, tick);
    if picked.Err? then blocks else MarkRun(f, blockSize, sha, blocks, boot, picked.value.1.Other(), tick + 2).1
  }

  // ----- what faults can cost -----

  /** `after` is `before` with at most the slot `p` changed. */
  ghost predicate OneSlot(before: seq<Block>, after: seq<Block>, boot: nat, p: Pos) {
    |after| == |before| && forall i :: 0 <= i < |after| && i != boot + p.Delta() ==> after[i] == before[i]
  }

  lemma {:induction false} WriteIsOneSlot(f: Faults, sha: Digest, blocks: seq<Block>, boot: nat, p: Pos, rec: Record,
                                          tick: nat)
    ensures var (w, after) := WriteRun(f, sha, blocks, boot, p, rec, tick);
            && OneSlot(blocks, after, boot, p)
            && (w.Ok? ==> SlotAt(sha, after, boot, p) == Ok(rec))
  {
    hide Decode, Encode;
    RecordRoundTrip(sha, rec);
  }

  lemma {:induction false} OneSlotKeeps(sha: Digest, before: seq<Block>, after: seq<Block>, boot: nat, p: Pos)
    requires OneSlot(before, after, boot, p) && IsValid(SlotAt(sha, before, boot, p.Other()))
    ensures Bootable(sha, after, boot)
  {
    hide Decode;
    assert SlotAt(sha, after, boot, p.Other()) == SlotAt(sha, before, boot, p.Other());
  }

  /** The second slot is valid, or no read fails: what is enough for a valid record to survive any fault. */
  ghost predicate Covered(f: Faults, sha: Digest, blocks: seq<Block>, boot: nat) {
    Bootable(sha, blocks, boot) && (f.onRead == map[] || IsValid(SlotAt(sha, blocks, boot, SlotY)))
  }

  lemma {:induction false} UpdateKeeps(f: Faults, blockSize: nat, sha: Digest, blocks: seq<Block>, boot: nat,
                                       rec: Record, tick: nat)
    requires Covered(f, sha, blocks, boot)
    ensures Bootable(sha, UpdateRun(f, blockSize, sha, blocks, boot, rec, tick).1, boot)
  {
    hide SlotAt, WriteRun, OneSlot, Seen;
    var x, y := Seen(f, sha, blocks, boot, SlotX, tick + 1), Seen(f, sha, blocks, boot, SlotY, tick + 2);
    var p := Checked(x, y, rec);
    if blockSize == BLOCK_SIZE && p.Ok? {
      WriteIsOneSlot(f, sha, blocks, boot, p.value, rec, tick + 2);
      MisreadLosesIff(SlotAt(sha, blocks, boot, SlotX), SlotAt(sha, blocks, boot, SlotY), x, y, rec, A);
      OneSlotKeeps(sha, blocks, UpdateRun(f, blockSize, sha, blocks, boot, rec, tick).1, boot, p.value);
    }
  }

  lemma {:induction false} StageKeeps(f: Faults, blockSize: nat, sha: Digest, blocks: seq<Block>, boot: nat,
                                      active: Squash, tick: nat)
    requires Covered(f, sha, blocks, boot)
    ensures Bootable(sha, StageRun(f, blockSize, sha, blocks, boot, active, tick).1, boot)
  {
    hide SlotAt, WriteRun, UpdateRun, OneSlot, Seen;
    var picked := SeenActive(f, blockSize, sha, blocks, boot, tick);
    if picked == Err(BothSlotsInvalid) {
      var rec := Record(true, active, true, 1, false);
      WriteIsOneSlot(f, sha, blocks, boot, SlotX, rec, tick + 2);
      OneSlotKeeps(sha, blocks, WriteRun(f, sha, blocks, boot, SlotX, rec, tick + 2).1, boot, SlotX);
    } else if picked.Ok? && picked.value.0.generation != U64_MAX {
      var rec := Record(true, active, true, picked.value.0.generation + 1, false);
      UpdateKeeps(f, blockSize, sha, blocks, boot, rec, tick + 2);
    }
  }

  lemma {:induction false} ConfirmKeeps(f: Faults, blockSize: nat, sha: Digest, blocks: seq<Block>, boot: nat,
                                        tick: nat)
    requires Covered(f, sha, blocks, boot)
    ensures Bootable(sha, ConfirmRun(f, blockSize, sha, blocks, boot, tick).1, boot)
  {
    hide SlotAt, UpdateRun, Seen;
    var picked := SeenActive(f, blockSize, sha, blocks, boot, tick);
    if picked.Ok? && !picked.value.0.bootSuccess && picked.value.0.generation != U64_MAX {
      var rec := Record(true, picked.value.0.active, false, picked.value.0.generation + 1, true);
      UpdateKeeps(f, blockSize, sha, blocks, boot, rec, tick + 2);
    }
  }

  /** Both reads at `tick` fail and the write after them is torn. */
  function Losing(tick: nat): Faults {
    Faults(map[tick + 1 := MediaError, tick + 2 := MediaError], map[tick + 3 := (MediaError, Zeros(BLOCK_SIZE))], map[])
  }

  /** A torn first slot is no record. */
  lemma {:induction false} TornFirstSlot(sha: Digest, blocks: seq<Block>, boot: nat, rec: Record, tick: nat)
    requires boot < |blocks| && !IsValid(SlotAt(sha, blocks, boot, SlotY))
    ensures !Bootable(sha, WriteRun(Losing(tick), sha, blocks, boot, SlotX, rec, tick + 2).1, boot)
  {
    hide Encode;
    var after := WriteRun(Losing(tick), sha, blocks, boot, SlotX, rec, tick + 2).1;
    assert after == blocks[boot := Zeros(BLOCK_SIZE)];
    assert after[boot][0..8][0] == 0 && BOOT_CONFIG_MAGIC[0] == 83;
    assert SlotAt(sha, after, boot, SlotX) == Err(BadMagic);
    assert SlotAt(sha, after, boot, SlotY) == SlotAt(sha, blocks, boot, SlotY);
  }

  lemma {:induction false} UpdateLoses(sha: Digest, blocks: seq<Block>, boot: nat, rec: Record, tick: nat)
    requires Bootable(sha, blocks, boot) && !IsValid(SlotAt(sha, blocks, boot, SlotY))
    ensures !Bootable(sha, UpdateRun(Losing(tick), BLOCK_SIZE, sha, blocks, boot, rec, tick).1, boot)
  {
    hide Decode, WriteRun;
    TornFirstSlot(sha, blocks, boot, rec, tick);
  }

  /** An update keeps a valid record under every table of faults exactly when the second slot holds one. */
  lemma {:induction false} UpdateKeepsIff(sha: Digest, blocks: seq<Block>, boot: nat, rec: Record)
    requires Bootable(sha, blocks, boot)
    ensures (forall f, tick :: Bootable(sha, UpdateRun(f, BLOCK_SIZE, sha, blocks, boot, rec, tick).1, boot)) <==>
            IsValid(SlotAt(sha, blocks, boot, SlotY))
  {
    hide UpdateRun, SlotAt, Bootable, Losing;
    if IsValid(SlotAt(sha, blocks, boot, SlotY)) {
      forall f, tick ensures Bootable(sha, UpdateRun(f, BLOCK_SIZE, sha, blocks, boot, rec, tick).1, boot) {
        UpdateKeeps(f, BLOCK_SIZE, sha, blocks, boot, rec, tick);
      }
    } else {
      UpdateLoses(sha, blocks, boot, rec, 0);
    }
  }

  lemma {:induction false} StageLoses(sha: Digest, blocks: seq<Block>, boot: nat, active: Squash, tick: nat)
    requires Bootable(sha, blocks, boot) && !IsValid(SlotAt(sha, blocks, boot, SlotY))
    ensures !Bootable(sha, StageRun(Losing(tick), BLOCK_SIZE, sha, blocks, boot, active, tick).1, boot)
  {
    hide Decode, WriteRun, UpdateRun;
    TornFirstSlot(sha, blocks, boot, Record(true, active, true, 1, false), tick);
  }

  /** Staging keeps a valid record under every table of faults exactly when the second slot holds one. */
  lemma {:induction false} StageKeepsIff(sha: Digest, blocks: seq<Block>, boot: nat, active: Squash)
    requires Bootable(sha, blocks, boot)
    ensures (forall f, tick :: Bootable(sha, StageRun(f, BLOCK_SIZE, sha, blocks, boot, active, tick).1, boot)) <==>
            IsValid(SlotAt(sha, blocks, boot, SlotY))
  {
    hide StageRun, SlotAt, Bootable, Losing;
    if IsValid(SlotAt(sha, blocks, boot, SlotY)) {
      forall f, tick ensures Bootable(sha, StageRun(f, BLOCK_SIZE, sha, blocks, boot, active, tick).1, boot) {
        StageKeeps(f, BLOCK_SIZE, sha, blocks, boot, active, tick);
      }
    } else {
      StageLoses(sha, blocks, boot, active, 0);
    }
  }

  /** Nothing is left to confirm: the first slot's record is confirmed already or is at the last generation. */
  predicate Settled(r: Read) {
    r.Ok? && (r.value.bootSuccess || r.value.generation == U64_MAX)
  }

  /** Confirming reads the first slot twice; losing its record takes a failure the second time. */
  lemma {:induction false} ConfirmLoses(sha: Digest, blocks: seq<Block>, boot: nat, tick: nat)
    requires Bootable(sha, blocks, boot) && !IsValid(SlotAt(sha, blocks, boot, SlotY))
    requires !Settled(SlotAt(sha, blocks, boot, SlotX))
    ensures !Bootable(sha, ConfirmRun(Losing(tick + 2), BLOCK_SIZE, sha, blocks, boot, tick).1, boot)
  {
    hide Decode, UpdateRun;
    var r := SlotAt(sha, blocks, boot, SlotX).value;
    UpdateLoses(sha, blocks, boot, Record(true, r.active, false, (r.generation + 1) % TWO_64, true), tick + 2);
  }

  lemma {:induction false} ConfirmSettled(f: Faults, sha: Digest, blocks: seq<Block>, boot: nat, tick: nat)
    requires Bootable(sha, blocks, boot) && !IsValid(SlotAt(sha, blocks, boot, SlotY))
    requires Settled(SlotAt(sha, blocks, boot, SlotX))
    ensures ConfirmRun(f, BLOCK_SIZE, sha, blocks, boot, tick).1 == blocks
  {
    hide SlotAt, Seen, UpdateRun;
  }

  /** Confirming keeps a valid record under every table of faults exactly when the second slot holds one or there
      is nothing to confirm. */
  lemma {:induction false} ConfirmKeepsIff(sha: Digest, blocks: seq<Block>, boot: nat)
    requires Bootable(sha, blocks, boot)
    ensures (forall f, tick :: Bootable(sha, ConfirmRun(f, BLOCK_SIZE, sha, blocks, boot, tick).1, boot)) <==>
            IsValid(SlotAt(sha, blocks, boot, SlotY)) || Settled(SlotAt(sha, blocks, boot, SlotX))
  {
    hide ConfirmRun, SlotAt, Bootable, Losing;
    var x, y := SlotAt(sha, blocks, boot, SlotX), SlotAt(sha, blocks, boot, SlotY);
    if IsValid(y) || Settled(x) {
      forall f, tick ensures Bootable(sha, ConfirmRun(f, BLOCK_SIZE, sha, blocks, boot, tick).1, boot) {
        if IsValid(y) {
          ConfirmKeeps(f, BLOCK_SIZE, sha, blocks, boot, tick);
        } else {
          ConfirmSettled(f, sha, blocks, boot, tick);
        }
      }
    } else {
      ConfirmLoses(sha, blocks, boot, 0);
    }
  }

  /** An update or a staging changes the boot slots alone, and on success its record is there. */
  lemma {:induction false} WriteInPlace(f: Faults, sha: Digest, blocks: seq<Block>, boot: nat, p: Pos, rec: Record,
                                        tick: nat)
    ensures var (w, after) := WriteRun(f, sha, blocks, boot, p, rec, tick);
            && SameOutside(blocks, after, 0, 0, boot)
            && (w.Ok? ==> SlotAt(sha, after, boot, p) == Ok(rec))
  {
    hide WriteRun, SlotAt;
    WriteIsOneSlot(f, sha, blocks, boot, p, rec, tick);
  }

  lemma {:induction false} UpdateInPlace(f: Faults, blockSize: nat, sha: Digest, blocks: seq<Block>, boot: nat,
                                         rec: Record, tick: nat)
    ensures var (r, after) := UpdateRun(f, blockSize, sha, blocks, boot, rec, tick);
            && SameOutside(blocks, after, 0, 0, boot)
            && (r.Ok? ==> SlotAt(sha, after, boot, r.value) == Ok(rec))
  {
    hide WriteRun, SlotAt, Seen, Checked;
    var p := Checked(Seen(f, sha, blocks, boot, SlotX, tick + 1), Seen(f, sha, blocks, boot, SlotY, tick + 2), rec);
    if blockSize == BLOCK_SIZE && p.Ok? {
      WriteInPlace(f, sha, blocks, boot, p.value, rec, tick + 2);
      var (w, after) := WriteRun(f, sha, blocks, boot, p.value, rec, tick + 2);
      assert UpdateRun(f, blockSize, sha, blocks, boot, rec, tick).1 == after;
      assert UpdateRun(f, blockSize, sha, blocks, boot, rec, tick).0 == if w.Err? then Err(w.error) else p;
    }
  }

  lemma {:induction false} StageInPlace(f: Faults, blockSize: nat, sha: Digest, blocks: seq<Block>, boot: nat,
                                        active: Squash, tick: nat)
    ensures var (r, after) := StageRun(f, blockSize, sha, blocks, boot, active, tick);
            && SameOutside(blocks, after, 0, 0, boot)
            && (r.Ok? ==> r.value.0.active == active && r.value.0.valid && r.value.0.tentative
                          && SlotAt(sha, after, boot, r.value.1) == Ok(r.value.0))
  {
    hide WriteRun, UpdateRun, SlotAt, SeenActive;
    var picked := SeenActive(f, blockSize, sha, blocks, boot, tick);
    if picked == Err(BothSlotsInvalid) {
      var rec := Record(true, active, true, 1, false);
      WriteInPlace(f, sha, blocks, boot, SlotX, rec, tick + 2);
      var (w, after) := WriteRun(f, sha, blocks, boot, SlotX, rec, tick + 2);
      assert StageRun(f, blockSize, sha, blocks, boot, active, tick) ==
             (if w.Err? then Err(w.error) else Ok((rec, SlotX)), after);
    } else if picked.Ok? && picked.value.0.generation != U64_MAX {
      var rec := Record(true, active, true, picked.value.0.generation + 1, false);
      UpdateInPlace(f, blockSize, sha, blocks, boot, rec, tick + 2);
      var (p, after) := UpdateRun(f, blockSize, sha, blocks, boot, rec, tick + 2);
      assert StageRun(f, blockSize, sha, blocks, boot, active, tick) ==
             (if p.Err? then Err(p.error) else Ok((rec, p.value)), after);
    }
  }

  lemma {:induction false} ConfirmInPlace(f: Faults, blockSize: nat, sha: Digest, blocks: seq<Block>, boot: nat,
                                          tick: nat)
    ensures SameOutside(blocks, ConfirmRun(f, blockSize, sha, blocks, boot, tick).1, 0, 0, boot)
  {
    hide UpdateRun, SeenActive;
    var picked := SeenActive(f, blockSize, sha, blocks, boot, tick);
    if picked.Ok? && picked.value.0.generation != U64_MAX {
      var rec := Record(true, picked.value.0.active, false, picked.value.0.generation + 1, true);
      UpdateInPlace(f, blockSize, sha, blocks, boot, rec, tick + 2);
    }
  }

  /** Nothing is acknowledged before it is written and flushed. An update reads twice, writes and flushes, in that
      order, and a staging or a confirmation first reads twice. */
  lemma {:induction false} AcknowledgedIsFlushed(f: Faults, sha: Digest, blocks: seq<Block>, boot: nat, rec: Record,
                                                 active: Squash, tick: nat)
    ensures UpdateRun(f, 4096, sha, blocks, boot, rec, tick).0.Ok? ==> tick + 3 !in f.onWrite && tick + 4 !in f.onFlush
    ensures StageRun(f, 4096, sha, blocks, boot, active, tick).0.Ok? ==>
              || (tick + 3 !in f.onWrite && tick + 4 !in f.onFlush)
              || (tick + 5 !in f.onWrite && tick + 6 !in f.onFlush)
    ensures ConfirmRun(f, 4096, sha, blocks, boot, tick).0.Ok? ==>
              || ConfirmRun(f, 4096, sha, blocks, boot, tick).1 == blocks
              || (tick + 5 !in f.onWrite && tick + 6 !in f.onFlush)
  {
    hide Seen, Checked, Encode, PickActive;
  }

  /** On a device with other blocks than the format's every operation is refused and changes nothing. */
  lemma {:induction false} OtherBlocksRefused(f: Faults, blockSize: nat, sha: Digest, blocks: seq<Block>, boot: nat,
                                              rec: Record, active: Squash, p: Pos, tick: nat)
    requires blockSize != 4096
    ensures SeenActive(f, blockSize, sha, blocks, boot, tick) == Err(BootError.Block(Unaligned))
    ensures UpdateRun(f, blockSize, sha, blocks, boot, rec, tick) == (Err(BootError.Block(Unaligned)), blocks)
    ensures StageRun(f, blockSize, sha, blocks, boot, active, tick) == (Err(BootError.Block(Unaligned)), blocks)
    ensures ConfirmRun(f, blockSize, sha, blocks, boot, tick) == (Err(BootError.Block(Unaligned)), blocks)
    ensures MarkRun(f, blockSize, sha, blocks, boot, p, tick) == (Err(BootError.Block(Unaligned)), blocks)
    ensures GiveUpRun(f, blockSize, sha, blocks, boot, tick) == blocks
  {
  }

  // ----- the same with nothing failing -----

  const CALM: Faults := Faults(map[], map[], map[])

  /** Where nothing fails, an update answers as the rule for records says. */
  lemma {:induction false} CalmUpdate(sha: Digest, blocks: seq<Block>, boot: nat, rec: Record, tick: nat)
    requires boot + 1 < |blocks|
    ensures UpdateRun(CALM, BLOCK_SIZE, sha, blocks, boot, rec, tick).0 ==
            Checked(SlotAt(sha, blocks, boot, SlotX), SlotAt(sha, blocks, boot, SlotY), rec)
  {
    hide SlotAt, Encode, Checked;
  }

  /** Where nothing fails, staging answers as the rule for staging says. */
  lemma {:induction false} CalmStage(sha: Digest, blocks: seq<Block>, boot: nat, active: Squash, tick: nat)
    requires boot + 1 < |blocks|
    ensures StageRun(CALM, BLOCK_SIZE, sha, blocks, boot, active, tick).0 ==
            Staged(SlotAt(sha, blocks, boot, SlotX), SlotAt(sha, blocks, boot, SlotY), active)
  {
    hide SlotAt, Encode, Checked, UpdateRun;
    var picked := SeenActive(CALM, BLOCK_SIZE, sha, blocks, boot, tick);
    if picked.Ok? && picked.value.0.generation != U64_MAX {
      var rec := Record(true, active, true, picked.value.0.generation + 1, false);
      CalmUpdate(sha, blocks, boot, rec, tick + 2);
      assert StageRun(CALM, BLOCK_SIZE, sha, blocks, boot, active, tick).0 ==
             var p := UpdateRun(CALM, BLOCK_SIZE, sha, blocks, boot, rec, tick + 2).0;
             if p.Err? then Err(p.error) else Ok((rec, p.value));
    } else if picked == Err(BothSlotsInvalid) {
      assert WriteRun(CALM, sha, blocks, boot, SlotX, Record(true, active, true, 1, false), tick + 2).0.Ok?;
    }
  }

  /** Where nothing fails, confirming ends with the active record confirmed one generation up, or says why not. */
  lemma {:induction false} CalmConfirm(sha: Digest, blocks: seq<Block>, boot: nat, tick: nat)
    requires boot + 1 < |blocks|
    ensures var x, y := SlotAt(sha, blocks, boot, SlotX), SlotAt(sha, blocks, boot, SlotY);
            var picked := PickActive(x, y);
            var (r, after) := ConfirmRun(CALM, BLOCK_SIZE, sha, blocks, boot, tick);
            if picked.Ok? && picked.value.0.bootSuccess then r.Ok? && after == blocks
            else
              && (r.Ok? <==> Confirmed(x, y).Ok?)
              && (r.Err? ==> r.error == Confirmed(x, y).error && after == blocks)
              && (r.Ok? ==> SlotAt(sha, after, boot, Confirmed(x, y).value.1) == Ok(Confirmed(x, y).value.0))
  {
    hide SlotAt, Encode, Checked, PickActive, WriteRun;
    var picked := SeenActive(CALM, BLOCK_SIZE, sha, blocks, boot, tick);
    if picked.Ok? && picked.value.0.generation != U64_MAX {
      var rec := Record(true, picked.value.0.active, false, picked.value.0.generation + 1, true);
      CalmUpdate(sha, blocks, boot, rec, tick + 2);
      UpdateInPlace(CALM, BLOCK_SIZE, sha, blocks, boot, rec, tick + 2);
    }
  }

  /** Where nothing fails, giving up clears the valid flag of the record that is not active, and of no other. */
  lemma {:induction false} CalmGiveUp(sha: Digest, blocks: seq<Block>, boot: nat, tick: nat)
    requires boot + 1 < |blocks| && Bootable(sha, blocks, boot)
    ensures var p := PickActive(SlotAt(sha, blocks, boot, SlotX), SlotAt(sha, blocks, boot, SlotY)).value.1;
            var after := GiveUpRun(CALM, BLOCK_SIZE, sha, blocks, boot, tick);
            && SlotAt(sha, after, boot, p) == SlotAt(sha, blocks, boot, p)
            && SlotAt(sha, after, boot, p.Other()) == Invalidated(SlotAt(sha, blocks, boot, p.Other()))
  {
    hide Decode, Encode;
    var p := PickActive(SlotAt(sha, blocks, boot, SlotX), SlotAt(sha, blocks, boot, SlotY)).value.1;
    var r := SlotAt(sha, blocks, boot, p.Other());
    if r.Ok? {
      RecordRoundTrip(sha, r.value.(valid := false));
    }
  }

  // ----- the operations -----

  /** At most one write happened, the last thing the device came to hold. */
  ghost predicate OneMove(before: seq<Block>, after: seq<Block>, trail0: seq<seq<Block>>, trail: seq<seq<Block>>) {
    (trail == trail0 && after == before) || trail == trail0 + [after]
  }

  /** What at most one write among the boot slots means for every cut point. */
  lemma {:induction false} MoveInPlace(sha: Digest, before: seq<Block>, after: seq<Block>, trail0: seq<seq<Block>>,
                                       trail: seq<seq<Block>>, boot: nat)
    requires OneMove(before, after, trail0, trail) && SameOutside(before, after, 0, 0, boot)
    ensures OnlyBoot(before, trail0, trail, boot)
    ensures Bootable(sha, after, boot) ==> StaysBootable(sha, trail0, trail, boot)
  {
    hide Bootable, SameOutside;
  }

  method ReadSlot(disk: Disk, sha: Digest, boot: nat, p: Pos) returns (r: Read)
    modifies disk`clock
    ensures disk.clock == old(disk.clock) + 1
    ensures r == Seen(disk.faults, sha, disk.blocks, boot, p, disk.clock)
  {
    hide Decode;
    var b := disk.ReadBlock(boot + p.Delta());
    if b.Err? {
      return Err(BootError.Block(b.error));
    }
    return Decode(sha, b.value);
  }

  /** A slot that cannot be read counts as absent; the record picked is one that is on the device and valid. */
  method ReadActive(disk: Disk, sha: Digest, boot: nat) returns (r: Result<(Record, Pos), BootError>)
    modifies disk`clock
    ensures disk.blockSize == BLOCK_SIZE ==> disk.clock == old(disk.clock) + 2
    ensures r == SeenActive(disk.faults, disk.blockSize, sha, disk.blocks, boot, old(disk.clock))
    ensures r.Ok? ==> SlotAt(sha, disk.blocks, boot, r.value.1) == Ok(r.value.0) && r.value.0.valid
    ensures disk.ReadsWork() && disk.blockSize == BLOCK_SIZE ==>
              r == PickActive(SlotAt(sha, disk.blocks, boot, SlotX), SlotAt(sha, disk.blocks, boot, SlotY))
  {
    hide SlotAt, Seen;
    if disk.blockSize != BLOCK_SIZE {
      return Err(BootError.Block(Unaligned));
    }
    var x := ReadSlot(disk, sha, boot, SlotX);
    var y := ReadSlot(disk, sha, boot, SlotY);
    return PickActive(x, y);
  }

  /** Write one record and flush. */
  method WriteSlot(disk: Disk, sha: Digest, boot: nat, p: Pos, rec: Record) returns (r: Result<(), BootError>)
    modifies disk`clock, disk`blocks, disk`trail
    ensures (r, disk.blocks) == WriteRun(disk.faults, sha, old(disk.blocks), boot, p, rec, old(disk.clock))
    ensures disk.trail == old(disk.trail) + [disk.blocks]
  {
    hide Encode;
    var w := disk.WriteBlock(boot + p.Delta(), Encode(sha, rec));
    if w.Err? {
      return Err(BootError.Block(w.error));
    }
    var f := disk.Flush();
    if f.Err? {
      return Err(BootError.Block(f.error));
    }
    return Ok(());
  }

  /** Write the record to the slot that is not active. Whatever fails, only the boot slots change. A valid record
      remains at every moment if reads work or the second slot is valid; `UpdateKeepsIff` says that nothing less
      will do. A device that works answers as the rule for records says. */
  method UpdateAtomic(disk: Disk, sha: Digest, boot: nat, rec: Record) returns (r: Result<Pos, BootError>)
    modifies disk`clock, disk`blocks, disk`trail
    ensures (r, disk.blocks) ==
            UpdateRun(disk.faults, disk.blockSize, sha, old(disk.blocks), boot, rec, old(disk.clock))
    ensures OneMove(old(disk.blocks), disk.blocks, old(disk.trail), disk.trail)
    ensures SameOutside(old(disk.blocks), disk.blocks, 0, 0, boot)
    ensures OnlyBoot(old(disk.blocks), old(disk.trail), disk.trail, boot)
    ensures Covered(disk.faults, sha, old(disk.blocks), boot) ==>
              Bootable(sha, disk.blocks, boot) && StaysBootable(sha, old(disk.trail), disk.trail, boot)
    ensures disk.AllWorks() && disk.blockSize == BLOCK_SIZE && boot + 1 < |old(disk.blocks)| ==>
              r == Checked(SlotAt(sha, old(disk.blocks), boot, SlotX), SlotAt(sha, old(disk.blocks), boot, SlotY), rec)
    ensures r.Ok? ==> SlotAt(sha, disk.blocks, boot, r.value) == Ok(rec)
  {
    hide SlotAt, Checked, WriteRun, Seen, SameOutside, OnlyBoot, Bootable, StaysBootable;
    ghost var f, before, tick, trail0 := disk.faults, disk.blocks, disk.clock, disk.trail;
    UpdateInPlace(f, disk.blockSize, sha, before, boot, rec, tick);
    Unmoved(sha, before, trail0, boot, SlotX);
    if Covered(f, sha, before, boot) {
      UpdateKeeps(f, disk.blockSize, sha, before, boot, rec, tick);
    }
    if boot + 1 < |before| {
      CalmUpdate(sha, before, boot, rec, tick);
    }
    if disk.blockSize != BLOCK_SIZE {
      return Err(BootError.Block(Unaligned));
    }
    var x := ReadSlot(disk, sha, boot, SlotX);
    var y := ReadSlot(disk, sha, boot, SlotY);
    var checked := Checked(x, y, rec);
    if checked.Err? {
      return Err(checked.error);
    }
    var w := WriteSlot(disk, sha, boot, checked.value, rec);
    MoveInPlace(sha, before, disk.blocks, trail0, disk.trail, boot);
    if w.Err? {
      return Err(w.error);
    }
    return Ok(checked.value);
  }

  /** Clear the valid flag of one record. Only that slot changes, and a failed read changes nothing. */
  method MarkInvalid(disk: Disk, sha: Digest, boot: nat, p: Pos) returns (r: Result<(), BootError>)
    modifies disk`clock, disk`blocks, disk`trail
    ensures (r, disk.blocks) ==
            MarkRun(disk.faults, disk.blockSize, sha, old(disk.blocks), boot, p, old(disk.clock))
    ensures OneMove(old(disk.blocks), disk.blocks, old(disk.trail), disk.trail)
    ensures SameOutside(old(disk.blocks), disk.blocks, 0, 0, boot)
    ensures OnlyBoot(old(disk.blocks), old(disk.trail), disk.trail, boot)
    ensures SlotAt(sha, disk.blocks, boot, p.Other()) == SlotAt(sha, old(disk.blocks), boot, p.Other())
    ensures IsValid(SlotAt(sha, old(disk.blocks), boot, p.Other())) ==>
              Bootable(sha, disk.blocks, boot) && StaysBootable(sha, old(disk.trail), disk.trail, boot)
    ensures r.Ok? ==> SlotAt(sha, disk.blocks, boot, p) == Invalidated(SlotAt(sha, old(disk.blocks), boot, p))
    ensures disk.AllWorks() && disk.blockSize == BLOCK_SIZE && boot + 1 < |old(disk.blocks)| ==> r.Ok?
  {
    hide Decode, WriteRun, SameOutside, OnlyBoot, Bootable, StaysBootable;
    ghost var before, trail0 := disk.blocks, disk.trail;
    Unmoved(sha, before, trail0, boot, p.Other());
    if disk.blockSize != BLOCK_SIZE {
      return Err(BootError.Block(Unaligned));
    }
    var b := disk.ReadBlock(boot + p.Delta());
    if b.Err? {
      return Err(BootError.Block(b.error));
    }
    var rec := Decode(sha, b.value);
    if rec.Err? {
      return Ok(());
    }
    ghost var tick := disk.clock;
    r := WriteSlot(disk, sha, boot, p, rec.value.(valid := false));
    SlotMoved(disk.faults, sha, before, disk.blocks, trail0, boot, p, rec.value.(valid := false), tick);
  }

  lemma {:induction false} Unmoved(sha: Digest, blocks: seq<Block>, trail: seq<seq<Block>>, boot: nat, p: Pos)
    ensures SameOutside(blocks, blocks, 0, 0, boot) && OnlyBoot(blocks, trail, trail, boot)
    ensures StaysBootable(sha, trail, trail, boot)
    ensures IsValid(SlotAt(sha, blocks, boot, p)) ==> Bootable(sha, blocks, boot)
  {
    hide SlotAt;
  }

  lemma {:induction false} SlotMoved(f: Faults, sha: Digest, before: seq<Block>, after: seq<Block>,
                                     trail0: seq<seq<Block>>, boot: nat, p: Pos, rec: Record, tick: nat)
    requires after == WriteRun(f, sha, before, boot, p, rec, tick).1
    ensures SlotAt(sha, after, boot, p.Other()) == SlotAt(sha, before, boot, p.Other())
    ensures SameOutside(before, after, 0, 0, boot) && OnlyBoot(before, trail0, trail0 + [after], boot)
    ensures IsValid(SlotAt(sha, before, boot, p.Other())) ==>
              Bootable(sha, after, boot) && StaysBootable(sha, trail0, trail0 + [after], boot)
    ensures WriteRun(f, sha, before, boot, p, rec, tick).0.Ok? ==> SlotAt(sha, after, boot, p) == Ok(rec)
    ensures f == CALM && boot + 1 < |before| ==> WriteRun(f, sha, before, boot, p, rec, tick).0.Ok?
  {
    hide Decode, Encode, SameOutside, OnlyBoot, StaysBootable;
    WriteIsOneSlot(f, sha, before, boot, p, rec, tick);
    WriteInPlace(f, sha, before, boot, p, rec, tick);
    MoveInPlace(sha, before, after, trail0, trail0 + [after], boot);
  }

  /** Undo a failed post-apply check: clear the record that is not active. The record that was picked is on the
      device and valid, and stays, whatever fails. */
  method GiveUp(disk: Disk, sha: Digest, boot: nat)
    modifies disk`clock, disk`blocks, disk`trail
    ensures disk.blocks == GiveUpRun(disk.faults, disk.blockSize, sha, old(disk.blocks), boot, old(disk.clock))
    ensures OneMove(old(disk.blocks), disk.blocks, old(disk.trail), disk.trail)
    ensures SameOutside(old(disk.blocks), disk.blocks, 0, 0, boot)
    ensures OnlyBoot(old(disk.blocks), old(disk.trail), disk.trail, boot)
    ensures Bootable(sha, old(disk.blocks), boot) ==>
              Bootable(sha, disk.blocks, boot) && StaysBootable(sha, old(disk.trail), disk.trail, boot)
  {
    hide SlotAt, PickActive, Seen, MarkRun, SameOutside, OnlyBoot, Bootable, StaysBootable;
    Unmoved(sha, disk.blocks, disk.trail, boot, SlotX);
    var active := ReadActive(disk, sha, boot);
    if active.Ok? {
      var _ := MarkInvalid(disk, sha, boot, active.value.1.Other());
    }
  }

  /** Point the boot record at another squashfs slot, tentatively. `StageKeepsIff` says when a valid record is safe
      from every fault. */
  method StageNewActiveSlot(disk: Disk, sha: Digest, boot: nat, active: Squash)
    returns (r: Result<(Record, Pos), BootError>)
    modifies disk`clock, disk`blocks, disk`trail
    ensures (r, disk.blocks) ==
            StageRun(disk.faults, disk.blockSize, sha, old(disk.blocks), boot, active, old(disk.clock))
    ensures OneMove(old(disk.blocks), disk.blocks, old(disk.trail), disk.trail)
    ensures SameOutside(old(disk.blocks), disk.blocks, 0, 0, boot)
    ensures OnlyBoot(old(disk.blocks), old(disk.trail), disk.trail, boot)
    ensures Covered(disk.faults, sha, old(disk.blocks), boot) ==>
              Bootable(sha, disk.blocks, boot) && StaysBootable(sha, old(disk.trail), disk.trail, boot)
    ensures disk.AllWorks() && disk.blockSize == BLOCK_SIZE && boot + 1 < |old(disk.blocks)| ==>
              r == Staged(SlotAt(sha, old(disk.blocks), boot, SlotX), SlotAt(sha, old(disk.blocks), boot, SlotY),
                          active)
    ensures r.Ok? ==> r.value.0.active == active && r.value.0.valid && r.value.0.tentative
                      && SlotAt(sha, disk.blocks, boot, r.value.1) == Ok(r.value.0)
  {
    hide SlotAt, Staged, PickActive, Seen, WriteRun, UpdateRun, SameOutside, OnlyBoot, Bootable, StaysBootable;
    ghost var f, before, tick, trail0 := disk.faults, disk.blocks, disk.clock, disk.trail;
    StageInPlace(f, disk.blockSize, sha, before, boot, active, tick);
    Unmoved(sha, before, trail0, boot, SlotX);
    if Covered(f, sha, before, boot) {
      StageKeeps(f, disk.blockSize, sha, before, boot, active, tick);
    }
    if boot + 1 < |before| {
      CalmStage(sha, before, boot, active, tick);
    }
    var picked := ReadActive(disk, sha, boot);
    if picked.Err? {
      if picked.error != BothSlotsInvalid {
        return Err(picked.error);
      }
      var rec := Record(true, active, true, 1, false);
      var w := WriteSlot(disk, sha, boot, SlotX, rec);
      MoveInPlace(sha, before, disk.blocks, trail0, disk.trail, boot);
      if w.Err? {
        return Err(w.error);
      }
      return Ok((rec, SlotX));
    }
    var current := picked.value.0;
    if current.generation == U64_MAX {
      return Err(GenerationNotMonotonic);
    }
    var rec := Record(true, active, true, current.generation + 1, false);
    var pos := UpdateAtomic(disk, sha, boot, rec);
    if pos.Err? {
      return Err(pos.error);
    }
    return Ok((rec, pos.value));
  }

  /** The boot watchdog: a timer that resets the machine unless it is disarmed. A board without a driver cannot
      disarm it. */
  class Watchdog {
    var armed: bool
    const hasDriver: bool

    constructor (hasDriver: bool)
      ensures this.hasDriver == hasDriver && !armed
    {
      this.hasDriver, armed := hasDriver, false;
    }

    method Disarm() returns (ok: bool)
      modifies this
      ensures ok == hasDriver
      ensures armed == (old(armed) && !hasDriver)
    {
      if hasDriver {
        armed := false;
      }
      return hasDriver;
    }
  }

  datatype ConfirmError = Config(error: BootError) | WatchdogStuck

  /** Confirm the running slot: the active record is rewritten, confirmed and no longer tentative, one generation up.
      A record already confirmed is left alone. The watchdog is disarmed only once a confirmed record is on the
      device. A watchdog that cannot be disarmed is reported after a new record was written, and not undone; a record
      already confirmed always answers Ok. `ConfirmKeepsIff` says when a valid
      record is safe from every fault. */
  method BootSuccess(disk: Disk, sha: Digest, boot: nat, watchdog: Watchdog) returns (r: Result<(), ConfirmError>)
    modifies disk`clock, disk`blocks, disk`trail, watchdog
    ensures var (done, after) := ConfirmRun(disk.faults, disk.blockSize, sha, old(disk.blocks), boot, old(disk.clock));
            && disk.blocks == after
            && (done.Err? ==> r == Err(Config(done.error)) && watchdog.armed == old(watchdog.armed))
            && (done.Ok? ==> watchdog.armed == (old(watchdog.armed) && !watchdog.hasDriver))
            && (done.Ok? ==>
                  var seen := SeenActive(disk.faults, disk.blockSize, sha, old(disk.blocks), boot, old(disk.clock));
                  && seen.Ok?
                  && r == if seen.value.0.bootSuccess || watchdog.hasDriver then Ok(()) else Err(WatchdogStuck))
    ensures OneMove(old(disk.blocks), disk.blocks, old(disk.trail), disk.trail)
    ensures SameOutside(old(disk.blocks), disk.blocks, 0, 0, boot)
    ensures OnlyBoot(old(disk.blocks), old(disk.trail), disk.trail, boot)
    ensures Covered(disk.faults, sha, old(disk.blocks), boot) ==>
              Bootable(sha, disk.blocks, boot) && StaysBootable(sha, old(disk.trail), disk.trail, boot)
    ensures watchdog.armed != old(watchdog.armed) ==>
              exists p ::
                IsValid(SlotAt(sha, disk.blocks, boot, p)) && SlotAt(sha, disk.blocks, boot, p).value.bootSuccess
  {
    hide SlotAt, PickActive, Seen, UpdateRun, SameOutside, OnlyBoot, Bootable, StaysBootable, Covered;
    ghost var f, before, tick, trail0 := disk.faults, disk.blocks, disk.clock, disk.trail;
    ConfirmInPlace(f, disk.blockSize, sha, before, boot, tick);
    Unmoved(sha, before, trail0, boot, SlotX);
    if Covered(f, sha, before, boot) {
      ConfirmKeeps(f, disk.blockSize, sha, before, boot, tick);
    }
    var active := ReadActive(disk, sha, boot);
    if active.Err? {
      return Err(Config(active.error));
    }
    if active.value.0.bootSuccess {
      var _ := watchdog.Disarm();
      return Ok(());
    }
    if active.value.0.generation == U64_MAX {
      return Err(Config(GenerationOverflow));
    }
    var rec := Record(true, active.value.0.active, false, active.value.0.generation + 1, true);
    var pos := UpdateAtomic(disk, sha, boot, rec);
    if pos.Err? {
      return Err(Config(pos.error));
    }
    var ok := watchdog.Disarm();
    return if ok then Ok(()) else Err(WatchdogStuck);
  }
}

/** Runs of the update flow on a device whose reads work and whose writes may tear: stage, confirm, give up. */
module BootFlow {
  import opened Bytes
  import opened Results
  import opened BootConfig
  import opened BlockDevice

  datatype Kind = Stage(active: Squash) | Confirm | Fallback

  /** One operation, with the faults it meets and the tick it starts at. */
  datatype Event = Event(kind: Kind, faults: Faults, tick: nat)

  /** What the device holds after an operation. */
  function After(blockSize: nat, sha: Digest, blocks: seq<Block>, boot: nat, e: Event): seq<Block> {
    match e.kind
    case Stage(active) => StageRun(e.faults, blockSize, sha, blocks, boot, active, e.tick).1
    case Confirm => ConfirmRun(e.faults, blockSize, sha, blocks, boot, e.tick).1
    case Fallback => GiveUpRun(e.faults, blockSize, sha, blocks, boot, e.tick)
  }

  function Flow(blockSize: nat, sha: Digest, blocks: seq<Block>, boot: nat, es: seq<Event>): seq<Block> {
    if es == [] then blocks
    else After(blockSize, sha, Flow(blockSize, sha, blocks, boot, es[..|es| - 1]), boot, es[|es| - 1])
  }

  function X(sha: Digest, blocks: seq<Block>, boot: nat): Read {
    SlotAt(sha, blocks, boot, SlotX)
  }

  function Y(sha: Digest, blocks: seq<Block>, boot: nat): Read {
    SlotAt(sha, blocks, boot, SlotY)
  }

  ghost predicate HealthyOn(sha: Digest, blocks: seq<Block>, boot: nat) {
    Healthy(X(sha, blocks, boot), Y(sha, blocks, boot))
  }

  /** The generation of the active record. */
  function Generation(sha: Digest, blocks: seq<Block>, boot: nat): u64
    requires Bootable(sha, blocks, boot)
  {
    PickActive(X(sha, blocks, boot), Y(sha, blocks, boot)).value.0.generation
  }

  /** No torn write leaves the bytes of a cleared record of a generation above `g`. */
  ghost predicate Tame(sha: Digest, f: Faults, g: u64) {
    forall t :: t in f.onWrite ==> Harmless(Decode(sha, f.onWrite[t].1), g)
  }

  /** Reads work, and torn writes leave nothing newer than the active record that is readable and cleared. */
  ghost predicate TameFlow(blockSize: nat, sha: Digest, blocks: seq<Block>, boot: nat, es: seq<Event>) {
    es != [] ==>
      var now := Flow(blockSize, sha, blocks, boot, es[..|es| - 1]);
      var f := es[|es| - 1].faults;
      && TameFlow(blockSize, sha, blocks, boot, es[..|es| - 1])
      && f.onRead == map[]
      && (Bootable(sha, now, boot) ==> Tame(sha, f, Generation(sha, now, boot)))
  }

  // ----- one write -----

  /** What a write leaves on the device, torn or not. */
  lemma {:induction false} WriteLeaves(f: Faults, sha: Digest, blocks: seq<Block>, boot: nat, p: Pos, rec: Record,
                                       tick: nat) returns (left: Read)
    ensures var after := WriteRun(f, sha, blocks, boot, p, rec, tick).1;
            && (after == blocks || SlotAt(sha, after, boot, p) == left)
            && SlotAt(sha, after, boot, p.Other()) == SlotAt(sha, blocks, boot, p.Other())
    ensures left == Ok(rec) || exists t :: t in f.onWrite && left == Decode(sha, f.onWrite[t].1)
  {
    hide Decode, Encode;
    RecordRoundTrip(sha, rec);
    left := if tick + 1 in f.onWrite then Decode(sha, f.onWrite[tick + 1].1) else Ok(rec);
  }

  /** A write that spares a newest record keeps the device healthy unless it leaves a cleared record of a higher
      generation. */
  lemma {:induction false} WriteStaysHealthy(f: Faults, sha: Digest, blocks: seq<Block>, boot: nat, p: Pos, rec: Record,
                                             tick: nat)
    requires HealthyOn(sha, blocks, boot) && Newest(X(sha, blocks, boot), Y(sha, blocks, boot), p.Other())
    requires Harmless(Ok(rec), Generation(sha, blocks, boot)) && Tame(sha, f, Generation(sha, blocks, boot))
    ensures var after := WriteRun(f, sha, blocks, boot, p, rec, tick).1;
            HealthyOn(sha, after, boot) && Generation(sha, after, boot) >= Generation(sha, blocks, boot)
  {
    hide WriteRun, SlotAt, Healthy, PickActive, Harmless, With;
    var left := WriteLeaves(f, sha, blocks, boot, p, rec, tick);
    var after := WriteRun(f, sha, blocks, boot, p, rec, tick).1;
    if after != blocks {
      OverwriteHealthyIff(X(sha, blocks, boot), Y(sha, blocks, boot), p, left);
      WithIs(X(sha, blocks, boot), Y(sha, blocks, boot), X(sha, after, boot), Y(sha, after, boot), p, left);
    }
  }

  lemma {:induction false} WithIs(x: Read, y: Read, x': Read, y': Read, p: Pos, left: Read)
    requires At(x', y', p) == left && At(x', y', p.Other()) == At(x, y, p.Other())
    ensures With(x, y, p, left) == (x', y')
  {
  }

  // ----- one operation with working reads -----

  lemma {:induction false} SteadyStage(f: Faults, sha: Digest, blocks: seq<Block>, boot: nat, active: Squash, tick: nat)
    requires f.onRead == map[] && Bootable(sha, blocks, boot)
    ensures var w := Staged(X(sha, blocks, boot), Y(sha, blocks, boot), active);
            StageRun(f, BLOCK_SIZE, sha, blocks, boot, active, tick).1 ==
            if w.Err? then blocks else WriteRun(f, sha, blocks, boot, w.value.1, w.value.0, tick + 4).1
  {
    hide SlotAt, WriteRun, Checked;
  }

  lemma {:induction false} SteadyConfirm(f: Faults, sha: Digest, blocks: seq<Block>, boot: nat, tick: nat)
    requires f.onRead == map[] && Bootable(sha, blocks, boot)
    ensures var (x, y) := (X(sha, blocks, boot), Y(sha, blocks, boot));
            var w := Confirmed(x, y);
            ConfirmRun(f, BLOCK_SIZE, sha, blocks, boot, tick).1 ==
            if PickActive(x, y).value.0.bootSuccess || w.Err? then blocks
            else WriteRun(f, sha, blocks, boot, w.value.1, w.value.0, tick + 4).1
  {
    hide SlotAt, WriteRun, Checked;
  }

  lemma {:induction false} SteadyFallback(f: Faults, sha: Digest, blocks: seq<Block>, boot: nat, tick: nat)
    requires f.onRead == map[] && Bootable(sha, blocks, boot)
    ensures var q := PickActive(X(sha, blocks, boot), Y(sha, blocks, boot)).value.1.Other();
            var r := SlotAt(sha, blocks, boot, q);
            GiveUpRun(f, BLOCK_SIZE, sha, blocks, boot, tick) ==
            if r.Err? then blocks else WriteRun(f, sha, blocks, boot, q, r.value.(valid := false), tick + 3).1
  {
    hide Decode, WriteRun;
  }

  lemma {:induction false} OtherBlockSize(blockSize: nat, sha: Digest, blocks: seq<Block>, boot: nat, e: Event)
    requires blockSize != BLOCK_SIZE
    ensures After(blockSize, sha, blocks, boot, e) == blocks
  {
  }

  lemma {:induction false} FallbackSpares(x: Read, y: Read)
    requires Healthy(x, y)
    ensures var (r, p) := PickActive(x, y).value;
            && Newest(x, y, p)
            && (At(x, y, p.Other()).Ok? ==> Harmless(Ok(At(x, y, p.Other()).value.(valid := false)), r.generation))
  {
  }

  lemma {:induction false} StepStaysHealthy(blockSize: nat, sha: Digest, blocks: seq<Block>, boot: nat, e: Event)
    requires HealthyOn(sha, blocks, boot) && e.faults.onRead == map[]
    requires Tame(sha, e.faults, Generation(sha, blocks, boot))
    ensures var after := After(blockSize, sha, blocks, boot, e);
            HealthyOn(sha, after, boot) && Generation(sha, after, boot) >= Generation(sha, blocks, boot)
  {
    hide SlotAt, StageRun, ConfirmRun, GiveUpRun, WriteRun, Staged, Confirmed, Tame;
    var x, y := X(sha, blocks, boot), Y(sha, blocks, boot);
    if blockSize != BLOCK_SIZE {
      OtherBlockSize(blockSize, sha, blocks, boot, e);
    } else {
      match e.kind
      case Stage(active) =>
        HealthyAllows(x, y, active);
        SteadyStage(e.faults, sha, blocks, boot, active, e.tick);
        var w := Staged(x, y, active);
        if w.Ok? {
          WriteStaysHealthy(e.faults, sha, blocks, boot, w.value.1, w.value.0, e.tick + 4);
        }
      case Confirm =>
        HealthyAllows(x, y, A);
        SteadyConfirm(e.faults, sha, blocks, boot, e.tick);
        var w := Confirmed(x, y);
        if w.Ok? {
          WriteStaysHealthy(e.faults, sha, blocks, boot, w.value.1, w.value.0, e.tick + 4);
        }
      case Fallback =>
        FallbackSpares(x, y);
        SteadyFallback(e.faults, sha, blocks, boot, e.tick);
        var q := PickActive(x, y).value.1.Other();
        var r := SlotAt(sha, blocks, boot, q);
        if r.Ok? {
          WriteStaysHealthy(e.faults, sha, blocks, boot, q, r.value.(valid := false), e.tick + 3);
        }
    }
  }

  // ----- runs -----

  /** Over every run of staging, confirming and giving up on a device whose reads work, whatever torn writes leave
      short of a newer cleared record: a valid newest record is there, its generation has not fallen, and staging and
      confirming are refused only at the very last generation. */
  lemma {:induction false} FlowStaysHealthy(blockSize: nat, sha: Digest, blocks: seq<Block>, boot: nat, es: seq<Event>,
                                            active: Squash)
    requires HealthyOn(sha, blocks, boot) && TameFlow(blockSize, sha, blocks, boot, es)
    ensures var now := Flow(blockSize, sha, blocks, boot, es);
            var (x, y) := (X(sha, now, boot), Y(sha, now, boot));
            && HealthyOn(sha, now, boot) && Generation(sha, now, boot) >= Generation(sha, blocks, boot)
            && (Staged(x, y, active).Err? <==> Generation(sha, now, boot) == U64_MAX)
            && (Confirmed(x, y).Err? <==> Generation(sha, now, boot) == U64_MAX)
  {
    hide After, Staged, Confirmed, Tame, SlotAt;
    var now := Flow(blockSize, sha, blocks, boot, es);
    if es != [] {
      FlowStaysHealthy(blockSize, sha, blocks, boot, es[..|es| - 1], active);
      StepStaysHealthy(blockSize, sha, Flow(blockSize, sha, blocks, boot, es[..|es| - 1]), boot, es[|es| - 1]);
    }
    HealthyAllows(X(sha, now, boot), Y(sha, now, boot), active);
  }

  /** Take a disk through such a run. Where reads work a valid record is there at every cut point, whatever bytes a
      torn write leaves; and the disk ends as the modelled run says. */
  method RunFlow(disk: Disk, sha: Digest, boot: nat, kinds: seq<Kind>, watchdog: Watchdog)
    returns (ghost es: seq<Event>)
    modifies disk`clock, disk`blocks, disk`trail, watchdog
    ensures |es| == |kinds|
    ensures forall i :: 0 <= i < |es| ==> es[i].kind == kinds[i] && es[i].faults == disk.faults
    ensures disk.blocks == Flow(disk.blockSize, sha, old(disk.blocks), boot, es)
    ensures disk.ReadsWork() && Bootable(sha, old(disk.blocks), boot) ==>
              Bootable(sha, disk.blocks, boot) && StaysBootable(sha, old(disk.trail), disk.trail, boot)
  {
    hide Bootable, StageRun, ConfirmRun, GiveUpRun, SeenActive, SlotAt, SameOutside, OnlyBoot, OneMove;
    es := [];
    for n := 0 to |kinds|
      invariant |es| == n
      invariant forall i :: 0 <= i < n ==> es[i].kind == kinds[i] && es[i].faults == disk.faults
      invariant disk.blocks == Flow(disk.blockSize, sha, old(disk.blocks), boot, es)
      invariant disk.ReadsWork() && Bootable(sha, old(disk.blocks), boot) ==>
                  Bootable(sha, disk.blocks, boot) && StaysBootable(sha, old(disk.trail), disk.trail, boot)
    {
      ghost var e := Event(kinds[n], disk.faults, disk.clock);
      assert (es + [e])[..n] == es;
      es := es + [e];
      match kinds[n]
      case Stage(active) => var _ := StageNewActiveSlot(disk, sha, boot, active);
      case Confirm => var _ := BootSuccess(disk, sha, boot, watchdog);
      case Fallback => GiveUp(disk, sha, boot);
    }
  }
}

/** Staging a delta update on the inactive squashfs slot, and mounting with fallback. */
module SlotUpdate {
  import opened Bytes
  import opened Results
  import opened BootConfig
  import opened BlockDevice
  import DF = DeltaFormat
  import Delta

  const ML_DSA_65_PK_LEN: nat := 1952
  const ML_DSA_65_SIG_LEN: nat := 3309

  /** Whatever `Squashfs::mount` complains about. */
  datatype SquashError = SquashError(code: nat)

  /** Signature check, hash and squashfs verification: functions of their inputs, otherwise left open. */
  datatype Env = Env(
    sha: Digest,
    verify: (seq<byte>, seq<byte>, seq<byte>) -> bool,
    mount: (seq<Block>, seq<byte>) -> Option<SquashError>)

  datatype UpdateError =
    | Patch(error: DF.DeltaError)
    | SignatureInvalid
    | BadSignatureLength
    | ReferenceHashMismatch
    | PostApplyVerificationFailed(squash: SquashError)
    | BootConfigError(boot: BootError)
    | BlockFailed(block: BlockError)
    | InactivePartitionTooSmall
    | InactiveLenUnaligned

  datatype UpdateEvent =
    | DeltaSignatureInvalid
    | DeltaReferenceMismatch
    | PostApplyFailed
    | UpdateStaged(newSlot: Squash, generation: u64)

  // ----- mounting -----

  /** A partition as its first and last block. */
  datatype Partition = Partition(first: nat, last: nat) {
    function Size(): nat {
      (if last < first then 0 else last - first) + 1
    }
  }

  datatype Layout = Layout(squashA: Partition, squashB: Partition) {
    function Of(s: Squash): Partition {
      if s.A? then squashA else squashB
    }
  }

  datatype SlotStatus = Mounted | Failed(error: SquashError) | NotAttempted

  /** Verification of `n` blocks from `lba`. */
  function MountAt(env: Env, blocks: seq<Block>, lba: nat, n: nat, pk: seq<byte>): Option<SquashError> {
    if lba + n > |blocks| then Some(SquashError(0)) else env.mount(blocks[lba..lba + n], pk)
  }

  function TryMount(env: Env, blocks: seq<Block>, l: Layout, s: Squash, pk: seq<byte>): Option<SquashError> {
    MountAt(env, blocks, l.Of(s).first, l.Of(s).Size(), pk)
  }

  function Status(e: Option<SquashError>): SlotStatus {
    if e.None? then Mounted else Failed(e.value)
  }

  /** Status of slot A, status of slot B, and the slot that serves. */
  function MountWithFallback(env: Env, blocks: seq<Block>, l: Layout, preferred: Squash, pk: seq<byte>)
    : (SlotStatus, SlotStatus, Option<Squash>)
  {
    var first := TryMount(env, blocks, l, preferred, pk);
    if first.None? then
      if preferred.A? then (Mounted, NotAttempted, Some(A)) else (NotAttempted, Mounted, Some(B))
    else
      var second := TryMount(env, blocks, l, preferred.Flip(), pk);
      var active := if second.None? then Some(preferred.Flip()) else None;
      if preferred.A? then (Status(first), Status(second), active) else (Status(second), Status(first), active)
  }

  /** A slot is verified from its partition's first block through its last, at least one, as far as the device
      reaches. */
  lemma {:induction false} MountReads(env: Env, blocks: seq<Block>, l: Layout, s: Squash, pk: seq<byte>)
    ensures var p := if s == A then l.squashA else l.squashB;
            var end := if p.first <= p.last then p.last + 1 else p.first + 1;
            && (end <= |blocks| ==> TryMount(env, blocks, l, s, pk) == env.mount(blocks[p.first..end], pk))
            && (end > |blocks| ==> TryMount(env, blocks, l, s, pk).Some?)
  {
  }

  /** What is told of a slot: nothing if it was not tried, and otherwise whether it verified or why not. */
  ghost predicate Told(env: Env, blocks: seq<Block>, l: Layout, s: Squash, pk: seq<byte>, tried: bool,
                       told: SlotStatus) {
    var r := TryMount(env, blocks, l, s, pk);
    if !tried then told == NotAttempted else if r.None? then told == Mounted else told == Failed(r.value)
  }

  /** A slot serves exactly when one verifies; it is one that verifies, and the preferred one if that does. The other
      slot is tried exactly when the preferred one fails. */
  lemma {:induction false} FallbackServes(env: Env, blocks: seq<Block>, l: Layout, preferred: Squash, pk: seq<byte>)
    ensures var served := MountWithFallback(env, blocks, l, preferred, pk).2;
            && (served.Some? <==> exists s :: TryMount(env, blocks, l, s, pk).None?)
            && (served.Some? ==> TryMount(env, blocks, l, served.value, pk).None?)
            && (TryMount(env, blocks, l, preferred, pk).None? ==> served == Some(preferred))
    ensures var (a, b, served) := MountWithFallback(env, blocks, l, preferred, pk);
            var failed := TryMount(env, blocks, l, preferred, pk).Some?;
            Told(env, blocks, l, A, pk, preferred == A || failed, a)
              && Told(env, blocks, l, B, pk, preferred == B || failed, b)
  {
    forall s | TryMount(env, blocks, l, s, pk).None? ensures s == preferred || s == preferred.Flip() {
    }
  }

  /** The update may write the inactive slot and the boot records; the active slot is apart from both. */
  ghost predicate Apart(p: Partition, lo: nat, hi: nat, boot: nat) {
    && (p.first + p.Size() <= lo || hi <= p.first)
    && (p.first + p.Size() <= boot || boot + 2 <= p.first)
  }

  /** Wherever the update is cut, a slot that verified before and lies apart from what is written still
      verifies, so the boot finds a slot whichever it prefers. */
  lemma {:induction false} CutStillBoots(env: Env, before: seq<Block>, cut: seq<Block>, l: Layout, active: Squash,
                                         lo: nat, hi: nat, boot: nat, pk: seq<byte>, preferred: Squash)
    requires SameOutside(before, cut, lo, hi, boot) && Apart(l.Of(active), lo, hi, boot)
    requires TryMount(env, before, l, active, pk).None?
    ensures TryMount(env, cut, l, active, pk).None?
    ensures MountWithFallback(env, cut, l, preferred, pk).2.Some?
  {
    var p := l.Of(active);
    if p.first + p.Size() <= |before| {
      assert cut[p.first..p.first + p.Size()] == before[p.first..p.first + p.Size()];
    }
    FallbackServes(env, cut, l, preferred, pk);
  }

  /** Every verified slot apart from what is written keeps the mount going at every new point of a history,
      whichever slot is preferred. */
  ghost predicate AlwaysServes(env: Env, before: seq<Block>, trail0: seq<seq<Block>>, trail: seq<seq<Block>>, lo: nat,
                               hi: nat, boot: nat)
  {
    forall k, l: Layout, active, preferred, pk ::
      && |trail0| <= k < |trail|
      && Apart(l.Of(active), lo, hi, boot)
      && TryMount(env, before, l, active, pk).None?
      ==> MountWithFallback(env, trail[k], l, preferred, pk).2.Some?
  }

  // ----- whole partitions as bytes -----

  function Flatten(bs: seq<Block>): (s: seq<byte>)
    ensures |s| == |bs| * BLOCK_SIZE
  {
    if bs == [] then [] else Flatten(bs[..|bs| - 1]) + bs[|bs| - 1]
  }

  /** A blob cut into blocks, the end filled with zeros. */
  function Pad(blob: seq<byte>, len: nat): (s: seq<byte>)
    requires |blob| <= len
    ensures |s| == len
  {
    blob + Zeros(len - |blob|)
  }

  /** `n` blocks from `lba`, as far as the device reaches. */
  function Contents(blocks: seq<Block>, lba: nat, n: nat): (s: seq<Block>)
    ensures |s| <= n
  {
    if lba + n <= |blocks| then blocks[lba..lba + n] else []
  }

  method ReadPartition(disk: Disk, lba: nat, n: nat) returns (r: Result<seq<byte>, BlockError>)
    modifies disk`clock
    ensures r.Ok? ==> r.value == Flatten(Contents(disk.blocks, lba, n)) && (n > 0 ==> lba + n <= |disk.blocks|)
    ensures disk.ReadsWork() && lba + n <= |disk.blocks| ==> r.Ok?
  {
    var s: seq<byte> := [];
    for i := 0 to n
      invariant i > 0 ==> lba + i <= |disk.blocks|
      invariant s == Flatten(Contents(disk.blocks, lba, i))
    {
      var b := disk.ReadBlock(lba + i);
      if b.Err? {
        return Err(b.error);
      }
      ghost var read := Contents(disk.blocks, lba, i + 1);
      assert read[..i] == Contents(disk.blocks, lba, i) && read[i] == b.value;
      s := s + b.value;
    }
    return Ok(s);
  }

  /** The `i`-th block of a block-aligned byte string. */
  function Cut(s: seq<byte>, i: nat): Block
    requires (i + 1) * BLOCK_SIZE <= |s|
  {
    s[i * BLOCK_SIZE..(i + 1) * BLOCK_SIZE]
  }

  /** A block-aligned byte string as blocks. */
  function Blocks(s: seq<byte>, n: nat): (bs: seq<Block>)
    requires n * BLOCK_SIZE <= |s|
    ensures |bs| == n
  {
    seq(n, i requires 0 <= i < n => (CutInside(i, n); Cut(s, i)))
  }

  lemma {:induction false} CutInside(i: nat, n: nat)
    requires i < n
    ensures (i + 1) * BLOCK_SIZE <= n * BLOCK_SIZE
  {
  }

  /** A byte string as blocks; a partial block at the end is not part of it. */
  function AsBlocks(s: seq<byte>): (bs: seq<Block>)
    ensures |bs| == |s| / BLOCK_SIZE
  {
    BlocksFit(|s|);
    Blocks(s, |s| / BLOCK_SIZE)
  }

  lemma {:induction false} BlocksFit(len: nat)
    ensures len / BLOCK_SIZE * BLOCK_SIZE <= len
  {
  }

  ghost predicate History(before: seq<Block>, trail0: seq<seq<Block>>, trail: seq<seq<Block>>, lo: nat, hi: nat,
                          boot: nat) {
    trail0 <= trail && forall k :: |trail0| <= k < |trail| ==> SameOutside(before, trail[k], lo, hi, boot)
  }

  lemma {:induction false} HistoryServes(env: Env, before: seq<Block>, trail0: seq<seq<Block>>, trail: seq<seq<Block>>,
                                         lo: nat, hi: nat, boot: nat)
    requires History(before, trail0, trail, lo, hi, boot)
    ensures AlwaysServes(env, before, trail0, trail, lo, hi, boot)
  {
    hide SameOutside, Apart, TryMount, MountWithFallback;
    forall k, l: Layout, active, preferred, pk |
      && |trail0| <= k < |trail|
      && Apart(l.Of(active), lo, hi, boot)
      && TryMount(env, before, l, active, pk).None?
      ensures MountWithFallback(env, trail[k], l, preferred, pk).2.Some?
    {
      CutStillBoots(env, before, trail[k], l, active, lo, hi, boot, pk, preferred);
    }
  }

  /** Only blocks from `lo` up to `hi` differ. */
  ghost predicate SameExcept(a: seq<Block>, b: seq<Block>, lo: nat, hi: nat) {
    |a| == |b| && forall i :: 0 <= i < |a| && !(lo <= i < hi) ==> a[i] == b[i]
  }

  ghost predicate OnlyPartition(before: seq<Block>, trail0: seq<seq<Block>>, trail: seq<seq<Block>>, lo: nat, hi: nat) {
    trail0 <= trail && forall k :: |trail0| <= k < |trail| ==> SameExcept(before, trail[k], lo, hi)
  }

  /** Write a staged image block by block. */
  method WritePartition(disk: Disk, lba: nat, staged: seq<byte>, n: nat)
    returns (r: Result<(), BlockError>)
    requires n * BLOCK_SIZE <= |staged|
    modifies disk`clock, disk`blocks, disk`trail
    ensures SameExcept(old(disk.blocks), disk.blocks, lba, lba + n)
    ensures OnlyPartition(old(disk.blocks), old(disk.trail), disk.trail, lba, lba + n)
    ensures r.Ok? && n > 0 ==> lba + n <= |disk.blocks| && disk.blocks[lba..lba + n] == Blocks(staged, n)
    ensures disk.AllWorks() && lba + n <= |disk.blocks| ==> r.Ok?
  {
    for i := 0 to n
      invariant i > 0 ==> lba + i <= |disk.blocks|
      invariant SameExcept(old(disk.blocks), disk.blocks, lba, lba + n)
      invariant OnlyPartition(old(disk.blocks), old(disk.trail), disk.trail, lba, lba + n)
      invariant forall j :: lba <= j < lba + i ==> disk.blocks[j] == Blocks(staged, n)[j - lba]
    {
      CutInside(i, n);
      var w := disk.WriteBlock(lba + i, Cut(staged, i));
      if w.Err? {
        return Err(w.error);
      }
    }
    r := disk.Flush();
  }

  // ----- the update -----

  /** Signature first, then the hash of the reference. */
  function VerifyPatch(env: Env, reference: Slice, patch: Slice, sig: seq<byte>, pk: seq<byte>)
    : (r: Result<DF.PatchHeader, UpdateError>)
    ensures r.Err? ==>
      r.error.Patch? || r.error.SignatureInvalid? || r.error.BadSignatureLength? || r.error.ReferenceHashMismatch?
  {
    if |pk| != ML_DSA_65_PK_LEN then Err(SignatureInvalid)
    else if |sig| != ML_DSA_65_SIG_LEN then Err(BadSignatureLength)
    else
      var h := DF.ParseHeader(patch);
      if h.Err? then Err(Patch(h.error))
      else if !env.verify(pk, patch, sig) then Err(SignatureInvalid)
      else if Hash32(env.sha, reference) != h.value.referenceHash then Err(ReferenceHashMismatch)
      else Ok(h.value)
  }

  /** Keys and signature have their lengths, the signature is good for the patch, and the patch names the hash of this
      reference. */
  ghost predicate Authentic(env: Env, reference: seq<byte>, patch: Slice, sig: seq<byte>, pk: seq<byte>) {
    && |pk| == 1952 && |sig| == 3309 && env.verify(pk, patch, sig)
    && DF.ParseHeader(patch).Ok? && Hash32(env.sha, reference) == DF.ParseHeader(patch).value.referenceHash
  }

  /** A patch passes exactly when it is authentic, and which refusal comes first. */
  lemma {:induction false} VerifiesIff(env: Env, reference: Slice, patch: Slice, sig: seq<byte>, pk: seq<byte>)
    ensures var (r, h) := (VerifyPatch(env, reference, patch, sig, pk), DF.ParseHeader(patch));
            && (r.Ok? <==> Authentic(env, reference, patch, sig, pk))
            && (r.Ok? ==> r == Ok(h.value))
            && (r == Err(BadSignatureLength) <==> |pk| == 1952 && |sig| != 3309)
            && (r.Err? && r.error.Patch? <==> |pk| == 1952 && |sig| == 3309 && h.Err?)
            && (r.Err? && r.error.Patch? ==> r.error.error == h.error)
            && (r == Err(SignatureInvalid) <==>
                  |pk| != 1952 || (|sig| == 3309 && h.Ok? && !env.verify(pk, patch, sig)))
  {
  }

  /** The image that may be staged: signature and reference hash check out, the patch applies, it fits. */
  function Image(env: Env, reference: seq<byte>, patch: Slice, sig: seq<byte>, pk: seq<byte>, len: nat)
    : Option<seq<byte>>
  {
    if |reference| >= TWO_63 then None
    else
      var out := Delta.Apply(reference, patch);
      if VerifyPatch(env, reference, patch, sig, pk).Ok? && out.Ok? && |out.value| <= len then Some(Pad(out.value, len))
      else None
  }

  /** An image may be staged exactly when the patch is authentic, applies, and its result fits; it is that result,
      followed by zeros. */
  lemma {:induction false} ImageIff(env: Env, reference: Slice, patch: Slice, sig: seq<byte>, pk: seq<byte>, len: nat)
    ensures var (image, out) := (Image(env, reference, patch, sig, pk, len), Delta.Apply(reference, patch));
            && (image.Some? <==> Authentic(env, reference, patch, sig, pk) && out.Ok? && |out.value| <= len)
            && (image.Some? ==>
                  && |image.value| == len && image.value[..|out.value|] == out.value
                  && forall i :: |out.value| <= i < len ==> image.value[i] == 0)
  {
    hide Delta.Apply, VerifyPatch, Authentic;
    VerifiesIff(env, reference, patch, sig, pk);
  }

  /** The partition is written first, then a boot slot: nothing else ever changes. */
  lemma {:induction false} HistoryExtends(before: seq<Block>, mid: seq<Block>, after: seq<Block>,
                                          t0: seq<seq<Block>>, t1: seq<seq<Block>>,
                                          t2: seq<seq<Block>>, lo: nat, hi: nat, boot: nat)
    requires SameExcept(before, mid, lo, hi) && OnlyPartition(before, t0, t1, lo, hi)
    requires SameOutside(mid, after, 0, 0, boot) && OnlyBoot(mid, t1, t2, boot)
    ensures SameOutside(before, after, lo, hi, boot) && History(before, t0, t2, lo, hi, boot)
  {
    forall k | |t0| <= k < |t2| ensures SameOutside(before, t2[k], lo, hi, boot) {
      if k < |t1| {
        assert t2[k] == t1[k];
        assert SameExcept(before, t1[k], lo, hi);
      } else {
        assert SameOutside(mid, t2[k], 0, 0, boot);
      }
    }
  }

  /** The boot slots lie outside the partition being written. */
  predicate BootApart(lo: nat, hi: nat, boot: nat) {
    boot + 2 <= lo || hi <= boot
  }

  lemma {:induction false} SameSlots(sha: Digest, a: seq<Block>, b: seq<Block>, lo: nat, hi: nat, boot: nat)
    requires SameExcept(a, b, lo, hi) && BootApart(lo, hi, boot) && Bootable(sha, a, boot)
    ensures Bootable(sha, b, boot)
  {
    hide Decode;
    assert SlotAt(sha, b, boot, SlotX) == SlotAt(sha, a, boot, SlotX);
    assert SlotAt(sha, b, boot, SlotY) == SlotAt(sha, a, boot, SlotY);
  }

  lemma {:induction false} SlotsKept(sha: Digest, a: seq<Block>, b: seq<Block>, lo: nat, hi: nat, boot: nat, p: Pos)
    requires SameExcept(a, b, lo, hi) && BootApart(lo, hi, boot)
    ensures |a| == |b| && SlotAt(sha, b, boot, p) == SlotAt(sha, a, boot, p)
  {
    hide Decode;
  }

  /** Writing a partition apart from the boot slots leaves the boot records alone. */
  lemma {:induction false} BootUntouched(sha: Digest, before: seq<Block>, mid: seq<Block>, t0: seq<seq<Block>>,
                                         t1: seq<seq<Block>>, lo: nat, hi: nat, boot: nat)
    requires SameExcept(before, mid, lo, hi) && OnlyPartition(before, t0, t1, lo, hi)
    requires BootApart(lo, hi, boot) && Bootable(sha, before, boot)
    ensures Bootable(sha, mid, boot) && StaysBootable(sha, t0, t1, boot)
  {
    hide Bootable;
    SameSlots(sha, before, mid, lo, hi, boot);
    forall k | |t0| <= k < |t1| ensures Bootable(sha, t1[k], boot) {
      assert SameExcept(before, t1[k], lo, hi);
      SameSlots(sha, before, t1[k], lo, hi, boot);
    }
  }

  lemma {:induction false} StaysThrough(sha: Digest, t0: seq<seq<Block>>, t1: seq<seq<Block>>, t2: seq<seq<Block>>,
                                        boot: nat)
    requires StaysBootable(sha, t0, t1, boot) && StaysBootable(sha, t1, t2, boot)
    ensures StaysBootable(sha, t0, t2, boot)
  {
    forall k | |t0| <= k < |t2| ensures Bootable(sha, t2[k], boot) {
      if k < |t1| {
        assert t2[k] == t1[k];
      }
    }
  }

  /** The whole history of an update that keeps to its places: nothing else changes, a verified slot elsewhere goes
      on serving, and a valid boot record is never lost if reads work or the second slot holds one. */
  ghost predicate Contained(env: Env, before: seq<Block>, after: seq<Block>, t0: seq<seq<Block>>, t2: seq<seq<Block>>,
                            lo: nat, hi: nat, boot: nat, f: Faults)
  {
    && SameOutside(before, after, lo, hi, boot)
    && History(before, t0, t2, lo, hi, boot)
    && AlwaysServes(env, before, t0, t2, lo, hi, boot)
    && (BootApart(lo, hi, boot) && Covered(f, env.sha, before, boot) ==>
          Bootable(env.sha, after, boot) && StaysBootable(env.sha, t0, t2, boot))
  }

  lemma {:induction false} ContainedPartly(env: Env, before: seq<Block>, mid: seq<Block>, t0: seq<seq<Block>>,
                                           t1: seq<seq<Block>>, lo: nat, hi: nat, boot: nat, f: Faults)
    requires SameExcept(before, mid, lo, hi) && OnlyPartition(before, t0, t1, lo, hi)
    ensures Contained(env, before, mid, t0, t1, lo, hi, boot, f)
  {
    Unmoved(env.sha, mid, t1, boot, SlotX);
    HistoryExtends(before, mid, mid, t0, t1, t1, lo, hi, boot);
    HistoryServes(env, before, t0, t1, lo, hi, boot);
    hide Bootable, AlwaysServes, History, OnlyBoot;
    if BootApart(lo, hi, boot) && Bootable(env.sha, before, boot) {
      BootUntouched(env.sha, before, mid, t0, t1, lo, hi, boot);
    }
  }

  lemma {:induction false} ContainedWhole(env: Env, before: seq<Block>, mid: seq<Block>, after: seq<Block>,
                                          t0: seq<seq<Block>>, t1: seq<seq<Block>>, t2: seq<seq<Block>>, lo: nat,
                                          hi: nat, boot: nat, f: Faults)
    requires SameExcept(before, mid, lo, hi) && OnlyPartition(before, t0, t1, lo, hi)
    requires SameOutside(mid, after, 0, 0, boot) && OnlyBoot(mid, t1, t2, boot)
    requires Covered(f, env.sha, mid, boot) ==>
               Bootable(env.sha, after, boot) && StaysBootable(env.sha, t1, t2, boot)
    ensures Contained(env, before, after, t0, t2, lo, hi, boot, f)
  {
    hide Bootable, AlwaysServes;
    HistoryExtends(before, mid, after, t0, t1, t2, lo, hi, boot);
    HistoryServes(env, before, t0, t2, lo, hi, boot);
    if BootApart(lo, hi, boot) && Covered(f, env.sha, before, boot) {
      BootUntouched(env.sha, before, mid, t0, t1, lo, hi, boot);
      SlotsKept(env.sha, before, mid, lo, hi, boot, SlotY);
      StaysThrough(env.sha, t0, t1, t2, boot);
    }
  }

  /** Nothing stands in the way of staging an image: the device works, the places are on it and apart, the image
      verifies and the boot records allow another generation. */
  ghost predicate CanStage(env: Env, disk: Disk, blocks: seq<Block>, boot: nat, lba: nat, staged: seq<byte>,
                           newSlot: Squash, pk: seq<byte>)
  {
    && disk.AllWorks() && disk.blockSize == BLOCK_SIZE && |staged| >= BLOCK_SIZE
    && lba + |staged| / BLOCK_SIZE <= |blocks| && boot + 1 < |blocks|
    && BootApart(lba, lba + |staged| / BLOCK_SIZE, boot)
    && env.mount(AsBlocks(staged), pk).None?
    && Staged(SlotAt(env.sha, blocks, boot, SlotX), SlotAt(env.sha, blocks, boot, SlotY), newSlot).Ok?
  }

  /** Turn the active slot and a signed patch into a bootable inactive slot. Whatever fails, and at every cut
      point, only the inactive slot and the boot slots differ from the start, an active slot that verified and lies
      apart from them goes on serving whichever slot is preferred, and a valid boot record remains if reads work or
      the second record slot holds one. Nothing is written before the signature, the reference hash and the patch
      have checked out. The update is announced as staged exactly when it succeeds, and then the staged image
      verified; each refusal has its own event. If nothing stands in the way it succeeds. */
  method ApplyDeltaToPartition(env: Env, disk: Disk, boot: nat, activeLba: nat, activeLen: nat, inactiveLba: nat,
                               inactiveLen: nat, newSlot: Squash, patch: Slice, sig: seq<byte>, pk: seq<byte>)
    returns (r: Result<Pos, UpdateError>, events: seq<UpdateEvent>)
    requires activeLen < TWO_63 && inactiveLen < TWO_63
    modifies disk`clock, disk`blocks, disk`trail
    ensures Contained(env, old(disk.blocks), disk.blocks, old(disk.trail), disk.trail, inactiveLba,
                      inactiveLba + inactiveLen / BLOCK_SIZE, boot, disk.faults)
    ensures r.Ok? <==> exists e :: e in events && e.UpdateStaged?
    ensures var reference := Flatten(Contents(old(disk.blocks), activeLba, activeLen / BLOCK_SIZE));
            var image := Image(env, reference, patch, sig, pk, inactiveLen);
            && (r.Ok? || disk.trail != old(disk.trail) ==> image.Some? && Authentic(env, reference, patch, sig, pk))
            && (r.Ok? && inactiveLen > 0 ==> env.mount(AsBlocks(image.value), pk).None?)
            && (r.Ok? && inactiveLen > 0 && BootApart(inactiveLba, inactiveLba + inactiveLen / BLOCK_SIZE, boot) ==>
                  && inactiveLba + inactiveLen / BLOCK_SIZE <= |disk.blocks|
                  && Flatten(disk.blocks[inactiveLba..inactiveLba + inactiveLen / BLOCK_SIZE]) == image.value)
            && ((&& image.Some? && CanStage(env, disk, old(disk.blocks), boot, inactiveLba, image.value, newSlot, pk)
                 && activeLen % BLOCK_SIZE == 0 && inactiveLen % BLOCK_SIZE == 0
                 && activeLba + activeLen / BLOCK_SIZE <= |old(disk.blocks)|) ==> r.Ok?)
    ensures r == Err(SignatureInvalid) <==> events == [DeltaSignatureInvalid]
    ensures r == Err(ReferenceHashMismatch) <==> events == [DeltaReferenceMismatch]
    ensures r.Err? && r.error.PostApplyVerificationFailed? <==> events == [PostApplyFailed]
    ensures r.Ok? ==> SlotAt(env.sha, disk.blocks, boot, r.value).Ok?
                      && SlotAt(env.sha, disk.blocks, boot, r.value).value.active == newSlot
                      && events == [UpdateStaged(newSlot, SlotAt(env.sha, disk.blocks, boot, r.value).value.generation)]
  {
    hide Contained, SameExcept, OnlyPartition, OnlyBoot, SameOutside, Bootable, StaysBootable, VerifyPatch, Flatten,
      Authentic, SlotAt, AsBlocks, Delta.Apply, Pad;
    events := [];
    var n := inactiveLen / BLOCK_SIZE;
    Untouched(env, disk.blocks, disk.trail, inactiveLba, inactiveLba + n, boot, disk.faults);
    if disk.blockSize != BLOCK_SIZE {
      return Err(BlockFailed(Unaligned)), events;
    }
    if inactiveLen % BLOCK_SIZE != 0 || activeLen % BLOCK_SIZE != 0 {
      return Err(InactiveLenUnaligned), events;
    }
    var read := ReadPartition(disk, activeLba, activeLen / BLOCK_SIZE);
    if read.Err? {
      return Err(BlockFailed(read.error)), events;
    }
    var reference := read.value;
    ReferenceFits(Contents(disk.blocks, activeLba, activeLen / BLOCK_SIZE), activeLen);
    var verified := VerifyPatch(env, reference, patch, sig, pk);
    VerifiesIff(env, reference, patch, sig, pk);
    if verified.Err? {
      var e := verified.error;
      if e == SignatureInvalid || e == BadSignatureLength {
        return Err(SignatureInvalid), [DeltaSignatureInvalid];
      }
      if e == ReferenceHashMismatch {
        return Err(ReferenceHashMismatch), [DeltaReferenceMismatch];
      }
      return Err(e), events;
    }
    var blob := Delta.ApplyDelta(reference, patch);
    if blob.Err? {
      return Err(Patch(blob.error)), events;
    }
    if |blob.value| > inactiveLen {
      return Err(InactivePartitionTooSmall), events;
    }
    BlocksFlatten(Pad(blob.value, inactiveLen));
    r, events := Stage(env, disk, boot, inactiveLba, Pad(blob.value, inactiveLen), newSlot, pk);
  }

  lemma {:induction false} ReferenceFits(bs: seq<Block>, len: nat)
    requires |bs| <= len / BLOCK_SIZE
    ensures |Flatten(bs)| <= len
  {
    BlocksFit(len);
  }

  lemma {:induction false} Untouched(env: Env, blocks: seq<Block>, trail: seq<seq<Block>>, lo: nat, hi: nat,
                                     boot: nat, f: Faults)
    ensures Contained(env, blocks, blocks, trail, trail, lo, hi, boot, f)
  {
    ContainedPartly(env, blocks, blocks, trail, trail, lo, hi, boot, f);
  }

  lemma {:induction false} PartitionKept(a: seq<Block>, b: seq<Block>, lba: nat, n: nat, boot: nat)
    requires SameOutside(a, b, 0, 0, boot) && BootApart(lba, lba + n, boot) && lba + n <= |a|
    ensures |b| == |a| && b[lba..lba + n] == a[lba..lba + n]
  {
  }

  lemma {:induction false} CutsJoin(s: seq<byte>, n: nat)
    requires n * BLOCK_SIZE <= |s|
    ensures Flatten(Blocks(s, n)) == s[..n * BLOCK_SIZE]
  {
    if n > 0 {
      CutInside(n - 1, n);
      CutsJoin(s, n - 1);
      assert Blocks(s, n)[..n - 1] == Blocks(s, n - 1);
      assert s[..n * BLOCK_SIZE] == s[..(n - 1) * BLOCK_SIZE] + s[(n - 1) * BLOCK_SIZE..n * BLOCK_SIZE];
    }
  }

  /** A byte string of whole blocks comes back from its blocks. */
  lemma {:induction false} BlocksFlatten(s: seq<byte>)
    requires |s| % BLOCK_SIZE == 0
    ensures Flatten(AsBlocks(s)) == s
  {
    BlocksFit(|s|);
    CutsJoin(s, |s| / BLOCK_SIZE);
  }

  /** Write the image, verify it in place, and hand over by a new boot record. */
  method Stage(env: Env, disk: Disk, boot: nat, lba: nat, staged: seq<byte>, newSlot: Squash, pk: seq<byte>)
    returns (r: Result<Pos, UpdateError>, events: seq<UpdateEvent>)
    requires disk.blockSize == BLOCK_SIZE
    modifies disk`clock, disk`blocks, disk`trail
    ensures Contained(env, old(disk.blocks), disk.blocks, old(disk.trail), disk.trail, lba,
                      lba + |staged| / BLOCK_SIZE, boot, disk.faults)
    ensures r.Ok? <==> exists e :: e in events && e.UpdateStaged?
    ensures r.Ok? && |staged| >= BLOCK_SIZE ==> env.mount(AsBlocks(staged), pk).None?
    ensures r.Ok? && |staged| >= BLOCK_SIZE && BootApart(lba, lba + |staged| / BLOCK_SIZE, boot) ==>
              && lba + |staged| / BLOCK_SIZE <= |disk.blocks|
              && disk.blocks[lba..lba + |staged| / BLOCK_SIZE] == AsBlocks(staged)
    ensures CanStage(env, disk, old(disk.blocks), boot, lba, staged, newSlot, pk) ==> r.Ok?
    ensures r == Err(SignatureInvalid) <==> events == [DeltaSignatureInvalid]
    ensures r == Err(ReferenceHashMismatch) <==> events == [DeltaReferenceMismatch]
    ensures r.Err? && r.error.PostApplyVerificationFailed? <==> events == [PostApplyFailed]
    ensures r.Ok? ==> SlotAt(env.sha, disk.blocks, boot, r.value).Ok?
                      && SlotAt(env.sha, disk.blocks, boot, r.value).value.active == newSlot
                      && events == [UpdateStaged(newSlot, SlotAt(env.sha, disk.blocks, boot, r.value).value.generation)]
  {
    hide Contained, SameExcept, OnlyPartition, OnlyBoot, SameOutside, Bootable, StaysBootable, Blocks, SlotAt;
    events := [];
    var n := |staged| / BLOCK_SIZE;
    BlocksFit(|staged|);
    var written := WritePartition(disk, lba, staged, n);
    ghost var mid, t1 := disk.blocks, disk.trail;
    ContainedPartly(env, old(disk.blocks), mid, old(disk.trail), t1, lba, lba + n, boot, disk.faults);
    if written.Err? {
      return Err(BlockFailed(written.error)), events;
    }
    var mounted := MountAt(env, disk.blocks, lba, n, pk);
    if mounted.Some? {
      GiveUp(disk, env.sha, boot);
      ContainedWhole(env, old(disk.blocks), mid, disk.blocks, old(disk.trail), t1, disk.trail, lba, lba + n, boot,
        disk.faults);
      return Err(PostApplyVerificationFailed(mounted.value)), [PostApplyFailed];
    }
    if CanStage(env, disk, old(disk.blocks), boot, lba, staged, newSlot, pk) {
      SlotsKept(env.sha, old(disk.blocks), mid, lba, lba + n, boot, SlotX);
      SlotsKept(env.sha, old(disk.blocks), mid, lba, lba + n, boot, SlotY);
    }
    var record := StageNewActiveSlot(disk, env.sha, boot, newSlot);
    ContainedWhole(env, old(disk.blocks), mid, disk.blocks, old(disk.trail), t1, disk.trail, lba, lba + n, boot,
      disk.faults);
    if BootApart(lba, lba + n, boot) && lba + n <= |mid| {
      PartitionKept(mid, disk.blocks, lba, n, boot);
    }
    if record.Err? {
      return Err(if record.error.Block? then BlockFailed(record.error.block) else BootConfigError(record.error)),
        events;
    }
    events := [UpdateStaged(record.value.0.active, record.value.0.generation)];
    assert events[0].UpdateStaged?;
    return Ok(record.value.1), events;
  }
}

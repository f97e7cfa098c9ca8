/** The A/B boot record: its 4 KiB encoding, which of two records is active, and where updates go. */
module BootConfig {
  import opened Bytes
  import opened Results

  const BLOCK_SIZE: nat := 4096

  /** `b"SmAIOSBC"` */
  const BOOT_CONFIG_MAGIC: seq<byte> := [83, 109, 65, 73, 79, 83, 66, 67]

  const BOOT_CONFIG_VERSION: byte := 1
  const RECORD_BODY_LEN: nat := BLOCK_SIZE - 32

  /** Which of the two record slots of the boot-config partition. */
  datatype Pos = SlotX | SlotY {
    function Delta(): nat {
      if SlotX? then 0 else 1
    }

    function Other(): Pos {
      if SlotX? then SlotY else SlotX
    }
  }

  /** Which squashfs slot to boot from. */
  datatype Squash = A | B {
    function Flip(): Squash {
      if A? then B else A
    }
  }

  datatype Record = Record(valid: bool, active: Squash, tentative: bool, generation: u64, bootSuccess: bool)

  datatype BlockError = MediaError | NotPresent | Timeout | BadCrc | Unaligned | OutOfRange | DeviceBusy

  datatype BootError =
    | BothSlotsInvalid
    | BadMagic
    | UnsupportedVersion(version: byte)
    | BadRecordHash
    | BadActiveSlot
    | BadBufferLen
    | GenerationNotMonotonic
    | GenerationOverflow
    | Block(block: BlockError)

  /** The hash function, left open. */
  type Digest = seq<byte> -> seq<byte>

  /** A digest as the 32-byte array it is stored in. */
  function Hash32(sha: Digest, s: seq<byte>): (h: seq<byte>)
    ensures |h| == 32 && (|sha(s)| == 32 ==> h == sha(s))
  {
    (sha(s) + Zeros(32))[..32]
  }

  function Flag(b: bool): byte {
    if b then 1 else 0
  }

  function Zeros(n: nat): (z: seq<byte>)
    ensures |z| == n
  {
    seq(n, _ => 0)
  }

  function Body(r: Record): (b: seq<byte>)
    ensures |b| == RECORD_BODY_LEN
  {
    (BOOT_CONFIG_MAGIC + [BOOT_CONFIG_VERSION, Flag(r.valid), if r.active.A? then 0 else 1, Flag(r.tentative)])
    + (WriteU64(r.generation) + [Flag(r.bootSuccess)] + Zeros(RECORD_BODY_LEN - 21))
  }

  function Encode(sha: Digest, r: Record): (b: seq<byte>)
    ensures |b| == BLOCK_SIZE
  {
    Body(r) + Hash32(sha, Body(r))
  }

  function Decode(sha: Digest, b: seq<byte>): Result<Record, BootError> {
    if |b| != BLOCK_SIZE then Err(BadBufferLen)
    else if b[0..8] != BOOT_CONFIG_MAGIC then Err(BadMagic)
    else if b[8] != BOOT_CONFIG_VERSION then Err(UnsupportedVersion(b[8]))
    else if Hash32(sha, b[..RECORD_BODY_LEN]) != b[RECORD_BODY_LEN..] then Err(BadRecordHash)
    else if b[10] > 1 then Err(BadActiveSlot)
    else Ok(Record(b[9] != 0, if b[10] == 0 then A else B, b[11] != 0, ReadU64(b[12..20]), b[20] != 0))
  }

  lemma {:induction false} BodyFields(r: Record)
    ensures var b := Body(r);
            && b[0..8] == BOOT_CONFIG_MAGIC && b[8] == BOOT_CONFIG_VERSION
            && b[9] == Flag(r.valid) && b[10] == (if r.active.A? then 0 else 1) && b[11] == Flag(r.tentative)
            && b[12..20] == WriteU64(r.generation) && b[20] == Flag(r.bootSuccess)
  {
    hide WriteU64, Zeros;
    var b := Body(r);
    assert b[12..20] == WriteU64(r.generation);
  }

  /** A written record reads back as itself, whatever the digest. */
  lemma {:induction false} RecordRoundTrip(sha: Digest, r: Record)
    ensures Decode(sha, Encode(sha, r)) == Ok(r)
  {
    hide Body, WriteU64, ReadU64, Hash32;
    BodyFields(r);
    var e, b := Encode(sha, r), Body(r);
    assert e[..RECORD_BODY_LEN] == b && e[RECORD_BODY_LEN..] == Hash32(sha, b);
    assert e[0..8] == b[0..8] && e[12..20] == b[12..20];
    assert e[8] == b[8] && e[9] == b[9] && e[10] == b[10] && e[11] == b[11] && e[20] == b[20];
  }

  /** A block is taken for a record exactly when it has the length, starts with the magic letters and version 1, names
      a squashfs slot, and ends in the digest of the rest; and which complaint comes first. */
  lemma {:induction false} DecodesIff(sha: Digest, b: seq<byte>)
    ensures var r := Decode(sha, b);
            && (|b| != 4096 <==> r == Err(BadBufferLen))
            && (|b| == 4096 ==>
                  var magic := b[..8] == [0x53, 0x6D, 0x41, 0x49, 0x4F, 0x53, 0x42, 0x43];
                  var sound := b[4064..] == Hash32(sha, b[..4064]);
                  && (r == Err(BadMagic) <==> !magic)
                  && (r == Err(UnsupportedVersion(b[8])) <==> magic && b[8] != 1)
                  && (r == Err(BadRecordHash) <==> magic && b[8] == 1 && !sound)
                  && (r == Err(BadActiveSlot) <==> magic && b[8] == 1 && sound && b[10] > 1)
                  && (r.Ok? <==> magic && b[8] == 1 && sound && b[10] <= 1))
  {
    assert |b| == 4096 ==> b[..8] == b[0..8];
  }

  /** The bytes of a written record: the magic letters, version 1, the flags as 0 or 1, the squashfs slot, the
      generation, zeros, and the digest of all of it. */
  lemma {:induction false} EncodedBytes(sha: Digest, r: Record)
    ensures var b := Encode(sha, r);
            && b[..8] == [0x53, 0x6D, 0x41, 0x49, 0x4F, 0x53, 0x42, 0x43] && b[8] == 1
            && b[9] == (if r.valid then 1 else 0) && b[10] == (if r.active == A then 0 else 1)
            && b[11] == (if r.tentative then 1 else 0) && b[12..20] == WriteU64(r.generation)
            && b[20] == (if r.bootSuccess then 1 else 0)
            && (forall i :: 21 <= i < 4064 ==> b[i] == 0)
            && b[4064..] == Hash32(sha, b[..4064])
  {
    hide Hash32, WriteU64;
    BodyFields(r);
    var b := Encode(sha, r);
    assert b[..4064] == Body(r) && b[4064..] == Hash32(sha, Body(r));
    assert b[..8] == Body(r)[0..8] && b[12..20] == Body(r)[12..20];
    assert forall i :: 21 <= i < 4064 ==> b[i] == Body(r)[i];
  }

  /** The fields of a record that was read are the bytes at their places. */
  lemma {:induction false} DecodedFields(sha: Digest, b: seq<byte>)
    requires Decode(sha, b).Ok?
    ensures var r := Decode(sha, b).value;
            && |b| == 4096
            && (r.valid <==> b[9] != 0) && (r.active == A <==> b[10] == 0) && (r.tentative <==> b[11] != 0)
            && WriteU64(r.generation) == b[12..20]
            && (r.bootSuccess <==> b[20] != 0)
  {
    RereadU64(b[12..20]);
    hide ReadU64, WriteU64;
  }

  // ----- two records -----

  /** What reading a slot gave: a record, or an error that counts as no record. */
  type Read = Result<Record, BootError>

  predicate IsValid(r: Read) {
    r.Ok? && r.value.valid
  }

  function PickActive(x: Read, y: Read): Result<(Record, Pos), BootError> {
    match (IsValid(x), IsValid(y))
    case (false, false) => Err(BothSlotsInvalid)
    case (true, false) => Ok((x.value, SlotX))
    case (false, true) => Ok((y.value, SlotY))
    case (true, true) => if x.value.generation >= y.value.generation then Ok((x.value, SlotX)) else Ok((y.value, SlotY))
  }

  function MaxGeneration(x: Read, y: Read): Option<u64> {
    match (x, y)
    case (Ok(a), Ok(b)) => Some(if a.generation >= b.generation then a.generation else b.generation)
    case (Ok(a), Err(_)) => Some(a.generation)
    case (Err(_), Ok(b)) => Some(b.generation)
    case (Err(_), Err(_)) => None
  }

  /** The slot an update overwrites. */
  function Target(x: Read, y: Read): Pos {
    match (IsValid(x), IsValid(y))
    case (true, true) => if x.value.generation <= y.value.generation then SlotX else SlotY
    case (true, false) => SlotY
    case (false, _) => SlotX
  }

  function At(x: Read, y: Read, p: Pos): Read {
    if p.SlotX? then x else y
  }

  /** The active record is a valid one of highest generation, and there is one unless neither is valid. */
  lemma {:induction false} ActiveIsNewestValid(x: Read, y: Read)
    ensures PickActive(x, y).Ok? <==> IsValid(x) || IsValid(y)
    ensures PickActive(x, y).Ok? ==>
              var (r, p) := PickActive(x, y).value;
              && At(x, y, p) == Ok(r) && r.valid
              && forall q :: IsValid(At(x, y, q)) ==> At(x, y, q).value.generation <= r.generation
  {
  }

  /** An update overwrites the active record exactly when both records are valid with equal generations;
      even then the other record stays valid. */
  lemma {:induction false} TargetMissesActive(x: Read, y: Read)
    requires PickActive(x, y).Ok?
    ensures var p := PickActive(x, y).value.1;
            && (Target(x, y) == p <==> IsValid(x) && IsValid(y) && x.value.generation == y.value.generation)
            && IsValid(At(x, y, Target(x, y).Other()))
  {
  }

  /** The record an update would write, when the generation rule lets it. */
  function Checked(x: Read, y: Read, r: Record): Result<Pos, BootError> {
    var top := MaxGeneration(x, y);
    if top.Some? && r.generation <= top.value then Err(GenerationNotMonotonic) else Ok(Target(x, y))
  }

  /** The record to stage for a new squashfs slot, and where it goes. */
  function Staged(x: Read, y: Read, active: Squash): Result<(Record, Pos), BootError> {
    var picked := PickActive(x, y);
    if picked.Err? then Ok((Record(true, active, true, 1, false), SlotX))
    else if picked.value.0.generation == U64_MAX then Err(GenerationNotMonotonic)
    else
      var r := Record(true, active, true, picked.value.0.generation + 1, false);
      var pos := Checked(x, y, r);
      if pos.Err? then Err(pos.error) else Ok((r, pos.value))
  }

  /** Staging over a valid record is refused exactly when its generation is the last one, or some readable
      record, valid or not, carries a higher generation. */
  lemma {:induction false} StagingRefusedIff(x: Read, y: Read, active: Squash)
    requires PickActive(x, y).Ok?
    ensures var g := PickActive(x, y).value.0.generation;
            && (Staged(x, y, active).Err? <==>
                  g == U64_MAX || (x.Ok? && x.value.generation > g) || (y.Ok? && y.value.generation > g))
            && (Staged(x, y, active).Err? ==> Staged(x, y, active) == Err(GenerationNotMonotonic))
  {
  }

  /** What a slot holds and what a read of it gave: a failed read counts as no record. */
  predicate SeenAs(truth: Read, seen: Read) {
    seen == truth || seen.Err?
  }

  /** Where an update or a staging puts its record, the slot it spares is valid except in one case: the only valid
      record sits in the first slot and reading it failed. Staging has that case too, on its path for a device
      without records, which asks for no generation. */
  lemma {:induction false} MisreadLosesIff(x: Read, y: Read, seenX: Read, seenY: Read, rec: Record, active: Squash)
    requires SeenAs(x, seenX) && SeenAs(y, seenY)
    requires IsValid(x) || IsValid(y)
    ensures var lost := IsValid(x) && !IsValid(y) && seenX.Err?;
            var (checked, staged) := (Checked(seenX, seenY, rec), Staged(seenX, seenY, active));
            && (checked.Ok? && !IsValid(At(x, y, checked.value.Other())) <==> checked.Ok? && lost)
            && (staged.Ok? && !IsValid(At(x, y, staged.value.1.Other())) <==> lost)
  {
  }

  /** Clearing the valid flag of one record. */
  function Invalidated(r: Read): Read {
    if r.Ok? then Ok(r.value.(valid := false)) else r
  }

  function With(x: Read, y: Read, p: Pos, r: Read): (Read, Read) {
    if p.SlotX? then (r, y) else (x, r)
  }

  /** After a rollback clears the valid flag of the active record, and an older valid record takes over, no
      update can be staged any more: the cleared record keeps its higher generation. */
  lemma {:induction false} RollbackBlocksStaging(x: Read, y: Read, active: Squash)
    requires IsValid(x) && IsValid(y) && x.value.generation != y.value.generation
    ensures var p := PickActive(x, y).value.1;
            var (x', y') := With(x, y, p, Invalidated(At(x, y, p)));
            && PickActive(x', y').Ok? && PickActive(x', y').value.1 == p.Other()
            && Staged(x', y', active) == Err(GenerationNotMonotonic)
  {
  }

  // ----- confirming -----

  /** The record that confirms the running slot, and where it goes. */
  function Confirmed(x: Read, y: Read): Result<(Record, Pos), BootError> {
    var picked := PickActive(x, y);
    if picked.Err? then Err(picked.error)
    else if picked.value.0.generation == U64_MAX then Err(GenerationOverflow)
    else
      var r := Record(true, picked.value.0.active, false, picked.value.0.generation + 1, true);
      var pos := Checked(x, y, r);
      if pos.Err? then Err(pos.error) else Ok((r, pos.value))
  }

  /** Confirming a valid record is refused exactly when its generation is the last one, or some readable record,
      valid or not, carries a higher generation. */
  lemma {:induction false} ConfirmRefusedIff(x: Read, y: Read)
    requires PickActive(x, y).Ok?
    ensures var g := PickActive(x, y).value.0.generation;
            && (Confirmed(x, y).Err? <==>
                  g == U64_MAX || (x.Ok? && x.value.generation > g) || (y.Ok? && y.value.generation > g))
            && (Confirmed(x, y).Err? ==>
                  Confirmed(x, y).error == if g == U64_MAX then GenerationOverflow else GenerationNotMonotonic)
  {
  }

  /** After a rollback clears the valid flag of the active record, the boot from the older valid record that takes
      over cannot be confirmed. */
  lemma {:induction false} RollbackBlocksConfirming(x: Read, y: Read)
    requires IsValid(x) && IsValid(y) && x.value.generation != y.value.generation
    ensures var p := PickActive(x, y).value.1;
            var (x', y') := With(x, y, p, Invalidated(At(x, y, p)));
            && PickActive(x', y').Ok? && PickActive(x', y').value.1 == p.Other()
            && Confirmed(x', y') == Err(GenerationNotMonotonic)
  {
  }

  /** The active record exists and no readable record has a higher generation. */
  ghost predicate Healthy(x: Read, y: Read) {
    && PickActive(x, y).Ok?
    && (x.Ok? ==> x.value.generation <= PickActive(x, y).value.0.generation)
    && (y.Ok? ==> y.value.generation <= PickActive(x, y).value.0.generation)
  }

  /** On healthy records staging and confirming are refused only at the very last generation, and spare a valid
      record of the active generation. */
  lemma {:induction false} HealthyAllows(x: Read, y: Read, active: Squash)
    requires Healthy(x, y)
    ensures var g := PickActive(x, y).value.0.generation;
            var (s, c) := (Staged(x, y, active), Confirmed(x, y));
            && (s.Err? <==> g == U64_MAX) && (c.Err? <==> g == U64_MAX)
            && (s.Ok? ==> s.value.0.valid && Newest(x, y, s.value.1.Other()))
            && (c.Ok? ==> c.value.0.valid && Newest(x, y, c.value.1.Other()))
  {
  }

  /** The slot holds a valid record of the active generation. */
  predicate Newest(x: Read, y: Read, p: Pos)
    requires PickActive(x, y).Ok?
  {
    IsValid(At(x, y, p)) && At(x, y, p).value.generation == PickActive(x, y).value.0.generation
  }

  /** Not a readable, cleared record of a generation above `g`. */
  predicate Harmless(r: Read, g: u64) {
    r.Ok? && !r.value.valid ==> r.value.generation <= g
  }

  /** Overwriting one of two healthy records and sparing a newest one keeps them healthy exactly when what is left
      in its place is not a cleared record of a higher generation. The active generation never falls. */
  lemma {:induction false} OverwriteHealthyIff(x: Read, y: Read, p: Pos, left: Read)
    requires Healthy(x, y) && Newest(x, y, p.Other())
    ensures var (x', y') := With(x, y, p, left);
            var g := PickActive(x, y).value.0.generation;
            && (Healthy(x', y') <==> Harmless(left, g))
            && PickActive(x', y').Ok? && PickActive(x', y').value.0.generation >= g
  {
  }
}

/** The two-slot checkpoint commit, cut at any step and followed by a remount. */
module Checkpoint {
  import opened Arithmetic
  import opened Results

  datatype Pack = Pack(version: nat, crcOk: bool, journalOk: bool, size: nat)

  /** Both slots and the one in use. */
  datatype Volume = Volume(packs: seq<Pack>, slot: nat)

  const FRESH: Volume := Volume([Pack(1, true, true, 0), Pack(0, false, false, 0)], 0)

  /** The valid pack with the highest version; the first slot wins a tie. */
  function Select(packs: seq<Pack>): (r: Option<nat>)
    requires |packs| == 2
    ensures r.Some? ==> r.value < 2
  {
    if packs[0].crcOk && !(packs[1].crcOk && packs[1].version > packs[0].version) then Some(0)
    else if packs[1].crcOk then Some(1)
    else None
  }

  /** The pack at `i` is valid, none valid has a higher version, and no earlier one has the same. */
  predicate Best(packs: seq<Pack>, i: nat) {
    && i < |packs| && packs[i].crcOk
    && (forall j :: 0 <= j < |packs| && packs[j].crcOk ==> packs[j].version <= packs[i].version)
    && (forall j :: 0 <= j < i && packs[j].crcOk ==> packs[j].version < packs[i].version)
  }

  /** A pack is selected exactly when one is valid, and it is the best. */
  lemma {:induction false} SelectsBest(packs: seq<Pack>)
    requires |packs| == 2
    ensures Select(packs).None? <==> forall j :: 0 <= j < |packs| ==> !packs[j].crcOk
    ensures forall i: nat :: Select(packs) == Some(i) <==> Best(packs, i)
  {
    forall i: nat ensures Select(packs) == Some(i) <==> Best(packs, i) {
      assert i == 1 ==> packs[0].crcOk ==> Best(packs, i) ==> packs[0].version < packs[1].version;
    }
  }

  method SelectCheckpoint(packs: array<Pack>) returns (best: Option<nat>)
    requires packs.Length == 2
    ensures best == Select(packs[..])
    ensures best.Some? ==> Best(packs[..], best.value)
    ensures best.None? ==> forall j :: 0 <= j < 2 ==> !packs[j].crcOk
  {
    best := None;
    for s := 0 to 2
      invariant s == 0 ==> best == None
      invariant s == 1 ==> best == if packs[0].crcOk then Some(0) else None
      invariant s == 2 ==> best == Select(packs[..])
    {
      if packs[s].crcOk {
        if best.None? || packs[s].version > packs[best.value].version {
          best := Some(s);
        }
      }
    }
    SelectsBest(packs[..]);
  }

  /** How far a commit gets: cut after invalidating (0), after the header (1), after the journal (2), after the flush
      (3); anything more completes it. */
  function Written(stale: Pack, mounted: Pack, size: nat, crash: nat): Pack {
    if crash == 0 then stale.(crcOk := false, journalOk := false)
    else Pack((mounted.version + 1) % TWO_32, true, crash >= 2, size)
  }

  function Commit(v: Volume, size: nat, crash: nat): Volume
    requires |v.packs| == 2 && v.slot < 2
  {
    var alt := 1 - v.slot;
    Volume(v.packs[alt := Written(v.packs[alt], v.packs[v.slot], size, crash)], if crash >= 4 then alt else v.slot)
  }

  method CommitWithCrash(packs: array<Pack>, slot: nat, size: nat, crash: nat) returns (slot': nat)
    requires packs.Length == 2 && slot < 2
    modifies packs
    ensures Volume(packs[..], slot') == Commit(Volume(old(packs[..]), slot), size, crash)
  {
    var alt := 1 - slot;
    packs[alt] := packs[alt].(crcOk := false, journalOk := false);
    if crash == 0 {
      return slot;
    }
    packs[alt] := packs[alt].(version := (packs[slot].version + 1) % TWO_32, crcOk := true, size := size);
    if crash == 1 {
      return slot;
    }
    packs[alt] := packs[alt].(journalOk := true);
    if crash == 2 {
      return slot;
    }
    if crash == 3 {
      return slot;
    }
    return alt;
  }

  /** What a commit cut at some step leaves, before any remount: the pack in use as it was, the other one invalid until
      its header is written and without a whole journal until that is, and the slot switched only at the very end. */
  lemma {:induction false} CutLeaves(v: Volume, size: nat, crash: nat)
    requires |v.packs| == 2 && v.slot < 2
    ensures var v' := Commit(v, size, crash);
      var other := v'.packs[1 - v.slot];
      && |v'.packs| == 2 && v'.packs[v.slot] == v.packs[v.slot]
      && (other.crcOk <==> crash >= 1) && (other.journalOk <==> crash >= 2)
      && (crash >= 1 ==> other.size == size && other.version == (v.packs[v.slot].version + 1) % 0x1_0000_0000)
      && (v'.slot != v.slot <==> crash >= 4) && v'.slot < 2
  {
  }

  // ----- runs -----

  /** A commit attempt; an attempt cut short is followed by a remount. */
  datatype Attempt = Attempt(size: nat, crash: nat)

  predicate Acknowledged(a: Attempt) {
    a.crash >= 4
  }

  function Remount(v: Volume): Volume
    requires |v.packs| == 2
  {
    match Select(v.packs)
    case None => v
    case Some(s) => v.(slot := s)
  }

  /** The mounted pack is valid and the other one is older. */
  predicate Sound(v: Volume) {
    && |v.packs| == 2 && v.slot < 2
    && v.packs[v.slot].crcOk
    && v.packs[1 - v.slot].version < v.packs[v.slot].version <= U32_MAX
  }

  function Mounted(v: Volume): Pack
    requires Sound(v)
  {
    v.packs[v.slot]
  }

  /** A remount of a sound volume finds the pack that is mounted. */
  lemma {:induction false} SelectsMounted(v: Volume)
    requires Sound(v)
    ensures Select(v.packs) == Some(v.slot) && Remount(v) == v
  {
  }

  /** One attempt and the remount after it, while the version counter has room. */
  lemma {:induction false} AttemptKeepsSound(v: Volume, a: Attempt)
    requires Sound(v) && Mounted(v).version < U32_MAX
    ensures var v' := Remount(Commit(v, a.size, a.crash));
      && Sound(v') && Mounted(v').version <= Mounted(v).version + 1
      && Mounted(v') == (if a.crash == 0 then Mounted(v) else Pack(Mounted(v).version + 1, true, a.crash >= 2, a.size))
      && (Acknowledged(a) ==> Commit(v, a.size, a.crash) == v')
  {
  }

  /** A completed commit is the one a remount finds exactly while the 32-bit version counter has not run out. */
  lemma {:induction false} CommitHoldsIff(v: Volume, size: nat)
    requires Sound(v)
    ensures var v' := Commit(v, size, 4);
      Select(v'.packs) == Some(v'.slot) <==> Mounted(v).version < U32_MAX
  {
  }

  function Run(v: Volume, ts: seq<Attempt>): Volume
    requires Sound(v) && Mounted(v).version + |ts| <= U32_MAX
    ensures Sound(Run(v, ts)) && Mounted(Run(v, ts)).version <= Mounted(v).version + |ts|
    decreases |ts|
  {
    if ts == [] then v
    else
      AttemptKeepsSound(v, ts[0]);
      Run(Remount(Commit(v, ts[0].size, ts[0].crash)), ts[1..])
  }

  /** The last attempt that got as far as its header. */
  function Persisted(p: Pack, ts: seq<Attempt>): (r: Attempt)
    ensures r.crash >= 1
  {
    if ts == [] then Attempt(p.size, if p.journalOk then 2 else 1)
    else if ts[|ts| - 1].crash >= 1 then ts[|ts| - 1]
    else Persisted(p, ts[..|ts| - 1])
  }

  lemma {:induction false} PersistedFirst(p: Pack, a: Attempt, ts: seq<Attempt>)
    ensures var q := if a.crash == 0 then p else Pack(p.version + 1, true, a.crash >= 2, a.size);
      var r, r' := Persisted(p, [a] + ts), Persisted(q, ts);
      r.size == r'.size && (r.crash >= 2 <==> r'.crash >= 2)
    decreases |ts|
  {
    var all := [a] + ts;
    if ts == [] {
      assert all == [a] && all[..0] == [];
    } else {
      assert all[..|all| - 1] == [a] + ts[..|ts| - 1];
      PersistedFirst(p, a, ts[..|ts| - 1]);
    }
  }

  /** After any run the mounted pack is that of the last attempt that wrote its header, acknowledged or not; its
      journal is whole exactly when that attempt also got past the journal. */
  lemma {:induction false} MountedIsPersisted(v: Volume, ts: seq<Attempt>)
    requires Sound(v) && Mounted(v).version + |ts| <= U32_MAX
    ensures var p, a := Mounted(Run(v, ts)), Persisted(Mounted(v), ts);
      p.size == a.size && (p.journalOk <==> a.crash >= 2)
    decreases |ts|
  {
    if ts != [] {
      var a := ts[0];
      AttemptKeepsSound(v, a);
      var v' := Remount(Commit(v, a.size, a.crash));
      MountedIsPersisted(v', ts[1..]);
      assert [a] + ts[1..] == ts;
      PersistedFirst(Mounted(v), a, ts[1..]);
    }
  }

  lemma {:induction false} PersistedAfter(p: Pack, before: seq<Attempt>, a: Attempt, after: seq<Attempt>)
    requires a.crash >= 1
    ensures var r := Persisted(p, before + [a] + after); r == a || r in after
    decreases |after|
  {
    var all := before + [a] + after;
    if after == [] {
      assert all == before + [a];
    } else {
      assert all[..|all| - 1] == before + [a] + after[..|after| - 1];
      PersistedAfter(p, before, a, after[..|after| - 1]);
    }
  }

  /** After an acknowledged commit on a sound volume, whatever is attempted and cut short later, a mount shows the
      committed size or the size of something attempted after it; never anything older. */
  lemma {:induction false} AcknowledgedIsDurable(v0: Volume, before: seq<Attempt>, a: Attempt, after: seq<Attempt>)
    requires Sound(v0) && a.crash >= 4 && Mounted(v0).version + |before| + 1 + |after| <= U32_MAX
    ensures var v := Run(v0, before + [a] + after);
      && Select(v.packs) == Some(v.slot)
      && v.packs[1 - v.slot].version < Mounted(v).version
      && (Mounted(v).size == a.size || exists b :: b in after && Mounted(v).size == b.size)
  {
    var ts := before + [a] + after;
    MountedIsPersisted(v0, ts);
    PersistedAfter(Mounted(v0), before, a, after);
    SelectsMounted(Run(v0, ts));
  }

  /** A fresh volume is sound and empty. */
  lemma {:induction false} FreshIsSound()
    ensures Sound(FRESH) && Mounted(FRESH).size == 0 && Select(FRESH.packs) == Some(0)
  {
  }

  /** A commit cut between header and journal is mounted although its journal is missing. */
  lemma {:induction false} JournalIsNotChecked(v: Volume, size: nat)
    requires Sound(v) && Mounted(v).version < U32_MAX
    ensures var v' := Remount(Commit(v, size, 1)); Sound(v') && Mounted(v').size == size && !Mounted(v').journalOk
  {
    AttemptKeepsSound(v, Attempt(size, 1));
  }
}

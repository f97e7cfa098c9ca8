/** Building a patch from any legal segmentation, and getting the target back from it. */
module DeltaRoundTrip {
  import opened Bytes
  import opened Results
  import opened DeltaFormat
  import opened Delta

  /** `es` cuts a target of `len` bytes into pieces, with the reference cursor in range throughout. */
  predicate Segments(n: nat, es: seq<Ctrl>, old_: int, len: int) {
    if es == [] then len == 0
    else
      && es[0].diff >= 0 && es[0].extra >= 0 && es[0].diff + es[0].extra <= len
      && 0 <= old_ && old_ + es[0].diff <= n
      && 0 <= old_ + es[0].diff + es[0].seek <= n
      && Segments(n, es[1..], old_ + es[0].diff + es[0].seek, len - es[0].diff - es[0].extra)
  }

  /** The diff stream: target minus reference, modulo 256. */
  function DiffStream(reference: seq<byte>, es: seq<Ctrl>, old_: int, target: seq<byte>): (s: seq<byte>)
    requires Segments(|reference|, es, old_, |target|)
    ensures |s| <= |target|
    decreases |es|
  {
    if es == [] then []
    else
      var d, e := es[0].diff, es[0].extra;
      SubBytes(target[..d], reference[old_..old_ + d])
      + DiffStream(reference, es[1..], old_ + d + es[0].seek, target[d + e..])
  }

  /** The extra stream: target bytes taken as they are. */
  function ExtraStream(reference: seq<byte>, es: seq<Ctrl>, old_: int, target: seq<byte>): (s: seq<byte>)
    requires Segments(|reference|, es, old_, |target|)
    ensures |s| + |DiffStream(reference, es, old_, target)| == |target|
    decreases |es|
  {
    if es == [] then []
    else
      var d, e := es[0].diff, es[0].extra;
      target[d..d + e] + ExtraStream(reference, es[1..], old_ + d + es[0].seek, target[d + e..])
  }

  lemma {:induction false} AddUndoesSubBytes(t: seq<byte>, r: seq<byte>)
    requires |t| == |r|
    ensures AddBytes(r, SubBytes(t, r)) == t
  {
    forall i | 0 <= i < |t| ensures AddBytes(r, SubBytes(t, r))[i] == t[i] {
      AddUndoesSub(t[i], r[i]);
    }
  }

  lemma {:induction false} Halves(a: seq<byte>, b: seq<byte>)
    ensures (a + b)[..|a|] == a && (a + b)[|a|..] == b
  {
  }

  lemma {:induction false} Thirds(t: seq<byte>, d: nat, e: nat)
    requires d + e <= |t|
    ensures t[..d] + t[d..d + e] + t[d + e..] == t
  {
  }

  /** The streams of a segmentation are legal and rebuild the target. */
  lemma {:induction false} StreamsRebuild(reference: seq<byte>, es: seq<Ctrl>, old_: int, target: seq<byte>,
                                          diff: seq<byte>, extra: seq<byte>)
    requires Segments(|reference|, es, old_, |target|)
    requires diff == DiffStream(reference, es, old_, target) && extra == ExtraStream(reference, es, old_, target)
    ensures Legal(|reference|, es, old_, |diff|, |extra|)
    ensures Rebuild(reference, es, old_, diff, extra) == target
    decreases |es|
  {
    if es != [] {
      hide AddBytes, SubBytes;
      var d: int, e: int := es[0].diff, es[0].extra;
      var next, rest := old_ + d + es[0].seek, target[d + e..];
      var ds, xs := DiffStream(reference, es[1..], next, rest), ExtraStream(reference, es[1..], next, rest);
      StreamsRebuild(reference, es[1..], next, rest, ds, xs);
      Halves(SubBytes(target[..d], reference[old_..old_ + d]), ds);
      Halves(target[d..d + e], xs);
      AddUndoesSubBytes(target[..d], reference[old_..old_ + d]);
      RebuildUnfold(reference, es, old_, diff, extra);
      Thirds(target, d, e);
    }
  }

  function MakeHeader(hash: seq<byte>, newSize: u64, ctrlLen: u64, diffLen: u64, extraLen: u64): (p: seq<byte>)
    requires |hash| == 32
    ensures |p| == PATCH_HEADER_LEN
  {
    (PATCH_MAGIC + hash) + ((WriteU64(newSize) + WriteU64(ctrlLen)) + (WriteU64(diffLen) + WriteU64(extraLen)))
  }

  lemma {:induction false} HeaderFields(hash: seq<byte>, newSize: u64, ctrlLen: u64, diffLen: u64, extraLen: u64)
    requires |hash| == 32
    ensures var p := MakeHeader(hash, newSize, ctrlLen, diffLen, extraLen);
            && p[0..16] == PATCH_MAGIC && p[16..48] == hash
            && ReadU64(p[48..56]) == newSize && ReadU64(p[56..64]) == ctrlLen
            && ReadU64(p[64..72]) == diffLen && ReadU64(p[72..80]) == extraLen
  {
    hide ReadU64, WriteU64;
    var p := MakeHeader(hash, newSize, ctrlLen, diffLen, extraLen);
    assert p[48..56] == WriteU64(newSize);
    assert p[56..64] == WriteU64(ctrlLen);
    assert p[64..72] == WriteU64(diffLen);
    assert p[72..80] == WriteU64(extraLen);
  }

  /** A patch file. */
  function MakePatch(hash: seq<byte>, ctrl: seq<byte>, diff: seq<byte>, extra: seq<byte>): (p: seq<byte>)
    requires |hash| == 32 && PATCH_HEADER_LEN + |ctrl| + |diff| + |extra| < TWO_63
    ensures |p| == PATCH_HEADER_LEN + |ctrl| + |diff| + |extra|
  {
    MakeHeader(hash, |diff| + |extra|, |ctrl|, |diff|, |extra|) + (ctrl + diff + extra)
  }

  lemma {:induction false} Body(head: seq<byte>, c: seq<byte>, d: seq<byte>, e: seq<byte>)
    ensures var p := head + (c + d + e);
            var n := |head|;
            p[n..n + |c|] == c && p[n + |c|..n + |c| + |d|] == d && p[n + |c| + |d|..] == e
  {
  }

  lemma {:induction false} HeaderParses(head: seq<byte>, tail: seq<byte>, h: PatchHeader)
    requires |head| == PATCH_HEADER_LEN && |tail| == h.ctrlLen + h.diffLen + h.extraLen
    requires |head| + |tail| < TWO_63 && h.ctrlLen % CTRL_ENTRY_LEN == 0
    requires head[0..16] == PATCH_MAGIC && head[16..48] == h.referenceHash
    requires ReadU64(head[48..56]) == h.newSize && ReadU64(head[56..64]) == h.ctrlLen
    requires ReadU64(head[64..72]) == h.diffLen && ReadU64(head[72..80]) == h.extraLen
    ensures ParseHeader(head + tail) == Ok(h)
  {
    hide ReadU64;
    var p := head + tail;
    assert p[0..16] == head[0..16] && p[16..48] == head[16..48];
    assert p[48..56] == head[48..56] && p[56..64] == head[56..64];
    assert p[64..72] == head[64..72] && p[72..80] == head[72..80];
  }

  /** The applier reads back what was written. */
  lemma {:induction false} PatchReadsBack(hash: seq<byte>, ctrl: seq<byte>, diff: seq<byte>, extra: seq<byte>)
    requires |hash| == 32 && PATCH_HEADER_LEN + |ctrl| + |diff| + |extra| < TWO_63
    requires |ctrl| % CTRL_ENTRY_LEN == 0
    ensures var p := MakePatch(hash, ctrl, diff, extra);
            var h := PatchHeader(hash, |diff| + |extra|, |ctrl|, |diff|, |extra|);
            && ParseHeader(p) == Ok(h)
            && CtrlOf(p, h) == ctrl && DiffOf(p, h) == diff && ExtraOf(p, h) == extra
  {
    hide ReadU64, MakeHeader, ParseHeader;
    var h := PatchHeader(hash, |diff| + |extra|, |ctrl|, |diff|, |extra|);
    var head := MakeHeader(hash, h.newSize, h.ctrlLen, h.diffLen, h.extraLen);
    HeaderFields(hash, h.newSize, h.ctrlLen, h.diffLen, h.extraLen);
    HeaderParses(head, ctrl + diff + extra, h);
    Body(head, ctrl, diff, extra);
  }

  /** For every reference, target and legal segmentation, applying the encoded patch returns the target. */
  lemma {:induction false} PatchRoundTrip(reference: Slice, target: Slice, es: seq<Ctrl>, hash: seq<byte>)
    requires |hash| == 32 && Segments(|reference|, es, 0, |target|)
    requires PATCH_HEADER_LEN + |WriteCtrls(es)| + |target| < TWO_63
    ensures var p := MakePatch(hash, WriteCtrls(es), DiffStream(reference, es, 0, target),
                               ExtraStream(reference, es, 0, target));
            Apply(reference, p).Ok? && Apply(reference, p).value == target
  {
    hide Segments, DiffStream, ExtraStream, MakePatch, WriteCtrls, ReadCtrls, Rebuild, Legal;
    var ctrl := WriteCtrls(es);
    var diff, extra := DiffStream(reference, es, 0, target), ExtraStream(reference, es, 0, target);
    PatchReadsBack(hash, ctrl, diff, extra);
    CtrlsRoundTrip(es);
    StreamsRebuild(reference, es, 0, target, diff, extra);
    ApplyMeaning(reference, MakePatch(hash, ctrl, diff, extra));
  }

  /** The single-entry segmentation that covers the overlap with a diff and the rest with extra bytes. */
  lemma {:induction false} SimplePatch(reference: Slice, target: Slice)
    ensures var d := if |reference| < |target| then |reference| else |target|;
            Segments(|reference|, [Ctrl(d, |target| - d, 0)], 0, |target|)
  {
    var d := if |reference| < |target| then |reference| else |target|;
    var es := [Ctrl(d, |target| - d, 0)];
    assert Segments(|reference|, es[1..], d, 0);
  }

  // ----- nothing else applies -----

  lemma {:induction false} SubUndoesAddBytes(r: seq<byte>, d: seq<byte>)
    requires |r| == |d|
    ensures SubBytes(AddBytes(r, d), r) == d
  {
    forall i | 0 <= i < |r| ensures SubBytes(AddBytes(r, d), r)[i] == d[i] {
      SubUndoesAdd(r[i], d[i]);
    }
  }

  lemma {:induction false} SubUndoesAdd(r: byte, d: byte)
    ensures WrappingSub(WrappingAdd(r, d), r) == d
  {
  }

  lemma {:induction false} StreamsUnfold(reference: seq<byte>, es: seq<Ctrl>, old_: int, target: seq<byte>,
                                         rest: seq<byte>)
    requires es != [] && es[0].diff >= 0 && es[0].extra >= 0 && 0 <= old_ && old_ + es[0].diff <= |reference|
    requires 0 <= old_ + es[0].diff + es[0].seek <= |reference|
    requires es[0].diff + es[0].extra <= |target| && target[es[0].diff + es[0].extra..] == rest
    requires Segments(|reference|, es[1..], old_ + es[0].diff + es[0].seek, |rest|)
    ensures var (d: int, e: int, next) := (es[0].diff, es[0].extra, old_ + es[0].diff + es[0].seek);
            && Segments(|reference|, es, old_, |target|)
            && DiffStream(reference, es, old_, target) ==
               SubBytes(target[..d], reference[old_..old_ + d]) + DiffStream(reference, es[1..], next, rest)
            && ExtraStream(reference, es, old_, target) ==
               target[d..d + e] + ExtraStream(reference, es[1..], next, rest)
  {
    hide SubBytes;
  }

  lemma {:induction false} LegalUnfold(n: nat, es: seq<Ctrl>, old_: int, diffLen: int, extraLen: int)
    requires es != [] && Legal(n, es, old_, diffLen, extraLen)
    ensures 0 <= es[0].diff <= diffLen && 0 <= es[0].extra <= extraLen && 0 <= old_ && old_ + es[0].diff <= n
    ensures 0 <= old_ + es[0].diff + es[0].seek <= n
    ensures Legal(n, es[1..], old_ + es[0].diff + es[0].seek, diffLen - es[0].diff, extraLen - es[0].extra)
  {
  }

  /** Legal entries segment what they rebuild, and its streams are the ones it was rebuilt from. */
  lemma {:induction false} RebuildStreams(reference: seq<byte>, es: seq<Ctrl>, old_: int, diff: seq<byte>,
                                          extra: seq<byte>)
    requires Legal(|reference|, es, old_, |diff|, |extra|)
    ensures var target := Rebuild(reference, es, old_, diff, extra);
            && Segments(|reference|, es, old_, |target|)
            && DiffStream(reference, es, old_, target) == diff && ExtraStream(reference, es, old_, target) == extra
    decreases |es|
  {
    hide AddBytes, SubBytes, Segments, DiffStream, ExtraStream, Rebuild, Legal;
    if es == [] {
      NoEntries(reference, old_, diff, extra);
    } else {
      LegalUnfold(|reference|, es, old_, |diff|, |extra|);
      var d: int, e: int := es[0].diff, es[0].extra;
      var next := old_ + d + es[0].seek;
      RebuildStreams(reference, es[1..], next, diff[d..], extra[e..]);
      RebuildUnfold(reference, es, old_, diff, extra);
      var rest := Rebuild(reference, es[1..], next, diff[d..], extra[e..]);
      var target := Rebuild(reference, es, old_, diff, extra);
      var r := reference[old_..old_ + d];
      PieceSplit(target, AddBytes(r, diff[..d]), extra[..e], rest);
      SubUndoesAddBytes(r, diff[..d]);
      StreamsUnfold(reference, es, old_, target, rest);
      assert diff[..d] + diff[d..] == diff && extra[..e] + extra[e..] == extra;
    }
  }

  lemma {:induction false} NoEntries(reference: seq<byte>, old_: int, diff: seq<byte>, extra: seq<byte>)
    requires Legal(|reference|, [], old_, |diff|, |extra|)
    ensures Rebuild(reference, [], old_, diff, extra) == [] && Segments(|reference|, [], old_, 0)
    ensures DiffStream(reference, [], old_, []) == diff && ExtraStream(reference, [], old_, []) == extra
  {
  }

  lemma {:induction false} PieceSplit(t: seq<byte>, a: seq<byte>, b: seq<byte>, c: seq<byte>)
    requires t == a + b + c
    ensures t[..|a|] == a && t[|a|..|a| + |b|] == b && t[|a| + |b|..] == c
  {
  }

  /** A patch whose header parses is its header, written again, and its three streams. */
  lemma {:induction false} PatchRewrites(p: Slice, h: PatchHeader)
    requires ParseHeader(p) == Ok(h)
    ensures |h.referenceHash| == 32 && PATCH_HEADER_LEN + h.ctrlLen + h.diffLen + h.extraLen == |p|
    ensures p == MakeHeader(h.referenceHash, h.newSize, h.ctrlLen, h.diffLen, h.extraLen)
                 + (CtrlOf(p, h) + DiffOf(p, h) + ExtraOf(p, h))
  {
    hide ReadU64, WriteU64;
    RereadU64(p[48..56]);
    RereadU64(p[56..64]);
    RereadU64(p[64..72]);
    RereadU64(p[72..80]);
    HeaderBytes(p);
    var (a, b) := (PATCH_HEADER_LEN + h.ctrlLen, PATCH_HEADER_LEN + h.ctrlLen + h.diffLen);
    assert p[PATCH_HEADER_LEN..] == p[PATCH_HEADER_LEN..a] + p[a..b] + p[b..];
    assert p == p[..PATCH_HEADER_LEN] + p[PATCH_HEADER_LEN..];
  }

  lemma {:induction false} HeaderBytes(p: seq<byte>)
    requires |p| >= PATCH_HEADER_LEN
    ensures p[..PATCH_HEADER_LEN] == (p[0..16] + p[16..48]) + ((p[48..56] + p[56..64]) + (p[64..72] + p[72..80]))
  {
  }

  /** The patch is the encoding of a legal segmentation of the target. */
  predicate Encodes(patch: Slice, reference: Slice, es: seq<Ctrl>, hash: seq<byte>, target: seq<byte>) {
    && |hash| == 32 && Segments(|reference|, es, 0, |target|)
    && PATCH_HEADER_LEN + |WriteCtrls(es)| + |target| < TWO_63
    && patch == MakePatch(hash, WriteCtrls(es), DiffStream(reference, es, 0, target),
                          ExtraStream(reference, es, 0, target))
  }

  lemma {:induction false} AppliedIsEncoded(reference: Slice, patch: Slice) returns (es: seq<Ctrl>, hash: seq<byte>)
    requires Apply(reference, patch).Ok?
    ensures Encodes(patch, reference, es, hash, Apply(reference, patch).value)
  {
    hide Apply, ParseHeader, ReadCtrls, WriteCtrls, Rebuild, Legal, Segments, DiffStream, ExtraStream, MakeHeader;
    ApplyMeaning(reference, patch);
    var h := ParseHeader(patch).value;
    PatchRewrites(patch, h);
    var ctrl, diff, extra := CtrlOf(patch, h), DiffOf(patch, h), ExtraOf(patch, h);
    CtrlLenWhole(patch);
    es, hash := ReadCtrls(ctrl), h.referenceHash;
    CtrlsRewrite(ctrl);
    RebuildStreams(reference, es, 0, diff, extra);
  }

  lemma {:induction false} CtrlLenWhole(patch: Slice)
    requires ParseHeader(patch).Ok?
    ensures ParseHeader(patch).value.ctrlLen % CTRL_ENTRY_LEN == 0
  {
    hide ReadU64;
  }

  /** A patch applies to a reference with a target as the result exactly when it is the encoding of a legal
      segmentation of that target: the format has no other patches. */
  lemma {:induction false} AppliesIff(reference: Slice, patch: Slice, target: seq<byte>)
    ensures Apply(reference, patch) == Ok(target) <==> exists es, hash :: Encodes(patch, reference, es, hash, target)
  {
    hide Apply, Segments, DiffStream, ExtraStream, MakePatch, WriteCtrls;
    if Apply(reference, patch) == Ok(target) {
      var es, hash := AppliedIsEncoded(reference, patch);
    }
    if es, hash :| Encodes(patch, reference, es, hash, target) {
      PatchRoundTrip(reference, target, es, hash);
    }
  }
}

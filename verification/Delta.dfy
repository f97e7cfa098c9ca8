/** Applying a bsdiff format v1 patch in memory. */
module Delta {
  import opened Bytes
  import opened Results
  import opened DeltaFormat

  datatype Cursor = Cursor(new_: nat, old_: int, diff: nat, extra: nat)

  /** The first complaint an entry draws, in the order the applier makes its checks. */
  function StepError(c: Ctrl, cur: Cursor, refLen: nat, diffLen: nat, extraLen: nat, newSize: nat): Option<DeltaError> {
    if c.diff < 0 || c.extra < 0 then Some(BadControlEntry)
    else if cur.diff + c.diff > diffLen then Some(DiffTruncated)
    else if cur.extra + c.extra > extraLen then Some(ExtraTruncated)
    else if cur.new_ + c.diff + c.extra > newSize then Some(NewSizeMismatch)
    else if cur.old_ < 0 then Some(OffsetOutOfRange)
    else if cur.old_ + c.diff > refLen then Some(ReferencePastEof)
    else if !(0 <= cur.old_ + c.diff + c.seek <= refLen) then Some(OffsetOutOfRange)
    else None
  }

  function Advance(c: Ctrl, cur: Cursor): Cursor
    requires c.diff >= 0 && c.extra >= 0
  {
    Cursor(cur.new_ + c.diff + c.extra, cur.old_ + c.diff + c.seek, cur.diff + c.diff, cur.extra + c.extra)
  }

  /** The bytes one entry contributes. */
  function Piece(reference: seq<byte>, c: Ctrl, cur: Cursor, diff: seq<byte>, extra: seq<byte>): seq<byte>
    requires c.diff >= 0 && c.extra >= 0 && 0 <= cur.old_ && cur.old_ + c.diff <= |reference|
    requires cur.diff + c.diff <= |diff| && cur.extra + c.extra <= |extra|
  {
    AddBytes(reference[cur.old_..cur.old_ + c.diff], diff[cur.diff..cur.diff + c.diff])
    + extra[cur.extra..cur.extra + c.extra]
  }

  function Prepend(p: seq<byte>, r: Result<seq<byte>, DeltaError>): Result<seq<byte>, DeltaError> {
    if r.Ok? then Ok(p + r.value) else r
  }

  /** Run the remaining entries from a cursor. */
  function ApplyFrom(reference: seq<byte>, es: seq<Ctrl>, diff: seq<byte>, extra: seq<byte>, newSize: nat, cur: Cursor)
    : Result<seq<byte>, DeltaError>
    decreases |es|
  {
    if es == [] then
      if cur.new_ != newSize then Err(NewSizeMismatch)
      else if cur.diff != |diff| then Err(DiffTruncated)
      else if cur.extra != |extra| then Err(ExtraTruncated)
      else Ok([])
    else
      var complaint := StepError(es[0], cur, |reference|, |diff|, |extra|, newSize);
      if complaint.Some? then Err(complaint.value)
      else Prepend(Piece(reference, es[0], cur, diff, extra),
                   ApplyFrom(reference, es[1..], diff, extra, newSize, Advance(es[0], cur)))
  }

  /** The three streams of a patch. */
  function CtrlOf(patch: Slice, h: PatchHeader): seq<byte>
    requires PATCH_HEADER_LEN + h.ctrlLen + h.diffLen + h.extraLen == |patch|
  {
    patch[PATCH_HEADER_LEN..PATCH_HEADER_LEN + h.ctrlLen]
  }

  function DiffOf(patch: Slice, h: PatchHeader): seq<byte>
    requires PATCH_HEADER_LEN + h.ctrlLen + h.diffLen + h.extraLen == |patch|
  {
    patch[PATCH_HEADER_LEN + h.ctrlLen..PATCH_HEADER_LEN + h.ctrlLen + h.diffLen]
  }

  function ExtraOf(patch: Slice, h: PatchHeader): seq<byte>
    requires PATCH_HEADER_LEN + h.ctrlLen + h.diffLen + h.extraLen == |patch|
  {
    patch[PATCH_HEADER_LEN + h.ctrlLen + h.diffLen..]
  }

  const START := Cursor(0, 0, 0, 0)

  function Apply(reference: Slice, patch: Slice): Result<seq<byte>, DeltaError> {
    var parsed := ParseHeader(patch);
    if parsed.Err? then Err(parsed.error)
    else
      var h := parsed.value;
      ApplyFrom(reference, ReadCtrls(CtrlOf(patch, h)), DiffOf(patch, h), ExtraOf(patch, h), h.newSize, START)
  }

  // ----- when a patch applies, and what it yields -----

  lemma {:induction false} SplitAt(s: seq<byte>, from: nat, n: nat)
    requires from + n <= |s|
    ensures s[from..][..n] == s[from..from + n] && s[from..][n..] == s[from + n..]
  {
  }

  /** Running entries succeeds exactly when they are legal and fill the announced size. */
  lemma {:induction false} ApplyFromOk(reference: seq<byte>, es: seq<Ctrl>, diff: seq<byte>, extra: seq<byte>,
                                       newSize: nat, cur: Cursor, dl: nat, xl: nat)
    requires cur.diff + dl == |diff| && cur.extra + xl == |extra|
    ensures ApplyFrom(reference, es, diff, extra, newSize, cur).Ok?
            <==> Legal(|reference|, es, cur.old_, dl, xl) && cur.new_ + dl + xl == newSize
    decreases |es|
  {
    if es != [] {
      var c := es[0];
      if StepError(c, cur, |reference|, |diff|, |extra|, newSize).None? {
        hide Piece;
        ApplyFromOk(reference, es[1..], diff, extra, newSize, Advance(c, cur), dl - c.diff, xl - c.extra);
      }
    }
  }

  lemma {:induction false} PieceOf(reference: seq<byte>, c: Ctrl, cur: Cursor, diff: seq<byte>, extra: seq<byte>,
                                   ds: seq<byte>, xs: seq<byte>)
    requires c.diff >= 0 && c.extra >= 0 && 0 <= cur.old_ && cur.old_ + c.diff <= |reference|
    requires cur.diff + c.diff <= |diff| && cur.extra + c.extra <= |extra|
    requires ds == diff[cur.diff..] && xs == extra[cur.extra..]
    ensures Piece(reference, c, cur, diff, extra)
            == AddBytes(reference[cur.old_..cur.old_ + c.diff], ds[..c.diff]) + xs[..c.extra]
    ensures ds[c.diff..] == diff[cur.diff + c.diff..] && xs[c.extra..] == extra[cur.extra + c.extra..]
  {
    hide AddBytes;
    SplitAt(diff, cur.diff, c.diff);
    SplitAt(extra, cur.extra, c.extra);
  }

  lemma {:induction false} ApplyUnfold(reference: seq<byte>, es: seq<Ctrl>, diff: seq<byte>, extra: seq<byte>,
                                       newSize: nat, cur: Cursor)
    requires es != [] && ApplyFrom(reference, es, diff, extra, newSize, cur).Ok?
    ensures var c := es[0];
            && c.diff >= 0 && c.extra >= 0 && 0 <= cur.old_ && cur.old_ + c.diff <= |reference|
            && cur.diff + c.diff <= |diff| && cur.extra + c.extra <= |extra|
    ensures var rest := ApplyFrom(reference, es[1..], diff, extra, newSize, Advance(es[0], cur));
            rest.Ok? && ApplyFrom(reference, es, diff, extra, newSize, cur).value
                        == Piece(reference, es[0], cur, diff, extra) + rest.value
  {
  }

  lemma {:induction false} RebuildUnfold(reference: seq<byte>, es: seq<Ctrl>, old_: int, diff: seq<byte>,
                                         extra: seq<byte>)
    requires es != [] && Legal(|reference|, es, old_, |diff|, |extra|)
    ensures var d, e := es[0].diff, es[0].extra;
            Rebuild(reference, es, old_, diff, extra)
            == AddBytes(reference[old_..old_ + d], diff[..d]) + extra[..e]
               + Rebuild(reference, es[1..], old_ + d + es[0].seek, diff[d..], extra[e..])
  {
  }

  /** When they succeed they rebuild the output from what is left of the streams. */
  lemma {:induction false} ApplyFromValue(reference: seq<byte>, es: seq<Ctrl>, diff: seq<byte>, extra: seq<byte>,
                                          newSize: nat, cur: Cursor, ds: seq<byte>, xs: seq<byte>)
    requires cur.diff <= |diff| && cur.extra <= |extra| && ds == diff[cur.diff..] && xs == extra[cur.extra..]
    requires ApplyFrom(reference, es, diff, extra, newSize, cur).Ok?
    ensures Legal(|reference|, es, cur.old_, |ds|, |xs|)
    ensures ApplyFrom(reference, es, diff, extra, newSize, cur).value == Rebuild(reference, es, cur.old_, ds, xs)
    decreases |es|
  {
    ApplyFromOk(reference, es, diff, extra, newSize, cur, |ds|, |xs|);
    if es != [] {
      hide AddBytes, ApplyFrom, Rebuild, Legal, Piece, StepError;
      var c := es[0];
      ApplyUnfold(reference, es, diff, extra, newSize, cur);
      PieceOf(reference, c, cur, diff, extra, ds, xs);
      ApplyFromValue(reference, es[1..], diff, extra, newSize, Advance(c, cur), ds[c.diff..], xs[c.extra..]);
      RebuildUnfold(reference, es, cur.old_, ds, xs);
    }
  }

  /** For every reference and patch, applying succeeds exactly when the header is consistent, the entries are
      legal and the sizes add up; the result is then the rebuilt output. */
  lemma {:induction false} ApplyMeaning(reference: Slice, patch: Slice)
    ensures var parsed := ParseHeader(patch);
            var r := Apply(reference, patch);
            if parsed.Err? then r == Err(parsed.error)
            else
              var h := parsed.value;
              var es := ReadCtrls(CtrlOf(patch, h));
              && (r.Ok? <==> Legal(|reference|, es, 0, h.diffLen, h.extraLen) && h.diffLen + h.extraLen == h.newSize)
              && (r.Ok? ==> |r.value| == h.newSize
                            && r.value == Rebuild(reference, es, 0, DiffOf(patch, h), ExtraOf(patch, h)))
  {
    var parsed := ParseHeader(patch);
    if parsed.Ok? {
      var h := parsed.value;
      var diff, extra := DiffOf(patch, h), ExtraOf(patch, h);
      assert diff[0..] == diff && extra[0..] == extra;
      var es := ReadCtrls(CtrlOf(patch, h));
      ApplyFromOk(reference, es, diff, extra, h.newSize, START, h.diffLen, h.extraLen);
      if Apply(reference, patch).Ok? {
        ApplyFromValue(reference, es, diff, extra, h.newSize, START, diff, extra);
      }
    }
  }

  // ----- the applier -----

  /** Copy one entry's bytes into the output. */
  method WritePiece(out: array<byte>, at: nat, reference: seq<byte>, oldStart: nat, diff: seq<byte>, diffPtr: nat,
                    extra: seq<byte>, extraPtr: nat, dlen: nat, elen: nat)
    requires at + dlen + elen <= out.Length && oldStart + dlen <= |reference|
    requires diffPtr + dlen <= |diff| && extraPtr + elen <= |extra|
    modifies out
    ensures out[..at + dlen + elen]
            == old(out[..at]) + (AddBytes(reference[oldStart..oldStart + dlen], diff[diffPtr..diffPtr + dlen])
                                 + extra[extraPtr..extraPtr + elen])
  {
    ghost var piece := AddBytes(reference[oldStart..oldStart + dlen], diff[diffPtr..diffPtr + dlen])
                       + extra[extraPtr..extraPtr + elen];
    for j := 0 to dlen
      invariant forall k :: 0 <= k < at ==> out[k] == old(out[k])
      invariant forall k :: at <= k < at + j ==> out[k] == piece[k - at]
    {
      out[at + j] := WrappingAdd(reference[oldStart + j], diff[diffPtr + j]);
    }
    for j := 0 to elen
      invariant forall k :: 0 <= k < at ==> out[k] == old(out[k])
      invariant forall k :: at <= k < at + dlen + j ==> out[k] == piece[k - at]
    {
      out[at + dlen + j] := extra[extraPtr + j];
    }
  }

  /** Where the reference cursor goes after an entry, if it stays inside the reference. */
  function MoveOld(oldPtr: i64, c: Ctrl, refLen: nat): (r: Option<i64>)
    requires 0 <= oldPtr && 0 <= c.diff && oldPtr + c.diff <= refLen < TWO_63
    ensures r == if 0 <= oldPtr + c.diff + c.seek <= refLen then Some(oldPtr + c.diff + c.seek) else None
  {
    var step := CheckedAddI64(c.diff, c.seek);
    if step.None? then None
    else
      var moved := CheckedAddI64(oldPtr, step.value);
      if moved.None? || moved.value < 0 || moved.value > refLen then None else moved
  }

  /** One control entry: check it, write its bytes, move the cursors. */
  method ApplyEntry(out: array<byte>, c: Ctrl, reference: Slice, diff: Slice, extra: Slice,
                    newPtr: u64, oldPtr: i64, diffPtr: u64, extraPtr: u64)
    returns (complaint: Option<DeltaError>, newPtr': u64, oldPtr': i64, diffPtr': u64, extraPtr': u64)
    requires newPtr <= out.Length < TWO_64 && diffPtr <= |diff| && extraPtr <= |extra|
    modifies out
    ensures var cur := Cursor(newPtr, oldPtr, diffPtr, extraPtr);
            && complaint == StepError(c, cur, |reference|, |diff|, |extra|, out.Length)
            && (complaint.None? ==> Cursor(newPtr', oldPtr', diffPtr', extraPtr') == Advance(c, cur)
                                    && out[..newPtr'] == old(out[..newPtr]) + Piece(reference, c, cur, diff, extra))
  {
    newPtr', oldPtr', diffPtr', extraPtr' := newPtr, oldPtr, diffPtr, extraPtr;
    if c.diff < 0 || c.extra < 0 {
      return Some(BadControlEntry), newPtr, oldPtr, diffPtr, extraPtr;
    }
    var diffEnd := CheckedAdd(Some(diffPtr), c.diff);
    if diffEnd.None? || diffEnd.value > |diff| {
      return Some(DiffTruncated), newPtr, oldPtr, diffPtr, extraPtr;
    }
    var extraEnd := CheckedAdd(Some(extraPtr), c.extra);
    if extraEnd.None? || extraEnd.value > |extra| {
      return Some(ExtraTruncated), newPtr, oldPtr, diffPtr, extraPtr;
    }
    var newEnd := CheckedAdd(CheckedAdd(Some(newPtr), c.diff), c.extra);
    if newEnd.None? || newEnd.value > out.Length {
      return Some(NewSizeMismatch), newPtr, oldPtr, diffPtr, extraPtr;
    }
    if oldPtr < 0 {
      return Some(OffsetOutOfRange), newPtr, oldPtr, diffPtr, extraPtr;
    }
    var oldEnd := CheckedAdd(Some(oldPtr), c.diff);
    if oldEnd.None? || oldEnd.value > |reference| {
      return Some(ReferencePastEof), newPtr, oldPtr, diffPtr, extraPtr;
    }
    WritePiece(out, newPtr, reference, oldPtr, diff, diffPtr, extra, extraPtr, c.diff, c.extra);
    var moved := MoveOld(oldPtr, c, |reference|);
    if moved.None? {
      return Some(OffsetOutOfRange), newPtr, oldPtr, diffPtr, extraPtr;
    }
    return None, newEnd.value, moved.value, diffEnd.value, extraEnd.value;
  }

  /** The loop over the control block. */
  method RunEntries(reference: Slice, ctrl: Slice, diff: Slice, extra: Slice, newSize: u64)
    returns (r: Result<seq<byte>, DeltaError>)
    requires |ctrl| % CTRL_ENTRY_LEN == 0
    ensures r == ApplyFrom(reference, ReadCtrls(ctrl), diff, extra, newSize, START)
  {
    hide StepError, Piece, ReadCtrls, ReadCtrl;
    ghost var es := ReadCtrls(ctrl);
    ghost var goal := ApplyFrom(reference, es, diff, extra, newSize, START);
    var out := new byte[newSize](_ => 0);
    var newPtr: u64, oldPtr: i64, diffPtr: u64, extraPtr: u64 := 0, 0, 0, 0;
    assert es[0..] == es && out[..0] == [];
    PrependNothing(goal);
    for i := 0 to |ctrl| / CTRL_ENTRY_LEN
      invariant newPtr <= newSize && diffPtr <= |diff| && extraPtr <= |extra|
      invariant goal == Prepend(out[..newPtr], ApplyFrom(reference, es[i..], diff, extra, newSize,
                                                         Cursor(newPtr, oldPtr, diffPtr, extraPtr)))
    {
      CtrlAt(ctrl, i);
      Tail(es, i);
      var off := i * CTRL_ENTRY_LEN;
      var c := ReadCtrl(ctrl[off..off + CTRL_ENTRY_LEN]);
      ghost var cur, done := Cursor(newPtr, oldPtr, diffPtr, extraPtr), out[..newPtr];
      var complaint;
      complaint, newPtr, oldPtr, diffPtr, extraPtr :=
        ApplyEntry(out, c, reference, diff, extra, newPtr, oldPtr, diffPtr, extraPtr);
      if complaint.Some? {
        return Err(complaint.value);
      }
      StepSafe(c, cur, |reference|, |diff|, |extra|, newSize);
      PrependTwice(done, Piece(reference, c, cur, diff, extra),
                   ApplyFrom(reference, es[i + 1..], diff, extra, newSize, Advance(c, cur)));
    }
    if newPtr != newSize {
      return Err(NewSizeMismatch);
    }
    if diffPtr != |diff| {
      return Err(DiffTruncated);
    }
    if extraPtr != |extra| {
      return Err(ExtraTruncated);
    }
    assert out[..newPtr] == out[..] && out[..] + [] == out[..];
    return Ok(out[..]);
  }

  /** The streaming applier refines the meaning of the patch, error by error. */
  method ApplyDelta(reference: Slice, patch: Slice) returns (r: Result<seq<byte>, DeltaError>)
    ensures r == Apply(reference, patch)
  {
    var parsed := ParseHeader(patch);
    if parsed.Err? {
      return Err(parsed.error);
    }
    var h := parsed.value;
    r := RunEntries(reference, CtrlOf(patch, h), DiffOf(patch, h), ExtraOf(patch, h), h.newSize);
  }

  lemma {:induction false} StepSafe(c: Ctrl, cur: Cursor, refLen: nat, diffLen: nat, extraLen: nat, newSize: nat)
    requires StepError(c, cur, refLen, diffLen, extraLen, newSize).None?
    ensures c.diff >= 0 && c.extra >= 0 && 0 <= cur.old_ && cur.old_ + c.diff <= refLen
    ensures cur.diff + c.diff <= diffLen && cur.extra + c.extra <= extraLen && cur.new_ + c.diff + c.extra <= newSize
  {
  }

  lemma {:induction false} Tail(es: seq<Ctrl>, i: nat)
    requires i < |es|
    ensures es[i..] != [] && es[i..][0] == es[i] && es[i..][1..] == es[i + 1..]
  {
  }

  lemma {:induction false} PrependNothing(r: Result<seq<byte>, DeltaError>)
    ensures Prepend([], r) == r
  {
    if r.Ok? {
      assert [] + r.value == r.value;
    }
  }

  lemma {:induction false} PrependTwice(p: seq<byte>, q: seq<byte>, r: Result<seq<byte>, DeltaError>)
    ensures Prepend(p, Prepend(q, r)) == Prepend(p + q, r)
  {
    if r.Ok? {
      assert p + (q + r.value) == p + q + r.value;
    }
  }
}

/** The bsdiff format v1 patch: header, control entries, and what a patch means. */
module DeltaFormat {
  import opened Bytes
  import opened Results

  datatype DeltaError =
    | HeaderTruncated
    | BadMagic
    | HeaderInconsistent
    | PatchTruncated
    | BadCtrlLength
    | BadControlEntry
    | OffsetOutOfRange
    | ReferencePastEof
    | ExtraTruncated
    | DiffTruncated
    | NewSizeMismatch

  /** `b"SmallAIOSBSD\x01\0\0\0"` */
  const PATCH_MAGIC: seq<byte> := [83, 109, 97, 108, 108, 65, 73, 79, 83, 66, 83, 68, 1, 0, 0, 0]

  const PATCH_HEADER_LEN: nat := 80
  const CTRL_ENTRY_LEN: nat := 24

  datatype PatchHeader = PatchHeader(
    referenceHash: seq<byte>,
    newSize: u64,
    ctrlLen: u64,
    diffLen: u64,
    extraLen: u64)
  {
    /** Expected length of the whole patch; an error when it does not fit 64 bits. */
    function TotalLen(): (r: Result<u64, DeltaError>)
      ensures r == if PATCH_HEADER_LEN + ctrlLen + diffLen + extraLen < TWO_64
                   then Ok(PATCH_HEADER_LEN + ctrlLen + diffLen + extraLen) else Err(HeaderInconsistent)
    {
      var total := CheckedAdd(Some(PATCH_HEADER_LEN), ctrlLen);
      var total := CheckedAdd(total, diffLen);
      var total := CheckedAdd(total, extraLen);
      if total.None? then Err(HeaderInconsistent) else Ok(total.value)
    }
  }

  /** `u64::checked_add`, failing once an earlier step failed. */
  function CheckedAdd(a: Option<u64>, b: u64): Option<u64> {
    if a.Some? && a.value + b < TWO_64 then Some(a.value + b) else None
  }

  /** `i64::checked_add`. */
  function CheckedAddI64(a: i64, b: i64): Option<i64> {
    if -TWO_63 <= a + b < TWO_63 then Some(a + b) else None
  }

  function ParseHeader(patch: Slice): Result<PatchHeader, DeltaError> {
    if |patch| < PATCH_HEADER_LEN then Err(HeaderTruncated)
    else if patch[0..16] != PATCH_MAGIC then Err(BadMagic)
    else
      var h := PatchHeader(patch[16..48], ReadU64(patch[48..56]), ReadU64(patch[56..64]),
                           ReadU64(patch[64..72]), ReadU64(patch[72..80]));
      var total := h.TotalLen();
      if total.Err? then Err(total.error)
      else if |patch| != total.value then Err(PatchTruncated)
      else if h.ctrlLen % CTRL_ENTRY_LEN != 0 then Err(BadCtrlLength)
      else Ok(h)
  }

  /** A patch header is accepted exactly when the patch has its 80 bytes, starts with the magic letters, and is as long
      as its three lengths say, control entries of 24 bytes included; and which complaint comes first. */
  lemma {:induction false} HeaderIff(patch: Slice)
    ensures var r := ParseHeader(patch);
            && (r == Err(HeaderTruncated) <==> |patch| < 80)
            && (|patch| >= 80 ==>
                  var magic := patch[..16] == [0x53, 0x6D, 0x61, 0x6C, 0x6C, 0x41, 0x49, 0x4F,
                                               0x53, 0x42, 0x53, 0x44, 1, 0, 0, 0];
                  var (c: nat, d: nat, e: nat) := (ReadU64(patch[56..64]), ReadU64(patch[64..72]),
                    ReadU64(patch[72..80]));
                  && (r == Err(BadMagic) <==> !magic)
                  && (r == Err(HeaderInconsistent) <==> magic && 80 + c + d + e >= 0x1_0000_0000_0000_0000)
                  && (r == Err(PatchTruncated) <==>
                        magic && 80 + c + d + e < 0x1_0000_0000_0000_0000 && |patch| != 80 + c + d + e)
                  && (r == Err(BadCtrlLength) <==> magic && |patch| == 80 + c + d + e && c % 24 != 0)
                  && (r.Ok? <==> magic && |patch| == 80 + c + d + e && c % 24 == 0)
                  && (r.Ok? ==> r.value == PatchHeader(patch[16..48], ReadU64(patch[48..56]), c, d, e)))
  {
    hide ReadU64;
    assert |patch| >= 80 ==> patch[..16] == patch[0..16];
  }

  /** One control entry: bytes to add to the reference, bytes to copy, and a move of the reference cursor. */
  datatype Ctrl = Ctrl(diff: i64, extra: i64, seek: i64)

  function ReadCtrl(b: seq<byte>): Ctrl
    requires |b| == CTRL_ENTRY_LEN
  {
    Ctrl(ReadI64(b[0..8]), ReadI64(b[8..16]), ReadI64(b[16..24]))
  }

  function WriteCtrl(c: Ctrl): (b: seq<byte>)
    ensures |b| == CTRL_ENTRY_LEN && ReadCtrl(b) == c
  {
    var b := WriteI64(c.diff) + WriteI64(c.extra) + WriteI64(c.seek);
    assert b[0..8] == WriteI64(c.diff) && b[8..16] == WriteI64(c.extra) && b[16..24] == WriteI64(c.seek);
    b
  }

  function ReadCtrls(b: seq<byte>): (cs: seq<Ctrl>)
    requires |b| % CTRL_ENTRY_LEN == 0
    ensures |cs| * CTRL_ENTRY_LEN == |b|
  {
    if b == [] then [] else [ReadCtrl(b[..CTRL_ENTRY_LEN])] + ReadCtrls(b[CTRL_ENTRY_LEN..])
  }

  function WriteCtrls(cs: seq<Ctrl>): (b: seq<byte>)
    ensures |b| == |cs| * CTRL_ENTRY_LEN && |b| % CTRL_ENTRY_LEN == 0
  {
    if cs == [] then [] else WriteCtrl(cs[0]) + WriteCtrls(cs[1..])
  }

  lemma {:induction false} CtrlsRoundTrip(cs: seq<Ctrl>)
    ensures ReadCtrls(WriteCtrls(cs)) == cs
  {
    if cs != [] {
      CtrlsRoundTrip(cs[1..]);
      var b := WriteCtrls(cs);
      assert b[..CTRL_ENTRY_LEN] == WriteCtrl(cs[0]) && b[CTRL_ENTRY_LEN..] == WriteCtrls(cs[1..]);
    }
  }

  lemma {:induction false} CtrlRewrites(b: seq<byte>)
    requires |b| == CTRL_ENTRY_LEN
    ensures WriteCtrl(ReadCtrl(b)) == b
  {
    hide ReadI64, WriteI64;
    RereadI64(b[0..8]);
    RereadI64(b[8..16]);
    RereadI64(b[16..24]);
    assert b == b[0..8] + b[8..16] + b[16..24];
  }

  /** Control bytes come back from the entries they were read as. */
  lemma {:induction false} CtrlsRewrite(b: seq<byte>)
    requires |b| % CTRL_ENTRY_LEN == 0
    ensures WriteCtrls(ReadCtrls(b)) == b
  {
    hide ReadCtrl, WriteCtrl;
    if b != [] {
      CtrlRewrites(b[..CTRL_ENTRY_LEN]);
      CtrlsRewrite(b[CTRL_ENTRY_LEN..]);
      assert b == b[..CTRL_ENTRY_LEN] + b[CTRL_ENTRY_LEN..];
    }
  }

  /** The `i`-th entry sits at byte `24 * i`. */
  lemma {:induction false} CtrlAt(b: seq<byte>, i: nat)
    requires |b| % CTRL_ENTRY_LEN == 0 && i < |ReadCtrls(b)|
    ensures i * CTRL_ENTRY_LEN + CTRL_ENTRY_LEN <= |b|
    ensures ReadCtrls(b)[i] == ReadCtrl(b[i * CTRL_ENTRY_LEN..i * CTRL_ENTRY_LEN + CTRL_ENTRY_LEN])
  {
    if i > 0 {
      var rest := b[CTRL_ENTRY_LEN..];
      CtrlAt(rest, i - 1);
      var off := (i - 1) * CTRL_ENTRY_LEN;
      assert rest[off..off + CTRL_ENTRY_LEN] == b[off + CTRL_ENTRY_LEN..off + 2 * CTRL_ENTRY_LEN];
    }
  }

  function AddBytes(a: seq<byte>, b: seq<byte>): (r: seq<byte>)
    requires |a| == |b|
    ensures |r| == |a|
  {
    seq(|a|, i requires 0 <= i < |a| => WrappingAdd(a[i], b[i]))
  }

  function SubBytes(a: seq<byte>, b: seq<byte>): (r: seq<byte>)
    requires |a| == |b|
    ensures |r| == |a|
  {
    seq(|a|, i requires 0 <= i < |a| => WrappingSub(a[i], b[i]))
  }

  // ----- what a patch means -----

  /** Every read that the entries ask for lies inside the reference and the two streams, the reference
      cursor never leaves the reference, and the streams are used up exactly. */
  ghost predicate Legal(n: nat, es: seq<Ctrl>, old_: int, diffLen: int, extraLen: int) {
    if es == [] then diffLen == 0 && extraLen == 0
    else
      && es[0].diff >= 0 && es[0].extra >= 0
      && es[0].diff <= diffLen && es[0].extra <= extraLen
      && 0 <= old_ && old_ + es[0].diff <= n
      && 0 <= old_ + es[0].diff + es[0].seek <= n
      && Legal(n, es[1..], old_ + es[0].diff + es[0].seek, diffLen - es[0].diff, extraLen - es[0].extra)
  }

  /** The output: for each entry, reference bytes plus diff bytes, then extra bytes. */
  ghost function Rebuild(reference: seq<byte>, es: seq<Ctrl>, old_: int, diff: seq<byte>,
                         extra: seq<byte>): (out: seq<byte>)
    requires Legal(|reference|, es, old_, |diff|, |extra|)
    ensures |out| == |diff| + |extra|
    decreases |es|
  {
    if es == [] then []
    else
      var d, e := es[0].diff, es[0].extra;
      AddBytes(reference[old_..old_ + d], diff[..d]) + extra[..e]
      + Rebuild(reference, es[1..], old_ + d + es[0].seek, diff[d..], extra[e..])
  }
}

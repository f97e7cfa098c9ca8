/** Base32 without padding (section 6 of RFC 4648), stated on bit strings, and the shift-register loops. */
module Base32 {
  import opened Arithmetic
  import opened Bytes
  import opened Results

  type Bits = seq<bool>

  /** The low `n` bits of `x`, most significant first. */
  function BitsOf(x: nat, n: nat): (bs: Bits)
    ensures |bs| == n
  {
    if n == 0 then [] else BitsOf(x / 2, n - 1) + [x % 2 == 1]
  }

  function FromBits(bs: Bits): nat {
    if bs == [] then 0 else 2 * FromBits(bs[..|bs| - 1]) + if bs[|bs| - 1] then 1 else 0
  }

  function Zeros(n: nat): (bs: Bits)
    ensures |bs| == n
  {
    seq(n, _ => false)
  }

  const ALPHABET: string := "ABCDEFGHIJKLMNOPQRSTUVWXYZ234567"

  function Letter(v: nat): (c: char)
    requires v < 32
  {
    ALPHABET[v]
  }

  /** Lower case letters are read like upper case ones. */
  function LetterValue(c: char): (v: Option<nat>)
    ensures v.Some? ==> v.value < 32
  {
    if 'A' <= c <= 'Z' then Some(c as int - 'A' as int)
    else if 'a' <= c <= 'z' then Some(c as int - 'a' as int)
    else if '2' <= c <= '7' then Some(c as int - '2' as int + 26)
    else None
  }

  /** The bits of a byte string. */
  function ByteBits(bytes: seq<byte>): (bs: Bits)
    ensures |bs| == 8 * |bytes|
  {
    if bytes == [] then [] else BitsOf(bytes[0] as nat, 8) + ByteBits(bytes[1..])
  }

  /** Bits five at a time as letters, the last group filled up with zeros. */
  function Letters(bs: Bits): string
    decreases |bs|
  {
    if bs == [] then ""
    else if |bs| < 5 then [Letter(Group(bs + Zeros(5 - |bs|)))]
    else [Letter(Group(bs[..5]))] + Letters(bs[5..])
  }

  function Group(bs: Bits): (v: nat)
    requires |bs| == 5
    ensures v < 32
  {
    FromBitsBound(bs);
    assert Pow2(5) == 32;
    FromBits(bs)
  }

  function Encode(bytes: seq<byte>): string {
    Letters(ByteBits(bytes))
  }

  predicate AllLetters(s: string) {
    forall i :: 0 <= i < |s| ==> LetterValue(s[i]).Some?
  }

  function LetterBits(s: string): (bs: Bits)
    requires AllLetters(s)
    ensures |bs| == 5 * |s|
  {
    if s == "" then [] else BitsOf(LetterValue(s[0]).value, 5) + LetterBits(s[1..])
  }

  /** Bits eight at a time as bytes; what is left over is dropped. */
  function Octets(bs: Bits): seq<byte>
    decreases |bs|
  {
    if |bs| < 8 then [] else [Octet(bs[..8])] + Octets(bs[8..])
  }

  function Octet(bs: Bits): byte
    requires |bs| == 8
  {
    FromBitsBound(bs);
    assert Pow2(8) == 256;
    FromBits(bs) as byte
  }

  function Decode(s: string): Option<seq<byte>> {
    if AllLetters(s) then Some(Octets(LetterBits(s))) else None
  }

  // ----- bits and numbers -----

  lemma {:induction false} FromBitsBound(bs: Bits)
    ensures FromBits(bs) < Pow2(|bs|)
  {
    if bs != [] {
      FromBitsBound(bs[..|bs| - 1]);
    }
  }

  lemma {:induction false} FromBitsOf(x: nat, n: nat)
    requires x < Pow2(n)
    ensures FromBits(BitsOf(x, n)) == x
  {
    if n > 0 {
      FromBitsOf(x / 2, n - 1);
      assert BitsOf(x, n)[..n - 1] == BitsOf(x / 2, n - 1);
    }
  }

  lemma {:induction false} BitsOfFrom(bs: Bits)
    ensures BitsOf(FromBits(bs), |bs|) == bs
  {
    if bs != [] {
      var init := bs[..|bs| - 1];
      BitsOfFrom(init);
      assert FromBits(bs) / 2 == FromBits(init);
      assert bs == init + [bs[|bs| - 1]];
    }
  }

  /** Putting `b` behind `p` shifts `p` up by the width of `b`. */
  lemma {:induction false} BitsShift(p: nat, k: nat, b: nat, n: nat)
    requires b < Pow2(n)
    ensures BitsOf(p * Pow2(n) + b, k + n) == BitsOf(p, k) + BitsOf(b, n)
    decreases n
  {
    if n == 0 {
      assert p * Pow2(0) + b == p;
    } else {
      var x := p * Pow2(n) + b;
      HalfShift(p, Pow2(n - 1), b);
      BitsShift(p, k, b / 2, n - 1);
      assert BitsOf(x, k + n) == BitsOf(x / 2, k + (n - 1)) + [x % 2 == 1];
    }
  }

  lemma {:induction false} HalfShift(p: nat, q: nat, b: nat)
    ensures (p * (2 * q) + b) / 2 == p * q + b / 2
    ensures (p * (2 * q) + b) % 2 == b % 2
  {
    assert p * (2 * q) == 2 * (p * q);
  }

  lemma {:induction false} ZeroBits(n: nat)
    ensures BitsOf(0, n) == Zeros(n)
  {
    if n > 0 {
      ZeroBits(n - 1);
    }
  }

  lemma {:induction false} LetterReads(v: nat)
    requires v < 32
    ensures LetterValue(Letter(v)) == Some(v)
  {
  }

  // ----- the round trip -----

  /** Reading letters gives the bits back, filled up with fewer than five zeros. */
  lemma {:induction false} LettersRead(bs: Bits) returns (pad: nat)
    ensures pad < 5 && AllLetters(Letters(bs)) && LetterBits(Letters(bs)) == bs + Zeros(pad)
    decreases |bs|
  {
    hide Group, Letter, LetterBits, AllLetters;
    if bs == [] {
      pad := 0;
      NoLetters();
    } else if |bs| < 5 {
      pad := 5 - |bs|;
      LastGroup(bs + Zeros(pad));
    } else {
      pad := LettersRead(bs[5..]);
      FirstGroup(bs[..5], Letters(bs[5..]));
      assert bs[..5] + (bs[5..] + Zeros(pad)) == bs + Zeros(pad);
    }
  }

  lemma {:induction false} NoLetters()
    ensures AllLetters("") && LetterBits("") == [] == [] + Zeros(0)
  {
  }

  lemma {:induction false} FirstGroup(g: Bits, s: string)
    requires |g| == 5 && AllLetters(s)
    ensures AllLetters([Letter(Group(g))] + s) && LetterBits([Letter(Group(g))] + s) == g + LetterBits(s)
  {
    var t := [Letter(Group(g))] + s;
    LetterReads(Group(g));
    BitsOfFrom(g);
    hide LetterValue, Letter, FromBits, BitsOf;
    assert t[1..] == s;
    assert AllLetters(t) by {
      forall i | 0 <= i < |t| ensures LetterValue(t[i]).Some? {
        assert i > 0 ==> t[i] == s[i - 1];
      }
    }
  }

  lemma {:induction false} LastGroup(g: Bits)
    requires |g| == 5
    ensures AllLetters([Letter(Group(g))]) && LetterBits([Letter(Group(g))]) == g
  {
    FirstGroup(g, "");
    assert [Letter(Group(g))] + "" == [Letter(Group(g))];
  }

  lemma {:induction false} OctetsRead(bytes: seq<byte>, tail: Bits)
    requires |tail| < 8
    ensures Octets(ByteBits(bytes) + tail) == bytes
  {
    var bs := ByteBits(bytes) + tail;
    if bytes != [] {
      var b := bytes[0];
      assert bs[..8] == BitsOf(b as nat, 8);
      assert bs[8..] == ByteBits(bytes[1..]) + tail;
      OctetReads(b);
      OctetsRead(bytes[1..], tail);
      hide Octet, BitsOf;
      assert [b] + bytes[1..] == bytes;
    }
  }

  lemma {:induction false} OctetReads(b: byte)
    ensures Octet(BitsOf(b as nat, 8)) == b
  {
    assert Pow2(8) == 256;
    FromBitsOf(b as nat, 8);
  }

  /** Decoding inverts encoding on every byte string. */
  lemma {:induction false} DecodeEncode(bytes: seq<byte>)
    ensures Decode(Encode(bytes)) == Some(bytes)
  {
    var pad := LettersRead(ByteBits(bytes));
    OctetsRead(bytes, Zeros(pad));
  }

  // ----- canonical text -----

  predicate IsUpper(c: char) {
    'A' <= c <= 'Z' || '2' <= c <= '7'
  }

  predicate AllZero(bs: Bits) {
    forall i :: 0 <= i < |bs| ==> !bs[i]
  }

  /** Upper case, no letter to spare, and nothing but zeros in the bits that make no whole byte. */
  predicate Canonical(s: string) {
    && (forall i :: 0 <= i < |s| ==> IsUpper(s[i]))
    && AllLetters(s)
    && 5 * |s| % 8 < 5
    && AllZero(LetterBits(s)[5 * |s| - 5 * |s| % 8..])
  }

  lemma {:induction false} UpperReads(c: char)
    requires IsUpper(c)
    ensures LetterValue(c).Some? && Letter(LetterValue(c).value) == c
  {
  }

  lemma {:induction false} LetterUpper(v: nat)
    requires v < 32
    ensures IsUpper(Letter(v))
  {
  }

  lemma {:induction false} LettersUpper(bs: Bits)
    ensures forall i :: 0 <= i < |Letters(bs)| ==> IsUpper(Letters(bs)[i])
    decreases |bs|
  {
    hide Letter, IsUpper, Group;
    if bs != [] {
      var g := if |bs| < 5 then bs + Zeros(5 - |bs|) else bs[..5];
      LetterUpper(Group(g));
      if |bs| >= 5 {
        LettersUpper(bs[5..]);
      }
    }
  }

  /** Upper case letters are determined by their bits. */
  lemma {:induction false} LettersUnique(s: string, bs: Bits, pad: nat)
    requires AllLetters(s) && forall i :: 0 <= i < |s| ==> IsUpper(s[i])
    requires pad < 5 && LetterBits(s) == bs + Zeros(pad)
    ensures Letters(bs) == s
    decreases |s|
  {
    if s != "" {
      var v := LetterValue(s[0]).value;
      assert Pow2(5) == 32;
      FromBitsOf(v, 5);
      UpperReads(s[0]);
      hide LetterValue, Letter, IsUpper, BitsOf, FromBits;
      var all := LetterBits(s);
      assert all[..5] == BitsOf(v, 5) && all[5..] == LetterBits(s[1..]);
      assert [s[0]] + s[1..] == s;
      if |bs| < 5 {
        assert all == bs + Zeros(5 - |bs|) == BitsOf(v, 5);
      } else {
        assert bs[..5] == all[..5];
        assert LetterBits(s[1..]) == bs[5..] + Zeros(pad);
        LettersUnique(s[1..], bs[5..], pad);
      }
    }
  }

  lemma {:induction false} OctetKeeps(bs: Bits)
    requires |bs| == 8
    ensures BitsOf(Octet(bs) as nat, 8) == bs
  {
    BitsOfFrom(bs);
  }

  lemma {:induction false} OctetsKeep(bs: Bits)
    ensures ByteBits(Octets(bs)) == bs[..|bs| - |bs| % 8]
    decreases |bs|
  {
    hide Octet, BitsOf;
    if |bs| >= 8 {
      var n, r := |bs|, |bs| % 8;
      OctetKeeps(bs[..8]);
      OctetsKeep(bs[8..]);
      assert |bs[8..]| % 8 == r;
      assert Octets(bs)[1..] == Octets(bs[8..]);
      assert bs[..8] + bs[8..][..n - 8 - r] == bs[..n - r];
    }
  }

  lemma {:induction false} AllZeroIs(bs: Bits)
    ensures AllZero(bs) <==> bs == Zeros(|bs|)
  {
    if AllZero(bs) {
      assert forall i :: 0 <= i < |bs| ==> bs[i] == Zeros(|bs|)[i];
    }
  }

  /** Text that decodes comes back letter for letter from its bytes exactly when it is canonical. */
  lemma {:induction false} EncodeDecodeIff(s: string)
    requires Decode(s).Some?
    ensures Encode(Decode(s).value) == s <==> Canonical(s)
  {
    var all := LetterBits(s);
    var r := |all| % 8;
    var bs := all[..|all| - r];
    var rest := all[|all| - r..];
    OctetsKeep(all);
    assert Encode(Decode(s).value) == Letters(bs);
    AllZeroIs(rest);
    hide LetterBits, Letters, LetterValue, IsUpper, AllZero;
    assert all == bs + rest;
    if Canonical(s) {
      LettersUnique(s, bs, r);
    }
    if Letters(bs) == s {
      LettersUpper(bs);
      var pad := LettersRead(bs);
      assert |bs| + pad == |all|;
      assert rest == (bs + Zeros(pad))[|bs|..] == Zeros(pad);
    }
  }

  // ----- the shift register -----

  /** `x << n` in 32 bits. */
  function Shl(x: nat, n: nat): nat {
    x * Pow2(n) % TWO_32
  }

  /** `x >> n`. */
  function Shr(x: nat, n: nat): nat {
    if n == 0 then x else Shr(x / 2, n - 1)
  }

  /** `y` with all but its low `w` bits cut off. */
  function Low(y: nat, w: nat): nat {
    if w == 0 then 0 else 2 * Low(y / 2, w - 1) + y % 2
  }

  /** Cutting off high bits does not change the low ones. */
  lemma {:induction false} BitsOfLow(y: nat, w: nat, n: nat)
    requires n <= w
    ensures BitsOf(Low(y, w), n) == BitsOf(y, n)
    decreases n
  {
    if n > 0 {
      BitsOfLow(y / 2, w - 1, n - 1);
    }
  }

  lemma {:induction false} FromBitsLow(y: nat, n: nat)
    ensures FromBits(BitsOf(y, n)) == Low(y, n)
    decreases n
  {
    if n > 0 {
      FromBitsLow(y / 2, n - 1);
      assert BitsOf(y, n)[..n - 1] == BitsOf(y / 2, n - 1);
    }
  }

  lemma {:induction false} LowSplit(y: nat, k: nat, n: nat)
    ensures Low(y, k + n) == Pow2(k) * Low(Shr(y, k), n) + Low(y, k)
    decreases k
  {
    if k > 0 {
      LowSplit(y / 2, k - 1, n);
      Doubled(Pow2(k - 1), Low(Shr(y, k), n));
    }
  }

  lemma {:induction false} Doubled(a: nat, b: nat)
    ensures (2 * a) * b == 2 * (a * b)
  {
  }

  lemma {:induction false} Low1(y: nat)
    ensures Shr(y, 1) == y / 2 && Low(y, 1) == y % 2 && Pow2(1) == 2
  {
    assert Shr(y / 2, 0) == y / 2 && Low(y / 2, 0) == 0 && Pow2(0) == 1;
  }

  lemma {:induction false} Low2(y: nat)
    ensures Shr(y, 2) == y / 4 && Low(y, 2) == y % 4 && Pow2(2) == 4
  {
    Low1(y);
    Low1(y / 2);
    LowSplit(y, 1, 1);
    ShrShr(y, 1, 1);
  }

  lemma {:induction false} Low4(y: nat)
    ensures Shr(y, 4) == y / 16 && Low(y, 4) == y % 16 && Pow2(4) == 16
  {
    Low2(y);
    Low2(y / 4);
    LowSplit(y, 2, 2);
    ShrShr(y, 2, 2);
  }

  lemma {:induction false} ShrShr(y: nat, k: nat, n: nat)
    ensures Shr(y, k + n) == Shr(Shr(y, k), n)
    decreases k
  {
    if k > 0 {
      ShrShr(y / 2, k - 1, n);
    }
  }

  lemma {:induction false} Pow2Next(n: nat)
    ensures Pow2(n + 1) == 2 * Pow2(n)
  {
  }

  lemma {:induction false} Low5(y: nat)
    ensures Low(y, 5) == y % 32 && Pow2(5) == 32
  {
    hide Shr, Low, Pow2;
    Low4(y);
    LowSplit(y, 4, 1);
    Low1(y / 16);
    Pow2Next(4);
  }

  lemma {:induction false} Low8(y: nat)
    ensures Shr(y, 8) == y / 256 && Low(y, 8) == y % 256 && Pow2(8) == 256
  {
    Low4(y);
    Low4(y / 16);
    LowSplit(y, 4, 4);
    ShrShr(y, 4, 4);
  }

  lemma {:induction false} Low16(y: nat)
    ensures Shr(y, 16) == y / 65536 && Low(y, 16) == y % 65536 && Pow2(16) == 65536
  {
    Low8(y);
    Low8(y / 256);
    LowSplit(y, 8, 8);
    ShrShr(y, 8, 8);
    assert Pow2(12) == 4096;
  }

  lemma {:induction false} Low32(y: nat)
    ensures Low(y, 32) == y % TWO_32
  {
    hide Low, Shr, Pow2;
    Low16(y);
    Low16(y / 65536);
    LowSplit(y, 16, 16);
    Halves(y);
  }

  lemma {:induction false} Halves(y: nat)
    ensures 65536 * (y / 65536 % 65536) + y % 65536 == y % TWO_32
  {
    var q := y / 65536;
    var p := q / 65536;
    assert y == 65536 * q + y % 65536;
    assert q == 65536 * p + q % 65536;
    assert y == TWO_32 * p + (65536 * (q % 65536) + y % 65536);
  }

  lemma {:induction false} ModAdd(y: nat, b: nat)
    ensures (y % TWO_32 + b) % TWO_32 == (y + b) % TWO_32
  {
  }

  /** Shifting in `n` bits: the register's low bits are the old ones followed by the new ones. */
  lemma {:induction false} ShiftIn(x: nat, k: nat, b: nat, n: nat)
    requires b < Pow2(n) && k + n <= 32
    ensures BitsOf((Shl(x, n) + b) % TWO_32, k + n) == BitsOf(x, k) + BitsOf(b, n)
  {
    var y := x * Pow2(n);
    hide Pow2, BitsOf, Low;
    ModAdd(y, b);
    Low32(y + b);
    BitsOfLow(y + b, 32, k + n);
    BitsShift(x, k, b, n);
  }

  /** The top bits come off by shifting down. */
  lemma {:induction false} BitsSplit(x: nat, k: nat, n: nat)
    ensures BitsOf(x, n + k) == BitsOf(Shr(x, k), n) + BitsOf(x, k)
    decreases k
  {
    if k > 0 {
      BitsSplit(x / 2, k - 1, n);
      assert BitsOf(x, n + k) == BitsOf(x / 2, n + (k - 1)) + [x % 2 == 1];
    } else {
      assert BitsOf(x, n) + [] == BitsOf(x, n);
    }
  }

  /** The `n` bits above the low `k`, as a number. */
  lemma {:induction false} TakeTop(x: nat, k: nat, n: nat)
    ensures Low(Shr(x, k), n) == FromBits(BitsOf(x, n + k)[..n])
    ensures BitsOf(x, n + k)[n..] == BitsOf(x, k)
  {
    BitsSplit(x, k, n);
    FromBitsLow(Shr(x, k), n);
  }

  // ----- the loops -----

  lemma {:induction false} LettersStep(bs: Bits, rest: Bits)
    requires |bs| >= 5
    ensures Letters(bs + rest) == [Letter(Group(bs[..5]))] + Letters(bs[5..] + rest)
  {
    assert (bs + rest)[..5] == bs[..5];
    assert (bs + rest)[5..] == bs[5..] + rest;
  }

  lemma {:induction false} OctetsStep(bs: Bits, rest: Bits)
    requires |bs| >= 8
    ensures Octets(bs + rest) == [Octet(bs[..8])] + Octets(bs[8..] + rest)
  {
    assert (bs + rest)[..8] == bs[..8];
    assert (bs + rest)[8..] == bs[8..] + rest;
  }

  /** One letter out of the register. */
  method PopLetter(buffer: nat, bits: nat) returns (c: char)
    requires bits >= 5
    ensures c == Letter(Group(BitsOf(buffer, bits)[..5]))
    ensures BitsOf(buffer, bits)[5..] == BitsOf(buffer, bits - 5)
  {
    hide BitsOf, Shr, Low, FromBits;
    Low5(Shr(buffer, bits - 5));
    TakeTop(buffer, bits - 5, 5);
    var idx := Shr(buffer, bits - 5) % 32;
    c := ALPHABET[idx];
  }

  /** All the whole letters out of the register, with `rest` still to come. */
  method DrainLetters(buffer: nat, bits: nat, ghost rest: Bits) returns (text: string, left: nat)
    ensures left < 5 && left <= bits
    ensures Letters(BitsOf(buffer, bits) + rest) == text + Letters(BitsOf(buffer, left) + rest)
  {
    hide Letter, Group, Letters, BitsOf;
    text, left := "", bits;
    while left >= 5
      invariant left <= bits
      invariant Letters(BitsOf(buffer, bits) + rest) == text + Letters(BitsOf(buffer, left) + rest)
    {
      LettersStep(BitsOf(buffer, left), rest);
      var c := PopLetter(buffer, left);
      text := text + [c];
      left := left - 5;
    }
  }

  lemma {:induction false} ShlFits(x: nat, n: nat)
    ensures (Shl(x, n) + 0) % TWO_32 == Shl(x, n)
  {
  }

  /** The last letter, its low bits zero. */
  method LastLetter(buffer: nat, bits: nat) returns (c: char)
    requires 0 < bits < 5
    ensures [c] == Letters(BitsOf(buffer, bits))
  {
    var y := Shl(buffer, 5 - bits);
    hide BitsOf, Low, Pow2, FromBits, Shl;
    ShiftIn(buffer, bits, 0, 5 - bits);
    ZeroBits(5 - bits);
    ShlFits(buffer, 5 - bits);
    FromBitsLow(y, 5);
    Low5(y);
    var idx := y % 32;
    c := ALPHABET[idx];
  }

  method PushBase32(out: string, bytes: seq<byte>) returns (r: string)
    ensures r == out + Encode(bytes)
  {
    hide Letters, BitsOf, Shl;
    var buffer: nat, bits: nat := 0, 0;
    var text := "";
    assert BitsOf(0, 0) + ByteBits(bytes[0..]) == ByteBits(bytes);
    for i := 0 to |bytes|
      invariant bits < 5
      invariant Encode(bytes) == text + Letters(BitsOf(buffer, bits) + ByteBits(bytes[i..]))
    {
      var b := bytes[i];
      ghost var rest := ByteBits(bytes[i + 1..]);
      assert bytes[i..][1..] == bytes[i + 1..];
      Low8(0);
      ShiftIn(buffer, bits, b, 8);
      assert BitsOf(buffer, bits) + (BitsOf(b, 8) + rest) == BitsOf(buffer, bits) + BitsOf(b, 8) + rest;
      buffer := (Shl(buffer, 8) + b) % TWO_32;
      bits := bits + 8;
      var more, left := DrainLetters(buffer, bits, rest);
      text := text + more;
      bits := left;
    }
    assert bytes[|bytes|..] == [];
    assert BitsOf(buffer, bits) + [] == BitsOf(buffer, bits);
    if bits > 0 {
      var c := LastLetter(buffer, bits);
      text := text + [c];
    } else {
      EmptyLetters();
    }
    r := out + text;
  }

  lemma {:induction false} EmptyLetters()
    ensures forall bs: Bits :: |bs| == 0 ==> Letters(bs) == ""
  {
  }

  /** One byte out of the register. */
  method PopByte(buffer: nat, bits: nat) returns (b: byte)
    requires bits >= 8
    ensures b == Octet(BitsOf(buffer, bits)[..8])
    ensures BitsOf(buffer, bits)[8..] == BitsOf(buffer, bits - 8)
  {
    hide BitsOf, Shr, Low, FromBits;
    Low8(Shr(buffer, bits - 8));
    TakeTop(buffer, bits - 8, 8);
    b := Shr(buffer, bits - 8) % 256;
  }

  /** What the letters from `i` on still contribute, behind the register. */
  ghost function Pending(buffer: nat, bits: nat, s: string, i: nat): seq<byte>
    requires AllLetters(s) && i <= |s|
  {
    Octets(BitsOf(buffer, bits) + LetterBits(s[i..]))
  }

  lemma {:induction false} PendingStep(buffer: nat, bits: nat, s: string, i: nat, v: nat)
    requires AllLetters(s) && i < |s| && v == LetterValue(s[i]).value && bits < 8
    ensures Pending(buffer, bits, s, i) == Pending((Shl(buffer, 5) + v) % TWO_32, bits + 5, s, i + 1)
  {
    hide Octets, BitsOf, Shl, LetterValue;
    Low5(0);
    ShiftIn(buffer, bits, v, 5);
    assert s[i..][1..] == s[i + 1..];
    var rest := LetterBits(s[i + 1..]);
    assert BitsOf(buffer, bits) + (BitsOf(v, 5) + rest) == BitsOf(buffer, bits) + BitsOf(v, 5) + rest;
  }

  method DecodeBase32(s: string) returns (r: Option<seq<byte>>)
    ensures r == Decode(s)
  {
    hide Octets, BitsOf, Shl, LetterValue, Octet;
    var out: seq<byte> := [];
    var buffer: nat, bits: nat := 0, 0;
    assert s[0..] == s;
    assert AllLetters(s) ==> BitsOf(0, 0) + LetterBits(s) == LetterBits(s);
    for i := 0 to |s|
      invariant bits < 8
      invariant forall j :: 0 <= j < i ==> LetterValue(s[j]).Some?
      invariant AllLetters(s) ==> Octets(LetterBits(s)) == out + Pending(buffer, bits, s, i)
    {
      hide LetterBits;
      var v := LetterValue(s[i]);
      if v.None? {
        return None;
      }
      if AllLetters(s) {
        PendingStep(buffer, bits, s, i, v.value);
      }
      buffer := (Shl(buffer, 5) + v.value) % TWO_32;
      bits := bits + 5;
      if bits >= 8 {
        if AllLetters(s) {
          OctetsStep(BitsOf(buffer, bits), LetterBits(s[i + 1..]));
        }
        var b := PopByte(buffer, bits);
        bits := bits - 8;
        out := out + [b];
      }
    }
    assert s[|s|..] == "";
    assert AllLetters(s);
    LeftoverIsNothing(BitsOf(buffer, bits));
    assert out + [] == out;
    return Some(out);
  }

  lemma {:induction false} LeftoverIsNothing(bs: Bits)
    requires |bs| < 8
    ensures Octets(bs + []) == []
  {
  }
}

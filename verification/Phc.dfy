/** Argon2id hash strings in the PHC format: written by the first boot, kept in the shadow file, read at login. */
module Phc {
  import opened Arithmetic
  import opened Bytes
  import opened Results
  import opened Separated
  import opened ShadowSpec
  import opened ShadowLaws
  import Decimal

  // ----- writing -----

  /** The letter for the low six bits. */
  function Sextet(n: nat): char {
    var v := n % 64;
    if v < 26 then ('A' as int + v) as char
    else if v < 52 then ('a' as int + (v - 26)) as char
    else if v < 62 then ('0' as int + (v - 52)) as char
    else if v == 62 then '+'
    else '/'
  }

  /** Base64 without padding. */
  function Base64(input: seq<byte>): string {
    if |input| == 0 then ""
    else if |input| == 1 then
      var n := (input[0] as nat) * 65536;
      [Sextet(n / 262144), Sextet(n / 4096)]
    else if |input| == 2 then
      var n := (input[0] as nat) * 65536 + (input[1] as nat) * 256;
      [Sextet(n / 262144), Sextet(n / 4096), Sextet(n / 64)]
    else
      var n := (input[0] as nat) * 65536 + (input[1] as nat) * 256 + input[2];
      [Sextet(n / 262144), Sextet(n / 4096), Sextet(n / 64), Sextet(n)] + Base64(input[3..])
  }

  datatype Params = Params(memory: u32, passes: u32, lanes: u32)

  function FormatPhc(salt: seq<byte>, tag: seq<byte>, params: Params): string {
    "$argon2id$v=19$m=" + Decimal.Text(params.memory) + ",t=" + Decimal.Text(params.passes) + ",p="
    + Decimal.Text(params.lanes) + "$" + Base64(salt) + "$" + Base64(tag)
  }

  /** A character that separates nothing. */
  predicate Plain(c: char) {
    c != '$' && c != ':' && c != '\n'
  }

  predicate AllPlain(s: string) {
    forall i :: 0 <= i < |s| ==> Plain(s[i])
  }

  lemma {:induction false} SextetPlain(n: nat)
    ensures Plain(Sextet(n))
  {
  }

  lemma {:induction false} Base64Plain(input: seq<byte>)
    ensures AllPlain(Base64(input))
  {
    hide Sextet, Plain;
    forall n: nat ensures Plain(Sextet(n)) {
      SextetPlain(n);
    }
    if |input| > 2 {
      Base64Plain(input[3..]);
    }
  }

  lemma {:induction false} DecimalPlain(n: nat)
    ensures AllPlain(Decimal.Text(n))
  {
  }

  lemma {:induction false} PlainLacks(s: string)
    requires AllPlain(s)
    ensures Lacks(s, '$') && Lacks(s, ':') && Lacks(s, '\n')
  {
  }

  lemma {:induction false} PlainConcat(a: string, b: string)
    requires AllPlain(a) && AllPlain(b)
    ensures AllPlain(a + b)
  {
  }

  /** The segments of a hash string. */
  function Segments(salt: seq<byte>, tag: seq<byte>, params: Params): (parts: seq<string>)
    ensures |parts| == 6
  {
    ["", "argon2id", "v=19", Costs(params), Base64(salt), Base64(tag)]
  }

  function Costs(params: Params): string {
    "m=" + Decimal.Text(params.memory) + ",t=" + Decimal.Text(params.passes) + ",p=" + Decimal.Text(params.lanes)
  }

  lemma {:induction false} CostsPlain(params: Params)
    ensures AllPlain(Costs(params))
  {
    assert AllPlain("m=") && AllPlain(",t=") && AllPlain(",p=");
    var m, t, p := Decimal.Text(params.memory), Decimal.Text(params.passes), Decimal.Text(params.lanes);
    DecimalPlain(params.memory);
    DecimalPlain(params.passes);
    DecimalPlain(params.lanes);
    hide AllPlain, Decimal.Text;
    PlainConcat("m=", m);
    PlainConcat("m=" + m, ",t=");
    PlainConcat("m=" + m + ",t=", t);
    PlainConcat("m=" + m + ",t=" + t, ",p=");
    PlainConcat("m=" + m + ",t=" + t + ",p=", p);
  }

  lemma {:induction false} FormatIsJoin(salt: seq<byte>, tag: seq<byte>, params: Params)
    ensures FormatPhc(salt, tag, params) == Join(Segments(salt, tag, params), '$')
  {
    var m, t, p := Decimal.Text(params.memory), Decimal.Text(params.passes), Decimal.Text(params.lanes);
    var (x, y) := (Base64(salt), Base64(tag));
    var parts := Segments(salt, tag, params);
    hide Decimal.Text, Base64;
    JoinSix(parts[3], x, y);
    assert FormatPhc(salt, tag, params) == "$argon2id$v=19$m=" + (m + ",t=" + t + ",p=" + p + "$" + x + "$" + y);
    assert "$argon2id$v=19$" + "m=" == "$argon2id$v=19$m=";
  }

  lemma {:induction false} JoinSix(a: string, b: string, c: string)
    ensures Join(["", "argon2id", "v=19", a, b, c], '$') == "$argon2id$v=19$" + (a + ("$" + (b + ("$" + c))))
  {
    assert Join([c], '$') == c;
    assert [b, c][1..] == [c];
    assert Join([b, c], '$') == b + "$" + c;
    assert [a, b, c][1..] == [b, c];
    assert Join([a, b, c], '$') == a + "$" + (b + "$" + c);
    assert ["v=19", a, b, c][1..] == [a, b, c];
    assert ["argon2id", "v=19", a, b, c][1..] == ["v=19", a, b, c];
    assert ["", "argon2id", "v=19", a, b, c][1..] == ["argon2id", "v=19", a, b, c];
    var t := a + "$" + (b + "$" + c);
    assert Join(["v=19", a, b, c], '$') == "v=19" + "$" + t;
    assert Join(["argon2id", "v=19", a, b, c], '$') == "argon2id" + "$" + ("v=19" + "$" + t);
    assert Join(["", "argon2id", "v=19", a, b, c], '$') == "" + "$" + ("argon2id" + "$" + ("v=19" + "$" + t));
    hide Join;
    assert "" + "$" + ("argon2id" + "$" + ("v=19" + "$" + (a + "$" + (b + "$" + c)))) ==
           "$argon2id$v=19$" + (a + ("$" + (b + ("$" + c))));
  }

  lemma {:induction false} SegmentsPlain(salt: seq<byte>, tag: seq<byte>, params: Params)
    ensures forall i :: 0 <= i < 6 ==> AllPlain(Segments(salt, tag, params)[i])
  {
    CostsPlain(params);
    Base64Plain(salt);
    Base64Plain(tag);
    assert AllPlain("") && AllPlain("argon2id") && AllPlain("v=19");
    hide AllPlain, Costs, Base64;
  }

  /** A hash string falls into its segments at the dollars. */
  lemma {:induction false} FormatSplits(salt: seq<byte>, tag: seq<byte>, params: Params)
    ensures Split(FormatPhc(salt, tag, params), '$') == Segments(salt, tag, params)
    ensures Lacks(FormatPhc(salt, tag, params), ':') && Lacks(FormatPhc(salt, tag, params), '\n')
  {
    var parts := Segments(salt, tag, params);
    FormatIsJoin(salt, tag, params);
    SegmentsPlain(salt, tag, params);
    hide FormatPhc, Segments, Split, AllPlain, Lacks;
    forall i | 0 <= i < 6 ensures Lacks(parts[i], '$') && Lacks(parts[i], ':') && Lacks(parts[i], '\n') {
      PlainLacks(parts[i]);
    }
    SplitJoin(parts, '$');
    JoinLacks(parts, '$', ':');
    JoinLacks(parts, '$', '\n');
  }

  /** Whatever the salt, the tag and the parameters, the hash string is one a shadow record can hold. */
  lemma {:induction false} PhcIsWellFormed(salt: seq<byte>, tag: seq<byte>, params: Params)
    ensures var phc := FormatPhc(salt, tag, params); PhcShape(phc) && Lacks(phc, ':') && Lacks(phc, '\n')
  {
    var phc := FormatPhc(salt, tag, params);
    FormatSplits(salt, tag, params);
    CountSplit(phc, '$');
    FormatIsJoin(salt, tag, params);
    JoinSix(Costs(params), Base64(salt), Base64(tag));
    hide FormatPhc, Split, Count, Costs, Base64, Lacks;
    assert "$argon2id$" <= "$argon2id$v=19$";
  }

  // ----- base64 -----

  function SextetValue(c: char): (v: Option<nat>)
    ensures v.Some? ==> v.value < 64
  {
    if 'A' <= c <= 'Z' then Some(c as int - 'A' as int)
    else if 'a' <= c <= 'z' then Some(c as int - 'a' as int + 26)
    else if '0' <= c <= '9' then Some(c as int - '0' as int + 52)
    else if c == '+' then Some(62)
    else if c == '/' then Some(63)
    else None
  }

  /** The values of letters, if all are in the alphabet. */
  function SextetValues(s: string): (vs: Option<seq<nat>>)
    ensures vs.Some? ==> |vs.value| == |s| && forall i :: 0 <= i < |s| ==> vs.value[i] < 64
  {
    if s == "" then Some([])
    else
      var (first, rest) := (SextetValue(s[0]), SextetValues(s[1..]));
      if first.Some? && rest.Some? then Some([first.value] + rest.value) else None
  }

  /** Three bytes out of twenty-four bits, as many as asked for. */
  function Unpack(n: nat, count: nat): (bs: seq<byte>)
    requires count <= 3
    ensures |bs| == count
  {
    [n / 65536 % 256, n / 256 % 256, n % 256][..count]
  }

  /** Missing groups are zero. */
  function Padded(vs: seq<nat>): (r: seq<nat>)
    requires |vs| <= 4
    ensures |r| == 4 && forall i :: 0 <= i < 4 ==> r[i] == if i < |vs| then vs[i] else 0
    decreases 4 - |vs|
  {
    if |vs| == 4 then vs else Padded(vs + [0])
  }

  function Base64Decode(s: string): Option<seq<byte>>
    decreases |s|
  {
    if s == "" then Some([])
    else if |s| == 1 then None
    else
      var k := if |s| < 4 then |s| else 4;
      var vs := SextetValues(s[..k]);
      if vs.None? then None
      else
        var v := Padded(vs.value);
        var n := Pack(v[0], v[1], v[2], v[3]);
        var rest := Base64Decode(s[k..]);
        if rest.None? then None else Some(Unpack(n, k - 1) + rest.value)
  }

  lemma {:induction false} SextetReads(n: nat)
    ensures SextetValue(Sextet(n)) == Some(n % 64)
  {
  }

  lemma {:induction false} MoreLetters(s: string, n: seq<nat>)
    requires |s| == |n| && forall i :: 0 <= i < |s| ==> s[i] == Sextet(n[i])
    ensures SextetValues(s).Some? && forall i :: 0 <= i < |s| ==> SextetValues(s).value[i] == n[i] % 64
  {
    hide Sextet, SextetValue;
    if s != "" {
      SextetReads(n[0]);
      assert s[0] == Sextet(n[0]);
      MoreLetters(s[1..], n[1..]);
    }
  }

  /** Twenty-four bits in four groups of six. */
  function Pack(a: nat, b: nat, c: nat, d: nat): nat {
    a * 262144 + b * 4096 + c * 64 + d
  }

  lemma {:induction false} Groups(a: nat, b: nat, c: nat, d: nat)
    requires a < 64 && b < 64 && c < 64 && d < 64
    ensures var n := Pack(a, b, c, d);
            n / 262144 % 64 == a && n / 4096 % 64 == b && n / 64 % 64 == c && n % 64 == d
  {
    var n := Pack(a, b, c, d);
    assert n / 64 == a * 4096 + b * 64 + c;
    assert n / 4096 == a * 64 + b;
    assert n / 262144 == a;
  }

  /** Four groups of six bits are three groups of eight. */
  lemma {:induction false} Regroup(x: byte, y: byte, z: byte)
    ensures var n := (x as nat) * 65536 + (y as nat) * 256 + z;
            Pack(n / 262144 % 64, n / 4096 % 64, n / 64 % 64, n % 64) == n
  {
    var n := (x as nat) * 65536 + (y as nat) * 256 + z;
    var (a, b, c, d) := (x / 4, x % 4 * 16 + y / 16, y % 16 * 4 + z / 64, z % 64);
    assert n == Pack(a, b, c, d);
    Groups(a, b, c, d);
  }

  lemma {:induction false} Octets(x: byte, y: byte, z: byte)
    ensures Unpack((x as nat) * 65536 + (y as nat) * 256 + z, 3) == [x, y, z]
  {
    var n := (x as nat) * 65536 + (y as nat) * 256 + z;
    assert n / 256 == (x as nat) * 256 + y;
    assert n / 65536 == x;
  }

  lemma {:induction false} FourLetters(a: nat, b: nat, c: nat, d: nat, rest: string)
    ensures var t := Base64Decode(rest);
            Base64Decode([Sextet(a), Sextet(b), Sextet(c), Sextet(d)] + rest) ==
            if t.None? then None else Some(Unpack(Pack(a % 64, b % 64, c % 64, d % 64), 3) + t.value)
  {
    var s := [Sextet(a), Sextet(b), Sextet(c), Sextet(d)] + rest;
    hide Sextet, SextetValues, Unpack, Pack;
    MoreLetters(s[..4], [a, b, c, d]);
    assert s[4..] == rest;
  }

  lemma {:induction false} ThreeLetters(a: nat, b: nat, c: nat)
    ensures Base64Decode([Sextet(a), Sextet(b), Sextet(c)]) == Some(Unpack(Pack(a % 64, b % 64, c % 64, 0), 2))
  {
    var s := [Sextet(a), Sextet(b), Sextet(c)];
    hide Sextet, SextetValues, Unpack, Pack;
    MoreLetters(s[..3], [a, b, c]);
    assert s[3..] == "";
    NothingDecodes();
    var u := Unpack(Pack(a % 64, b % 64, c % 64, 0), 2);
    assert u + [] == u;
  }

  lemma {:induction false} TwoLetters(a: nat, b: nat)
    ensures Base64Decode([Sextet(a), Sextet(b)]) == Some(Unpack(Pack(a % 64, b % 64, 0, 0), 1))
  {
    var s := [Sextet(a), Sextet(b)];
    hide Sextet, SextetValues, Unpack, Pack;
    MoreLetters(s[..2], [a, b]);
    assert s[2..] == "";
    NothingDecodes();
    var u := Unpack(Pack(a % 64, b % 64, 0, 0), 1);
    assert u + [] == u;
  }

  lemma {:induction false} UnpackFewer(n: nat, k: nat)
    requires k <= 3
    ensures Unpack(n, k) == Unpack(n, 3)[..k]
  {
  }

  /** The groups and the bytes of a triple that ends in zeros. */
  lemma {:induction false} Short(x: byte, y: byte, n: nat)
    requires n == (x as nat) * 65536 + (y as nat) * 256
    ensures Pack(n / 262144 % 64, n / 4096 % 64, n / 64 % 64, 0) == n && Unpack(n, 2) == [x, y]
    ensures y == 0 ==> Pack(n / 262144 % 64, n / 4096 % 64, 0, 0) == n && Unpack(n, 1) == [x]
  {
    hide Unpack, Pack;
    var z: byte := 0;
    assert n == (x as nat) * 65536 + (y as nat) * 256 + z;
    LowZero(x, y);
    Regroup(x, y, z);
    Octets(x, y, z);
    UnpackFewer(n, 1);
    UnpackFewer(n, 2);
    assert [x, y, z][..2] == [x, y] && [x, y, z][..1] == [x];
  }

  lemma {:induction false} OneByte(x: byte)
    ensures Base64Decode(Base64([x])) == Some([x])
  {
    var n := (x as nat) * 65536;
    assert Base64([x]) == [Sextet(n / 262144), Sextet(n / 4096)];
    hide Sextet, Base64, Base64Decode, Unpack, Pack;
    TwoLetters(n / 262144, n / 4096);
    Short(x, 0, n);
  }

  lemma {:induction false} TwoBytes(x: byte, y: byte)
    ensures Base64Decode(Base64([x, y])) == Some([x, y])
  {
    var n := (x as nat) * 65536 + (y as nat) * 256;
    assert Base64([x, y]) == [Sextet(n / 262144), Sextet(n / 4096), Sextet(n / 64)];
    hide Sextet, Base64, Base64Decode, Unpack, Pack;
    ThreeLetters(n / 262144, n / 4096, n / 64);
    Short(x, y, n);
  }

  lemma {:induction false} ThreeBytes(x: byte, y: byte, z: byte, rest: seq<byte>)
    requires Base64Decode(Base64(rest)) == Some(rest)
    ensures Base64Decode(Base64([x, y, z] + rest)) == Some([x, y, z] + rest)
  {
    var n := (x as nat) * 65536 + (y as nat) * 256 + z;
    assert ([x, y, z] + rest)[3..] == rest;
    assert Base64([x, y, z] + rest) == [Sextet(n / 262144), Sextet(n / 4096), Sextet(n / 64), Sextet(n)] + Base64(rest);
    hide Sextet, Base64, Base64Decode, Unpack, Pack;
    FourLetters(n / 262144, n / 4096, n / 64, n, Base64(rest));
    Regroup(x, y, z);
    Octets(x, y, z);
  }

  /** Decoding inverts encoding on every byte string. */
  lemma {:induction false} Base64RoundTrip(input: seq<byte>)
    ensures Base64Decode(Base64(input)) == Some(input)
  {
    NothingDecodes();
    assert Base64([]) == "";
    hide Base64, Base64Decode;
    if |input| == 1 {
      OneByte(input[0]);
      assert input == [input[0]];
    } else if |input| == 2 {
      TwoBytes(input[0], input[1]);
      assert input == [input[0], input[1]];
    } else if |input| > 2 {
      Base64RoundTrip(input[3..]);
      ThreeBytes(input[0], input[1], input[2], input[3..]);
      assert [input[0], input[1], input[2]] + input[3..] == input;
    }
  }

  lemma {:induction false} LowZero(x: byte, y: byte)
    ensures var n := (x as nat) * 65536 + (y as nat) * 256;
            n % 64 == 0 && (y == 0 ==> n / 64 % 64 == 0)
  {
    assert (x as nat) * 65536 + (y as nat) * 256 == 64 * ((x as nat) * 1024 + (y as nat) * 4);
  }

  lemma {:induction false} NothingDecodes()
    ensures Base64Decode("") == Some([])
  {
  }

  /** Letters are read exactly as they are written. */
  lemma {:induction false} LetterIff(c: char, v: nat)
    ensures SextetValue(c) == Some(v) <==> v < 64 && Sextet(v) == c
  {
  }

  /** The alphabet is that of RFC 4648: these are examples that use letters of all five kinds. */
  lemma {:induction false} Base64Examples()
    ensures Base64([102, 111, 111, 98, 97, 114]) == "Zm9vYmFy"
    ensures Base64([251, 255, 191]) == "+/+/"
  {
    assert [102, 111, 111, 98, 97, 114][3..] == [98, 97, 114];
    assert Base64([98, 97, 114]) == "YmFy";
  }

  predicate IsLetter(c: char) {
    exists v :: 0 <= v < 64 && Sextet(v) == c
  }

  predicate AllLetters(s: string) {
    forall i :: 0 <= i < |s| ==> IsLetter(s[i])
  }

  lemma {:induction false} LettersConcat(a: string, b: string)
    ensures AllLetters(a + b) <==> AllLetters(a) && AllLetters(b)
  {
    hide IsLetter;
    if AllLetters(a + b) {
      assert forall i :: 0 <= i < |a| ==> (a + b)[i] == a[i];
      assert forall i :: 0 <= i < |b| ==> (a + b)[|a| + i] == b[i];
    }
  }

  lemma {:induction false} ValuesIff(s: string)
    ensures SextetValues(s).Some? <==> AllLetters(s)
  {
    if s != "" {
      forall v: nat ensures SextetValue(s[0]) == Some(v) <==> v < 64 && Sextet(v) == s[0] {
        LetterIff(s[0], v);
      }
      assert SextetValue(s[0]).Some? <==> IsLetter(s[0]) by {
        hide SextetValue, Sextet;
        if SextetValue(s[0]).Some? {
          assert Sextet(SextetValue(s[0]).value) == s[0];
        }
      }
      hide SextetValue, IsLetter;
      ValuesIff(s[1..]);
      assert s == [s[0]] + s[1..];
      LettersConcat([s[0]], s[1..]);
    }
  }

  lemma {:induction false} DecodeUnfold(s: string, k: nat)
    requires |s| >= 2 && k == if |s| < 4 then |s| else 4
    ensures Base64Decode(s).Some? <==> SextetValues(s[..k]).Some? && Base64Decode(s[k..]).Some?
  {
    hide SextetValues, Unpack, Pack;
  }

  lemma {:induction false} ShortDecodes(s: string)
    requires |s| < 2
    ensures Base64Decode(s).Some? <==> s == ""
  {
  }

  /** Text decodes exactly when it is over the alphabet and its last group is not a single letter. */
  lemma {:induction false} Base64DecodesIff(s: string)
    ensures Base64Decode(s).Some? <==> |s| % 4 != 1 && AllLetters(s)
    decreases |s|
  {
    hide SextetValues, Base64Decode, IsLetter;
    if |s| < 2 {
      ShortDecodes(s);
    } else {
      hide AllLetters;
      var k := if |s| < 4 then |s| else 4;
      DecodeUnfold(s, k);
      ValuesIff(s[..k]);
      Base64DecodesIff(s[k..]);
      assert s == s[..k] + s[k..];
      LettersConcat(s[..k], s[k..]);
    }
  }

  // ----- reading -----

  datatype PhcError =
    | InvalidPhc
    | UnsupportedVariant
    | UnsupportedVersion
    | InvalidTime
    | InvalidLanes
    | InvalidMemory
    | Base64Decoding
    | InvalidSalt
    | InvalidTagLength

  datatype Parsed = Parsed(params: Params, salt: seq<byte>, tag: seq<byte>)

  datatype Found = Found(memory: Option<u32>, passes: Option<u32>, lanes: Option<u32>)

  /** One `key=number`; a repeated key overrides. */
  function ReadCost(f: Found, kv: string): Option<Found> {
    match SplitAtEq(kv)
    case None => None
    case Some(p) =>
      var n := Decimal.Within(p.value, U32_MAX);
      if n.None? then None
      else if p.key == "m" then Some(f.(memory := Some(n.value)))
      else if p.key == "t" then Some(f.(passes := Some(n.value)))
      else if p.key == "p" then Some(f.(lanes := Some(n.value)))
      else None
  }

  function ReadCosts(kvs: seq<string>, f: Found): Option<Found> {
    if kvs == [] then Some(f)
    else
      var g := ReadCost(f, kvs[0]);
      if g.None? then None else ReadCosts(kvs[1..], g.value)
  }

  function Validate(p: Params): Option<PhcError> {
    if p.passes < 1 then Some(InvalidTime)
    else if p.lanes == 0 || p.lanes > 0x00FF_FFFF then Some(InvalidLanes)
    else if p.memory < 8 * p.lanes then Some(InvalidMemory)
    else None
  }

  function ReadBlobs(params: Params, salt64: string, tag64: string): Result<Parsed, PhcError> {
    var (salt, tag) := (Base64Decode(salt64), Base64Decode(tag64));
    if salt.None? || tag.None? then Err(Base64Decoding)
    else if |salt.value| < 8 then Err(InvalidSalt)
    else if |tag.value| < 4 || |tag.value| > 128 then Err(InvalidTagLength)
    else Ok(Parsed(params, salt.value, tag.value))
  }

  function ParsePhc(s: string): Result<Parsed, PhcError> {
    var parts := Split(s, '$');
    if parts[0] != "" then Err(InvalidPhc)
    else if |parts| < 2 || parts[1] != "argon2id" then Err(UnsupportedVariant)
    else if |parts| < 3 then Err(InvalidPhc)
    else if parts[2] != "v=19" then Err(UnsupportedVersion)
    else if |parts| != 6 then Err(InvalidPhc)
    else
      var f := ReadCosts(Split(parts[3], ','), Found(None, None, None));
      if f.None? || f.value.memory.None? || f.value.passes.None? || f.value.lanes.None? then Err(InvalidPhc)
      else
        var params := Params(f.value.memory.value, f.value.passes.value, f.value.lanes.value);
        if Validate(params).Some? then Err(Validate(params).value) else ReadBlobs(params, parts[4], parts[5])
  }

  /** A cost is read exactly from one of the three letters, an equals sign, and digits that fit 32 bits. */
  lemma {:induction false} CostIff(f: Found, kv: string)
    ensures ReadCost(f, kv).Some? <==>
              && |kv| > 2 && kv[0] in "mtp" && kv[1] == '=' && Decimal.AllDigits(kv[2..])
              && Decimal.Value(kv[2..]) <= 0xFFFF_FFFF
    ensures ReadCost(f, kv).Some? ==>
              var (g, n) := (ReadCost(f, kv).value, Decimal.Value(kv[2..]));
              g == if kv[0] == 'm' then f.(memory := Some(n)) else if kv[0] == 't' then f.(passes := Some(n))
                   else f.(lanes := Some(n))
  {
    hide Decimal.Value;
    if SplitAtEq(kv).Some? {
      SplitAtEqJoins(kv);
    }
    if |kv| >= 2 && kv[1] == '=' && kv[0] != '=' {
      assert kv == [kv[0]] + "=" + kv[2..];
      SplitAtEqIs([kv[0]], kv[2..]);
    }
    hide SplitAtEq;
  }

  /** A hash string is accepted exactly when it falls into six parts, the first four of which are empty, the variant,
      the version and readable costs in range, and the last two decode to a salt of at least 8 bytes and a tag of 4 to
      128. */
  lemma {:induction false} PhcParsesIff(s: string)
    ensures var parts := Split(s, '$');
            ParsePhc(s).Ok? <==>
              && |parts| == 6 && parts[0] == "" && parts[1] == "argon2id" && parts[2] == "v=19"
              && var f := ReadCosts(Split(parts[3], ','), Found(None, None, None));
                 && f.Some? && f.value.memory.Some? && f.value.passes.Some? && f.value.lanes.Some?
                 && 1 <= f.value.passes.value && 1 <= f.value.lanes.value <= 0x00FF_FFFF
                 && 8 * f.value.lanes.value <= f.value.memory.value
                 && Base64Decode(parts[4]).Some? && |Base64Decode(parts[4]).value| >= 8
                 && Base64Decode(parts[5]).Some? && 4 <= |Base64Decode(parts[5]).value| <= 128
  {
    hide Split, ReadCosts, Base64Decode;
  }

  /** Which complaint about the front of a hash string comes first. */
  lemma {:induction false} PhcFrontError(s: string)
    ensures var (r, parts) := (ParsePhc(s), Split(s, '$'));
            && (parts[0] != "" ==> r == Err(InvalidPhc))
            && (parts[0] == "" ==> (r == Err(UnsupportedVariant) <==> |parts| < 2 || parts[1] != "argon2id"))
            && (r == Err(UnsupportedVersion) <==>
                  |parts| >= 3 && parts[0] == "" && parts[1] == "argon2id" && parts[2] != "v=19")
  {
    hide Split, ReadCosts, Base64Decode;
  }

  lemma {:induction false} CostReads(f: Found, key: string, n: u32)
    requires key == "m" || key == "t" || key == "p"
    ensures ReadCost(f, key + "=" + Decimal.Text(n)) == Some(
              if key == "m" then f.(memory := Some(n)) else if key == "t" then f.(passes := Some(n))
              else f.(lanes := Some(n)))
  {
    SplitAtEqIs(key, Decimal.Text(n));
    Decimal.TextValue(n);
    hide Decimal.Text, SplitAtEq, Decimal.Value;
  }

  lemma {:induction false} CostsSplit(params: Params)
    ensures Split(Costs(params), ',') ==
            ["m=" + Decimal.Text(params.memory), "t=" + Decimal.Text(params.passes), "p=" + Decimal.Text(params.lanes)]
  {
    var (m, t, p) := ("m=" + Decimal.Text(params.memory), "t=" + Decimal.Text(params.passes),
      "p=" + Decimal.Text(params.lanes));
    var parts := [m, t, p];
    assert parts[1..] == [t, p] && [t, p][1..] == [p];
    assert Join([p], ',') == p && Join([t, p], ',') == t + [','] + p;
    assert Join(parts, ',') == m + [','] + (t + [','] + p);
    assert Lacks(m, ',') && Lacks(t, ',') && Lacks(p, ',');
    hide Decimal.Text, Lacks, Split, Join;
    assert Costs(params) == m + [','] + (t + [','] + p);
    assert AllLack(parts, ',');
    SplitJoin(parts, ',');
  }

  lemma {:induction false} CostsRead(params: Params)
    ensures ReadCosts(Split(Costs(params), ','), Found(None, None, None)) ==
            Some(Found(Some(params.memory), Some(params.passes), Some(params.lanes)))
  {
    CostsSplit(params);
    var (m, t, p) := ("m=" + Decimal.Text(params.memory), "t=" + Decimal.Text(params.passes),
      "p=" + Decimal.Text(params.lanes));
    assert [m, t, p][1..] == [t, p] && [t, p][1..] == [p] && [p][1..] == [];
    hide Split, Costs, ReadCost, Decimal.Text;
    var f0 := Found(None, None, None);
    CostReads(f0, "m", params.memory);
    CostReads(f0.(memory := Some(params.memory)), "t", params.passes);
    CostReads(f0.(memory := Some(params.memory), passes := Some(params.passes)), "p", params.lanes);
    assert "m" + "=" == "m=" && "t" + "=" == "t=" && "p" + "=" == "p=";
    var f2 := f0.(memory := Some(params.memory), passes := Some(params.passes));
    assert ReadCosts([p], f2) == Some(f2.(lanes := Some(params.lanes)));
    assert ReadCosts([t, p], f0.(memory := Some(params.memory))) == ReadCosts([p], f2);
  }

  /** A hash string reads back as what it was made of, exactly when parameters and lengths are in range. */
  lemma {:induction false} PhcReadsBack(salt: seq<byte>, tag: seq<byte>, params: Params)
    ensures var r := ParsePhc(FormatPhc(salt, tag, params));
            && (r.Ok? ==> r == Ok(Parsed(params, salt, tag)))
            && (r.Ok? <==> 1 <= params.passes && 1 <= params.lanes <= 0x00FF_FFFF && 8 * params.lanes <= params.memory
                           && |salt| >= 8 && 4 <= |tag| <= 128)
  {
    FormatSplits(salt, tag, params);
    CostsRead(params);
    Base64RoundTrip(salt);
    Base64RoundTrip(tag);
    hide FormatPhc, Split, Costs, ReadCosts, Base64, Base64Decode;
  }

  // ----- passwords -----

  /** The password hash, left open: a tag of the asked length from password, salt and parameters. */
  type Argon = (string, seq<byte>, Params, nat) -> seq<byte>

  /** A tag as the array it is stored in. */
  function Tag(hash: Argon, password: string, salt: seq<byte>, params: Params, len: nat): (t: seq<byte>)
    ensures |t| == len
  {
    (hash(password, salt, params, len) + seq(len, _ => 0))[..len]
  }

  /** Check a password against a hash string. */
  function Verify(hash: Argon, password: string, phc: string): Result<bool, PhcError> {
    match ParsePhc(phc)
    case Err(e) => Err(e)
    case Ok(p) => Ok(Tag(hash, password, p.salt, p.params, |p.tag|) == p.tag)
  }

  /** The hash string stored for a password. */
  function Enrolled(hash: Argon, password: string, salt: seq<byte>, params: Params): string {
    FormatPhc(salt, Tag(hash, password, salt, params, 32), params)
  }

  /** A stored hash string accepts its own password, and another one exactly when the two collide. */
  lemma {:induction false} EnrolledVerifies(hash: Argon, password: string, salt: seq<byte>, params: Params,
                                            typed: string)
    requires Validate(params).None? && |salt| >= 8
    ensures Verify(hash, password, Enrolled(hash, password, salt, params)) == Ok(true)
    ensures Verify(hash, typed, Enrolled(hash, password, salt, params)) ==
            Ok(Tag(hash, typed, salt, params, 32) == Tag(hash, password, salt, params, 32))
  {
    hide Tag, ParsePhc, FormatPhc;
    PhcReadsBack(salt, Tag(hash, password, salt, params, 32), params);
  }
}

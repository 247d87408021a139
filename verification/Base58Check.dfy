/** Base58Check: a version byte in front, four bytes of checksum behind, and the codec around them. */
module Base58Check {
  import opened Positional
  import opened Base58
  import opened CTypes
  import opened Base58Encoder
  import opened Base58RoundTrip

  type Digest = d: seq<Byte> | |d| == 32 witness seq(32, _ => 0)

  datatype Hashed = Failed | Hash(digest: Digest)

  /** b58_sha256_impl: any hash, which may fail. */
  type Sha256 = seq<Byte> -> Hashed

  /** my_dblsha256 */
  function DoubleSha256(sha: Sha256, data: seq<Byte>): Hashed
  {
    match sha(data)
    case Failed => Failed
    case Hash(digest) => sha(digest)
  }

  datatype Checked = NoHash | Bytes(bytes: seq<Byte>)

  /** What b58check_enc encodes. */
  function AddCheck(sha: Sha256, ver: Byte, data: seq<Byte>): Checked
  {
    match DoubleSha256(sha, [ver] + data)
    case Failed => NoHash
    case Hash(digest) => Bytes([ver] + data + digest[..4])
  }

  /** In terms of the hash alone: what is encoded ends in the first four bytes of the hash of the hash. */
  lemma AddCheckIs(sha: Sha256, ver: Byte, data: seq<Byte>)
    ensures var bytes := [ver] + data;
      if sha(bytes).Hash? && sha(sha(bytes).digest).Hash?
      then AddCheck(sha, ver, data) == Bytes(bytes + sha(sha(bytes).digest).digest[..4])
      else AddCheck(sha, ver, data) == NoHash
  {
  }

  /** How b58check ends: with the version byte or the negative number of the first test that fails, with a
      read beyond a buffer, or not at all. */
  datatype CheckResult = Returns(value: int) | OffEnd | Endless

  function Verdict(sha: Sha256, bin: seq<Byte>, base58str: string): CheckResult
  {
    if |bin| < 4 then Returns(-4) else
      match DoubleSha256(sha, bin[..|bin| - 4])
      case Failed => Returns(-2)
      case Hash(digest) => if bin[|bin| - 4..] != digest[..4] then Returns(-1) else ZerosVerdict(bin, base58str)
  }

  /** How many zero bytes meet '1's. */
  function CommonZeros(bin: seq<Byte>, base58str: string): (k: nat)
  {
    if LeadingZeros(bin) <= LeadingOnes(base58str) then LeadingZeros(bin) else LeadingOnes(base58str)
  }

  /** The comparison of zeros, whose index is an unsigned of 32 bits. */
  function ZerosVerdict(bin: seq<Byte>, base58str: string): CheckResult
    requires |bin| > 0
  {
    var k := CommonZeros(bin, base58str);
    if k >= UINT32_SIZE then Endless
    else if k >= |bin| || k >= |base58str| then OffEnd
    else if LeadingZeros(bin) != LeadingOnes(base58str) then Returns(-3)
    else Returns(bin[0])
  }

  lemma LeadingOnesAre(s: string)
    ensures var n := LeadingOnes(s);
      n <= |s| && (forall i :: 0 <= i < n ==> s[i] == '1') && (n < |s| ==> s[n] != '1')
  {
    if |s| > 0 && s[0] == '1' {
      LeadingOnesAre(s[1..]);
      assert forall i :: 1 <= i < |s| ==> s[i] == s[1..][i - 1];
    }
  }

  /** The verdict in terms of the hash and of the counts `z` of leading zero bytes and `o` of leading '1's. */
  lemma VerdictIs(sha: Sha256, bin: seq<Byte>, text: string, z: nat, o: nat)
    requires z <= |bin| && (forall i :: 0 <= i < z ==> bin[i] == 0) && (z < |bin| ==> bin[z] != 0)
    requires o <= |text| && (forall i :: 0 <= i < o ==> text[i] == '1') && (o < |text| ==> text[o] != '1')
    ensures |bin| < 4 ==> Verdict(sha, bin, text) == Returns(-4)
    ensures |bin| >= 4 ==>
      var n := |bin| - 4;
      Verdict(sha, bin, text) ==
        if !(sha(bin[..n]).Hash? && sha(sha(bin[..n]).digest).Hash?) then Returns(-2)
        else if bin[n..] != sha(sha(bin[..n]).digest).digest[..4] then Returns(-1)
        else if z >= 0x1_0000_0000 && o >= 0x1_0000_0000 then Endless
        else if (z == |bin| && o >= |bin|) || (o == |text| && z >= |text|) then OffEnd
        else if z != o then Returns(-3)
        else Returns(bin[0])
  {
    LeadingZerosUnique(bin, z);
    LeadingOnesUnique(text, o);
    hide LeadingZeros, LeadingOnes;
  }

  /** b58check. Where its index comes back to 0, with nothing else changed, it never ends. */
  method B58Check(sha: Sha256, bin: seq<Byte>, base58str: string) returns (r: CheckResult)
    ensures r == Verdict(sha, bin, base58str)
  {
    if |bin| < 4 {
      return Returns(-4);
    }
    var hash := DoubleSha256(sha, bin[..|bin| - 4]);
    if hash.Failed? {
      return Returns(-2);
    }
    if bin[|bin| - 4..] != hash.digest[..4] {
      return Returns(-1);
    }
    LeadingZerosAre(bin);
    LeadingOnesAre(base58str);
    var i := 0;
    while i < |bin| && bin[i] == 0 && i < |base58str| && base58str[i] == '1'
      invariant i <= CommonZeros(bin, base58str) && i < UINT32_SIZE
    {
      i := (i + 1) % 0x1_0000_0000;
      if i == 0 {
        return Endless;
      }
    }
    if i == |bin| || i == |base58str| {
      return OffEnd;
    }
    if bin[i] == 0 || base58str[i] == '1' {
      return Returns(-3);
    }
    return Returns(bin[0]);
  }

  /** b58check_enc */
  method B58CheckEnc(sha: Sha256, b58c: array<char>, b58cSz: SizeRef, ver: Byte, data: seq<Byte>) returns (ok: bool)
    requires b58cSz.value <= b58c.Length
    requires (|data| + 5) * 138 < SIZE_T_SIZE
    modifies b58c, b58cSz
    ensures match AddCheck(sha, ver, data)
      case NoHash => !ok && b58cSz.value == 0
      case Bytes(buf) =>
        && ok == (|Encode(buf)| < old(b58cSz.value)) && b58cSz.value == |Encode(buf)| + 1
        && (ok ==> b58c[..|Encode(buf)|] == Encode(buf) && b58c[|Encode(buf)|] == '\0')
    ensures !ok ==> b58c[..] == old(b58c[..])
  {
    var buf := [ver] + data;
    var hash := DoubleSha256(sha, buf);
    if hash.Failed? {
      b58cSz.value := 0;
      return false;
    }
    ok := B58Enc(b58c, b58cSz, buf + hash.digest[..4]);
  }

  /** What b58check makes of b58check_enc's own bytes and text: the version byte, unless all bytes are zero,
      where it reads beyond its buffer, or 2^32 of them lead, where it does not end. */
  function OwnVerdict(bin: seq<Byte>): CheckResult
    requires |bin| > 0
  {
    if LeadingZeros(bin) >= UINT32_SIZE then Endless
    else if LeadingZeros(bin) == |bin| then OffEnd
    else Returns(bin[0])
  }

  /** What b58check_enc writes, decoded into a buffer of its size, is what b58check passes with the version
      byte, if not all of it is zero and fewer than 2^32 zeros lead. */
  lemma CheckRoundTrip(sha: Sha256, ver: Byte, data: seq<Byte>)
    requires AddCheck(sha, ver, data).Bytes?
    ensures var buf := AddCheck(sha, ver, data).bytes;
      && buf[0] == ver
      && Decode(Encode(buf), |buf|).Accepted? && Decode(Encode(buf), |buf|).bin == buf
      && Verdict(sha, buf, Encode(buf) + ['\0']) == OwnVerdict(buf)
  {
    var buf := AddCheck(sha, ver, data).bytes;
    DecodeExact(buf);
    ChecksumOfOwn(sha, ver, data);
    hide AddCheck, Encode, Decode;
    ZerosOfOwn(buf);
  }

  lemma DecodeExact(bin: seq<Byte>)
    ensures Decode(Encode(bin), |bin|).Accepted? && Decode(Encode(bin), |bin|).bin == bin
  {
    DecodeEncode(bin, |bin|);
    assert Zeros(0) + bin == bin;
  }

  /** Whether the last four bytes are the checksum of the others. */
  predicate ChecksumRight(sha: Sha256, bin: seq<Byte>)
  {
    |bin| >= 4 &&
      match DoubleSha256(sha, bin[..|bin| - 4])
      case Failed => false
      case Hash(digest) => bin[|bin| - 4..] == digest[..4]
  }

  lemma ChecksumOfOwn(sha: Sha256, ver: Byte, data: seq<Byte>)
    requires AddCheck(sha, ver, data).Bytes?
    ensures ChecksumRight(sha, AddCheck(sha, ver, data).bytes)
  {
    var buf := AddCheck(sha, ver, data).bytes;
    assert buf[..|buf| - 4] == [ver] + data;
  }

  /** The comparison of a text's '1's with the zeros of its own bytes. */
  lemma ZerosOfOwn(bin: seq<Byte>)
    requires |bin| > 0
    ensures LeadingOnes(Encode(bin) + ['\0']) == LeadingZeros(bin)
    ensures ZerosVerdict(bin, Encode(bin) + ['\0']) == OwnVerdict(bin)
  {
    hide Encode, LeadingOnes, LeadingZeros;
    EncodeKeeps(bin);
    EncodeLength(bin);
    LeadingOnesBeforeNul(Encode(bin));
  }

  lemma {:induction false} LeadingOnesBeforeNul(s: string)
    ensures LeadingOnes(s + ['\0']) == LeadingOnes(s)
  {
    if |s| > 0 && s[0] == '1' {
      assert (s + ['\0'])[1..] == s[1..] + ['\0'];
      LeadingOnesBeforeNul(s[1..]);
    }
  }

  /** A hash of one byte over and over. */
  function ConstantHash(b: Byte): Sha256
  {
    _ => Hash(seq(32, _ => b))
  }

  /** On the five zero bytes that b58check_enc makes of version 0 and no data if their checksum is zero,
      b58check reads beyond its buffer. */
  lemma ZerosRunOffEnd()
    ensures var sha, bin := ConstantHash(0), [0, 0, 0, 0, 0];
      AddCheck(sha, 0, []) == Bytes(bin) && Verdict(sha, bin, Encode(bin) + ['\0']) == OffEnd
  {
    var sha, bin: seq<Byte> := ConstantHash(0), [0, 0, 0, 0, 0];
    assert AddCheck(sha, 0, []) == Bytes(bin) by {
      assert seq(32, _ => 0)[..4] == [0, 0, 0, 0];
    }
    CheckRoundTrip(sha, 0, []);
    assert LeadingZeros(bin) == 5 by { LeadingZerosUnique(bin, 5); }
    hide AddCheck, Encode, Decode;
  }

  // ---- What b58check accepts

  predicate Passes(r: CheckResult)
  {
    r.Returns? && r.value >= 0
  }

  /** Whether b58check_enc makes these bytes of some version and data. */
  ghost predicate IsOwn(sha: Sha256, bin: seq<Byte>)
  {
    exists ver: Byte, data: seq<Byte> :: AddCheck(sha, ver, data) == Bytes(bin)
  }

  /** Whether they are a checksum alone, that of no bytes at all. */
  predicate IsBareChecksum(sha: Sha256, bin: seq<Byte>)
  {
    |bin| == 4 && ChecksumRight(sha, bin)
  }

  lemma ChecksumRightIff(sha: Sha256, bin: seq<Byte>)
    ensures ChecksumRight(sha, bin) <==> IsOwn(sha, bin) || IsBareChecksum(sha, bin)
  {
    if ChecksumRight(sha, bin) && |bin| > 4 {
      var ver, data := bin[0], bin[1..|bin| - 4];
      assert [ver] + data == bin[..|bin| - 4];
      assert bin == bin[..|bin| - 4] + bin[|bin| - 4..];
      assert AddCheck(sha, ver, data) == Bytes(bin);
    }
    if IsOwn(sha, bin) {
      var ver: Byte, data: seq<Byte> :| AddCheck(sha, ver, data) == Bytes(bin);
      ChecksumOfOwn(sha, ver, data);
    }
  }

  lemma VerdictPasses(sha: Sha256, bin: seq<Byte>, text: string)
    ensures Passes(Verdict(sha, bin, text)) <==> ChecksumRight(sha, bin) && Passes(ZerosVerdict(bin, text))
    ensures Passes(Verdict(sha, bin, text)) ==> Verdict(sha, bin, text) == ZerosVerdict(bin, text)
  {
    hide ZerosVerdict;
  }

  lemma ZerosPass(bin: seq<Byte>, s: string)
    requires |bin| > 0
    ensures var r := ZerosVerdict(bin, s + ['\0']);
      && (Passes(r) <==>
          LeadingZeros(bin) == LeadingOnes(s) && LeadingZeros(bin) < |bin| && LeadingOnes(s) < UINT32_SIZE)
      && (Passes(r) ==> r.value == bin[0])
  {
    hide LeadingZeros, LeadingOnes;
    LeadingOnesBeforeNul(s);
  }

  /** The reported size is the buffer's if as many zeros as '1's lead, and only then if the '1's were counted right. */
  lemma SizeIsBuffers(s: string, binsz: nat)
    requires Decode(s, binsz).Accepted?
    ensures var d := Decode(s, binsz);
      && |d.bin| == binsz
      && (LeadingOnes(s) < UINT32_SIZE ==> (d.size == binsz <==> LeadingZeros(d.bin) == LeadingOnes(s)))
  {
    hide Fits, ToDigits, Digits, LeadingZeros, LeadingOnes;
  }

  /** b58check passes the decoded bytes of a text, in a buffer of whatever size, exactly when the size that
      was reported is the buffer's, the bytes are b58check_enc's own or a checksum alone, they are not all
      zero and fewer than 2^32 '1's lead. The text is then the bytes' own. */
  lemma CheckAccepts(sha: Sha256, s: string, binsz: nat)
    requires Decode(s, binsz).Accepted?
    ensures var d, r := Decode(s, binsz), Verdict(sha, Decode(s, binsz).bin, s + ['\0']);
      && (Passes(r) <==>
          && (IsOwn(sha, d.bin) || IsBareChecksum(sha, d.bin))
          && d.size == binsz && LeadingZeros(d.bin) < binsz && LeadingOnes(s) < UINT32_SIZE)
      && (Passes(r) ==> r.value == d.bin[0] && s == Encode(d.bin))
  {
    hide Decode, Encode, LeadingZeros, LeadingOnes, IsOwn, Verdict, ZerosVerdict, ChecksumRight;
    var d := Decode(s, binsz);
    ChecksumRightIff(sha, d.bin);
    VerdictPasses(sha, d.bin, s + ['\0']);
    SizeIsBuffers(s, binsz);
    if ChecksumRight(sha, d.bin) {
      AtLeastFour(sha, d.bin);
      ZerosPass(d.bin, s);
    }
    if d.size == binsz {
      EncodeDecode(s, binsz);
      assert d.bin[0..] == d.bin;
    }
  }

  lemma AtLeastFour(sha: Sha256, bin: seq<Byte>)
    requires ChecksumRight(sha, bin)
    ensures |bin| >= 4
  {
  }

  lemma OwnIsLonger(sha: Sha256, bin: seq<Byte>)
    requires IsOwn(sha, bin)
    ensures |bin| >= 5
  {
    var ver: Byte, data: seq<Byte> :| AddCheck(sha, ver, data) == Bytes(bin);
    OwnLength(sha, ver, data);
  }

  /** So it does not pass own texts only: with a buffer of four bytes it takes a checksum of nothing. */
  lemma BareChecksum(sha: Sha256, bin: seq<Byte>)
    requires IsBareChecksum(sha, bin) && bin[0] != 0
    ensures Decode(Encode(bin), 4) == Accepted(bin, 4)
    ensures Verdict(sha, bin, Encode(bin) + ['\0']) == Returns(bin[0])
    ensures !IsOwn(sha, bin)
  {
    hide Encode, Decode, Verdict, ZerosVerdict, AddCheck, IsOwn, ChecksumRight;
    DecodeEncode(bin, 4);
    assert Zeros(0) + bin == bin;
    assert LeadingZeros(bin) == 0;
    ZerosOfOwn(bin);
    VerdictPasses(sha, bin, Encode(bin) + ['\0']);
    if IsOwn(sha, bin) {
      OwnIsLonger(sha, bin);
    }
  }

  lemma BareChecksumPasses()
    ensures var sha, bin := ConstantHash(1), [1, 1, 1, 1];
      && Decode(Encode(bin), 4) == Accepted(bin, 4)
      && Verdict(sha, bin, Encode(bin) + ['\0']) == Returns(1)
      && !IsOwn(sha, bin)
  {
    hide Encode, Decode, Verdict, IsOwn, ChecksumRight;
    OnesAreChecked();
    BareChecksum(ConstantHash(1), [1, 1, 1, 1]);
  }

  lemma OnesAreChecked()
    ensures ChecksumRight(ConstantHash(1), [1, 1, 1, 1])
  {
    assert seq(32, _ => 1)[..4] == [1, 1, 1, 1];
  }

  lemma OwnLength(sha: Sha256, ver: Byte, data: seq<Byte>)
    requires AddCheck(sha, ver, data).Bytes?
    ensures |AddCheck(sha, ver, data).bytes| == |data| + 5
  {
  }

  /** b58check_enc with its sizing protocol, b58tobin into a buffer of the bytes' size and b58check, one
      after the other: `ok` is whether the hash worked. */
  method EncodeDecodeCheck(sha: Sha256, ver: Byte, data: seq<Byte>, counted: bool) returns (ok: bool, r: CheckResult)
    requires (|data| + 9) * 138 < SIZE_T_SIZE / 2
    ensures ok <==> AddCheck(sha, ver, data).Bytes?
    ensures ok ==> r == OwnVerdict(AddCheck(sha, ver, data).bytes)
  {
    hide AddCheck, Encode, Verdict, Decode, Fits, OwnVerdict;
    r := Endless;
    var b58 := new char[0];
    var b58sz := new SizeRef(0);
    ok := B58CheckEnc(sha, b58, b58sz, ver, data);
    if b58sz.value == 0 {
      return;
    }
    ghost var buf := AddCheck(sha, ver, data).bytes;
    OwnLength(sha, ver, data);
    EncodeLength(buf);
    b58 := new char[b58sz.value](_ => '\0');
    ok := B58CheckEnc(sha, b58, b58sz, ver, data);
    CheckRoundTrip(sha, ver, data);
    FitsIsAccepted(Encode(buf), |buf|);
    var bin := new Byte[|data| + 5](_ => 0);
    var size := DecodeText(b58, b58.Length - 1, counted, bin, Encode(buf));
    assert b58[..] == Encode(buf) + ['\0'];
    r := B58Check(sha, bin[..], b58[..]);
  }
}

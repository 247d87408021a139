/** Base58 as the format defines it: what the codec's loops have to compute, and why encoding and
    decoding undo each other. */
module Base58 {
  import opened Positional
  import opened Base58Alphabet
  import opened CTypes

  ghost predicate InAlphabet(s: string)
  {
    forall i :: 0 <= i < |s| ==> DigitOf(s[i]) != -1
  }

  ghost function Digits(s: string): (ds: seq<nat>)
    requires InAlphabet(s)
    ensures |ds| == |s| && AreDigits(58, ds)
    ensures forall i :: 0 <= i < |s| ==> ds[i] == DigitOf(s[i])
  {
    forall i | 0 <= i < |s| ensures 0 <= DigitOf(s[i]) < 58 { TablesAreInverse(0, s[i]); }
    seq(|s|, i requires 0 <= i < |s| => DigitOf(s[i]))
  }

  function Text(ds: seq<nat>): (s: string)
    requires AreDigits(58, ds)
    ensures |s| == |ds| && forall i :: 0 <= i < |s| ==> s[i] == CharOf(ds[i])
  {
    seq(|ds|, i requires 0 <= i < |ds| => CharOf(ds[i]))
  }

  function Ones(n: nat): (s: string)
    ensures |s| == n && forall i :: 0 <= i < n ==> s[i] == '1'
  {
    seq(n, _ => '1')
  }

  /** How many '1's `s` starts with. */
  function LeadingOnes(s: string): (n: nat)
    ensures n <= |s|
  {
    if |s| > 0 && s[0] == '1' then 1 + LeadingOnes(s[1..]) else 0
  }

  /** One '1' for every leading zero byte, then the base-58 digits of the number that the bytes denote. */
  function Encode(bin: seq<Byte>): string
  {
    Ones(LeadingZeros(bin)) + Text(Minimal(58, Value(256, bin)))
  }

  datatype Decoded = Rejected | Accepted(bin: seq<Byte>, size: nat)

  /** Whether `s` denotes a number of at most `binsz` bytes. */
  ghost predicate Fits(s: string, binsz: nat)
  {
    InAlphabet(s) && Value(58, Digits(s)) < Pow(256, binsz)
  }

  /** The number that `s` denotes as `binsz` bytes, and the size that is reported for it. */
  ghost function Decode(s: string, binsz: nat): Decoded
  {
    if Fits(s, binsz) then
      var bin := ToDigits(256, Value(58, Digits(s)), binsz);
      Accepted(bin, binsz - LeadingZeros(bin) + Uint32(LeadingOnes(s)))
    else
      Rejected
  }

  // ---- Texts and digits

  lemma DigitsOfText(ds: seq<nat>)
    requires AreDigits(58, ds)
    ensures InAlphabet(Text(ds)) && Digits(Text(ds)) == ds
  {
    forall i | 0 <= i < |ds| ensures DigitOf(Text(ds)[i]) == ds[i] { TablesAreInverse(ds[i], '1'); }
  }

  lemma TextOfDigits(s: string)
    requires InAlphabet(s)
    ensures Text(Digits(s)) == s
  {
    forall i | 0 <= i < |s| ensures Text(Digits(s))[i] == s[i] { TablesAreInverse(0, s[i]); }
  }

  /** Only '1' stands for digit 0. */
  lemma OneIsZero(c: char)
    ensures DigitOf(c) == 0 <==> c == '1'
  {
  }

  lemma {:induction false} LeadingOnesUnique(s: string, n: nat)
    requires n <= |s|
    requires forall i :: 0 <= i < n ==> s[i] == '1'
    requires n < |s| ==> s[n] != '1'
    ensures LeadingOnes(s) == n
  {
    if |s| > 0 && s[0] == '1' {
      LeadingOnesUnique(s[1..], n - 1);
    }
  }

  lemma LeadingOnesAreZeros(s: string)
    requires InAlphabet(s)
    ensures LeadingOnes(s) == LeadingZeros(Digits(s))
  {
    LeadingZerosAre(Digits(s));
    forall i | 0 <= i < |s| ensures Digits(s)[i] == 0 <==> s[i] == '1' { OneIsZero(s[i]); }
    LeadingOnesUnique(s, LeadingZeros(Digits(s)));
  }

  /** The digits that Encode writes down. */
  function Significant(zeros: nat, v: nat): (ds: seq<nat>)
    ensures AreDigits(58, ds)
  {
    Zeros(zeros) + Minimal(58, v)
  }

  lemma EncodeIsText(bin: seq<Byte>, n: nat, v: nat)
    requires n == LeadingZeros(bin) && v == Value(256, bin)
    ensures Encode(bin) == Text(Significant(n, v))
  {
    ConcatIsText(n, Minimal(58, v));
  }

  lemma ConcatIsText(n: nat, ds: seq<nat>)
    requires AreDigits(58, ds)
    ensures Ones(n) + Text(ds) == Text(Zeros(n) + ds)
  {
    assert CharOf(0) == '1';
  }

  lemma SignificantKeeps(n: nat, v: nat)
    ensures LeadingZeros(Significant(n, v)) == n && Value(58, Significant(n, v)) == v
  {
    MinimalValue(58, v);
    ValueLeadingZeros(58, n, Minimal(58, v));
    LeadingZerosConcat(n, Minimal(58, v));
  }

  /** Digits are their leading zeros followed by the shortest digits of their value. */
  lemma SignificantForm(ds: seq<nat>)
    requires AreDigits(58, ds)
    ensures ds == Significant(LeadingZeros(ds), Value(58, ds))
  {
    MinimalStripsZeros(58, ds);
    SplitZeros(ds, LeadingZeros(ds));
  }

  /** What an encoding keeps: the count of leading zeros and the number. */
  lemma EncodeKeeps(bin: seq<Byte>)
    ensures InAlphabet(Encode(bin))
    ensures LeadingOnes(Encode(bin)) == LeadingZeros(bin)
    ensures Value(58, Digits(Encode(bin))) == Value(256, bin)
  {
    var n, v := LeadingZeros(bin), Value(256, bin);
    EncodeIsText(bin, n, v);
    DigitsOfText(Significant(n, v));
    SignificantKeeps(n, v);
    LeadingOnesAreZeros(Encode(bin));
  }

  lemma ValueOfTwo(base: nat, x: nat, y: nat)
    ensures Value(base, [x, y]) == x * base + y
  {
    assert [x, y][..1] == [x] && [x][..0] == [];
    assert Value(base, [x]) == Value(base, []) * base + x == x;
  }

  /** A sample: the bytes 0, 1, 0 are "15R". */
  lemma EncodeSample()
    ensures Encode([0, 1, 0]) == "15R"
  {
    hide Value, Minimal, LeadingZeros, CharOf;
    LeadingZerosUnique([0, 1, 0], 1);
    assert [0, 1, 0] == Zeros(1) + [1, 0];
    ValueLeadingZeros(256, 1, [1, 0]);
    ValueOfTwo(256, 1, 0);
    ValueOfTwo(58, 4, 24);
    MinimalUnique(58, [4, 24]);
    SampleCharacters();
    assert Text([4, 24]) == "5R" && Ones(1) == "1";
  }

  lemma SampleCharacters()
    ensures CharOf(4) == '5' && CharOf(24) == 'R'
  {
  }

  // ---- Round trips

  /** A number fits `binsz` bytes exactly when its significant bytes do. */
  lemma FitsIffSignificantBytesDo(bin: seq<Byte>, binsz: nat)
    ensures Value(256, bin) < Pow(256, binsz) <==> |bin| - LeadingZeros(bin) <= binsz
  {
    var sig := bin[LeadingZeros(bin)..];
    LeadingZerosAre(bin);
    ValueStripZeros(256, bin);
    ValueBound(256, sig);
    if |sig| <= binsz {
      PowMonotone(256, |sig|, binsz);
    } else {
      ValueLowerBound(256, sig);
      PowMonotone(256, binsz, |sig| - 1);
    }
  }

  /** The size that decoding reports for an encoding: leading zeros count modulo 2^32. */
  function SizeBack(bin: seq<Byte>): nat
  {
    |bin| - LeadingZeros(bin) + Uint32(LeadingZeros(bin))
  }

  /** Encoding then decoding: accepted exactly when the significant bytes fit, and then, if the buffer
      has room for all of them, the bytes come back right-aligned behind zeros. The size comes back
      exactly when fewer than 2^32 zeros lead. */
  lemma DecodeEncode(bin: seq<Byte>, binsz: nat)
    ensures Decode(Encode(bin), binsz).Accepted? <==> |bin| - LeadingZeros(bin) <= binsz
    ensures |bin| <= binsz ==> Decode(Encode(bin), binsz) == Accepted(Zeros(binsz - |bin|) + bin, SizeBack(bin))
    ensures SizeBack(bin) == |bin| <==> LeadingZeros(bin) < UINT32_SIZE
  {
    EncodeFits(bin, binsz);
    if |bin| <= binsz {
      EncodedBack(bin, binsz);
    }
  }

  lemma EncodeFits(bin: seq<Byte>, binsz: nat)
    ensures Fits(Encode(bin), binsz) <==> |bin| - LeadingZeros(bin) <= binsz
  {
    EncodeKeeps(bin);
    FitsIffSignificantBytesDo(bin, binsz);
  }

  lemma EncodedBack(bin: seq<Byte>, binsz: nat)
    requires |bin| <= binsz
    ensures Decode(Encode(bin), binsz) == Accepted(Zeros(binsz - |bin|) + bin, SizeBack(bin))
  {
    EncodeFits(bin, binsz);
    EncodeKeeps(bin);
    PaddedDigits(bin, binsz);
  }

  lemma PaddedDigits(bin: seq<Byte>, binsz: nat)
    requires |bin| <= binsz
    ensures ToDigits(256, Value(256, bin), binsz) == Zeros(binsz - |bin|) + bin
    ensures LeadingZeros(Zeros(binsz - |bin|) + bin) == binsz - |bin| + LeadingZeros(bin)
  {
    hide Value, ToDigits, LeadingZeros;
    var n := binsz - |bin|;
    ValueLeadingZeros(256, n, bin);
    ToDigitsUnique(256, Zeros(n) + bin);
    LeadingZerosConcat(n, bin);
  }

  /** Decoding then encoding the reported number of trailing bytes gives the text back, exactly when
      fewer than 2^32 '1's lead. */
  lemma EncodeDecode(s: string, binsz: nat)
    requires Decode(s, binsz).Accepted? && Decode(s, binsz).size <= binsz
    ensures var d := Decode(s, binsz);
      Encode(d.bin[binsz - d.size..]) == s <==> LeadingOnes(s) < UINT32_SIZE
  {
    TailIsText(s, binsz);
    TextForm(s);
    SignificantInjective(Uint32(LeadingOnes(s)), LeadingOnes(s), Value(58, Digits(s)));
  }

  lemma TailIsText(s: string, binsz: nat)
    requires Decode(s, binsz).Accepted? && Decode(s, binsz).size <= binsz
    ensures var d := Decode(s, binsz);
      Encode(d.bin[binsz - d.size..]) == Text(Significant(Uint32(LeadingOnes(s)), Value(58, Digits(s))))
  {
    var d, zeros := Decode(s, binsz), Uint32(LeadingOnes(s));
    assert binsz - d.size == LeadingZeros(d.bin) - zeros;
    ValueTailEncodes(Value(58, Digits(s)), binsz, zeros);
  }

  lemma ValueTailEncodes(v: nat, binsz: nat, zeros: nat)
    requires v < Pow(256, binsz) && zeros <= LeadingZeros(ToDigits(256, v, binsz))
    ensures var bin := ToDigits(256, v, binsz);
      Encode(bin[LeadingZeros(bin) - zeros..]) == Text(Significant(zeros, v))
  {
    ToDigitsValue(256, v, binsz);
    TailEncodes(ToDigits(256, v, binsz), zeros, v);
  }

  lemma TailEncodes(bin: seq<Byte>, zeros: nat, v: nat)
    requires zeros <= LeadingZeros(bin) && v == Value(256, bin)
    ensures Encode(bin[LeadingZeros(bin) - zeros..]) == Text(Significant(zeros, v))
  {
    var n := LeadingZeros(bin) - zeros;
    SplitZeros(bin, n);
    ValueLeadingZeros(256, n, bin[n..]);
    LeadingZerosConcat(n, bin[n..]);
    EncodeIsText(bin[n..], zeros, v);
  }

  lemma TextForm(s: string)
    requires InAlphabet(s)
    ensures s == Text(Significant(LeadingOnes(s), Value(58, Digits(s))))
  {
    LeadingOnesAreZeros(s);
    SignificantForm(Digits(s));
    TextOfDigits(s);
  }

  lemma SignificantInjective(m: nat, n: nat, v: nat)
    ensures Text(Significant(m, v)) == Text(Significant(n, v)) <==> m == n
  {
    assert |Significant(m, v)| == m + |Minimal(58, v)|;
  }

  /** Different bytes have different texts. */
  lemma EncodeInjective(a: seq<Byte>, b: seq<Byte>)
    requires Encode(a) == Encode(b)
    ensures a == b
  {
    EncodeKeeps(a);
    EncodeKeeps(b);
    MinimalStripsZeros(256, a);
    MinimalStripsZeros(256, b);
    SplitZeros(a, LeadingZeros(a));
    SplitZeros(b, LeadingZeros(b));
  }

  /** Reading on never makes the number smaller, so an overflowing prefix settles the outcome. */
  lemma PrefixOverflow(s: string, k: nat, binsz: nat)
    requires k <= |s| && InAlphabet(s[..k])
    requires Value(58, Digits(s[..k])) >= Pow(256, binsz)
    ensures !Fits(s, binsz)
  {
    if InAlphabet(s) {
      var ds := Digits(s);
      assert Digits(s[..k]) == ds[..k];
      assert ds == ds[..k] + ds[k..];
      ValueConcat(58, ds[..k], ds[k..]);
      PowPositive(58, |s| - k);
      MulLeq(Value(58, ds[..k]), Value(58, ds[..k]), 1, Pow(58, |s| - k));
    }
  }

  // ---- Sizes

  /** 58^5 > 2^29, so 138 digits in base 58 outdo 100 bytes and every such ratio holds digit by digit. */
  lemma DigitsOutgrowBytes(digits: nat, bytes: nat)
    requires digits >= 1 && 100 * digits >= 138 * bytes
    ensures Pow(58, digits) > Pow(256, bytes)
  {
    var x, y := Pow(58, digits), Pow(256, bytes);
    PowPositive(58, digits);
    PowPositive(256, bytes);
    calc {
      Pow(x, 5);
      { PowMul(58, digits, 5); PowMul(58, 5, digits); assert digits * 5 == 5 * digits; }
      Pow(Pow(58, 5), digits);
    }
    calc {
      Pow(Pow(2, 29), digits);
      { PowMul(2, 29, digits); }
      Pow(2, 29 * digits);
    }
    calc {
      Pow(y, 5);
      { PowMul(256, bytes, 5); assert Pow(2, 8) == 256; PowMul(2, 8, bytes * 5); assert 8 * (bytes * 5) == 40 * bytes; }
      Pow(2, 40 * bytes);
    }
    PowSmall();
    PowBaseMonotone(Pow(2, 29), Pow(58, 5), digits);
    PowMonotone(2, 40 * bytes, 29 * digits);
    if x <= y { PowBaseMonotone(x, y, 5); assert false; }
  }

  lemma PowSmall()
    ensures 0 < Pow(2, 29) == 536870912 < Pow(58, 5) == 656356768
  {
    assert Pow(2, 29) == Pow(2, 14) * Pow(2, 15) by { PowAdd(2, 14, 15); }
    assert Pow(2, 14) == 16384 && Pow(2, 15) == 32768;
    assert Pow(58, 5) == 656356768;
  }

  /** The size of b58enc's digit buffer for `n` significant bytes. */
  function BufferSize(n: nat): nat
  {
    n * 138 / 100 + 1
  }

  /** The digit buffer holds every number of its bytes, and its first digit stays free until the
      last byte is taken. */
  lemma BufferIsBigEnough(n: nat)
    ensures Pow(58, BufferSize(n)) > Pow(256, n)
    ensures n > 0 ==> BufferSize(n) > 1 && Pow(58, BufferSize(n) - 1) > Pow(256, n - 1)
  {
    DigitsOutgrowBytes(BufferSize(n), n);
    if n > 0 {
      DigitsOutgrowBytes(BufferSize(n) - 1, n - 1);
    }
  }

  /** An encoding is at least as long as its bytes and at most one digit buffer long. */
  lemma EncodeLength(bin: seq<Byte>)
    ensures |bin| <= |Encode(bin)| <= LeadingZeros(bin) + BufferSize(|bin| - LeadingZeros(bin)) <= BufferSize(|bin|)
  {
    ValueStripZeros(256, bin);
    LeadingZerosAre(bin);
    MinimalAtMost(bin[LeadingZeros(bin)..]);
    MinimalAtLeast(bin[LeadingZeros(bin)..]);
  }

  lemma MinimalAtMost(sig: seq<Byte>)
    ensures |Minimal(58, Value(256, sig))| <= BufferSize(|sig|)
  {
    BufferIsBigEnough(|sig|);
    ValueBound(256, sig);
    MinimalBound(58, Value(256, sig), BufferSize(|sig|));
  }

  lemma MinimalAtLeast(sig: seq<Byte>)
    requires |sig| > 0 ==> sig[0] != 0
    ensures |sig| <= |Minimal(58, Value(256, sig))|
  {
    var v, ds := Value(256, sig), Minimal(58, Value(256, sig));
    assert v < Pow(58, |ds|) by { MinimalValue(58, v); ValueBound(58, ds); }
    if |ds| < |sig| {
      assert v >= Pow(256, |sig| - 1) by { ValueLowerBound(256, sig); }
      PowMonotone(58, |ds|, |sig| - 1);
      PowBaseMonotone(58, 256, |sig| - 1);
    }
  }

  /** The wallet's 48-byte address takes 48 to 66 characters, so with its NUL it fits the 69 allowed. */
  lemma AddressLength(bin: seq<Byte>)
    requires |bin| == 48
    ensures 48 <= |Encode(bin)| <= 66
  {
    EncodeLength(bin);
    ValueBound(256, bin);
    AddressBound();
    MinimalBound(58, Value(256, bin), 66);
  }

  lemma AddressBound()
    ensures Pow(58, 66) > Pow(256, 48)
  {
    calc {
      Pow(256, 48);
      { assert Pow(2, 8) == 256; PowMul(2, 8, 48); PowMul(2, 64, 6); }
      Pow(Pow(2, 64), 6);
    <  { PowSixtyFour(); PowBaseMonotone(Pow(2, 64), Pow(58, 11), 6); }
      Pow(Pow(58, 11), 6);
      { PowMul(58, 11, 6); }
      Pow(58, 66);
    }
  }

  lemma PowSixtyFour()
    ensures 0 < Pow(2, 64) < Pow(58, 11)
  {
    assert Pow(2, 8) == 256;
    PowAdd(2, 8, 8);
    PowAdd(2, 16, 16);
    PowAdd(2, 32, 32);
    assert Pow(58, 3) == 195112 && Pow(58, 5) == 656356768;
    PowAdd(58, 3, 3);
    PowAdd(58, 6, 5);
  }
}

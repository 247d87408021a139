/** b58tobin: Horner's rule over big-endian 32-bit limbs, then big-endian bytes. */
module Base58Decoder {
  import opened Positional
  import opened Base58Alphabet
  import opened Base58
  import opened CTypes

  /** The length of a NUL-terminated string. */
  function StrLen(s: string): (n: nat)
    requires '\0' in s
    ensures n < |s| && s[n] == '\0' && '\0' !in s[..n]
  {
    if s[0] == '\0' then 0 else
      assert s == [s[0]] + s[1..];
      1 + StrLen(s[1..])
  }

  /** The characters that b58tobin reads: a size of 0 asks for the string's own length. */
  function Input(b58: string, b58sz: nat): string
    requires if b58sz == 0 then '\0' in b58 else b58sz <= |b58|
  {
    if b58sz == 0 then b58[..StrLen(b58)] else b58[..b58sz]
  }

  /** `x >> 8 * bytes` */
  function Shr(x: nat, bytes: nat): nat
  {
    if bytes == 0 then x else Shr(x, bytes - 1) / 256
  }

  lemma {:induction false} ShrIsFloor(x: nat, bytes: nat)
    ensures Shr(x, bytes) * Pow(256, bytes) <= x < (Shr(x, bytes) + 1) * Pow(256, bytes)
  {
    if bytes > 0 {
      ShrIsFloor(x, bytes - 1);
      var s, p := Shr(x, bytes - 1), Pow(256, bytes - 1);
      PowPositive(256, bytes - 1);
      MulAssociative(s / 256, 256, p);
      MulAssociative(s / 256 + 1, 256, p);
      MulLeq(s / 256 * 256, s, p, p);
      MulLeq(s + 1, (s / 256 + 1) * 256, p, p);
    }
  }

  lemma ShrIsZero(x: nat, bytes: nat)
    ensures Shr(x, bytes) == 0 <==> x < Pow(256, bytes)
  {
    ShrIsFloor(x, bytes);
    PowPositive(256, bytes);
    if Shr(x, bytes) > 0 {
      MulLeq(1, Shr(x, bytes), Pow(256, bytes), Pow(256, bytes));
    }
  }

  /** Masking with zeromask tests the bits that a shift by `bytesleft` bytes leaves. */
  lemma ZeroMaskIsShift(x: bv32, bytesleft: bv32)
    requires 0 < bytesleft < 4
    ensures x & (0xFFFF_FFFF << (bytesleft * 8)) != 0 <==> x >> (bytesleft * 8) != 0
  {
  }

  /** The limb loop of b58tobin: `outi := 58 * outi + digit`, with what does not fit returned. */
  method MultiplyAddLimbs(outi: array<Limb>, digit: nat) returns (c: nat)
    requires digit < 58
    modifies outi
    ensures c < 58
    ensures Value(0x1_0000_0000, outi[..]) + c * Pow(0x1_0000_0000, outi.Length)
         == 58 * old(Value(0x1_0000_0000, outi[..])) + digit
  {
    hide Pow, Value;
    ghost var was := outi[..];
    CarriedNothing(0x1_0000_0000, 58, digit, was);
    c := digit;
    var j := outi.Length;
    while j > 0
      invariant 0 <= j <= outi.Length && c < 58
      invariant CarriedDownTo(0x1_0000_0000, 58, digit, j, c, outi[..], was)
    {
      j := j - 1;
      var t := (outi[j] as int) * 58 + c;
      assert t < 0x1_0000_0000_0000_0000;
      CarryStep(0x1_0000_0000, 58, digit, j, c, outi[..], was, t / 0x1_0000_0000, t % 0x1_0000_0000);
      c := t / 0x1_0000_0000;
      outi[j] := t % 0x1_0000_0000;
    }
    assert outi[0..] == outi[..] && was[0..] == was;
  }

  /** Whether the limbs, or the carry out of them, hold more than `binsz` bytes can. */
  lemma TooBig(outi: seq<Limb>, c: nat, binsz: nat)
    requires |outi| == (binsz + 3) / 4
    ensures Value(0x1_0000_0000, outi) + c * Pow(0x1_0000_0000, |outi|) >= Pow(256, binsz) <==>
      c != 0 || (binsz % 4 != 0 && Shr(outi[0], binsz % 4) != 0)
  {
    LimbPower(|outi|);
    PowMonotone(256, binsz, 4 * |outi|);
    if c != 0 {
      MulLeq(1, c, Pow(256, 4 * |outi|), Pow(256, 4 * |outi|));
    } else if binsz % 4 == 0 {
      ValueBound(0x1_0000_0000, outi);
    } else {
      FirstLimbFits(outi, binsz % 4, binsz);
    }
  }

  lemma LimbPower(n: nat)
    ensures Pow(0x1_0000_0000, n) == Pow(256, 4 * n)
  {
    assert Pow(256, 4) == 0x1_0000_0000;
    PowMul(256, 4, n);
  }

  lemma FirstLimbFits(outi: seq<Limb>, bytesleft: nat, binsz: nat)
    requires |outi| > 0 && binsz == bytesleft + 4 * (|outi| - 1)
    ensures Value(0x1_0000_0000, outi) >= Pow(256, binsz) <==> Shr(outi[0], bytesleft) != 0
  {
    var rest, m := outi[1..], |outi| - 1;
    assert outi == [outi[0]] + rest;
    ValueCons(0x1_0000_0000, outi[0], rest);
    ValueBound(0x1_0000_0000, rest);
    LimbPower(m);
    PowAdd(256, bytesleft, 4 * m);
    PowPositive(256, bytesleft);
    ShrIsZero(outi[0], bytesleft);
    FirstDigitDecides(outi[0], Pow(256, bytesleft), Pow(0x1_0000_0000, m), Value(0x1_0000_0000, rest));
  }

  lemma FirstDigitDecides(x: nat, top: int, p: int, low: nat)
    requires top > 0 && low < p
    ensures x * p + low >= top * p <==> x >= top
  {
    if x >= top {
      MulLeq(top, x, p, p);
    } else {
      MulLeq(x + 1, top, p, p);
    }
  }

  /** Written from its high byte down, a number of `count` bytes is its own base-256 digits. */
  method WriteBytes(bin: array<Byte>, pos: nat, x: nat, count: nat) returns (binu: nat)
    requires pos + count <= bin.Length
    requires Shr(x, count) == 0
    modifies bin
    ensures binu == pos + count && Value(256, bin[pos..binu]) == x
    ensures forall k :: 0 <= k < bin.Length && !(pos <= k < binu) ==> bin[k] == old(bin[k])
  {
    var i := count;
    binu := pos;
    while i > 0
      invariant 0 <= i <= count && binu == pos + count - i
      invariant Value(256, bin[pos..binu]) == Shr(x, i)
      invariant forall k :: 0 <= k < bin.Length && !(pos <= k < binu) ==> bin[k] == old(bin[k])
    {
      ghost var done := bin[pos..binu];
      bin[binu] := Shr(x, i - 1) % 256;
      binu := binu + 1;
      i := i - 1;
      assert bin[pos..binu] == done + [Shr(x, i) % 256];
      assert bin[pos..binu][..|done|] == done;
    }
  }

  lemma AppendLimb(bytes: seq<Byte>, from: nat, outi: seq<Limb>, j: nat)
    requires j < |outi| && |bytes| == from + 4
    requires Value(256, bytes[..from]) == Value(0x1_0000_0000, outi[..j]) && Value(256, bytes[from..]) == outi[j]
    ensures Value(256, bytes) == Value(0x1_0000_0000, outi[..j + 1])
  {
    assert bytes == bytes[..from] + bytes[from..];
    ValueConcat(256, bytes[..from], bytes[from..]);
    assert Pow(256, 4) == 0x1_0000_0000;
    assert outi[..j + 1][..j] == outi[..j];
  }

  lemma FirstLimb(outi: seq<Limb>)
    requires |outi| > 0
    ensures Value(0x1_0000_0000, outi[..1]) == outi[0]
  {
    assert outi[..1][..0] == [];
  }

  /** The bytes of limb `j`, behind the bytes of the limbs before it. */
  method WriteLimb(bin: array<Byte>, from: nat, outi: array<Limb>, j: nat) returns (binu: nat)
    requires from + 4 <= bin.Length && j < outi.Length
    requires Value(256, bin[..from]) == Value(0x1_0000_0000, outi[..j])
    modifies bin
    ensures binu == from + 4 && Value(256, bin[..binu]) == Value(0x1_0000_0000, outi[..][..j + 1])
    ensures forall k :: binu <= k < bin.Length ==> bin[k] == old(bin[k])
  {
    ghost var done, limbs := bin[..from], outi[..];
    assert limbs[..j] == outi[..j];
    ShrIsZero(outi[j], 4);
    assert Pow(256, 4) == 0x1_0000_0000;
    binu := WriteBytes(bin, from, outi[j], 4);
    assert bin[..binu][..from] == done && bin[..binu][from..] == bin[from..binu];
    AppendLimb(bin[..binu], from, limbs, j);
  }

  /** The first `binsz % 4` bytes, if any, from the first limb. */
  method WriteFirstLimb(bin: array<Byte>, binsz: nat, outi: array<Limb>) returns (binu: nat, j: nat)
    requires binsz <= bin.Length && outi.Length == (binsz + 3) / 4
    requires Value(0x1_0000_0000, outi[..]) < Pow(256, binsz)
    modifies bin
    ensures j <= outi.Length && binu + 4 * (outi.Length - j) == binsz
    ensures Value(256, bin[..binu]) == Value(0x1_0000_0000, outi[..][..j])
    ensures forall k :: binu <= k < bin.Length ==> bin[k] == old(bin[k])
  {
    hide Pow;
    ghost var limbs := outi[..];
    var bytesleft := binsz % 4;
    binu, j := 0, 0;
    if bytesleft != 0 {
      TooBig(limbs, 0, binsz);
      binu := WriteBytes(bin, 0, outi[0], bytesleft);
      j := 1;
      FirstLimb(limbs);
    }
  }

  /** The two-part serialisation: what the first limb has to give, then four bytes from each other. */
  method WriteLimbs(bin: array<Byte>, binsz: nat, outi: array<Limb>)
    requires binsz <= bin.Length && outi.Length == (binsz + 3) / 4
    requires Value(0x1_0000_0000, outi[..]) < Pow(256, binsz)
    modifies bin
    ensures bin[..binsz] == ToDigits(256, old(Value(0x1_0000_0000, outi[..])), binsz)
    ensures forall k :: binsz <= k < bin.Length ==> bin[k] == old(bin[k])
  {
    hide Value, Pow, ToDigits;
    ghost var limbs := outi[..];
    var binu, j := WriteFirstLimb(bin, binsz, outi);
    while j < outi.Length
      invariant j <= outi.Length && binu + 4 * (outi.Length - j) == binsz && outi[..] == limbs
      invariant Value(256, bin[..binu]) == Value(0x1_0000_0000, limbs[..j])
      invariant forall k :: binsz <= k < bin.Length ==> bin[k] == old(bin[k])
    {
      assert outi[..j] == limbs[..j];
      binu := WriteLimb(bin, binu, outi, j);
      j := j + 1;
    }
    assert limbs[..j] == limbs;
    ToDigitsUnique(256, bin[..binsz]);
  }

  lemma OnesAreWorthNothing(s: string)
    requires forall i :: 0 <= i < |s| ==> s[i] == '1'
    ensures InAlphabet(s) && Value(58, Digits(s)) == 0
  {
    assert Digits(s) == Zeros(|s|);
    ValueZeros(58, |s|);
  }

  /** What the next character does to the number read so far. */
  lemma HornerStep(s: string, i: nat, binsz: nat)
    requires i < |s| && Fits(s[..i], binsz)
    ensures var v := 58 * Value(58, Digits(s[..i])) + DigitOf(s[i]);
      if DigitOf(s[i]) >= 0 && v < Pow(256, binsz)
      then Fits(s[..i + 1], binsz) && Value(58, Digits(s[..i + 1])) == v
      else !Fits(s, binsz)
  {
    TablesAreInverse(0, s[i]);
    if DigitOf(s[i]) != -1 {
      AppendDigit(s, i);
      if 58 * Value(58, Digits(s[..i])) + DigitOf(s[i]) >= Pow(256, binsz) {
        PrefixOverflow(s, i + 1, binsz);
      }
    }
  }

  lemma AppendDigit(s: string, i: nat)
    requires i < |s| && InAlphabet(s[..i]) && DigitOf(s[i]) != -1
    ensures InAlphabet(s[..i + 1])
    ensures Value(58, Digits(s[..i + 1])) == 58 * Value(58, Digits(s[..i])) + DigitOf(s[i])
  {
    var t := s[..i + 1];
    assert forall k :: 0 <= k < i ==> t[k] == s[..i][k];
    assert Digits(t)[..i] == Digits(s[..i]);
  }

  /** The table look-up of one character, -1 for those outside the alphabet. */
  method LookUp(c: char) returns (digit: int)
    ensures digit == DigitOf(c) && -1 <= digit < 58 && (digit == 0 <==> c == '1')
  {
    MapIsDigitOf(c);
    TablesAreInverse(0, c);
    OneIsZero(c);
    if c as int >= 0x80 {
      return -1;
    }
    digit := MAP[c as int / 8][c as int % 8];
  }

  /** One digit more: whether the number still fits `binsz` bytes. Without limbs, the first digit's
      carry shows that it does not, and no limb is read. */
  method TakeDigit(outi: array<Limb>, digit: nat, binsz: nat) returns (fits: bool)
    requires outi.Length == (binsz + 3) / 4 && digit < 58
    requires outi.Length == 0 ==> digit > 0
    modifies outi
    ensures fits == (58 * old(Value(0x1_0000_0000, outi[..])) + digit < Pow(256, binsz))
    ensures fits ==> outi.Length > 0
    ensures fits ==> Value(0x1_0000_0000, outi[..]) == 58 * old(Value(0x1_0000_0000, outi[..])) + digit
  {
    var bytesleft := binsz % 4;
    var c := MultiplyAddLimbs(outi, digit);
    TooBig(outi[..], c, binsz);
    if c != 0 {
      return false;
    }
    var top := outi[0];
    return bytesleft == 0 || Shr(top, bytesleft) == 0;
  }

  /** One round of the digit loop: whether `c` is a digit and the number still fits. */
  method ReadDigit(outi: array<Limb>, c: char, binsz: nat) returns (ok: bool)
    requires outi.Length == (binsz + 3) / 4
    requires outi.Length == 0 ==> c != '1'
    modifies outi
    ensures ok == (DigitOf(c) >= 0 && 58 * old(Value(0x1_0000_0000, outi[..])) + DigitOf(c) < Pow(256, binsz))
    ensures ok ==> outi.Length > 0
    ensures ok ==> Value(0x1_0000_0000, outi[..]) == 58 * old(Value(0x1_0000_0000, outi[..])) + DigitOf(c)
  {
    var digit := LookUp(c);
    if digit == -1 {
      return false;
    }
    ok := TakeDigit(outi, digit, binsz);
  }

  /** The digit loop of b58tobin, from the first character that is no '1'. */
  method ReadDigits(s: string, from: nat, binsz: nat, outi: array<Limb>) returns (ok: bool)
    requires outi.Length == (binsz + 3) / 4 && Value(0x1_0000_0000, outi[..]) == 0
    requires from <= |s| && forall k :: 0 <= k < from ==> s[k] == '1'
    requires from < |s| ==> s[from] != '1'
    modifies outi
    ensures ok == Fits(s, binsz)
    ensures ok ==> Value(0x1_0000_0000, outi[..]) == Value(58, Digits(s))
  {
    hide Value, Pow, DigitOf, Digits;
    OnesAreWorthNothing(s[..from]);
    PowPositive(256, binsz);
    var i := from;
    while i < |s|
      invariant from <= i <= |s| && Fits(s[..i], binsz)
      invariant Value(0x1_0000_0000, outi[..]) == Value(58, Digits(s[..i]))
      invariant outi.Length == 0 ==> i == from
    {
      HornerStep(s, i, binsz);
      var more := ReadDigit(outi, s[i], binsz);
      if !more {
        return false;
      }
      i := i + 1;
    }
    assert s[..i] == s;
    return true;
  }

  /** The canonical size: what is left of the buffer's size without leading zeros, and the leading '1's. */
  method CountBytes(bin: array<Byte>, binszp: SizeRef, zerocount: nat)
    requires binszp.value <= bin.Length
    modifies binszp
    ensures binszp.value == old(binszp.value) - LeadingZeros(bin[..old(binszp.value)]) + zerocount
  {
    var binsz, i := binszp.value, 0;
    while i < binsz && bin[i] == 0
      invariant i <= binsz && binszp.value == binsz - i && forall k :: 0 <= k < i ==> bin[k] == 0
    {
      binszp.value := binszp.value - 1;
      i := i + 1;
    }
    LeadingZerosUnique(bin[..binsz], i);
    binszp.value := binszp.value + zerocount;
  }

  /** The leading '1's, and the 32-bit count of them. */
  method CountOnes(s: string) returns (i: nat, zerocount: nat)
    ensures i == LeadingOnes(s) && zerocount == Uint32(i)
    ensures i <= |s| && forall k :: 0 <= k < i ==> s[k] == '1'
    ensures i < |s| ==> s[i] != '1'
  {
    i, zerocount := 0, 0;
    while i < |s| && s[i] == '1'
      invariant i <= |s| && zerocount == Uint32(i) && forall k :: 0 <= k < i ==> s[k] == '1'
    {
      zerocount := (zerocount + 1) % 0x1_0000_0000;
      i := i + 1;
    }
    LeadingOnesUnique(s, i);
  }

  /** b58tobin. `binszp` is the size of the buffer on entry, and on success the size that the text stands
      for. The number fills the buffer from its end; on failure nothing changes. */
  method B58ToBin(bin: array<Byte>, binszp: SizeRef, b58: string, b58sz: nat) returns (ok: bool)
    requires binszp.value <= bin.Length
    requires if b58sz == 0 then '\0' in b58 else b58sz <= |b58|
    requires binszp.value + |b58| + 3 < SIZE_T_SIZE
    modifies bin, binszp
    ensures ok == Decode(Input(b58, b58sz), old(binszp.value)).Accepted?
    ensures ok ==> bin[..old(binszp.value)] == Decode(Input(b58, b58sz), old(binszp.value)).bin
    ensures ok ==> binszp.value == Decode(Input(b58, b58sz), old(binszp.value)).size
    ensures !ok ==> binszp.value == old(binszp.value)
    ensures forall k :: (ok ==> old(binszp.value) <= k) && 0 <= k < bin.Length ==> bin[k] == old(bin[k])
  {
    hide Value, Pow, Digits, DigitOf, LeadingOnes;
    var binsz := binszp.value;
    var outi := new Limb[(binsz + 3) / 4](_ => 0);
    var s := Input(b58, b58sz);
    var i, zerocount := CountOnes(s);
    assert outi[..] == Zeros(outi.Length);
    ValueZeros(0x1_0000_0000, outi.Length);
    ok := ReadDigits(s, i, binsz, outi);
    if !ok {
      return;
    }
    WriteLimbs(bin, binsz, outi);
    CountBytes(bin, binszp, zerocount);
  }
}

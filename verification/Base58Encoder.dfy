/** b58enc: repeated multiply-by-256-and-carry over a fixed digit buffer. */
module Base58Encoder {
  import opened Positional
  import opened Base58Alphabet
  import opened Base58
  import opened CTypes

  /** Once only zeros are left in front, or nothing is, the whole buffer holds the result. */
  lemma CarriedAll(k: nat, carry: nat, now: seq<Byte>, was: seq<Byte>, byte: Byte)
    requires CarriedDownTo(58, 256, byte, k, carry, now, was)
    requires forall i :: 0 <= i < k ==> was[i] == 0
    requires k > 0 ==> carry == 0
    requires 256 * Value(58, was) + byte < Pow(58, |was|)
    ensures Value(58, now) == 256 * Value(58, was) + byte
    ensures forall i :: 0 <= i < k ==> now[i] == 0
  {
    assert was == Zeros(k) + was[k..] && now == Zeros(k) + now[k..];
    ValueLeadingZeros(58, k, was[k..]);
    ValueLeadingZeros(58, k, now[k..]);
    PowPositive(58, |now| - k);
    NoCarry(Value(58, now[k..]), carry, Pow(58, |now| - k), 256 * Value(58, was[k..]) + byte);
  }

  /** The inner loop of b58enc: `buf := 256 * buf + byte`, reading no digit at or below `high`
      unless a carry reaches it. Returns the next `high`. */
  method MultiplyAdd(buf: array<Byte>, high: nat, byte: Byte) returns (j: nat)
    requires high < buf.Length && AreDigits(58, buf[..])
    requires forall k :: 0 <= k <= high ==> buf[k] == 0
    requires 256 * Value(58, buf[..]) + byte < Pow(58, buf.Length)
    modifies buf
    ensures j < buf.Length && AreDigits(58, buf[..])
    ensures Value(58, buf[..]) == 256 * old(Value(58, buf[..])) + byte
    ensures forall k :: 0 <= k < j ==> buf[k] == 0
    ensures j > 0 ==> buf[j] == 0
  {
    hide Pow, Value;
    ghost var was, k := buf[..], buf.Length;
    assert forall i :: 0 <= i <= high ==> was[i] == 0;
    CarriedNothing(58, 256, byte, was);
    var carry: nat := byte;
    j := buf.Length - 1;
    while j > high || carry != 0
      invariant 0 <= j < buf.Length && k == j + 1 && carry <= 255
      invariant CarriedDownTo(58, 256, byte, k, carry, buf[..], was)
      decreases j
    {
      ghost var carried, now := carry, buf[..];
      carry := carry + 256 * buf[j] as int;
      assert buf[j] < 58 && carry < 0x8000_0000;
      CarryStep(58, 256, byte, j, carried, now, was, carry / 58, carry % 58);
      buf[j] := carry % 58;
      carry := carry / 58;
      assert buf[..] == now[j := buf[j]];
      k := j;
      if j == 0 {
        break;
      }
      j := j - 1;
    }
    CarriedAll(k, carry, buf[..], was, byte);
  }

  /** As long as the value stays below the weight of the first digit, that digit is zero. */
  lemma FirstDigitFree(ds: seq<nat>)
    requires |ds| > 0 && Value(58, ds) < Pow(58, |ds| - 1)
    ensures ds[0] == 0
  {
    if ds[0] > 0 {
      ValueLowerBound(58, ds);
    }
  }

  /** Taking one more byte: the number grows to fit the buffer, and until the last byte it leaves
      the first digit free. */
  lemma TakenByte(bin: seq<Byte>, z: nat, i: nat)
    requires z <= i < |bin|
    ensures var v, size := 256 * Value(256, bin[z..i]) + bin[i], BufferSize(|bin| - z);
      v == Value(256, bin[z..i + 1]) < Pow(58, size) && (i + 1 < |bin| ==> v < Pow(58, size - 1))
  {
    assert bin[z..i + 1] == bin[z..i] + [bin[i]];
    assert bin[z..i + 1][..i - z] == bin[z..i];
    ValueBound(256, bin[z..i + 1]);
    BufferIsBigEnough(|bin| - z);
    PowMonotone(256, i + 1 - z, |bin| - z);
    if i + 1 < |bin| {
      PowMonotone(256, i + 1 - z, |bin| - z - 1);
    }
  }

  /** Before byte `i` is taken the buffer holds the number of the bytes so far, with zeros before `high`,
      and at `high` itself unless every byte has been taken. */
  ghost predicate Holds(ds: seq<Byte>, high: nat, bin: seq<Byte>, z: nat, i: nat)
  {
    && z <= i <= |bin| && high < |ds| == BufferSize(|bin| - z) && AreDigits(58, ds)
    && Value(58, ds) == Value(256, bin[z..i])
    && (forall k :: 0 <= k < high ==> ds[k] == 0)
    && (i < |bin| ==> ds[high] == 0)
  }

  lemma HoldsNothing(bin: seq<Byte>, z: nat)
    requires z <= |bin|
    ensures Holds(Zeros(BufferSize(|bin| - z)), BufferSize(|bin| - z) - 1, bin, z, z)
  {
    ValueZeros(58, BufferSize(|bin| - z));
  }

  lemma RoomForNext(ds: seq<Byte>, high: nat, bin: seq<Byte>, z: nat, i: nat)
    requires Holds(ds, high, bin, z, i) && i < |bin|
    ensures high < |ds| && AreDigits(58, ds) && forall k :: 0 <= k <= high ==> ds[k] == 0
    ensures 256 * Value(58, ds) + bin[i] < Pow(58, |ds|)
  {
    TakenByte(bin, z, i);
  }

  lemma HoldsNext(was: seq<Byte>, high: nat, bin: seq<Byte>, z: nat, i: nat, ds: seq<Byte>, high': nat)
    requires Holds(was, high, bin, z, i) && i < |bin|
    requires high' < |ds| == |was| && AreDigits(58, ds)
    requires Value(58, ds) == 256 * Value(58, was) + bin[i]
    requires forall k :: 0 <= k < high' ==> ds[k] == 0
    requires high' > 0 ==> ds[high'] == 0
    ensures Holds(ds, high', bin, z, i + 1)
  {
    hide Value, Pow;
    TakenByte(bin, z, i);
    if i + 1 < |bin| {
      FirstDigitFree(ds);
    }
  }

  lemma HoldsAll(ds: seq<Byte>, high: nat, bin: seq<Byte>, z: nat)
    requires Holds(ds, high, bin, z, |bin|)
    ensures |ds| == BufferSize(|bin| - z) && AreDigits(58, ds) && Value(58, ds) == Value(256, bin[z..])
  {
    assert bin[z..|bin|] == bin[z..];
  }

  /** The digits of the bytes `bin[z..]`, in a buffer of `BufferSize` digits. */
  method ToBase58(bin: seq<Byte>, z: nat) returns (buf: array<Byte>)
    requires z <= |bin|
    ensures fresh(buf) && buf.Length == BufferSize(|bin| - z)
    ensures AreDigits(58, buf[..]) && Value(58, buf[..]) == Value(256, bin[z..])
  {
    hide Holds, Value, Pow, AreDigits;
    var size := (|bin| - z) * 138 / 100 + 1;
    buf := new Byte[size](_ => 0);
    assert buf[..] == Zeros(size);
    HoldsNothing(bin, z);
    var high: nat := size - 1;
    for i := z to |bin|
      invariant Holds(buf[..], high, bin, z, i)
    {
      ghost var was, from := buf[..], high;
      RoomForNext(was, from, bin, z, i);
      high := MultiplyAdd(buf, high, bin[i]);
      HoldsNext(was, from, bin, z, i, buf[..], high);
    }
    HoldsAll(buf[..], high, bin, z);
  }

  /** The end of b58enc: `z` ones, the characters of the digits from `first` on and a NUL. */
  method WriteText(b58: array<char>, z: nat, buf: array<Byte>, first: nat) returns (i: nat)
    requires first <= buf.Length && AreDigits(58, buf[..])
    requires z + buf.Length - first < b58.Length
    modifies b58
    ensures i == z + buf.Length - first
    ensures forall k :: 0 <= k < z ==> b58[k] == '1'
    ensures forall k :: z <= k < i ==> b58[k] == CharOf(buf[first + k - z])
    ensures b58[i] == '\0' && forall k :: i < k < b58.Length ==> b58[k] == old(b58[k])
  {
    forall k | 0 <= k < z {
      b58[k] := '1';
    }
    var j := first;
    i := z;
    while j < buf.Length
      invariant first <= j <= buf.Length && i == z + j - first
      invariant forall k :: 0 <= k < z ==> b58[k] == '1'
      invariant forall k :: z <= k < i ==> b58[k] == CharOf(buf[first + k - z])
      invariant forall k :: i <= k < b58.Length ==> b58[k] == old(b58[k])
    {
      assert buf[j] == buf[..][j];
      OrderedIsCharOf(buf[j]);
      b58[i] := ORDERED[buf[j] / 8][buf[j] % 8];
      i, j := i + 1, j + 1;
    }
    b58[i] := '\0';
  }

  /** b58enc. `b58sz` is the capacity on entry; on return it is the size that the text takes with its
      closing NUL, whether it was written or not. */
  method B58Enc(b58: array<char>, b58sz: SizeRef, bin: seq<Byte>) returns (ok: bool)
    requires b58sz.value <= b58.Length
    requires |bin| * 138 < SIZE_T_SIZE
    modifies b58, b58sz
    ensures ok == (|Encode(bin)| < old(b58sz.value))
    ensures b58sz.value == |Encode(bin)| + 1
    ensures ok ==> b58[..|Encode(bin)|] == Encode(bin) && b58[|Encode(bin)|] == '\0'
    ensures forall k :: (ok ==> |Encode(bin)| < k) && 0 <= k < b58.Length ==> b58[k] == old(b58[k])
  {
    hide Encode, Text, Ones, CharOf, Value, Pow;
    var zcount := 0;
    while zcount < |bin| && bin[zcount] == 0
      invariant zcount <= |bin| && forall k :: 0 <= k < zcount ==> bin[k] == 0
    {
      zcount := zcount + 1;
    }
    var buf := ToBase58(bin, zcount);
    var size := buf.Length;
    var j := 0;
    while j < size && buf[j] == 0
      invariant j <= size && forall k :: 0 <= k < j ==> buf[k] == 0
    {
      j := j + 1;
    }
    EncodeFromBuffer(bin, zcount, buf[..], j);
    EncodedChars(Encode(bin), zcount, buf[..][j..]);
    if b58sz.value <= zcount + size - j {
      b58sz.value := zcount + size - j + 1;
      return false;
    }
    var i := WriteText(b58, zcount, buf, j);
    b58sz.value := i + 1;
    return true;
  }

  /** The significant digits in the buffer are the shortest digits of the bytes' number. */
  lemma EncodeFromBuffer(bin: seq<Byte>, z: nat, buf: seq<Byte>, j: nat)
    requires z <= |bin| && j <= |buf| && AreDigits(58, buf)
    requires forall k :: 0 <= k < z ==> bin[k] == 0
    requires z < |bin| ==> bin[z] != 0
    requires forall k :: 0 <= k < j ==> buf[k] == 0
    requires j < |buf| ==> buf[j] != 0
    requires Value(58, buf) == Value(256, bin[z..])
    ensures Encode(bin) == Ones(z) + Text(buf[j..])
  {
    LeadingZerosUnique(bin, z);
    ValueStripZeros(256, bin);
    LeadingZerosUnique(buf, j);
    MinimalStripsZeros(58, buf);
  }

  lemma EncodedChars(s: string, z: nat, ds: seq<Byte>)
    requires AreDigits(58, ds) && s == Ones(z) + Text(ds)
    ensures |s| == z + |ds|
    ensures forall k :: 0 <= k < z ==> s[k] == '1'
    ensures forall k :: z <= k < |s| ==> s[k] == CharOf(ds[k - z])
  {
  }
}

/** The machine's 32 bytes of memory. MLOAD, MSTORE and MSTORE8 take bit offsets and never reach beyond
    the byte that the offset is in: the memory is an array of 256 bits. */
module Memory {
  import opened Positional
  import opened CTypes

  type Bytes = m: seq<Byte> | |m| == 32 witness seq(32, _ => 0)

  const BITS: nat := 256

  predicate Bit(x: nat, k: nat)
    decreases k
  {
    if k == 0 then x % 2 == 1 else Bit(x / 2, k - 1)
  }

  /** `x >> n` */
  function Drop(x: nat, n: nat): nat
    decreases n
  {
    if n == 0 then x else Drop(x / 2, n - 1)
  }

  /** The low `n` bits of `x`. */
  function Low(x: nat, n: nat): nat
    decreases n
  {
    if n == 0 then 0 else x % 2 + 2 * Low(x / 2, n - 1)
  }

  /** The low `n` bits of `x` under the bits of `y`. */
  function Splice(x: nat, y: nat, n: nat): nat
    decreases n
  {
    if n == 0 then y else x % 2 + 2 * Splice(x / 2, y, n - 1)
  }

  lemma {:induction false} SpliceBits(x: nat, y: nat, n: nat, k: nat)
    ensures Bit(Splice(x, y, n), k) == if k < n then Bit(x, k) else Bit(y, k - n)
    decreases n
  {
    if n > 0 && k > 0 {
      SpliceBits(x / 2, y, n - 1, k - 1);
    }
  }

  lemma {:induction false} LowBits(x: nat, n: nat, k: nat)
    ensures Bit(Low(x, n), k) == (k < n && Bit(x, k))
    decreases n, k
  {
    if k > 0 {
      if n == 0 {
        LowBits(0, 0, k - 1);
      } else {
        LowBits(x / 2, n - 1, k - 1);
      }
    }
  }

  lemma {:induction false} DropBits(x: nat, n: nat, k: nat)
    ensures Bit(Drop(x, n), k) == Bit(x, n + k)
    decreases n
  {
    if n > 0 {
      DropBits(x / 2, n - 1, k);
    }
  }

  lemma {:induction false} DropSplice(x: nat, y: nat, n: nat)
    ensures Drop(Splice(x, y, n), n) == y
    decreases n
  {
    if n > 0 {
      DropSplice(x / 2, y, n - 1);
    }
  }

  lemma {:induction false} LowOfLow(x: nat, m: nat, n: nat)
    requires n <= m
    ensures Low(Low(x, m), n) == Low(x, n)
    decreases n
  {
    if n > 0 {
      LowOfLow(x / 2, m - 1, n - 1);
    }
  }

  lemma {:induction false} LowIsMod(x: nat, n: nat)
    ensures 0 < Pow(2, n) && Low(x, n) == x % Pow(2, n)
    decreases n
  {
    PowPositive(2, n);
    if n > 0 {
      LowIsMod(x / 2, n - 1);
      HalfMod(x, Pow(2, n - 1));
    } else {
      assert x % 1 == 0;
    }
  }

  lemma HalfMod(x: nat, p: nat)
    requires p > 0
    ensures x % (2 * p) == x % 2 + 2 * (x / 2 % p)
  {
    DivMod(x / 2, p);
    DivMod(x, 2 * p);
    var q, r := x / 2 / p, x / 2 % p;
    assert q * (2 * p) == 2 * (q * p);
    assert q * (2 * p) + (x % 2 + 2 * r) == x;
    LastDigit(2 * p, q, x % 2 + 2 * r, x / (2 * p), x % (2 * p));
  }

  lemma {:induction false} SpliceBound(x: nat, v: nat, m: nat, n: nat)
    ensures Splice(x, Low(v, m), n) < Pow(2, n + m)
    decreases n
  {
    if n > 0 {
      SpliceBound(x / 2, v, m, n - 1);
    } else {
      LowIsMod(v, m);
    }
  }

  /** `(x & ~(0xFF << offset)) | ((v & 0xFF) << offset)`, kept to a byte: the bits from `offset` on come from `v`. */
  function StoreByte(x: Byte, v: nat, offset: nat): Byte
    requires offset < 8
  {
    SpliceBound(x, v, 8 - offset, offset);
    TwoToTheEighth();
    Splice(x, Low(v, 8 - offset), offset)
  }

  /** The masking expression has the bits that StoreByteBits gives StoreByte. */
  lemma StoreByteIsMasking(x: bv16, v: bv16, offset: bv16, k: bv16)
    requires x < 256 && offset < 8 && k < 8
    ensures ((((x & !(0xFF << offset)) | ((v & 0xFF) << offset)) & 0xFF) >> k) & 1
         == (if k < offset then x >> k else v >> (k - offset)) & 1
  {
  }

  // ---- The bytes and their bits

  predicate InMemory(a: int)
  {
    0 <= a < BITS
  }

  /** MSTORE at bit offset `a`. */
  function Store(mem: Bytes, a: int, v: nat): Bytes
    requires InMemory(a)
  {
    mem[a / 8 := StoreByte(mem[a / 8], v, a % 8)]
  }

  /** MLOAD at bit offset `a`. */
  function Load(mem: Bytes, a: int): nat
    requires InMemory(a)
  {
    Drop(mem[a / 8], a % 8)
  }

  ghost function BitsOf(mem: Bytes): (bits: seq<bool>)
    ensures |bits| == BITS
  {
    seq(BITS, i requires 0 <= i < BITS => Bit(mem[i / 8], i % 8))
  }

  /** Where the byte of bit `a` ends. */
  function ByteEnd(a: nat): nat
  {
    a / 8 * 8 + 8
  }

  ghost function StoreBits(bits: seq<bool>, a: nat, v: nat): (r: seq<bool>)
    requires |bits| == BITS
    ensures |r| == BITS
  {
    seq(BITS, i requires 0 <= i < BITS => if a <= i < ByteEnd(a) then Bit(v, i - a) else bits[i])
  }

  /** The number that bits denote, the lowest first. */
  ghost function NumberOf(bits: seq<bool>): nat
  {
    if |bits| == 0 then 0 else (if bits[0] then 1 else 0) + 2 * NumberOf(bits[1..])
  }

  /** Storing replaces the bits from the offset to the end of its byte by the lowest bits of the value. */
  lemma StoreRefines(mem: Bytes, a: int, v: nat)
    requires InMemory(a)
    ensures BitsOf(Store(mem, a, v)) == StoreBits(BitsOf(mem), a, v)
  {
    forall i: nat | i < BITS
      ensures BitsOf(Store(mem, a, v))[i] == StoreBits(BitsOf(mem), a, v)[i]
    {
      if i / 8 == a / 8 {
        StoreByteBits(mem[a / 8], v, a % 8, i % 8);
        assert a <= i < ByteEnd(a) <==> i % 8 >= a % 8;
        assert i - a == i % 8 - a % 8;
      } else {
        assert !(a <= i < ByteEnd(a));
        assert Store(mem, a, v)[i / 8] == mem[i / 8];
      }
    }
  }

  lemma StoreByteBits(x: Byte, v: nat, offset: nat, k: nat)
    requires offset < 8 && k < 8
    ensures Bit(StoreByte(x, v, offset), k) == if k < offset then Bit(x, k) else Bit(v, k - offset)
  {
    SpliceBits(x, Low(v, 8 - offset), offset, k);
    if k >= offset {
      LowBits(v, 8 - offset, k - offset);
    }
  }

  /** Loading reads the bits from the offset to the end of its byte. */
  lemma LoadRefines(mem: Bytes, a: int)
    requires InMemory(a)
    ensures Load(mem, a) == NumberOf(BitsOf(mem)[a..ByteEnd(a)])
  {
    DropIsNumber(mem, a, a % 8);
  }

  lemma {:induction false} DropIsNumber(mem: Bytes, a: nat, o: nat)
    requires a < BITS && o == a % 8
    ensures Drop(mem[a / 8], o) == NumberOf(BitsOf(mem)[a..ByteEnd(a)])
    decreases 8 - o
  {
    var x, bits := Drop(mem[a / 8], o), BitsOf(mem)[a..ByteEnd(a)];
    assert bits[0] == BitsOf(mem)[a] == (x % 2 == 1) by { DropBits(mem[a / 8], o, 0); }
    DropNext(mem[a / 8], o);
    if o < 7 {
      DropIsNumber(mem, a + 1, o + 1);
      assert bits[1..] == BitsOf(mem)[a + 1..ByteEnd(a + 1)];
    } else {
      DropByte(mem[a / 8]);
      assert bits[1..] == [];
    }
  }

  lemma {:induction false} DropNext(x: nat, n: nat)
    ensures Drop(x, n + 1) == Drop(x, n) / 2
    decreases n
  {
    if n > 0 {
      DropNext(x / 2, n - 1);
    }
  }

  lemma DropByte(x: Byte)
    ensures Drop(x, 8) == 0
  {
    assert Drop(x, 8) == Drop(x / 2, 7) == Drop(x / 4, 6) == Drop(x / 8, 5) == Drop(x / 16, 4);
    assert Drop(x / 16, 4) == Drop(x / 32, 3) == Drop(x / 64, 2) == Drop(x / 128, 1) == x / 256;
  }

  /** A load after a store at the same offset gives back the value modulo what fits up to the end of the byte. */
  lemma LoadAfterStore(mem: Bytes, a: int, v: nat)
    requires InMemory(a)
    ensures 0 < Pow(2, 8 - a % 8) && Load(Store(mem, a, v), a) == v % Pow(2, 8 - a % 8)
  {
    DropSplice(mem[a / 8], Low(v, 8 - a % 8), a % 8);
    LowIsMod(v, 8 - a % 8);
  }

  /** MSTORE, which cuts its value to 32 bits, and MSTORE8, which cuts it to 8, do the same. */
  lemma Store8IsStore(mem: Bytes, a: int, v: int)
    requires InMemory(a)
    ensures Store(mem, a, v % 256) == Store(mem, a, v % 0x1_0000_0000)
  {
    LowByte(v, 8 - a % 8);
  }

  lemma LowByte(v: int, n: nat)
    requires n <= 8
    ensures Low(v % 256, n) == Low(v % 0x1_0000_0000, n)
  {
    var u := v % 0x1_0000_0000;
    assert u % 256 == v % 256;
    TwoToTheEighth();
    LowIsMod(u, 8);
    LowOfLow(u, 8, n);
  }

  lemma TwoToTheEighth()
    ensures Pow(2, 8) == 256
  {
  }
}

/**
 * The generic register container: a named register at a bus address holding
 * `size` 32-bit words, a status word and a stale flag. Bit fields of a word are
 * written with a (bit, mask) pair; the stale flag records that some word has
 * changed since it was last cleared.
 */
module GenericRegister {

  const Modulus: int := 0x1_0000_0000

  /** An unsigned 32-bit C integer. */
  type uint = x: int | 0 <= x < 0x1_0000_0000

  const AllOnes: uint := 0xFFFF_FFFF

  // Coulter.Pow2 is a copy of this one, kept apart so that the decoder imports nothing.
  function Pow2(n: nat): (p: nat)
    ensures p >= 1
  {
    if n == 0 then 1 else 2 * Pow2(n - 1)
  }

  lemma Pow2Word()
    ensures Pow2(31) == 0x8000_0000 && Pow2(32) == Modulus
  {
    assert Pow2(8) == 0x100;
    Pow2Add(8, 8);
    Pow2Add(16, 15);
    Pow2Add(16, 16);
  }

  lemma {:induction false} Pow2Add(a: nat, b: nat)
    ensures Pow2(a + b) == Pow2(a) * Pow2(b)
  {
    if b > 0 {
      Pow2Add(a, b - 1);
    }
  }

  // ---------------------------------------------------------------------------
  // The bits of a number
  // ---------------------------------------------------------------------------

  /** Bit i of x, bit 0 being the lowest. */
  function Bit(x: nat, i: nat): bool
  {
    if i == 0 then x % 2 == 1 else Bit(x / 2, i - 1)
  }

  lemma {:induction false} BitOfZero(i: nat)
    ensures !Bit(0, i)
  {
    if i > 0 {
      BitOfZero(i - 1);
    }
  }

  /** A number below 2^k has no bit at position k or above. */
  lemma {:induction false} BitsAboveWidth(x: nat, k: nat, i: nat)
    requires x < Pow2(k) && i >= k
    ensures !Bit(x, i)
  {
    if k == 0 {
      BitOfZero(i);
    } else {
      BitsAboveWidth(x / 2, k - 1, i - 1);
    }
  }

  lemma BitsAbove(x: uint, i: nat)
    requires i >= 32
    ensures !Bit(x, i)
  {
    Pow2Word();
    BitsAboveWidth(x, 32, i);
  }

  /** Two numbers below 2^k whose bits agree below k are equal. */
  lemma {:induction false} BitsDetermine(x: nat, y: nat, k: nat)
    requires x < Pow2(k) && y < Pow2(k)
    requires forall i: nat :: i < k ==> Bit(x, i) == Bit(y, i)
    ensures x == y
  {
    if k > 0 {
      forall i: nat | i < k - 1
        ensures Bit(x / 2, i) == Bit(y / 2, i)
      {
        assert Bit(x, i + 1) == Bit(y, i + 1);
      }
      BitsDetermine(x / 2, y / 2, k - 1);
      assert Bit(x, 0) == Bit(y, 0);
    }
  }

  /** Extensionality: a word is determined by its 32 bits. */
  lemma BitsEqual(x: uint, y: uint)
    requires forall i: nat :: i < 32 ==> Bit(x, i) == Bit(y, i)
    ensures x == y
  {
    Pow2Word();
    BitsDetermine(x, y, 32);
  }

  lemma {:induction false} BitOfLowOnes(k: nat, i: nat)
    ensures Bit(Pow2(k) - 1, i) == (i < k)
  {
    if k == 0 {
      BitOfZero(i);
    } else if i > 0 {
      assert (Pow2(k) - 1) / 2 == Pow2(k - 1) - 1;
      BitOfLowOnes(k - 1, i - 1);
    }
  }

  lemma BitOfAllOnes(i: nat)
    ensures Bit(AllOnes, i) == (i < 32)
  {
    Pow2Word();
    BitOfLowOnes(32, i);
  }

  /** Removing the top bit 2^k of x clears bit k and keeps every other bit. */
  lemma {:induction false} BitWithoutTop(x: nat, k: nat, j: nat)
    requires Pow2(k) <= x < 2 * Pow2(k)
    ensures Bit(x - Pow2(k), j) == (j != k && Bit(x, j))
  {
    if k == 0 {
      BitOfZero(j);
      if j > 0 {
        BitOfZero(j - 1);
      }
    } else if j > 0 {
      assert (x - Pow2(k)) / 2 == x / 2 - Pow2(k - 1);
      BitWithoutTop(x / 2, k - 1, j - 1);
    }
  }

  // ---------------------------------------------------------------------------
  // The C operators on unsigned integers, one bit at a time
  // ---------------------------------------------------------------------------

  /** x & y */
  function And(x: nat, y: nat): (r: nat)
    ensures r <= x && r <= y
    decreases x
  {
    if x == 0 || y == 0 then 0
    else 2 * And(x / 2, y / 2) + (if x % 2 == 1 && y % 2 == 1 then 1 else 0)
  }

  /** x | y: at least either operand, at most their sum. */
  function Or(x: nat, y: nat): (r: nat)
    ensures x <= r && y <= r && r <= x + y
    decreases x
  {
    if x == 0 then y
    else if y == 0 then x
    else 2 * Or(x / 2, y / 2) + (if x % 2 == 1 || y % 2 == 1 then 1 else 0)
  }

  /** x ^ y: at most the sum of the operands, the sum without its carries. */
  function Xor(x: nat, y: nat): (r: nat)
    ensures r <= x + y
    decreases x
  {
    if x == 0 then y
    else if y == 0 then x
    else 2 * Xor(x / 2, y / 2) + (if (x % 2 == 1) != (y % 2 == 1) then 1 else 0)
  }

  /** x << n on a 32-bit unsigned word: x times 2^n, bits pushed past bit 31 lost. */
  function Shl(x: uint, n: nat): (r: uint)
    ensures r == (x * Pow2(n)) % Modulus
  {
    if n == 0 then x
    else
      ShlStep(x, n);
      (2 * Shl(x, n - 1)) % Modulus
  }

  /** One more doubling, modulo 2^32, of x times 2^(n-1) is x times 2^n modulo 2^32. */
  lemma ShlStep(x: nat, n: nat)
    requires n > 0
    ensures (2 * ((x * Pow2(n - 1)) % Modulus)) % Modulus == (x * Pow2(n)) % Modulus
  {
    var a := x * Pow2(n - 1);
    assert x * Pow2(n) == 2 * a;
    DoubleMod(a);
  }

  /** Doubling commutes with reduction modulo 2^32. */
  lemma DoubleMod(a: nat)
    ensures (2 * (a % Modulus)) % Modulus == (2 * a) % Modulus
  {
    var q := a / Modulus;
    assert 2 * a == 2 * (a % Modulus) + 2 * q * Modulus;
  }

  /** x >> n on a 32-bit unsigned word: zeros come in at the top, so x divided by 2^n, rounded down. */
  function Shr(x: uint, n: nat): (r: uint)
    ensures r * Pow2(n) <= x < (r + 1) * Pow2(n)
  {
    if n == 0 then x
    else
      HalveQuotient(x, Shr(x, n - 1), Pow2(n - 1));
      Shr(x, n - 1) / 2
  }

  /** If q is x divided by p, rounded down, then q / 2 is x divided by 2p, rounded down. */
  lemma HalveQuotient(x: nat, q: nat, p: nat)
    requires q * p <= x < (q + 1) * p
    ensures (q / 2) * (2 * p) <= x < (q / 2 + 1) * (2 * p)
  {
    var h := q / 2;
    assert q == 2 * h || q == 2 * h + 1;
    assert (q / 2) * (2 * p) == 2 * h * p;
    assert (q / 2 + 1) * (2 * p) == (2 * h + 2) * p;
    if q == 2 * h {
      assert (q + 1) * p <= (2 * h + 2) * p;
    } else {
      assert q * p >= 2 * h * p;
    }
  }

  /** x | y and x & y together add up to x + y. */
  lemma {:induction false} OrPlusAnd(x: nat, y: nat)
    ensures Or(x, y) + And(x, y) == x + y
    decreases x
  {
    if x != 0 && y != 0 {
      OrPlusAnd(x / 2, y / 2);
    }
  }

  /** x ^ y is x + y without its carries, which are the bits of x & y. */
  lemma {:induction false} XorPlusCarries(x: nat, y: nat)
    ensures Xor(x, y) + 2 * And(x, y) == x + y
    decreases x
  {
    if x != 0 && y != 0 {
      XorPlusCarries(x / 2, y / 2);
    }
  }

  lemma {:induction false} BitAnd(x: nat, y: nat, i: nat)
    ensures Bit(And(x, y), i) == (Bit(x, i) && Bit(y, i))
    decreases x
  {
    if x == 0 || y == 0 {
      BitOfZero(i);
    } else if i > 0 {
      BitAnd(x / 2, y / 2, i - 1);
    }
  }

  lemma {:induction false} BitOr(x: nat, y: nat, i: nat)
    ensures Bit(Or(x, y), i) == (Bit(x, i) || Bit(y, i))
    decreases x
  {
    if x == 0 || y == 0 {
      BitOfZero(i);
    } else if i > 0 {
      BitOr(x / 2, y / 2, i - 1);
    }
  }

  lemma {:induction false} BitXor(x: nat, y: nat, i: nat)
    ensures Bit(Xor(x, y), i) == (Bit(x, i) != Bit(y, i))
    decreases x
  {
    if x == 0 || y == 0 {
      BitOfZero(i);
    } else {
      var low := (x % 2 == 1) != (y % 2 == 1);
      BitOfDouble(Xor(x / 2, y / 2), low, i);
      if i > 0 {
        BitXor(x / 2, y / 2, i - 1);
      }
    }
  }

  /** Bit 0 of 2h + c is c; the bits above it are those of h. */
  lemma BitOfDouble(h: nat, c: bool, i: nat)
    ensures Bit(2 * h + (if c then 1 else 0), i) == if i == 0 then c else Bit(h, i - 1)
  {
    var v := 2 * h + (if c then 1 else 0);
    assert v % 2 == (if c then 1 else 0) && v / 2 == h;
  }

  lemma {:induction false} OrWidth(x: nat, y: nat, k: nat)
    requires x < Pow2(k) && y < Pow2(k)
    ensures Or(x, y) < Pow2(k)
    decreases x
  {
    if x != 0 && y != 0 {
      OrWidth(x / 2, y / 2, k - 1);
    }
  }

  lemma {:induction false} XorWidth(x: nat, y: nat, k: nat)
    requires x < Pow2(k) && y < Pow2(k)
    ensures Xor(x, y) < Pow2(k)
    decreases x
  {
    if x != 0 && y != 0 {
      XorWidth(x / 2, y / 2, k - 1);
    }
  }

  lemma OrWord(x: uint, y: uint)
    ensures Or(x, y) < Modulus
  {
    Pow2Word();
    OrWidth(x, y, 32);
  }

  lemma XorWord(x: uint, y: uint)
    ensures Xor(x, y) < Modulus
  {
    Pow2Word();
    XorWidth(x, y, 32);
  }

  /** The complement of f within the 32 bits of a word. */
  lemma BitComplement(f: uint, i: nat)
    ensures Bit(Xor(AllOnes, f), i) == (i < 32 && !Bit(f, i))
  {
    BitXor(AllOnes, f, i);
    BitOfAllOnes(i);
    if i >= 32 {
      BitsAbove(f, i);
    }
  }

  lemma BitShr(x: uint, n: nat, i: nat)
    ensures Bit(Shr(x, n), i) == Bit(x, i + n)
  {
    if n > 0 {
      BitShr(x, n - 1, i + 1);
    }
  }

  lemma BitShl1(x: uint, i: nat)
    ensures Bit((2 * x) % Modulus, i) == (0 < i < 32 && Bit(x, i - 1))
  {
    if i > 0 {
      if x < 0x8000_0000 {
        DoubleLow(x, i);
      } else {
        DoubleHigh(x, i);
      }
    }
  }

  /** Doubling a word below 2^31 moves every bit up by one. */
  lemma DoubleLow(x: uint, i: nat)
    requires x < 0x8000_0000 && i > 0
    ensures Bit((2 * x) % Modulus, i) == (i < 32 && Bit(x, i - 1))
  {
    Pow2Word();
    assert (2 * x) % Modulus == 2 * x;
    assert (2 * x) / 2 == x;
    if i >= 32 {
      BitsAboveWidth(x, 31, i - 1);
    }
  }

  /** Doubling a word at or above 2^31 moves every bit up by one and loses bit 31. */
  lemma DoubleHigh(x: uint, i: nat)
    requires x >= 0x8000_0000 && i > 0
    ensures Bit((2 * x) % Modulus, i) == (i < 32 && Bit(x, i - 1))
  {
    Pow2Word();
    assert (2 * x) % Modulus == 2 * (x - Pow2(31));
    assert (2 * x) % Modulus / 2 == x - Pow2(31);
    BitWithoutTop(x, 31, i - 1);
    if i >= 33 {
      BitsAbove(x, i - 1);
    }
  }

  lemma {:induction false} BitShl(x: uint, n: nat, i: nat)
    ensures Bit(Shl(x, n), i) == (n <= i < 32 && Bit(x, i - n))
  {
    if n == 0 {
      if i >= 32 {
        BitsAbove(x, i);
      }
    } else {
      BitShl1(Shl(x, n - 1), i);
      if i > 0 {
        BitShl(x, n - 1, i - 1);
      }
    }
  }

  // ---------------------------------------------------------------------------
  // Bit fields
  // ---------------------------------------------------------------------------

  /** The positions of field (bit, mask) in a word: mask << bit. */
  function FieldBits(bit: nat, mask: uint): uint
  {
    Shl(mask, bit)
  }

  /** Position i of a word belongs to field (bit, mask); the shift has cut what passed bit 31. */
  predicate InField(bit: nat, mask: uint, i: nat)
  {
    bit <= i < 32 && Bit(mask, i - bit)
  }

  /** The field fits the word: shifting the mask up by `bit` loses none of its set bits. */
  predicate FieldFits(bit: nat, mask: uint)
  {
    forall i: nat :: i < 32 && Bit(mask, i) ==> i + bit < 32
  }

  lemma ShiftBackBit(bit: nat, mask: uint, i: nat)
    ensures Bit(Shr(FieldBits(bit, mask), bit), i) == (i + bit < 32 && Bit(mask, i))
  {
    BitShr(FieldBits(bit, mask), bit, i);
    BitShl(mask, bit, i + bit);
  }

  /** A field fits exactly when its positions, shifted back down, give the mask again. */
  lemma FieldFitsIffShiftsBack(bit: nat, mask: uint)
    ensures FieldFits(bit, mask) <==> Shr(FieldBits(bit, mask), bit) == mask
  {
    var back := Shr(FieldBits(bit, mask), bit);
    forall i: nat
      ensures Bit(back, i) == (i + bit < 32 && Bit(mask, i))
    {
      ShiftBackBit(bit, mask, i);
    }
    if FieldFits(bit, mask) {
      BitsEqual(back, mask);
    } else {
      var i: nat :| i < 32 && Bit(mask, i) && i + bit >= 32;
      assert !Bit(back, i);
    }
  }

  /**
   * setIndex's new word: the word with the field's positions cleared, or-ed
   * with v & mask shifted into place.
   */
  function Merge(word: uint, v: uint, bit: nat, mask: uint): (r: uint)
    ensures forall i: nat :: i < 32 ==>
              Bit(r, i) == if InField(bit, mask, i) then Bit(v, i - bit) else Bit(word, i)
  {
    var cleared := And(word, Xor(AllOnes, FieldBits(bit, mask)));
    var placed := Shl(And(v, mask), bit);
    OrWord(cleared, placed);
    MergedBits(word, v, bit, mask);
    Or(cleared, placed)
  }

  lemma ClearedBit(word: uint, bit: nat, mask: uint, i: nat)
    requires i < 32
    ensures Bit(And(word, Xor(AllOnes, FieldBits(bit, mask))), i) == (!InField(bit, mask, i) && Bit(word, i))
  {
    BitAnd(word, Xor(AllOnes, FieldBits(bit, mask)), i);
    BitComplement(FieldBits(bit, mask), i);
    BitShl(mask, bit, i);
  }

  lemma PlacedBit(v: uint, bit: nat, mask: uint, i: nat)
    requires i < 32
    ensures Bit(Shl(And(v, mask), bit), i) == (InField(bit, mask, i) && Bit(v, i - bit))
  {
    BitShl(And(v, mask), bit, i);
    if i >= bit {
      BitAnd(v, mask, i - bit);
    }
  }

  /** The bits of the cleared word or-ed with the placed value. */
  lemma MergedBits(word: uint, v: uint, bit: nat, mask: uint)
    ensures forall i: nat :: i < 32 ==>
              Bit(Or(And(word, Xor(AllOnes, FieldBits(bit, mask))), Shl(And(v, mask), bit)), i) ==
              if InField(bit, mask, i) then Bit(v, i - bit) else Bit(word, i)
  {
    forall i: nat | i < 32
      ensures Bit(Or(And(word, Xor(AllOnes, FieldBits(bit, mask))), Shl(And(v, mask), bit)), i) ==
              if InField(bit, mask, i) then Bit(v, i - bit) else Bit(word, i)
    {
      BitOr(And(word, Xor(AllOnes, FieldBits(bit, mask))), Shl(And(v, mask), bit), i);
      ClearedBit(word, bit, mask, i);
      PlacedBit(v, bit, mask, i);
    }
  }

  /** getIndex's result: the word shifted right by `bit`, under the mask. */
  function Extract(word: uint, bit: nat, mask: uint): (r: uint)
    ensures forall i: nat :: Bit(r, i) == (Bit(mask, i) && Bit(word, i + bit))
  {
    ExtractedBits(word, bit, mask);
    And(Shr(word, bit), mask)
  }

  /** The bits of the shifted word under the mask. */
  lemma ExtractedBits(word: uint, bit: nat, mask: uint)
    ensures forall i: nat :: Bit(And(Shr(word, bit), mask), i) == (Bit(mask, i) && Bit(word, i + bit))
  {
    forall i: nat
      ensures Bit(And(Shr(word, bit), mask), i) == (Bit(mask, i) && Bit(word, i + bit))
    {
      BitAnd(Shr(word, bit), mask, i);
      BitShr(word, bit, i);
    }
  }

  lemma ReadBackBit(word: uint, v: uint, bit: nat, mask: uint, i: nat)
    requires FieldFits(bit, mask) && i < 32
    ensures Bit(Extract(Merge(word, v, bit, mask), bit, mask), i) == Bit(And(v, mask), i)
  {
    BitAnd(v, mask, i);
  }

  /** Reading a fitting field back after setting it gives the value under the mask. */
  lemma MergeReadsBack(word: uint, v: uint, bit: nat, mask: uint)
    requires FieldFits(bit, mask)
    ensures Extract(Merge(word, v, bit, mask), bit, mask) == And(v, mask)
  {
    var back := Extract(Merge(word, v, bit, mask), bit, mask);
    forall i: nat | i < 32
      ensures Bit(back, i) == Bit(And(v, mask), i)
    {
      ReadBackBit(word, v, bit, mask, i);
    }
    BitsEqual(back, And(v, mask));
  }

  /** The read-back holds for every word and value exactly when the field fits. */
  lemma ReadBackIffFits(bit: nat, mask: uint)
    ensures FieldFits(bit, mask) <==>
            forall word: uint, v: uint :: Extract(Merge(word, v, bit, mask), bit, mask) == And(v, mask)
  {
    if FieldFits(bit, mask) {
      forall word: uint, v: uint
        ensures Extract(Merge(word, v, bit, mask), bit, mask) == And(v, mask)
      {
        MergeReadsBack(word, v, bit, mask);
      }
    } else {
      var i: nat :| i < 32 && Bit(mask, i) && i + bit >= 32;
      var merged := Merge(0, mask, bit, mask);
      BitsAbove(merged, i + bit);
      BitAnd(mask, mask, i);
      assert Bit(Extract(merged, bit, mask), i) != Bit(And(mask, mask), i);
    }
  }

  /** Setting a field twice to the same value is setting it once. */
  lemma MergeIdempotent(word: uint, v: uint, bit: nat, mask: uint)
    ensures Merge(Merge(word, v, bit, mask), v, bit, mask) == Merge(word, v, bit, mask)
  {
    var once := Merge(word, v, bit, mask);
    BitsEqual(Merge(once, v, bit, mask), once);
  }

  /** Writing back the value just read leaves the word unchanged. */
  lemma MergeOfExtracted(word: uint, bit: nat, mask: uint)
    ensures Merge(word, Extract(word, bit, mask), bit, mask) == word
  {
    var e := Extract(word, bit, mask);
    forall i: nat | i < 32
      ensures Bit(Merge(word, e, bit, mask), i) == Bit(word, i)
    {
      if InField(bit, mask, i) {
        assert Bit(e, i - bit) == Bit(word, i);
      }
    }
    BitsEqual(Merge(word, e, bit, mask), word);
  }

  lemma CommuteBit(word: uint, v: uint, bit: nat, mask: uint, v': uint, bit': nat, mask': uint, i: nat)
    requires i < 32
    requires Bit(And(FieldBits(bit, mask), FieldBits(bit', mask')), i) == false
    ensures Bit(Merge(Merge(word, v, bit, mask), v', bit', mask'), i) ==
            Bit(Merge(Merge(word, v', bit', mask'), v, bit, mask), i)
  {
    BitAnd(FieldBits(bit, mask), FieldBits(bit', mask'), i);
    BitShl(mask, bit, i);
    BitShl(mask', bit', i);
  }

  /** Setting two fields with no position in common gives the same word in either order. */
  lemma MergeCommutes(word: uint, v: uint, bit: nat, mask: uint, v': uint, bit': nat, mask': uint)
    requires And(FieldBits(bit, mask), FieldBits(bit', mask')) == 0
    ensures Merge(Merge(word, v, bit, mask), v', bit', mask') ==
            Merge(Merge(word, v', bit', mask'), v, bit, mask)
  {
    var one := Merge(Merge(word, v, bit, mask), v', bit', mask');
    var other := Merge(Merge(word, v', bit', mask'), v, bit, mask);
    forall i: nat | i < 32
      ensures Bit(one, i) == Bit(other, i)
    {
      BitOfZero(i);
      CommuteBit(word, v, bit, mask, v', bit', mask', i);
    }
    BitsEqual(one, other);
  }

  // ---------------------------------------------------------------------------
  // The register
  // ---------------------------------------------------------------------------

  /**
   * A named register at a bus address. `value` is the word buffer of the C++
   * object; its length is the register's size.
   */
  class Register {
    var address: uint
    var name: string
    var stale: bool
    var status: uint
    var value: array<uint>

    ghost predicate Valid()
      reads this
    {
      value.Length < Modulus
    }

    /** size(): the number of words. */
    function Size(): (n: uint)
      reads this
      requires Valid()
      ensures n == value.Length
    {
      value.Length
    }

    /** Register(name, address): one word, zero; not stale; status 0. */
    constructor (name: string, address: uint)
      ensures Valid() && fresh(value)
      ensures this.name == name && this.address == address
      ensures value[..] == [0] && !stale && status == 0
    {
      this.address := address;
      this.name := name;
      value := new uint[1](_ => 0);
      stale := false;
      status := 0;
    }

    /** Register(name, address, size): `size` words, all zero; not stale; status 0. */
    constructor Sized(name: string, address: uint, size: uint)
      ensures Valid() && fresh(value)
      ensures this.name == name && this.address == address
      ensures value.Length == size && (forall i :: 0 <= i < size ==> value[i] == 0)
      ensures !stale && status == 0
    {
      this.address := address;
      this.name := name;
      value := new uint[size](_ => 0);
      stale := false;
      status := 0;
    }

    /** Register(reg): every field copied, the words into a buffer of its own. */
    constructor Copy(reg: Register)
      requires reg.Valid()
      ensures Valid() && fresh(value)
      ensures address == reg.address && name == reg.name && stale == reg.stale && status == reg.status
      ensures value[..] == reg.value[..]
    {
      address := reg.address;
      name := reg.name;
      stale := reg.stale;
      status := reg.status;
      var buffer := new uint[reg.value.Length];
      forall i | 0 <= i < buffer.Length {
        buffer[i] := reg.value[i];
      }
      value := buffer;
    }

    method SetAddress(address: uint)
      modifies this
      ensures this.address == address
      ensures name == old(name) && stale == old(stale) && status == old(status) && value == old(value)
    {
      this.address := address;
    }

    method SetStatus(status: uint)
      modifies this
      ensures this.status == status
      ensures address == old(address) && name == old(name) && stale == old(stale) && value == old(value)
    {
      this.status := status;
    }

    method ClrStale()
      modifies this
      ensures !stale
      ensures address == old(address) && name == old(name) && status == old(status) && value == old(value)
    {
      stale := false;
    }

    method SetStale()
      modifies this
      ensures stale
      ensures address == old(address) && name == old(name) && status == old(status) && value == old(value)
    {
      stale := true;
    }

    /**
     * setIndex(index, v, bit, mask): an index past the end changes nothing;
     * otherwise word `index` gets field (bit, mask) set to v & mask, and the
     * register turns stale exactly when that changes the word. A shift by 32 or
     * more is undefined in C, hence the bound on `bit` once the index is in range.
     */
    method SetIndex(index: uint, v: uint, bit: uint, mask: uint)
      requires Valid()
      requires index >= value.Length || bit < 32
      modifies this, value
      ensures Valid() && value == old(value)
      ensures address == old(address) && name == old(name) && status == old(status)
      ensures index >= value.Length ==> value[..] == old(value[..]) && stale == old(stale)
      ensures index < value.Length ==>
                var w := Merge(old(value[index]), v, bit, mask);
                value[..] == old(value[..])[index := w] && stale == (old(stale) || w != old(value[index]))
    {
      if index >= value.Length {
        return;
      }
      var newVal := value[index];
      newVal := And(newVal, Xor(AllOnes, Shl(mask, bit)));
      OrWord(newVal, Shl(And(v, mask), bit));
      newVal := Or(newVal, Shl(And(v, mask), bit));
      if newVal != value[index] {
        value[index] := newVal;
        stale := true;
      }
    }

    /**
     * getIndex(index, bit, mask): 0xFFFFFFFF past the end; otherwise bit i of
     * the result is bit i + bit of word `index` wherever the mask has a one.
     */
    function GetIndex(index: uint, bit: uint, mask: uint): (r: uint)
      reads this, value
      requires index >= value.Length || bit < 32
      ensures index >= value.Length ==> r == AllOnes
      ensures index < value.Length ==>
                forall i: nat :: Bit(r, i) == (Bit(mask, i) && Bit(value[index], i + bit))
    {
      if index >= value.Length then AllOnes
      else
        Extract(value[index], bit, mask)
    }

    /**
     * Once setIndex has written field (bit, mask) of word `index` to v, getIndex
     * with the same field reads back v & mask, provided the field fits the word.
     */
    lemma GetAfterSet(index: uint, v: uint, bit: uint, mask: uint, word: uint)
      requires index < value.Length && bit < 32 && FieldFits(bit, mask)
      requires value[index] == Merge(word, v, bit, mask)
      ensures GetIndex(index, bit, mask) == And(v, mask)
    {
      MergeReadsBack(word, v, bit, mask);
    }

    /** set(v, bit, mask) is setIndex at word 0. */
    method Set(v: uint, bit: uint, mask: uint)
      requires Valid()
      requires value.Length == 0 || bit < 32
      modifies this, value
      ensures Valid() && value == old(value)
      ensures address == old(address) && name == old(name) && status == old(status)
      ensures value.Length == 0 ==> value[..] == old(value[..]) && stale == old(stale)
      ensures value.Length > 0 ==>
                var w := Merge(old(value[0]), v, bit, mask);
                value[..] == old(value[..])[0 := w] && stale == (old(stale) || w != old(value[0]))
    {
      SetIndex(0, v, bit, mask);
    }

    /** get(bit, mask) is getIndex at word 0. */
    function Get(bit: uint, mask: uint): (r: uint)
      reads this, value
      requires value.Length == 0 || bit < 32
      ensures value.Length == 0 ==> r == AllOnes
      ensures value.Length > 0 ==> forall i: nat :: Bit(r, i) == (Bit(mask, i) && Bit(value[0], i + bit))
    {
      GetIndex(0, bit, mask)
    }
  }
}

/** The width of the key type, and the largest number of elements
    (and of keys) an index map can hold with it. */
module KeyWidths {

  /** Width in bits of `std::size_t` on the modelled platform. */
  const SizeBits: nat := 64

  /** The unsigned integer types a key can be (`unsigned char` .. 64-bit);
      the header requires the key to be no wider than `std::size_t`. */
  datatype KeyWidth = Bits8 | Bits16 | Bits32 | Bits64
  {
    function Bits(): nat
    {
      match this
      case Bits8 => 8
      case Bits16 => 16
      case Bits32 => 32
      case Bits64 => 64
    }
  }

  function Pow2(n: nat): (r: nat)
    ensures r >= 1
  {
    if n == 0 then 1 else 2 * Pow2(n - 1)
  }

  lemma {:induction false} Pow2Grows(m: nat, n: nat)
    requires m < n
    ensures Pow2(m) < Pow2(n)
  {
    if m < n - 1 {
      Pow2Grows(m, n - 1);
    }
  }

  lemma {:induction false} Pow2Sum(a: nat, b: nat)
    ensures Pow2(a + b) == Pow2(a) * Pow2(b)
  {
    if b > 0 {
      Pow2Sum(a, b - 1);
    }
  }

  /** `std::numeric_limits<KeyType>::max()`. */
  function KeyMax(w: KeyWidth): nat
  {
    match w
    case Bits8 => 0xFF
    case Bits16 => 0xFFFF
    case Bits32 => 0xFFFF_FFFF
    case Bits64 => 0xFFFF_FFFF_FFFF_FFFF
  }

  /** `max_size()`: the key type's maximum, plus one when the key type is
      narrower than `std::size_t`. */
  function MaxSize(w: KeyWidth): nat
  {
    KeyMax(w) + if w.Bits() < SizeBits then 1 else 0
  }

  lemma Pow2Of16()
    ensures Pow2(16) == 0x1_0000
  {
    assert Pow2(8) == 0x100;
    Pow2Sum(8, 8);
  }

  lemma Pow2Of32()
    ensures Pow2(32) == 0x1_0000_0000
  {
    Pow2Of16();
    Pow2Sum(16, 16);
  }

  lemma Pow2Of64()
    ensures Pow2(64) == 0x1_0000_0000_0000_0000
  {
    Pow2Of32();
    Pow2Sum(32, 32);
  }

  /** The key maximum is the largest number of the key's width. */
  lemma KeyMaxIsAllOnes(w: KeyWidth)
    ensures KeyMax(w) == Pow2(w.Bits()) - 1
  {
    match w
    case Bits8 =>
      assert Pow2(8) == 0x100;
    case Bits16 =>
      Pow2Of16();
    case Bits32 =>
      Pow2Of32();
    case Bits64 =>
      Pow2Of64();
  }

  /** What `max_size()` means: every key below it fits the key type, and it
      fits a `std::size_t` itself, so the plus one is dropped exactly for a
      key as wide as `std::size_t`. */
  lemma MaxSizeBound(w: KeyWidth)
    ensures MaxSize(w) == Min(Pow2(w.Bits()), Pow2(SizeBits) - 1)
  {
    KeyMaxIsAllOnes(w);
    KeyMaxIsAllOnes(Bits64);
    if w.Bits() < SizeBits {
      Pow2Grows(w.Bits(), SizeBits);
    }
  }

  /** `max_size()` is never zero and is itself a `std::size_t` value. */
  lemma MaxSizeFits(w: KeyWidth)
    ensures 0 < MaxSize(w) < Pow2(SizeBits)
  {
    MaxSizeBound(w);
    KeyMaxIsAllOnes(Bits64);
  }

  function Min(a: int, b: int): int
  {
    if a <= b then a else b
  }
}

/** A pointer and a colour bit in one machine word. Nodes are at least 2-aligned, so the low bit of an
    address is free. The trees work with `Word`; this module shows that the bit operations on the
    packed word do the same. */
module PackedWord {
  import opened Trees

  /** The two components of a packed word. */
  datatype Word<+P> = Word(ptr: P, bit: Color)

  // ---------- the bit operations ----------

  /** An address, or a packed word. */
  type Machine = bv64

  function ColorBit(c: Color): Machine { if c.Black? then 1 else 0 }

  function Bit(w: Machine): Machine { w & 1 }

  function Pointer(w: Machine): Machine { w & !1 }

  function Or(p: Machine, b: Machine): Machine { p | b }

  function SetPointer(w: Machine, p: Machine): Machine { Or(p, Bit(w)) }

  function SetBoth(p: Machine, c: Color): Machine { Or(p, ColorBit(c)) }

  function SetBit(w: Machine, c: Color): Machine { SetBoth(Pointer(w), c) }

  predicate Aligned(p: Machine) { p & 1 == 0 }

  /** The masks take a packed word apart. */
  lemma Masks(p: Machine, b: Machine)
    requires p & 1 == 0 && b & !1 == 0
    ensures Or(p, b) & 1 == b && Or(p, b) & !1 == p
  {
  }

  lemma ColorIsBit(c: Color)
    ensures ColorBit(c) & !1 == 0
  {
  }

  lemma PartsOfBoth(p: Machine, c: Color)
    requires Aligned(p)
    ensures Bit(SetBoth(p, c)) == ColorBit(c)
    ensures Pointer(SetBoth(p, c)) == p
  {
    ColorIsBit(c);
    Masks(p, ColorBit(c));
  }

  lemma RedIsClear(p: Machine)
    ensures SetBoth(p, Red) == p
  {
  }

  lemma SetPointerOnBits(p: Machine, c: Color, q: Machine)
    requires Aligned(p)
    ensures SetPointer(SetBoth(p, c), q) == SetBoth(q, c)
  {
    PartsOfBoth(p, c);
  }

  // ---------- refinement ----------

  /** The machine word of a pair, when `addr` gives the addresses of pointers. */
  function Encode<P>(w: Word<P>, addr: P -> Machine): Machine { SetBoth(addr(w.ptr), w.bit) }

  /** Distinct pointers have distinct aligned addresses. */
  ghost predicate Addressing<P(!new)>(addr: P -> Machine) {
    && (forall p :: Aligned(addr(p)))
    && (forall p, q :: addr(p) == addr(q) ==> p == q)
  }

  /** Reading the packed word gives both components back. */
  lemma EncodeReads<P(!new)>(w: Word<P>, addr: P -> Machine)
    requires Addressing(addr)
    ensures Pointer(Encode(w, addr)) == addr(w.ptr) && Bit(Encode(w, addr)) == ColorBit(w.bit)
  {
    PartsOfBoth(addr(w.ptr), w.bit);
  }

  /** So no two pairs share a word. */
  lemma EncodeIsInjective<P(!new)>(v: Word<P>, w: Word<P>, addr: P -> Machine)
    requires Addressing(addr) && Encode(v, addr) == Encode(w, addr)
    ensures v == w
  {
    EncodeReads(v, addr);
    EncodeReads(w, addr);
  }

  /** Each setter changes exactly its own component of the pair. */
  lemma SettersRefine<P(!new)>(w: Word<P>, q: P, c: Color, addr: P -> Machine)
    requires Addressing(addr)
    ensures SetPointer(Encode(w, addr), addr(q)) == Encode(w.(ptr := q), addr)
    ensures SetBit(Encode(w, addr), c) == Encode(w.(bit := c), addr)
    ensures SetBoth(addr(q), c) == Encode(Word(q, c), addr)
    ensures addr(q) == Encode(Word(q, Red), addr)
  {
    SetPointerOnBits(addr(w.ptr), w.bit, addr(q));
    EncodeReads(w, addr);
    RedIsClear(addr(q));
  }

  lemma SetPointerParts(w: Machine, q: Machine)
    requires Aligned(q)
    ensures Bit(SetPointer(w, q)) == Bit(w) && Pointer(SetPointer(w, q)) == q
  {
  }

  /** Alignment is exactly what the pointer setter needs to leave every word's bit alone. */
  lemma AlignmentIsNeeded(q: Machine)
    ensures (forall w: Machine :: Bit(SetPointer(w, q)) == Bit(w) && Pointer(SetPointer(w, q)) == q) <==> Aligned(q)
  {
    if Aligned(q) {
      forall w: Machine
        ensures Bit(SetPointer(w, q)) == Bit(w) && Pointer(SetPointer(w, q)) == q
      {
        SetPointerParts(w, q);
      }
    } else {
      assert Bit(SetPointer(0, q)) != Bit(0);
    }
  }
}

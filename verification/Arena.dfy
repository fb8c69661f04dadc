/** The bump allocator (src/arena.c), on absolute addresses held in 64-bit words. */
module Arena {
  import opened Bits

  function AlignUp(offset: u64, alignment: u64): u64
    requires alignment > 0
  {
    AndBound(Wrap64(offset + (alignment - 1)), Not64(alignment - 1));
    And(Wrap64(offset + (alignment - 1)), Not64(alignment - 1))
  }

  predicate IsPowerOfTwo(v: u64) {
    v != 0 && And(v, v - 1) == 0
  }

  lemma WordIsMultiple(alignment: u64)
    requires IsPowerOfTwo(alignment)
    ensures 0x1_0000_0000_0000_0000 % alignment == 0
    ensures exists k: nat :: k <= 64 && alignment == Pow2(k)
  {
    PowerOfTwoTest(alignment);
    var k: nat :| alignment == Pow2(k);
    Pow2Words();
    if k > 64 {
      Pow2Mono(64, k);
      assert false;
    }
    Pow2Add(64 - k, k);
    DivUnique(0x1_0000_0000_0000_0000, alignment, Pow2(64 - k), 0);
  }

  lemma MaskRounds(x: u64, alignment: u64, k: nat, w: nat)
    requires k <= w && w == 64 && alignment == Pow2(k) && Pow2(w) == 0x1_0000_0000_0000_0000
    ensures And(x, Not64(alignment - 1)) == x - x % alignment
  {
    Pow2Mono(k, w);
    HighMask(x, k, w);
  }

  lemma WordPower(w: nat)
    requires w == 64
    ensures Pow2(w) == 0x1_0000_0000_0000_0000
  {
    Pow2Words();
  }

  /** Masking rounds the sum down to a multiple of the alignment. */
  lemma AlignUpRounds(offset: u64, alignment: u64)
    requires IsPowerOfTwo(alignment)
    ensures var x := Wrap64(offset + (alignment - 1)); AlignUp(offset, alignment) == x - x % alignment
  {
    WordIsMultiple(alignment);
    var k: nat :| k <= 64 && alignment == Pow2(k);
    var w := 64;
    WordPower(w);
    MaskRounds(Wrap64(offset + (alignment - 1)), alignment, k, w);
  }

  lemma AlignUpBounds(offset: u64, alignment: u64)
    requires IsPowerOfTwo(alignment) && offset + alignment <= 0x1_0000_0000_0000_0000
    ensures AlignUp(offset, alignment) % alignment == 0
    ensures offset <= AlignUp(offset, alignment) < offset + alignment
  {
    AlignUpRounds(offset, alignment);
    RoundDown(offset + (alignment - 1), alignment);
  }

  /** Without a wrap, `cpr__align_up` is the least multiple of the alignment that is at least the offset. */
  lemma AlignUpIsLeastMultiple(offset: u64, alignment: u64)
    requires IsPowerOfTwo(alignment) && offset + alignment <= 0x1_0000_0000_0000_0000
    ensures AlignUp(offset, alignment) % alignment == 0
    ensures offset <= AlignUp(offset, alignment) < offset + alignment
    ensures forall m: nat :: m >= offset && m % alignment == 0 ==> AlignUp(offset, alignment) <= m
  {
    AlignUpBounds(offset, alignment);
    forall m: nat | m >= offset && m % alignment == 0
      ensures AlignUp(offset, alignment) <= m
    {
      NoMultipleBetween(AlignUp(offset, alignment), m, alignment);
    }
  }

  lemma RoundDown(x: nat, a: nat)
    requires a > 0
    ensures (x - x % a) % a == 0
  {
    DivUnique(x - x % a, a, x / a, 0);
  }

  lemma NoMultipleBetween(u: nat, m: nat, a: nat)
    requires a > 0 && u % a == 0 && m % a == 0 && u < m + a
    ensures u <= m
  {
    var d := u / a - m / a;
    assert d * a == u / a * a - m / a * a;
    assert d * a == u - m;
    if u > m {
      SmallMultiple(d, a);
    }
  }

  lemma NextMultiple(m: nat, n: nat, a: nat)
    requires a > 0 && m % a == 0 && n % a == 0 && m < n
    ensures m + a <= n
  {
    DivUnique(m + a, a, m / a + 1, 0);
    NoMultipleBetween(m + a, n, a);
  }

  /** If the end is a multiple of the alignment, aligning an address below it stays within it. */
  lemma EndBoundsAlignment(from: u64, end: u64, alignment: u64)
    requires IsPowerOfTwo(alignment) && from <= end && end % alignment == 0
    ensures from <= AlignUp(from, alignment) <= end
    ensures AlignUp(from, alignment) % alignment == 0
  {
    assert end + alignment <= 0x1_0000_0000_0000_0000 by {
      WordIsMultiple(alignment);
      NextMultiple(end, 0x1_0000_0000_0000_0000, alignment);
    }
    AlignUpIsLeastMultiple(from, alignment);
  }

  /** Aligning past the top of the address space yields address 0. */
  lemma AlignUpWraps(from: u64, alignment: u64)
    requires IsPowerOfTwo(alignment) && from + (alignment - 1) >= 0x1_0000_0000_0000_0000
    ensures AlignUp(from, alignment) == 0
  {
    AlignUpRounds(from, alignment);
    var x := from + (alignment - 1) - 0x1_0000_0000_0000_0000;
    DivUnique(x, alignment, 0, x);
  }

  // ---- The arena as a value

  /** The fields of CprArena; `buf` is the buffer's address. */
  datatype State = State(buf: u64, cap: u64, offset: u64, prevOffset: u64)

  datatype Outcome = Allocated(addr: u64) | BadAlignment | Exhausted

  /** A buffer below the top of the address space, as the initialisers set it up. */
  predicate Usable(s: State) {
    s.buf > 0 && s.buf + s.cap < 0x1_0000_0000_0000_0000 && s.offset <= s.cap
  }

  function AlignedOffset(s: State, alignment: u64): u64
    requires alignment > 0
  {
    Wrap64(AlignUp(Wrap64(s.buf + s.offset), alignment) - s.buf)
  }

  function Alloc(s: State, size: u64, alignment: u64): (State, Outcome) {
    if !IsPowerOfTwo(alignment) then (s, BadAlignment)
    else
      var alignedOffset := AlignedOffset(s, alignment);
      if size > Wrap64(s.cap - alignedOffset) then (s, Exhausted)
      else
        (s.(prevOffset := s.offset, offset := Wrap64(alignedOffset + size)), Allocated(Wrap64(s.buf + alignedOffset)))
  }

  function Rewind(s: State): State {
    s.(offset := s.prevOffset)
  }

  function Reset(s: State): State {
    s.(offset := 0, prevOffset := 0)
  }

  /** `size` bytes at `addr` lie in the buffer. */
  predicate InBuffer(s: State, addr: u64, size: u64) {
    s.buf <= addr && addr + size <= s.buf + s.cap
  }

  /** Once the aligned offset has passed `cap`, the subtraction in the size test wraps and bounds
      nothing: a granted block is inside the buffer exactly when the aligned offset is. */
  lemma GrantedBlockInsideIff(s: State, size: u64, alignment: u64)
    requires Usable(s) && Alloc(s, size, alignment).1.Allocated?
    ensures InBuffer(s, Alloc(s, size, alignment).1.addr, size) <==> AlignedOffset(s, alignment) <= s.cap
  {
  }

  /** No offset of the buffer is aligned past its end exactly when that end is a multiple of the alignment. */
  lemma EveryOffsetSafeIff(s: State, alignment: u64)
    requires Usable(s) && IsPowerOfTwo(alignment)
    ensures (s.buf + s.cap) % alignment == 0 <==>
            forall o: u64 :: o <= s.cap ==> AlignedOffset(s.(offset := o), alignment) <= s.cap
  {
    var end := s.buf + s.cap;
    if end % alignment == 0 {
      forall o: u64 | o <= s.cap
        ensures AlignedOffset(s.(offset := o), alignment) <= s.cap
      {
        EndBoundsAlignment(s.buf + o, end, alignment);
      }
    } else {
      if end + alignment <= 0x1_0000_0000_0000_0000 {
        AlignUpIsLeastMultiple(end, alignment);
        assert AlignUp(end, alignment) > end;
      } else {
        AlignUpWraps(end, alignment);
      }
      assert AlignedOffset(s.(offset := s.cap), alignment) > s.cap;
    }
  }

  /** Any small request whose aligned offset has passed `cap` is granted, outside the buffer. */
  lemma PastEndIsGranted(s: State, size: u64, alignment: u64)
    requires Usable(s) && IsPowerOfTwo(alignment) && AlignedOffset(s, alignment) > s.cap
    requires size <= s.cap
    ensures Alloc(s, size, alignment).1.Allocated?
    ensures !InBuffer(s, Alloc(s, size, alignment).1.addr, size)
  {
  }

  /** A 4-byte arena at address 8 grants a 16-aligned byte at address 16, past its end. */
  lemma UnalignedEndWitness(s: State, alignment: u64)
    requires s == State(8, 4, 0, 0) && alignment == 16
    ensures Alloc(s, 1, alignment).1 == Allocated(16) && !InBuffer(s, 16, 1)
  {
  }

  /** Exactly the powers of two are accepted as alignments, and a refused request changes nothing. */
  lemma AlignmentsAccepted(s: State, size: u64, alignment: u64)
    ensures Alloc(s, size, alignment).1 == BadAlignment <==> !IsPow2(alignment)
    ensures !Alloc(s, size, alignment).1.Allocated? ==> Alloc(s, size, alignment).0 == s
  {
    if alignment != 0 {
      PowerOfTwoTest(alignment);
    } else {
      assert forall k: nat :: Pow2(k) > 0;
    }
  }

  lemma OffsetIs(s: State, alignment: u64, a: u64)
    requires Usable(s) && IsPowerOfTwo(alignment) && s.buf + s.offset + alignment <= 0x1_0000_0000_0000_0000
    requires a == AlignUp(s.buf + s.offset, alignment)
    ensures a >= s.buf + s.offset && AlignedOffset(s, alignment) == a - s.buf
  {
    AlignUpBounds(s.buf + s.offset, alignment);
  }

  /** Wherever the buffer ends, a request goes to the next aligned address if it fits there. If that
      address is inside and the request does not fit it is refused; if it is past the end, by `d`, the
      request is granted unless it is within `d` of the size of the address space. */
  lemma AllocIs(s: State, size: u64, alignment: u64, a: u64)
    requires Usable(s) && IsPowerOfTwo(alignment) && s.buf + s.offset + alignment <= 0x1_0000_0000_0000_0000
    requires a == AlignUp(s.buf + s.offset, alignment)
    ensures s.buf + s.offset <= a
    ensures var end, r := s.buf + s.cap, Alloc(s, size, alignment);
            if a <= end then
              if a + size <= end then r == (s.(prevOffset := s.offset, offset := a + size - s.buf), Allocated(a))
              else r == (s, Exhausted)
            else
              r.1 == if size <= 0x1_0000_0000_0000_0000 - (a - end) then Allocated(a) else Exhausted
  {
    OffsetIs(s, alignment, a);
  }

  /** After a reset the arena is empty: a request that fits is placed at the first multiple of the
      alignment in the buffer. */
  lemma ResetEmpties(s: State, size: u64, alignment: u64, a: u64)
    requires Usable(s) && IsPowerOfTwo(alignment) && s.buf + alignment <= 0x1_0000_0000_0000_0000
    requires a % alignment == 0 && s.buf <= a < s.buf + alignment && a + size <= s.buf + s.cap
    ensures Alloc(Reset(s), size, alignment).1 == Allocated(a)
    ensures Reset(s).buf == s.buf && Reset(s).cap == s.cap && Rewind(Reset(s)) == Reset(s)
  {
    var u := AlignUp(s.buf, alignment);
    AlignUpBounds(s.buf, alignment);
    NoMultipleBetween(u, a, alignment);
    NoMultipleBetween(a, u, alignment);
    AllocIs(Reset(s), size, alignment, u);
  }

  // ---- Whole runs

  datatype Block = Block(addr: nat, size: nat, alignment: nat)

  datatype Call = AllocCall(size: u64, alignment: u64) | RewindCall | ResetCall

  /** The arena with the blocks handed out and not yet released, oldest first; `rewindable` says
      whether the newest of them is the one a rewind releases. */
  datatype Ledger = Ledger(arena: State, live: seq<Block>, rewindable: bool)

  function Step(l: Ledger, c: Call): Ledger {
    match c
    case AllocCall(size, alignment) =>
      var (s, r) := Alloc(l.arena, size, alignment);
      if r.Allocated? then Ledger(s, l.live + [Block(r.addr, size, alignment)], true) else l
    case RewindCall =>
      Ledger(Rewind(l.arena), if l.rewindable && l.live != [] then l.live[..|l.live| - 1] else l.live, false)
    case ResetCall =>
      Ledger(Reset(l.arena), [], false)
  }

  function Run(l: Ledger, cs: seq<Call>): Ledger {
    if cs == [] then l else Step(Run(l, cs[..|cs| - 1]), cs[|cs| - 1])
  }

  function Fresh(buf: u64, cap: u64): Ledger {
    Ledger(State(buf, cap, 0, 0), [], false)
  }

  ghost predicate Inv(l: Ledger) {
    var s := l.arena;
    && Usable(s) && s.prevOffset <= s.offset
    && (forall i :: 0 <= i < |l.live| ==> s.buf <= l.live[i].addr && l.live[i].addr + l.live[i].size <= s.buf + s.offset)
    && (forall i :: 0 <= i < |l.live| ==> l.live[i].alignment > 0 && l.live[i].addr % l.live[i].alignment == 0)
    && (forall i, j :: 0 <= i < j < |l.live| ==> l.live[i].addr + l.live[i].size <= l.live[j].addr)
    && (if l.rewindable then
          && l.live != []
          && s.buf + s.prevOffset <= l.live[|l.live| - 1].addr
          && forall i :: 0 <= i < |l.live| - 1 ==> l.live[i].addr + l.live[i].size <= s.buf + s.prevOffset
        else s.offset == s.prevOffset)
  }

  /** The alignment requested, if it is one at all, divides the end address. */
  ghost predicate EndAlignedFor(buf: u64, cap: u64, c: Call) {
    c.AllocCall? && IsPowerOfTwo(c.alignment) ==> (buf + cap) % c.alignment == 0
  }

  /** With an aligned end, an allocation succeeds exactly when the block fits, and is then placed
      at the next aligned address. */
  lemma AllocPlacesNextAligned(s: State, size: u64, alignment: u64)
    requires Usable(s) && IsPowerOfTwo(alignment) && (s.buf + s.cap) % alignment == 0
    ensures var a := AlignUp(s.buf + s.offset, alignment);
            && s.buf + s.offset <= a <= s.buf + s.cap && a % alignment == 0
            && Alloc(s, size, alignment) ==
               if a + size <= s.buf + s.cap then (s.(prevOffset := s.offset, offset := a + size - s.buf), Allocated(a))
               else (s, Exhausted)
  {
    EndBoundsAlignment(s.buf + s.offset, s.buf + s.cap, alignment);
  }

  lemma StepKeepsInv(l: Ledger, c: Call)
    requires Inv(l) && EndAlignedFor(l.arena.buf, l.arena.cap, c)
    ensures Inv(Step(l, c))
  {
    if c.AllocCall? {
      AllocKeepsInv(l, c.size, c.alignment);
    }
  }

  lemma AllocKeepsInv(l: Ledger, size: u64, alignment: u64)
    requires Inv(l) && EndAlignedFor(l.arena.buf, l.arena.cap, AllocCall(size, alignment))
    ensures Inv(Step(l, AllocCall(size, alignment)))
  {
    if IsPowerOfTwo(alignment) {
      AllocPlacesNextAligned(l.arena, size, alignment);
    }
  }

  /** Over any run of allocations, rewinds and resets, live blocks are aligned, lie in the
      buffer and are pairwise disjoint. */
  lemma LiveBlocksStayApart(buf: u64, cap: u64, cs: seq<Call>)
    requires 0 < buf && buf + cap < 0x1_0000_0000_0000_0000
    requires forall c :: c in cs ==> EndAlignedFor(buf, cap, c)
    ensures var live := Run(Fresh(buf, cap), cs).live;
            && (forall i :: 0 <= i < |live| ==> buf <= live[i].addr && live[i].addr + live[i].size <= buf + cap)
            && (forall b :: b in live ==> b.alignment > 0 && b.addr % b.alignment == 0)
            && (forall i, j :: 0 <= i < j < |live| ==> live[i].addr + live[i].size <= live[j].addr)
  {
    RunKeepsInv(buf, cap, cs);
  }

  lemma {:induction false} RunKeepsInv(buf: u64, cap: u64, cs: seq<Call>)
    requires 0 < buf && buf + cap < 0x1_0000_0000_0000_0000
    requires forall c :: c in cs ==> EndAlignedFor(buf, cap, c)
    ensures var l := Run(Fresh(buf, cap), cs); l.arena.buf == buf && l.arena.cap == cap && Inv(l)
  {
    if cs != [] {
      var c := cs[|cs| - 1];
      assert EndAlignedFor(buf, cap, c);
      RunKeepsInv(buf, cap, cs[..|cs| - 1]);
      StepKeepsInv(Run(Fresh(buf, cap), cs[..|cs| - 1]), c);
    }
  }

  /** Rewinding after a successful allocation restores the arena's offset and releases exactly
      that block; rewinding again changes nothing. */
  lemma RewindUndoesNewest(l: Ledger, size: u64, alignment: u64)
    requires Alloc(l.arena, size, alignment).1.Allocated?
    ensures var l1 := Step(l, AllocCall(size, alignment));
            var l2 := Step(l1, RewindCall);
            && |l1.live| == |l.live| + 1
            && l2.live == l.live && l2.arena.offset == l.arena.offset
            && Step(l2, RewindCall) == l2
  {
    var l1 := Step(l, AllocCall(size, alignment));
    assert l1.live[..|l1.live| - 1] == l.live;
  }

  // ---- The structure itself

  class CprArena {
    var buf: u64
    var cap: u64
    var offset: u64
    var prevOffset: u64

    ghost function Value(): State
      reads this
    {
      State(buf, cap, offset, prevOffset)
    }

    constructor ()
    {
    }

    method InitBuf(buf: u64, size: u64) returns (ok: bool)
      modifies this
      ensures ok <==> buf != 0 && size != 0
      ensures ok ==> Value() == State(buf, size, 0, 0)
      ensures !ok ==> unchanged(this)
    {
      if buf == 0 || size == 0 {
        return false;
      }
      this.buf, cap, offset, prevOffset := buf, size, 0, 0;
      return true;
    }

    method AllocAligned(size: u64, alignment: u64) returns (r: Outcome)
      modifies this`offset, this`prevOffset
      ensures (Value(), r) == Alloc(old(Value()), size, alignment)
    {
      if !IsPowerOfTwo(alignment) {
        return BadAlignment;
      }
      var base := buf;
      var alignedOffset := Wrap64(AlignUp(Wrap64(base + offset), alignment) - base);
      if size > Wrap64(cap - alignedOffset) {
        return Exhausted;
      }
      prevOffset := offset;
      offset := Wrap64(alignedOffset + size);
      return Allocated(Wrap64(buf + alignedOffset));
    }

    method ResetAll()
      modifies this`offset, this`prevOffset
      ensures Value() == Reset(old(Value()))
    {
      offset := 0;
      prevOffset := 0;
    }

    method RewindOne()
      modifies this`offset
      ensures Value() == Rewind(old(Value()))
    {
      offset := prevOffset;
    }
  }
}

/** The page-table walker and the rewriting of a whole table to read-write-execute (`mmu.c`), over a
    memory of words that holds the L1 table and the L2 tables it names. */
module Mmu {
  type Word = bv32

  const L1_WALKED := 1024     // L1 entries that are rewritten: addresses below 0x40000000
  const L1_SIZE := 4096
  const L2_SIZE := 256

  datatype DescType = TranslationFault | CoarsePageTable | Section | Supersection | Reserved | LargePage | SmallPage

  /** `bits1_0`. */
  function Low(d: Word): Word {
    d & 3
  }

  predicate Bit1(d: Word) {
    d & 2 == 2
  }

  predicate Bit18(d: Word) {
    d & 0x4_0000 != 0
  }

  function L1Type(d: Word): DescType {
    if Low(d) == 0 then TranslationFault
    else if Low(d) == 1 then CoarsePageTable
    else if Low(d) == 2 then (if Bit18(d) then Supersection else Section)
    else Reserved
  }

  function L2Type(d: Word): DescType {
    if Low(d) == 1 then LargePage
    else if Bit1(d) then SmallPage
    else TranslationFault
  }

  /** A section entry with bits 4 (XN) and 15 (APX) cleared and bits 10 and 11 (AP) set. */
  function SectionRwx(d: Word): Word {
    (d & 0xFFFF_7FEF) | 0xC00
  }

  /** A supersection entry with bit 4 (XN) cleared and bits 10 and 11 (AP) set; bit 15 stays. */
  function SupersectionRwx(d: Word): Word {
    (d & 0xFFFF_FFEF) | 0xC00
  }

  /** A large page entry with bits 15 (XN) and 9 (APX) cleared and bits 4 and 5 (AP) set. */
  function LargePageRwx(d: Word): Word {
    (d & 0xFFFF_7DFF) | 0x30
  }

  /** A small page entry with bits 0 (XN) and 9 (APX) cleared and bits 4 and 5 (AP) set. */
  function SmallPageRwx(d: Word): Word {
    (d & 0xFFFF_FDFE) | 0x30
  }

  function L1Rwx(d: Word): Word {
    match L1Type(d)
    case Section => SectionRwx(d)
    case Supersection => SupersectionRwx(d)
    case _ => d
  }

  function L2Rwx(d: Word): Word {
    match L2Type(d)
    case LargePage => LargePageRwx(d)
    case SmallPage => SmallPageRwx(d)
    case _ => d
  }

  /** The address fields of the four kinds of mapping, as the address of their first byte. */
  function SectionAddr(d: Word): Word { d & 0xFFF0_0000 }
  function SupersectionAddr(d: Word): Word { d & 0xFF00_0000 }
  function LargePageAddr(d: Word): Word { d & 0xFFFF_0000 }
  function SmallPageAddr(d: Word): Word { d & 0xFFFF_F000 }

  /** From `d` to `r` the bits of `kept` stay, and the bits of `forced` become `value`. */
  predicate Changed(d: Word, r: Word, kept: Word, forced: Word, value: Word) {
    (r ^ d) & kept == 0 && r & forced == value
  }

  /** The user permissions of a mapping: bit 0 read, bit 1 write, bit 2 execute. */
  function Perm(ap: Word, apx: bool, xn: bool): nat {
    if ap & 2 == 0 then 0
    else 1 + (if !apx && ap & 1 == 1 then 2 else 0) + (if !xn then 4 else 0)
  }

  function SectionPerm(d: Word): nat { Perm((d & 0xC00) >> 10, d & 0x8000 != 0, d & 0x10 != 0) }
  function SupersectionPerm(d: Word): nat { Perm((d & 0xC00) >> 10, false, d & 0x10 != 0) }
  function LargePagePerm(d: Word): nat { Perm((d & 0x30) >> 4, d & 0x200 != 0, d & 0x8000 != 0) }
  function SmallPagePerm(d: Word): nat { Perm((d & 0x30) >> 4, d & 0x200 != 0, d & 1 != 0) }

  /** The kinds by the two low bits, and by bit 18. */
  lemma KindsByBits(d: Word)
    ensures L1Type(d) == CoarsePageTable <==> d % 4 == 1
    ensures L1Type(d) == Section <==> d % 4 == 2 && d / 0x4_0000 % 2 == 0
    ensures L1Type(d) == Supersection <==> d % 4 == 2 && d / 0x4_0000 % 2 == 1
    ensures L1Type(d) == Reserved <==> d % 4 == 3
    ensures L2Type(d) == LargePage <==> d % 4 == 1
    ensures L2Type(d) == SmallPage <==> d % 4 >= 2
  {
  }

  /** The L2 table of a coarse entry stands 1 GiB below the multiple of 1 KiB in its bits 10 to 30. */
  lemma TableAddress(d: Word)
    ensures L2Word(d) == ((d << 1 >> 11 << 10) - 0x4000_0000) >> 2
  {
  }

  /** User access by the bits of the entry. */
  lemma PermissionBits(d: Word)
    ensures SectionPerm(d) == UserAccess(d & 0x800 != 0, d & 0x400 != 0 && d & 0x8000 == 0, d & 0x10 == 0)
    ensures SupersectionPerm(d) == UserAccess(d & 0x800 != 0, d & 0x400 != 0, d & 0x10 == 0)
    ensures LargePagePerm(d) == UserAccess(d & 0x20 != 0, d & 0x10 != 0 && d & 0x200 == 0, d & 0x8000 == 0)
    ensures SmallPagePerm(d) == UserAccess(d & 0x20 != 0, d & 0x10 != 0 && d & 0x200 == 0, d & 1 == 0)
  {
  }

  /** Without user access nothing; otherwise reading, and writing and execution where allowed. */
  function UserAccess(user: bool, writes: bool, executes: bool): nat {
    if !user then 0
    else if writes && executes then 7
    else if executes then 5
    else if writes then 3
    else 1
  }

  /** The access permissions of section B4.3 of ARM DDI 0100I for a supersection: with APX set nobody writes. */
  predicate SupersectionUserWrites(d: Word) {
    (d & 0xC00) >> 10 == 3 && d & 0x8000 == 0
  }

  /** A supersection becomes writable exactly when its APX bit was clear: the walker reports the
      permission 7 in either case. */
  lemma SupersectionWritableIff(d: Word)
    ensures SupersectionUserWrites(SupersectionRwx(d)) <==> d & 0x8000 == 0
    ensures SupersectionPerm(SupersectionRwx(d)) == 7
  {
  }

  lemma SectionBits(d: Word)
    ensures var r := SectionRwx(d);
      && Low(r) == Low(d) && Bit18(r) == Bit18(d) && SectionAddr(r) == SectionAddr(d) && SectionRwx(r) == r
      && SectionPerm(r) == 7 && Changed(d, r, 0xFFFF_73EF, 0x8C10, 0xC00)
  {
  }

  lemma SupersectionBits(d: Word)
    ensures var r := SupersectionRwx(d);
      && Low(r) == Low(d) && Bit18(r) == Bit18(d)
      && SupersectionAddr(r) == SupersectionAddr(d) && SupersectionRwx(r) == r
      && SupersectionPerm(r) == 7 && Changed(d, r, 0xFFFF_F3EF, 0xC10, 0xC00)
  {
  }

  lemma LargePageBits(d: Word)
    ensures var r := LargePageRwx(d);
      && Low(r) == Low(d) && LargePageAddr(r) == LargePageAddr(d) && LargePageRwx(r) == r
      && LargePagePerm(r) == 7 && Changed(d, r, 0xFFFF_7DCF, 0x8230, 0x30)
  {
  }

  lemma SmallPageBits(d: Word)
    ensures var r := SmallPageRwx(d);
      && Bit1(r) == Bit1(d) && (Bit1(d) ==> Low(r) != 1) && SmallPageAddr(r) == SmallPageAddr(d) && SmallPageRwx(r) == r
      && SmallPagePerm(r) == 7 && Changed(d, r, 0xFFFF_FDCE, 0x231, 0x30)
  {
  }

  /** The rewriting keeps kind and address, and doing it twice changes nothing more. Of a section only bits 4, 10,
      11 and 15 (XN, AP, APX) may change, of a supersection only bits 4, 10 and 11, and AP becomes 3, the others 0. */
  lemma L1RwxKeeps(d: Word)
    ensures L1Type(L1Rwx(d)) == L1Type(d) && L1Rwx(L1Rwx(d)) == L1Rwx(d)
    ensures L1Type(d) == Section ==> SectionAddr(L1Rwx(d)) == SectionAddr(d)
    ensures L1Type(d) == Supersection ==> SupersectionAddr(L1Rwx(d)) == SupersectionAddr(d)
    ensures L1Type(d) == Section ==> Changed(d, L1Rwx(d), 0xFFFF_73EF, 0x8C10, 0xC00)
    ensures L1Type(d) == Supersection ==> Changed(d, L1Rwx(d), 0xFFFF_F3EF, 0xC10, 0xC00)
    ensures L1Type(d) != Section && L1Type(d) != Supersection ==> L1Rwx(d) == d
  {
    hide SectionRwx, SupersectionRwx, Low, Bit18, SectionAddr, SupersectionAddr, SectionPerm, SupersectionPerm, Changed,
         L1Type, L1Rwx;
    L1RwxIs(d);
    match L1Type(d)
    case Section => SectionKeeps(d);
    case Supersection => SupersectionKeeps(d);
    case _ =>
  }

  lemma SectionKeeps(d: Word)
    requires L1Type(d) == Section
    ensures var r := SectionRwx(d);
      && L1Type(r) == Section && L1Rwx(r) == r && SectionAddr(r) == SectionAddr(d)
      && Changed(d, r, 0xFFFF_73EF, 0x8C10, 0xC00)
  {
    hide SectionRwx, Low, Bit18, SectionAddr, SectionPerm, Changed, L1Type, L1Rwx;
    SectionBits(d);
    L1SameKind(d, SectionRwx(d));
    L1RwxIs(SectionRwx(d));
  }

  lemma SupersectionKeeps(d: Word)
    requires L1Type(d) == Supersection
    ensures var r := SupersectionRwx(d);
      && L1Type(r) == Supersection && L1Rwx(r) == r && SupersectionAddr(r) == SupersectionAddr(d)
      && Changed(d, r, 0xFFFF_F3EF, 0xC10, 0xC00)
  {
    hide SupersectionRwx, Low, Bit18, SupersectionAddr, SupersectionPerm, Changed, L1Type, L1Rwx;
    SupersectionBits(d);
    L1SameKind(d, SupersectionRwx(d));
    L1RwxIs(SupersectionRwx(d));
  }

  lemma L1SameKind(d: Word, r: Word)
    requires Low(r) == Low(d) && Bit18(r) == Bit18(d)
    ensures L1Type(r) == L1Type(d)
  {
  }

  /** Of a large page only bits 4, 5, 9 and 15 (AP, APX, XN) may change, of a small page only bits 0, 4, 5 and 9. */
  lemma L2RwxKeeps(d: Word)
    ensures L2Type(L2Rwx(d)) == L2Type(d) && L2Rwx(L2Rwx(d)) == L2Rwx(d)
    ensures L2Type(d) == LargePage ==> LargePageAddr(L2Rwx(d)) == LargePageAddr(d)
    ensures L2Type(d) == SmallPage ==> SmallPageAddr(L2Rwx(d)) == SmallPageAddr(d)
    ensures L2Type(d) == LargePage ==> Changed(d, L2Rwx(d), 0xFFFF_7DCF, 0x8230, 0x30)
    ensures L2Type(d) == SmallPage ==> Changed(d, L2Rwx(d), 0xFFFF_FDCE, 0x231, 0x30)
    ensures L2Type(d) == TranslationFault ==> L2Rwx(d) == d
  {
    hide LargePageRwx, SmallPageRwx, Low, Bit1, LargePageAddr, SmallPageAddr, LargePagePerm, SmallPagePerm, Changed,
         L2Type, L2Rwx;
    L2Kinds(d);
    LargePageBits(d);
    SmallPageBits(d);
    L2RwxIs(d);
    L2RwxIs(L2Rwx(d));
    L2SameKind(d);
  }

  lemma L2SameKind(d: Word)
    ensures L2Type(d) == LargePage ==> L2Type(LargePageRwx(d)) == LargePage
    ensures L2Type(d) == SmallPage ==> L2Type(SmallPageRwx(d)) == SmallPage
  {
    hide LargePageRwx, SmallPageRwx, LargePageAddr, SmallPageAddr, LargePagePerm, SmallPagePerm, Changed;
    LargePageBits(d);
    SmallPageBits(d);
    LowAndBit1(d);
    LowAndBit1(SmallPageRwx(d));
  }

  lemma LowAndBit1(d: Word)
    ensures Low(d) == 1 ==> !Bit1(d)
  {
  }

  /** Word index of the L2 table a coarse entry names; the subtraction wraps at 32 bits. */
  function L2Base(d: Word): nat {
    L2Word(d) as nat
  }

  /** The address field is bits 10 to 30. */
  function L2Word(d: Word): Word {
    ((d & 0x7FFF_FC00) - 0x4000_0000) >> 2
  }

  /** The L1 table at `l1` and the L2 tables of its rewritten part lie in memory, the latter outside it. */
  ghost predicate Placed(m: seq<Word>, l1: nat) {
    l1 + L1_SIZE <= |m| && forall i :: 0 <= i < L1_WALKED ==> PlacedAt(m, l1, i)
  }

  predicate PlacedAt(m: seq<Word>, l1: nat, i: nat)
    requires l1 + i < |m|
  {
    L1Type(m[l1 + i]) == CoarsePageTable ==>
      var b := L2Base(m[l1 + i]);
      b + L2_SIZE <= |m| && (b + L2_SIZE <= l1 || l1 + L1_SIZE <= b)
  }

  /** Entry `i` of the L1 table names the L2 table that word `w` belongs to. */
  predicate Names(m: seq<Word>, l1: nat, i: nat, w: nat)
    requires l1 + i < |m|
  {
    L1Type(m[l1 + i]) == CoarsePageTable && L2Base(m[l1 + i]) <= w < L2Base(m[l1 + i]) + L2_SIZE
  }

  ghost predicate InL2(m: seq<Word>, l1: nat, n: nat, w: nat)
    requires l1 + n <= |m|
  {
    exists i :: 0 <= i < n && Names(m, l1, i, w)
  }

  /** Word `w` after the first `n` L1 entries were dealt with. */
  ghost function Target(m: seq<Word>, l1: nat, n: nat, w: nat): Word
    requires l1 + n <= |m| && w < |m|
  {
    if l1 <= w < l1 + n then L1Rwx(m[w])
    else if InL2(m, l1, n, w) then L2Rwx(m[w])
    else m[w]
  }

  /** The whole memory after the rewriting. */
  ghost function Rewritten(m: seq<Word>, l1: nat): (r: seq<Word>)
    requires Placed(m, l1)
    ensures |r| == |m|
    ensures forall w :: 0 <= w < |m| ==> r[w] == Target(m, l1, L1_WALKED, w)
  {
    seq(|m|, w requires 0 <= w < |m| => Target(m, l1, L1_WALKED, w))
  }

  /** `L2MMUTable__RWXForAll`. */
  method RewriteL2(mem: array<Word>, b: nat)
    requires b + L2_SIZE <= mem.Length
    modifies mem
    ensures forall w :: 0 <= w < mem.Length ==>
      mem[w] == if b <= w < b + L2_SIZE then L2Rwx(old(mem[w])) else old(mem[w])
  {
    hide LargePageRwx, SmallPageRwx, Low, Bit1, L2Rwx;
    var t := b;
    while t != b + L2_SIZE
      invariant b <= t <= b + L2_SIZE
      invariant forall w :: 0 <= w < mem.Length ==> mem[w] == if b <= w < t then L2Rwx(old(mem[w])) else old(mem[w])
    {
      var d := mem[t];
      L2RwxIs(d);
      match L2Type(d) {
        case LargePage => mem[t] := LargePageRwx(d);
        case SmallPage => mem[t] := SmallPageRwx(d);
        case _ =>
      }
      t := t + 1;
    }
  }

  lemma L2RwxIs(d: Word)
    ensures L2Rwx(d) == match L2Type(d) case LargePage => LargePageRwx(d) case SmallPage => SmallPageRwx(d) case _ => d
  {
  }

  lemma L1RwxIs(d: Word)
    ensures L1Rwx(d) ==
      match L1Type(d) case Section => SectionRwx(d) case Supersection => SupersectionRwx(d) case _ => d
  {
  }

  /** `L1MMUTable__RWXForAll`: every mapping below 0x40000000, however often its L2 table is shared. */
  method RewriteL1(mem: array<Word>, l1: nat)
    requires Placed(mem[..], l1)
    modifies mem
    ensures mem[..] == Rewritten(old(mem[..]), l1)
  {
    hide SectionRwx, SupersectionRwx, L1Type, L2Base, L1Rwx, L2Rwx, InL2;
    ghost var m := mem[..];
    NoL2(m, l1);
    var t := 0;
    while t != L1_WALKED
      invariant 0 <= t <= L1_WALKED
      invariant forall w :: 0 <= w < mem.Length ==> mem[w] == Target(m, l1, t, w)
    {
      ghost var was := mem[..];
      L1Untouched(m, l1, t, l1 + t);
      var d := mem[l1 + t];
      L1RwxIs(d);
      assert PlacedAt(m, l1, t);
      match L1Type(d) {
        case CoarsePageTable => RewriteL2(mem, L2Base(d));
        case Section => mem[l1 + t] := SectionRwx(d);
        case Supersection => mem[l1 + t] := SupersectionRwx(d);
        case _ =>
      }
      forall w | 0 <= w < mem.Length
        ensures mem[w] == Target(m, l1, t + 1, w)
      {
        OneMore(m, l1, t, w);
      }
      t := t + 1;
    }
  }

  lemma NoL2(m: seq<Word>, l1: nat)
    requires l1 <= |m|
    ensures forall w :: 0 <= w < |m| ==> Target(m, l1, 0, w) == m[w]
  {
  }

  /** Words of the L1 table belong to no L2 table. */
  lemma L1Untouched(m: seq<Word>, l1: nat, n: nat, w: nat)
    requires Placed(m, l1) && n <= L1_WALKED && l1 <= w < l1 + L1_SIZE
    ensures !InL2(m, l1, n, w)
    ensures l1 + n <= w ==> Target(m, l1, n, w) == m[w]
  {
    forall i | 0 <= i < n
      ensures !Names(m, l1, i, w)
    {
      assert PlacedAt(m, l1, i);
    }
  }

  /** What dealing with entry `t` does to word `w`. */
  lemma OneMore(m: seq<Word>, l1: nat, t: nat, w: nat)
    requires Placed(m, l1) && t < L1_WALKED && w < |m|
    ensures Target(m, l1, t + 1, w) ==
      if w == l1 + t then L1Rwx(m[w])
      else if Names(m, l1, t, w) then L2Rwx(Target(m, l1, t, w))
      else Target(m, l1, t, w)
  {
    hide L1Type, L2Base, L1Rwx, L2Rwx;
    assert PlacedAt(m, l1, t);
    L2RwxKeeps(m[w]);
    if l1 <= w < l1 + L1_SIZE {
      L1Untouched(m, l1, t, w);
      L1Untouched(m, l1, t + 1, w);
    } else {
      assert InL2(m, l1, t + 1, w) <==> InL2(m, l1, t, w) || Names(m, l1, t, w);
    }
  }

  /** Addresses the rewritten part of the table is responsible for. */
  type LowAddress = va: Word | va < 0x4000_0000

  function L1Index(va: LowAddress): (i: nat)
    ensures i < L1_WALKED
  {
    (va >> 20) as bv10 as nat
  }

  function L2Index(va: LowAddress): (i: nat)
    ensures i < L2_SIZE
  {
    (va << 12 >> 24) as bv8 as nat
  }

  function Offset(va: Word, mask: Word): Word {
    va & mask
  }

  /** The L1 entry of an address. */
  function FirstWord(m: seq<Word>, l1: nat, va: LowAddress): Word
    requires l1 + L1_SIZE <= |m|
  {
    m[l1 + L1Index(va)]
  }

  /** The L2 entry of an address, when its L1 entry names an L2 table. */
  ghost function SecondWord(m: seq<Word>, l1: nat, va: LowAddress): Word
    requires Placed(m, l1)
  {
    if L1Type(FirstWord(m, l1, va)) == CoarsePageTable then
      assert PlacedAt(m, l1, L1Index(va));
      m[L2Base(FirstWord(m, l1, va)) + L2Index(va)]
    else 0
  }

  /** `L1MMUTable__GetPAFromVA`; 0 for an unmapped address. */
  ghost function PhysicalAddress(m: seq<Word>, l1: nat, va: LowAddress): Word
    requires Placed(m, l1)
  {
    L1Physical(FirstWord(m, l1, va), SecondWord(m, l1, va), va)
  }

  function L1Physical(d: Word, e: Word, va: Word): Word {
    match L1Type(d)
    case CoarsePageTable => L2Physical(e, va)
    case Section => SectionAddr(d) | Offset(va, 0xF_FFFF)
    case Supersection => SupersectionAddr(d) | Offset(va, 0xFF_FFFF)
    case _ => 0
  }

  function L2Physical(d: Word, va: Word): Word {
    match L2Type(d)
    case LargePage => LargePageAddr(d) | Offset(va, 0xFFFF)
    case SmallPage => SmallPageAddr(d) | Offset(va, 0xFFF)
    case _ => 0
  }

  /** The bits of `d` from bit `n` on and the bits of `va` below. */
  function Spliced(d: Word, va: Word, n: nat): Word
    requires n <= 32
  {
    (d >> n << n) | (va << (32 - n) >> (32 - n))
  }

  lemma SectionPlace(d: Word, va: Word)
    ensures SectionAddr(d) | Offset(va, 0xF_FFFF) == Spliced(d, va, 20)
  {
  }

  lemma SupersectionPlace(d: Word, va: Word)
    ensures SupersectionAddr(d) | Offset(va, 0xFF_FFFF) == Spliced(d, va, 24)
  {
  }

  lemma LargePagePlace(e: Word, va: Word)
    ensures LargePageAddr(e) | Offset(va, 0xFFFF) == Spliced(e, va, 16)
  {
  }

  lemma SmallPagePlace(e: Word, va: Word)
    ensures SmallPageAddr(e) | Offset(va, 0xFFF) == Spliced(e, va, 12)
  {
  }

  /** The upper bits of a physical address come from the entry that maps it, the lower ones from the address:
      20, 24, 16 or 12 of them. */
  lemma PhysicalParts(d: Word, e: Word, va: Word)
    ensures L1Physical(d, e, va) ==
      match L1Type(d)
      case Section => Spliced(d, va, 20)
      case Supersection => Spliced(d, va, 24)
      case CoarsePageTable =>
        (match L2Type(e)
         case LargePage => Spliced(e, va, 16)
         case SmallPage => Spliced(e, va, 12)
         case _ => 0)
      case _ => 0
  {
    hide L1Type, L2Type, SectionAddr, SupersectionAddr, LargePageAddr, SmallPageAddr, Offset,
         Spliced;
    SectionPlace(d, va);
    SupersectionPlace(d, va);
    LargePagePlace(e, va);
    SmallPagePlace(e, va);
  }

  /** `L1MMUTable__GetAddressUserPerm`. */
  ghost function UserPerm(m: seq<Word>, l1: nat, va: LowAddress): nat
    requires Placed(m, l1)
  {
    L1Perm(FirstWord(m, l1, va), SecondWord(m, l1, va))
  }

  function L1Perm(d: Word, e: Word): nat {
    match L1Type(d)
    case CoarsePageTable => L2Perm(e)
    case Section => SectionPerm(d)
    case Supersection => SupersectionPerm(d)
    case _ => 0
  }

  function L2Perm(d: Word): nat {
    match L2Type(d)
    case LargePage => LargePagePerm(d)
    case SmallPage => SmallPagePerm(d)
    case _ => 0
  }

  /** The address has a translation. */
  ghost predicate Mapped(m: seq<Word>, l1: nat, va: LowAddress)
    requires Placed(m, l1)
  {
    Translated(FirstWord(m, l1, va), SecondWord(m, l1, va))
  }

  predicate Translated(d: Word, e: Word) {
    match L1Type(d)
    case CoarsePageTable => L2Type(e) != TranslationFault
    case Section => true
    case Supersection => true
    case _ => false
  }

  /** The rewritten table is laid out as before. */
  lemma StillPlaced(m: seq<Word>, l1: nat)
    requires Placed(m, l1)
    ensures Placed(Rewritten(m, l1), l1)
    ensures forall w :: l1 <= w < l1 + L1_WALKED ==> Rewritten(m, l1)[w] == L1Rwx(m[w])
  {
    hide L2Base, L2Rwx;
    var m' := Rewritten(m, l1);
    forall i | 0 <= i < L1_WALKED
      ensures PlacedAt(m', l1, i)
    {
      assert PlacedAt(m, l1, i);
      L1RwxKeeps(m[l1 + i]);
    }
  }

  lemma L2SamePlace(d: Word, r: Word, va: Word)
    requires L2Type(r) == L2Type(d) && (L2Type(d) == LargePage ==> LargePageAddr(r) == LargePageAddr(d))
    requires L2Type(d) == SmallPage ==> SmallPageAddr(r) == SmallPageAddr(d)
    ensures L2Physical(r, va) == L2Physical(d, va)
  {
    hide L2Type, LargePageAddr, SmallPageAddr, Offset;
  }

  lemma L2Translates(d: Word, va: Word)
    ensures L2Type(L2Rwx(d)) == L2Type(d) && L2Physical(L2Rwx(d), va) == L2Physical(d, va)
    ensures L2Perm(L2Rwx(d)) == if L2Type(d) == TranslationFault then 0 else 7
  {
    hide LargePageRwx, SmallPageRwx, LargePageAddr, SmallPageAddr, LargePagePerm, SmallPagePerm, Low, Bit1, Offset,
         Changed, L2Type, L2Rwx, L2Physical;
    L2Kinds(d);
    LargePageBits(d);
    SmallPageBits(d);
    L2RwxIs(d);
    L2RwxKeeps(d);
    L2SamePlace(d, L2Rwx(d), va);
  }

  lemma L1Translates(d: Word)
    ensures L1Type(L1Rwx(d)) == L1Type(d)
    ensures L1Type(d) == Section ==> SectionAddr(L1Rwx(d)) == SectionAddr(d) && SectionPerm(L1Rwx(d)) == 7
    ensures L1Type(d) == Supersection ==>
      SupersectionAddr(L1Rwx(d)) == SupersectionAddr(d) && SupersectionPerm(L1Rwx(d)) == 7
    ensures L1Type(d) != Section && L1Type(d) != Supersection ==> L1Rwx(d) == d
  {
    hide SectionRwx, SupersectionRwx, SectionAddr, SupersectionAddr, SectionPerm, SupersectionPerm, Low, Bit18,
         Changed;
    SectionBits(d);
    SupersectionBits(d);
    L1RwxKeeps(d);
  }

  /** Each word that a walk reads is rewritten as its place in the tables asks for. */
  lemma WalkedWords(m: seq<Word>, l1: nat, va: LowAddress)
    requires Placed(m, l1) && Placed(Rewritten(m, l1), l1)
    ensures FirstWord(Rewritten(m, l1), l1, va) == L1Rwx(FirstWord(m, l1, va))
    ensures L1Type(FirstWord(m, l1, va)) == CoarsePageTable ==>
      SecondWord(Rewritten(m, l1), l1, va) == L2Rwx(SecondWord(m, l1, va))
  {
    hide L1Type, L2Base, L1Rwx, L2Rwx, L1Index, L2Index;
    var i, d := L1Index(va), FirstWord(m, l1, va);
    assert PlacedAt(m, l1, i);
    L1Translates(d);
    if L1Type(d) == CoarsePageTable {
      assert Names(m, l1, i, L2Base(d) + L2Index(va));
    }
  }

  lemma WordsTranslate(d: Word, e: Word, e': Word, va: Word)
    requires L1Type(d) == CoarsePageTable ==> e' == L2Rwx(e)
    ensures L1Physical(L1Rwx(d), e', va) == L1Physical(d, e, va)
    ensures Translated(L1Rwx(d), e') == Translated(d, e)
    ensures L1Perm(L1Rwx(d), e') == if Translated(d, e) then 7 else 0
  {
    hide L1Type, L2Type, L1Rwx, L2Rwx, L2Physical, L2Perm, SectionAddr, SupersectionAddr, SectionPerm,
         SupersectionPerm, Offset;
    L1Translates(d);
    L2Translates(e, va);
  }

  /** Making a table read-write-execute moves no page, opens every mapped address and maps none. */
  lemma RewrittenTranslates(m: seq<Word>, l1: nat, va: LowAddress)
    requires Placed(m, l1)
    ensures var m' := Rewritten(m, l1);
      && Placed(m', l1)
      && PhysicalAddress(m', l1, va) == PhysicalAddress(m, l1, va)
      && Mapped(m', l1, va) == Mapped(m, l1, va)
      && UserPerm(m', l1, va) == if Mapped(m, l1, va) then 7 else 0
  {
    hide L1Type, L1Rwx, L2Rwx, L1Physical, L1Perm, Translated, FirstWord, SecondWord, Rewritten, Placed;
    StillPlaced(m, l1);
    RewrittenSize(m, l1);
    WalkedWords(m, l1, va);
    WordsTranslate(FirstWord(m, l1, va), SecondWord(m, l1, va), SecondWord(Rewritten(m, l1), l1, va), va);
  }

  /** What the rewriting does to the bits of a word: no other words change, and of those only the bits of XN, AP and
      APX. */
  lemma RewrittenBits(m: seq<Word>, l1: nat, w: nat)
    requires Placed(m, l1) && w < |m|
    ensures var r := Rewritten(m, l1)[w];
      if l1 <= w < l1 + L1_WALKED then
        match L1Type(m[w])
        case Section => Changed(m[w], r, 0xFFFF_73EF, 0x8C10, 0xC00)
        case Supersection => Changed(m[w], r, 0xFFFF_F3EF, 0xC10, 0xC00)
        case _ => r == m[w]
      else if InL2(m, l1, L1_WALKED, w) then
        match L2Type(m[w])
        case LargePage => Changed(m[w], r, 0xFFFF_7DCF, 0x8230, 0x30)
        case SmallPage => Changed(m[w], r, 0xFFFF_FDCE, 0x231, 0x30)
        case _ => r == m[w]
      else r == m[w]
  {
    hide L1Type, L2Type, L1Rwx, L2Rwx, Changed;
    L1RwxKeeps(m[w]);
    L2RwxKeeps(m[w]);
    L2Kinds(m[w]);
  }

  lemma L2Kinds(d: Word)
    ensures L2Type(d) == LargePage || L2Type(d) == SmallPage || L2Type(d) == TranslationFault
  {
  }

  lemma RewrittenSize(m: seq<Word>, l1: nat)
    requires Placed(m, l1)
    ensures l1 + L1_SIZE <= |m| == |Rewritten(m, l1)|
  {
  }

  /** Doing it again changes nothing. */
  lemma RewrittenTwice(m: seq<Word>, l1: nat)
    requires Placed(m, l1)
    ensures Placed(Rewritten(m, l1), l1)
    ensures Rewritten(Rewritten(m, l1), l1) == Rewritten(m, l1)
  {
    hide L1Type, L2Base, L1Rwx, L2Rwx;
    StillPlaced(m, l1);
    var m' := Rewritten(m, l1);
    forall w | 0 <= w < |m|
      ensures Target(m', l1, L1_WALKED, w) == m'[w]
    {
      SameNames(m, l1, w);
      L1RwxKeeps(m[w]);
      L2RwxKeeps(m[w]);
    }
  }

  lemma SameNames(m: seq<Word>, l1: nat, w: nat)
    requires Placed(m, l1) && w < |m|
    ensures Placed(Rewritten(m, l1), l1)
    ensures InL2(Rewritten(m, l1), l1, L1_WALKED, w) == InL2(m, l1, L1_WALKED, w)
  {
    hide L2Base, L2Rwx;
    StillPlaced(m, l1);
    var m' := Rewritten(m, l1);
    forall i | 0 <= i < L1_WALKED
      ensures Names(m', l1, i, w) == Names(m, l1, i, w)
    {
      L1RwxKeeps(m[l1 + i]);
    }
  }
}

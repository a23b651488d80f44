/** `src/paging/page_entry.rs`: packing and unpacking of 64-bit page table entries. */
module PageEntry {

  type Word = bv64

  const PRESENT: Word := 1
  const WRITABLE: Word := 0x2
  const USER_ACCESSIBLE: Word := 0x4
  const NO_CACHE: Word := 0x10
  const HUGE_PAGE: Word := 0x80
  const GLOBAL: Word := 0x100
  const NO_EXECUTE: Word := 0x8000_0000_0000_0000

  /** Every bit `PresentPageFlags` names. */
  const FLAG_BITS: Word := 0x8000_0000_0000_0ffe
  const ADDRESS_BITS: Word := 0x000f_ffff_ffff_f000
  const COUNTER_BITS: Word := 0x7ff0_0000_0000_0000
  const MAX_COUNTER: Word := 0x800

  predicate IsFlags(flags: Word) { flags & !FLAG_BITS == 0 }

  predicate IsPresent(w: Word) { w & PRESENT != 0 }

  function FlagsOf(w: Word): Word { w & FLAG_BITS }
  function FrameOf(w: Word): Word { (w & ADDRESS_BITS) >> 12 }
  function CounterOf(w: Word): Word { (w & COUNTER_BITS) >> 52 }

  /** `RawPresentPte::from_frame_flags_and_counter`, of a frame number. */
  function Pack(frame: Word, flags: Word, counter: Word): Word
  {
    (frame << 12) | flags | PRESENT | (counter << 52)
  }

  /** Frame, flags and counter come back, and the entry is present, for every frame number
      of at most 40 bits. */
  lemma UnpackPack(frame: Word, flags: Word, counter: Word)
    requires frame < 0x100_0000_0000 && IsFlags(flags) && counter < MAX_COUNTER
    ensures var w := Pack(frame, flags, counter);
      IsPresent(w) && FrameOf(w) == frame && FlagsOf(w) == flags && CounterOf(w) == counter
  {
  }

  /** Forty bits is exact: `frame` reads back what was packed if and only if it fits. */
  lemma FrameRoundTripIff(frame: Word, flags: Word, counter: Word)
    requires IsFlags(flags) && counter < MAX_COUNTER
    ensures FrameOf(Pack(frame, flags, counter)) == frame <==> frame < 0x100_0000_0000
  {
  }

  /** The other way round: a present word is the packing of its three fields. */
  lemma PackUnpack(w: Word)
    requires IsPresent(w)
    ensures Pack(FrameOf(w), FlagsOf(w), CounterOf(w)) == w
    ensures FrameOf(w) < 0x100_0000_0000 && IsFlags(FlagsOf(w)) && CounterOf(w) < MAX_COUNTER
  {
  }

  /** The layout by bit positions: bit 0 marks the entry present, bits 12 to 51 are the frame number, bits
      52 to 62, which the processor ignores, the counter, and the flags lie around them. */
  lemma EntryLayout(frame: Word, flags: Word, counter: Word)
    requires frame < 0x100_0000_0000 && IsFlags(flags) && counter < MAX_COUNTER
    ensures var w := Pack(frame, flags, counter);
      && w & 1 == 1 && (w >> 12) & 0xff_ffff_ffff == frame && (w >> 52) & 0x7ff == counter
      && (w >> 1) & 0x7ff == (flags >> 1) & 0x7ff && w >> 63 == flags >> 63
  {
  }

  /** Where the processor looks for the flags. */
  lemma FlagPositions()
    ensures WRITABLE == 1 << 1 && USER_ACCESSIBLE == 1 << 2 && NO_CACHE == 1 << 4 && HUGE_PAGE == 1 << 7
    ensures GLOBAL == 1 << 8 && NO_EXECUTE == 1 << 63 && PRESENT == 1 << 0
  {
  }

  // ---- Entries that are not present ----

  datatype NotPresentType = Unused | GuardPage | RegionHeader

  function TypeCode(t: NotPresentType): Word
  {
    match t case Unused => 0 case GuardPage => 1 case RegionHeader => 2
  }

  const NOT_PRESENT_FLAGS: Word := 0x8000_0000_0000_0e00

  /** `page_type` as written: the type mask is applied after the shift, and the result is cut
      to a byte. */
  function PageTypeByte(w: Word): Word
  {
    ((w >> 1) & 0x1fe) & 0xff
  }

  /** Of the page type's code all but the lowest bit comes back, whatever the other fields are. */
  lemma TypeBits(code: Word, flags: Word, frame: Word, counter: Word)
    requires code < 4 && flags & !NOT_PRESENT_FLAGS == 0
    ensures var w := PackCode(code, flags, frame, counter);
      w & PRESENT == 0 && PageTypeByte(w) == code & 2 && (code == 1 ==> w != 0)
  {
  }

  /** `from_type_flags_frame_and_counter` */
  function PackNotPresent(t: NotPresentType, flags: Word, frame: Word, counter: Word): Word
  {
    PackCode(TypeCode(t), flags, frame, counter)
  }

  function PackCode(code: Word, flags: Word, frame: Word, counter: Word): Word
  {
    (frame << 12) | flags | (code << 1) | (counter << 52)
  }

  /** The page type survives exactly when it is not the guard page's: that one decodes as unused, whatever
      the other fields are. */
  lemma PageTypeReadsBackIff(t: NotPresentType, flags: Word, frame: Word, counter: Word)
    requires flags & !NOT_PRESENT_FLAGS == 0
    ensures var w := PackNotPresent(t, flags, frame, counter);
      && !IsPresent(w) && (PageTypeByte(w) == TypeCode(t) <==> t != GuardPage)
      && (t == GuardPage ==> PageTypeByte(w) == TypeCode(Unused) && w != 0)
  {
    match t
    case Unused => TypeBits(0, flags, frame, counter);
    case GuardPage => TypeBits(1, flags, frame, counter);
    case RegionHeader => TypeBits(2, flags, frame, counter);
  }

  /** The other fields read back as they do from a present entry. */
  lemma CodeFieldsReadBack(code: Word, flags: Word, frame: Word, counter: Word)
    requires code < 4 && flags & !NOT_PRESENT_FLAGS == 0 && frame < 0x100_0000_0000 && counter < MAX_COUNTER
    ensures var w := PackCode(code, flags, frame, counter);
      FrameOf(w) == frame && CounterOf(w) == counter && w & NOT_PRESENT_FLAGS == flags
  {
  }

  lemma FieldsReadBack(t: NotPresentType, flags: Word, frame: Word, counter: Word)
    requires flags & !NOT_PRESENT_FLAGS == 0 && frame < 0x100_0000_0000 && counter < MAX_COUNTER
    ensures var w := PackNotPresent(t, flags, frame, counter);
      FrameOf(w) == frame && CounterOf(w) == counter && w & NOT_PRESENT_FLAGS == flags
  {
    CodeFieldsReadBack(TypeCode(t), flags, frame, counter);
  }

  /** The kernel stack guard page entry. */
  const GUARD_WORD: Word := 2

  lemma GuardWordIsPacked()
    ensures GUARD_WORD == PackNotPresent(GuardPage, 0, 0, 0) && !IsPresent(GUARD_WORD) && GUARD_WORD != 0
  {
  }

  // ---- Decoded entries ----

  /** An entry with its fields apart; frames are numbers. */
  datatype Pte = NotPresent(word: Word) | Present(frame: nat, flags: Word, counter: Word)

  predicate WellFormed(p: Pte)
  {
    match p
    case NotPresent(w) => !IsPresent(w)
    case Present(frame, flags, counter) => frame < 0x100_0000_0000 && IsFlags(flags) && counter < MAX_COUNTER
  }

  function Decode(w: Word): (p: Pte)
    ensures WellFormed(p)
  {
    if IsPresent(w) then Present(FrameOf(w) as nat, FlagsOf(w), CounterOf(w)) else NotPresent(w)
  }

  /** Reading a packed entry gives back the fields it was packed from. */
  lemma DecodePack(frame: Word, flags: Word, counter: Word)
    requires frame < 0x100_0000_0000 && IsFlags(flags) && counter < MAX_COUNTER
    ensures Decode(Pack(frame, flags, counter)) == Present(frame as nat, flags, counter)
  {
    UnpackPack(frame, flags, counter);
  }

  /** No two words decode alike, so a page table may be read in either form. */
  lemma DecodeIsInjective(w: Word, v: Word)
    requires Decode(w) == Decode(v)
    ensures w == v
  {
    if IsPresent(w) {
      PackUnpack(w);
      PackUnpack(v);
      assert (FrameOf(w) as nat) as Word == FrameOf(w);
      assert (FrameOf(v) as nat) as Word == FrameOf(v);
    }
  }
}

/** The relocation patching of the CPU JIT compiler: after the object file is
    loaded, each relocation computes a 32-bit patch from its target, addend and
    place, and ORs it into the little-endian word at the place.

    Handled relocation types, by their ELF names and numbers:
    x86-64 `R_X86_64_PC32` (2), a 32-bit PC-relative displacement (System V
    x86-64 psABI, section 4.4.1 "Relocation Types"); AArch64
    `R_AARCH64_ADR_PREL_PG_HI21` (275), the page delta in an ADRP instruction's
    immlo/immhi fields, and `R_AARCH64_LDST{16,64,128}_ABS_LO12_NC` (284, 286,
    299), the scaled low 12 bits of an address in a load/store's imm12 field
    (ELF for the Arm 64-bit Architecture, section 5.7 "Relocation"). */
module ClangReloc {
  import opened Outcomes
  import opened Bits

  type Byte = b: int | 0 <= b < 256

  const R_X86_64_PC32: int := 2
  const R_AARCH64_ADR_PREL_PG_HI21: int := 275
  const R_AARCH64_LDST16_ABS_LO12_NC: int := 284
  const R_AARCH64_LDST64_ABS_LO12_NC: int := 286
  const R_AARCH64_LDST128_ABS_LO12_NC: int := 299

  /** 2^32: one past the largest unsigned 32-bit word. */
  const WORD: nat := 0x1_0000_0000

  /** One relocation as the ELF loader reports it: the offset patched in the
      image, the target address, the type and the addend. */
  datatype Reloc = Reloc(ploc: nat, tgt: int, rType: int, addend: int)

  /** The exceptions the patching loop can raise. */
  datatype RelocError =
    | UnknownType(rType: int)       // NotImplementedError for an unhandled type
    | PackOutOfRange(value: int)    // struct.error: the value does not fit the packed format
    | ShortWord(ploc: nat)          // struct.error: fewer than 4 bytes at the place
    | OrWithBytes                   // TypeError: an int ORed with a bytes value

  predicate Handled(t: int)
  {
    || t == R_X86_64_PC32 || t == R_AARCH64_ADR_PREL_PG_HI21
    || t == R_AARCH64_LDST16_ABS_LO12_NC || t == R_AARCH64_LDST64_ABS_LO12_NC
    || t == R_AARCH64_LDST128_ABS_LO12_NC
  }

  predicate IsLdst(t: int)
  {
    t == R_AARCH64_LDST16_ABS_LO12_NC || t == R_AARCH64_LDST64_ABS_LO12_NC || t == R_AARCH64_LDST128_ABS_LO12_NC
  }

  /** The lowest address bit a load/store relocation keeps: the access size's
      alignment (2, 8 or 16 bytes). */
  function LdstShift(t: int): nat
    requires IsLdst(t)
  {
    if t == R_AARCH64_LDST16_ABS_LO12_NC then 1
    else if t == R_AARCH64_LDST64_ABS_LO12_NC then 3
    else 4
  }

  // ---------------------------------------------------------------------------
  // Little-endian words

  /** `struct.unpack("<I", w)[0]`. */
  function ReadU32(w: seq<Byte>): (v: nat)
    requires |w| == 4
    ensures v < WORD
  {
    w[0] as int + 256 * (w[1] as int + 256 * (w[2] as int + 256 * w[3] as int))
  }

  /** `struct.pack("<I", v)`. */
  function WriteU32(v: nat): (w: seq<Byte>)
    requires v < WORD
    ensures |w| == 4
  {
    var v1 := v / 256;
    var v2 := v1 / 256;
    [v % 256, v1 % 256, v2 % 256, v2 / 256]
  }

  lemma ReadWriteU32(v: nat)
    requires v < WORD
    ensures ReadU32(WriteU32(v)) == v
  {
    var v1 := v / 256;
    var v2 := v1 / 256;
    assert v == v % 256 + 256 * v1;
    assert v1 == v1 % 256 + 256 * v2;
    assert v2 == v2 % 256 + 256 * (v2 / 256);
  }

  lemma WriteReadU32(w: seq<Byte>)
    requires |w| == 4
    ensures WriteU32(ReadU32(w)) == w
  {
    var hi2 := w[2] as int + 256 * w[3] as int;
    var hi1 := w[1] as int + 256 * hi2;
    assert (w[0] as int + 256 * hi1) / 256 == hi1;
    assert (w[1] as int + 256 * hi2) / 256 == hi2;
    assert (w[2] as int + 256 * w[3] as int) / 256 == w[3] as int;
  }

  predicate FitsI32(x: int)
  {
    -0x8000_0000 <= x < 0x8000_0000
  }

  /** A 32-bit word read as a two's-complement signed integer. */
  function Signed32(u: nat): int
    requires u < WORD
  {
    if u < 0x8000_0000 then u else u - WORD
  }

  /** `struct.pack('<i', x)`: the two's-complement bytes of a signed 32-bit value. */
  function PackI32(x: int): (w: seq<Byte>)
    requires FitsI32(x)
    ensures |w| == 4 && Signed32(ReadU32(w)) == x
  {
    ReadWriteU32(x % WORD);
    WriteU32(x % WORD)
  }

  // ---------------------------------------------------------------------------
  // Patch values

  function Displacement(r: Reloc): int
  {
    r.tgt + r.addend - r.ploc
  }

  /** `x & ~0xFFF`: the start of the 4 KiB page holding `x`. */
  function PageOf(x: int): int
  {
    Shl(Shr(x, 12), 12)
  }

  /** The distance between the target's page and the place's page. */
  function PageDelta(r: Reloc): int
  {
    PageOf(r.tgt + r.addend) - PageOf(r.ploc)
  }

  /** The powers of two the word layouts need. */
  lemma Pow2Values()
    ensures Pow2(12) == 4096 && Pow2(31) == 0x8000_0000 && Pow2(32) == WORD
  {
    assert Pow2(2) == 4;
    PowAdd(2, 2);
    PowAdd(4, 4);
    PowAdd(8, 4);
    PowAdd(8, 8);
    PowAdd(16, 16);
    assert Pow2(32) == 2 * Pow2(31);
  }

  /** `getbits(v, s, e) << k`. */
  function Field(v: int, s: nat, e: nat, k: nat): (r: nat)
    requires s <= e
    ensures r < Pow2(k + e - s + 1)
  {
    FieldBound(v, s, e, k);
    Shl(GetBits(v, s, e), k)
  }

  /** The ADRP patch: delta bits 12-13 into immlo (bits 29-30) and delta bits
      14-32 into immhi (bits 5-23), so that the 21-bit immediate holds bits
      12-32 of the delta, bit 32 being its sign. */
  function AdrpPatch(delta: int): (p: nat)
    ensures p < WORD
  {
    var lo := Field(delta, 12, 13, 29);
    var hi := Field(delta, 14, 32, 5);
    AdrpFits(lo, hi);
    BitOr(lo, hi)
  }

  lemma AdrpFits(lo: nat, hi: nat)
    requires lo < Pow2(31) && hi < Pow2(24)
    ensures BitOr(lo, hi) < WORD
  {
    PowMono(24, 31);
    BitOrBound(lo, hi, 31);
    Pow2Values();
  }

  /** A load/store patch: address bits `s..11` into the imm12 field at bit 10. */
  function LdstPatch(s: nat, a: int): (p: nat)
    requires s <= 11
    ensures p < WORD
  {
    PowMono(10 + 11 - s + 1, 32);
    Pow2Values();
    Field(a, s, 11, 10)
  }

  /** The patch for one relocation, as a 32-bit word. The PC-relative
      displacement is packed as a signed 32-bit integer and must fit; a type
      other than the five handled ones is an error. */
  function Patch(r: Reloc): (p: Result<nat, RelocError>)
    ensures p.Ok? ==> p.value < WORD
    ensures p.Err? <==> !Handled(r.rType) || (r.rType == R_X86_64_PC32 && !FitsI32(Displacement(r)))
    ensures !Handled(r.rType) ==> p == Err(UnknownType(r.rType))
    ensures Handled(r.rType) && p.Err? ==> p == Err(PackOutOfRange(Displacement(r)))
  {
    if r.rType == R_X86_64_PC32 then
      var x := Displacement(r);
      if FitsI32(x) then Ok(x % WORD) else Err(PackOutOfRange(x))
    else if r.rType == R_AARCH64_ADR_PREL_PG_HI21 then
      Ok(AdrpPatch(PageDelta(r)))
    else if IsLdst(r.rType) then
      Ok(LdstPatch(LdstShift(r.rType), r.tgt + r.addend))
    else
      Err(UnknownType(r.rType))
  }

  /** `PageOf` clears exactly the 12 low bits, so a page start is a multiple of 4096. */
  lemma PageOfBits(x: int, i: nat)
    ensures Bit(PageOf(x), i) <==> 12 <= i && Bit(x, i)
  {
    ShlBit(Shr(x, 12), 12, i);
    if 12 <= i {
      ShrBit(x, 12, i - 12);
    }
  }

  /** `x >> 12`: the number of the page holding `x`. */
  function PageNumber(x: int): int
  {
    Shr(x, 12)
  }

  /** A page starts at 4096 times its number. */
  lemma PageOfNumber(x: int)
    ensures PageOf(x) == 4096 * PageNumber(x)
  {
    ShlMul(Shr(x, 12), 12);
    Pow2Values();
  }

  /** The ADRP page delta is a whole number of pages: the difference of the
      two page numbers, times 4096. */
  lemma PageDeltaAligned(r: Reloc)
    ensures PageDelta(r) == 4096 * (PageNumber(r.tgt + r.addend) - PageNumber(r.ploc))
    ensures PageDelta(r) % 4096 == 0
  {
    PageOfNumber(r.tgt + r.addend);
    PageOfNumber(r.ploc);
    var k := PageNumber(r.tgt + r.addend) - PageNumber(r.ploc);
    assert PageDelta(r) == 4096 * k;
    MultipleOfPage(k);
  }

  lemma MultipleOfPage(k: int)
    ensures (4096 * k) % 4096 == 0
  {
  }

  /** The ADRP patch sets instruction bits 29-30 from delta bits 12-13 and bits
      5-23 from delta bits 14-32, and no other bit: the immediate immhi:immlo
      is bits 12-32 of the page delta. */
  lemma AdrpPatchBits(r: Reloc, i: nat)
    requires r.rType == R_AARCH64_ADR_PREL_PG_HI21
    ensures Patch(r).Ok?
    ensures Bit(Patch(r).value, i) <==>
      || (29 <= i <= 30 && Bit(PageDelta(r), i - 17))
      || (5 <= i <= 23 && Bit(PageDelta(r), i + 9))
  {
    var d := PageDelta(r);
    BitOrBit(Field(d, 12, 13, 29), Field(d, 14, 32, 5), i);
    FieldBit(d, 12, 13, 29, i);
    FieldBit(d, 14, 32, 5, i);
  }

  /** A load/store relocation's patch is the load/store field of its address. */
  lemma PatchOfLdst(r: Reloc)
    requires IsLdst(r.rType)
    ensures Patch(r) == Ok(LdstPatch(LdstShift(r.rType), r.tgt + r.addend))
  {
    assert r.rType != R_X86_64_PC32 && r.rType != R_AARCH64_ADR_PREL_PG_HI21;
  }

  /** A load/store patch carries address bits `s..11` (`s` the access-size
      shift) at instruction bits `10..21 - s`, so it sets no bit outside 10-21. */
  lemma LdstPatchBits(s: nat, a: int, i: nat)
    requires s <= 11
    ensures Bit(LdstPatch(s, a), i) <==> 10 <= i <= 21 - s && Bit(a, i - 10 + s)
    ensures Bit(LdstPatch(s, a), i) ==> 10 <= i <= 21
  {
    FieldBit(a, s, 11, 10, i);
  }

  /** The PC-relative patch, read back as a signed word, is the displacement. */
  lemma Pc32PatchValue(r: Reloc)
    requires r.rType == R_X86_64_PC32 && FitsI32(Displacement(r))
    ensures Patch(r).Ok? && Signed32(Patch(r).value) == Displacement(r)
  {
  }

  // ---------------------------------------------------------------------------
  // Applying patches to the image

  /** ORs `patch` into the little-endian word at `ploc`. Fewer than four bytes
      there fail the unpack, and a result that does not fit 32 bits fails the
      pack. Only the four bytes at `ploc` change. */
  function ApplyPatch(image: seq<Byte>, ploc: nat, patch: nat): (res: Result<seq<Byte>, RelocError>)
    ensures ploc + 4 > |image| ==> res == Err(ShortWord(ploc))
    ensures res.Ok? <==> ploc + 4 <= |image| && BitOr(ReadU32(image[ploc..ploc + 4]), patch) < WORD
    ensures res.Ok? ==>
      && |res.value| == |image|
      && (forall j :: 0 <= j < |image| && !(ploc <= j < ploc + 4) ==> res.value[j] == image[j])
      && ReadU32(res.value[ploc..ploc + 4]) == BitOr(ReadU32(image[ploc..ploc + 4]), patch)
  {
    if ploc + 4 > |image| then Err(ShortWord(ploc))
    else
      var v := BitOr(ReadU32(image[ploc..ploc + 4]), patch);
      if v >= WORD then Err(PackOutOfRange(v))
      else
        var out := image[..ploc] + WriteU32(v) + image[ploc + 4..];
        assert out[ploc..ploc + 4] == WriteU32(v);
        ReadWriteU32(v);
        Ok(out)
  }

  /** Patching keeps every bit the word already had and adds exactly the patch's bits. */
  lemma PatchKeepsBits(image: seq<Byte>, ploc: nat, patch: nat, i: nat)
    requires ApplyPatch(image, ploc, patch).Ok?
    ensures var old_word := ReadU32(image[ploc..ploc + 4]);
      var new_word := ReadU32(ApplyPatch(image, ploc, patch).value[ploc..ploc + 4]);
      Bit(new_word, i) <==> Bit(old_word, i) || Bit(patch, i)
  {
    BitOrBit(ReadU32(image[ploc..ploc + 4]), patch, i);
  }

  /** Two 32-bit words ORed give a 32-bit word. */
  lemma WordOrFits(x: nat, y: nat)
    requires x < WORD && y < WORD
    ensures BitOr(x, y) < WORD
  {
    Pow2Values();
    BitOrBound(x, y, 32);
  }

  /** One relocation: compute the patch, then OR it in. It succeeds exactly when
      the type is handled, a PC-relative displacement fits, and the place has
      four bytes. */
  function ApplyOne(image: seq<Byte>, r: Reloc): (res: Result<seq<Byte>, RelocError>)
    ensures res.Ok? <==> Patch(r).Ok? && r.ploc + 4 <= |image|
    ensures Patch(r).Err? ==> res == Err(Patch(r).error)
    ensures res.Ok? ==> |res.value| == |image|
  {
    match Patch(r)
    case Err(e) => Err(e)
    case Ok(p) =>
      if r.ploc + 4 <= |image| then
        WordOrFits(ReadU32(image[r.ploc..r.ploc + 4]), p);
        ApplyPatch(image, r.ploc, p)
      else
        ApplyPatch(image, r.ploc, p)
  }

  /** The intended PC-relative relocation: on a zeroed field, the word written
      reads back as the signed displacement from the place to the target. */
  lemma Pc32Intended(image: seq<Byte>, r: Reloc)
    requires r.rType == R_X86_64_PC32 && FitsI32(Displacement(r))
    requires r.ploc + 4 <= |image| && ReadU32(image[r.ploc..r.ploc + 4]) == 0
    ensures ApplyOne(image, r).Ok?
    ensures Signed32(ReadU32(ApplyOne(image, r).value[r.ploc..r.ploc + 4])) == Displacement(r)
  {
    BitOrZero(Patch(r).value);
  }

  /** The whole loop: the relocations are applied in order and the first
      exception ends it. */
  function ApplyRelocs(image: seq<Byte>, relocs: seq<Reloc>): (res: Result<seq<Byte>, RelocError>)
    ensures res.Ok? ==> |res.value| == |image|
    decreases |relocs|
  {
    if |relocs| == 0 then Ok(image)
    else
      match ApplyOne(image, relocs[0])
      case Err(e) => Err(e)
      case Ok(next) => ApplyRelocs(next, relocs[1..])
  }

  /** The loop succeeds exactly when every relocation has a handled type, a
      fitting displacement and four bytes at its place; bytes outside every
      patched word come out unchanged. */
  lemma {:induction false} ApplyRelocsOk(image: seq<Byte>, relocs: seq<Reloc>)
    ensures ApplyRelocs(image, relocs).Ok? <==>
      forall k :: 0 <= k < |relocs| ==> Patch(relocs[k]).Ok? && relocs[k].ploc + 4 <= |image|
    ensures ApplyRelocs(image, relocs).Ok? ==>
      forall j :: 0 <= j < |image| && (forall k :: 0 <= k < |relocs| ==> !(relocs[k].ploc <= j < relocs[k].ploc + 4)) ==>
        ApplyRelocs(image, relocs).value[j] == image[j]
    decreases |relocs|
  {
    if |relocs| > 0 {
      var first := ApplyOne(image, relocs[0]);
      if first.Ok? {
        var r0 := relocs[0];
        ApplyRelocsOk(first.value, relocs[1..]);
        assert forall k :: 1 <= k < |relocs| ==> relocs[k] == relocs[1..][k - 1];
      }
    }
  }

  /** Any unhandled relocation type makes the loop fail. */
  lemma UnknownTypeFails(image: seq<Byte>, relocs: seq<Reloc>, k: nat)
    requires k < |relocs| && !Handled(relocs[k].rType)
    ensures ApplyRelocs(image, relocs).Err?
  {
    ApplyRelocsOk(image, relocs);
  }

  // ---------------------------------------------------------------------------
  // The PC-relative and ADRP branches as written

  /** The ADRP patch as written: delta bits 14-31 reach only bits 5-22, so
      bit 23, the sign of the immediate, is never set. */
  function AdrpPatchAsWritten(delta: int): (p: nat)
    ensures p < WORD
  {
    var lo := Field(delta, 12, 13, 29);
    var hi := Field(delta, 14, 31, 5);
    PowMono(23, 24);
    AdrpFits(lo, hi);
    BitOr(lo, hi)
  }

  /** As written, the ADRP patch agrees with the corrected one on every bit
      but bit 23, which it never sets: a page delta with bit 32 set, such as
      any negative delta of less than 4 GiB, is encoded as a positive one. */
  lemma AdrpAsWrittenBits(delta: int, i: nat)
    ensures Bit(AdrpPatchAsWritten(delta), i) <==> i != 23 && Bit(AdrpPatch(delta), i)
    ensures i == 23 ==> (Bit(AdrpPatch(delta), i) <==> Bit(delta, 32))
  {
    BitOrBit(Field(delta, 12, 13, 29), Field(delta, 14, 31, 5), i);
    BitOrBit(Field(delta, 12, 13, 29), Field(delta, 14, 32, 5), i);
    FieldBit(delta, 12, 13, 29, i);
    FieldBit(delta, 14, 31, 5, i);
    FieldBit(delta, 14, 32, 5, i);
  }

  /** The target one page below the place: the page delta is -4096, whose bit
      32 is set, so the corrected patch sets bit 23 and the patch as written
      does not. */
  lemma AdrpWitness()
    ensures PageDelta(Reloc(4096, 0, R_AARCH64_ADR_PREL_PG_HI21, 0)) == -4096
    ensures Bit(AdrpPatch(-4096), 23) && !Bit(AdrpPatchAsWritten(-4096), 23)
  {
    var r := Reloc(4096, 0, R_AARCH64_ADR_PREL_PG_HI21, 0);
    PageOfNumber(0);
    PageOfNumber(4096);
    assert Shr(4096, 12) == 1;
    assert Shr(-4096, 12) == -1;
    ShrBit(-4096, 12, 20);
    MinusOneBits(20);
    AdrpAsWrittenBits(-4096, 23);
  }

  /** The patch as the loop computes it: the PC-relative case produces packed
      bytes rather than an integer, and the ADRP case drops the sign bit. */
  datatype PatchValue = Word(n: nat) | Packed(bytes: seq<Byte>)

  function PatchAsWritten(r: Reloc): (p: Result<PatchValue, RelocError>)
    ensures r.rType == R_X86_64_PC32 ==> p.Err? || p.value.Packed?
    ensures r.rType == R_AARCH64_ADR_PREL_PG_HI21 ==> p == Ok(Word(AdrpPatchAsWritten(PageDelta(r))))
    ensures r.rType != R_X86_64_PC32 && r.rType != R_AARCH64_ADR_PREL_PG_HI21 && Patch(r).Ok? ==>
      p == Ok(Word(Patch(r).value))
    ensures r.rType != R_X86_64_PC32 && Patch(r).Err? ==> p == Err(Patch(r).error)
  {
    if r.rType == R_X86_64_PC32 then
      var x := Displacement(r);
      if FitsI32(x) then Ok(Packed(PackI32(x))) else Err(PackOutOfRange(x))
    else if r.rType == R_AARCH64_ADR_PREL_PG_HI21 then
      Ok(Word(AdrpPatchAsWritten(PageDelta(r))))
    else
      match Patch(r)
      case Err(e) => Err(e)
      case Ok(n) => Ok(Word(n))
  }

  /** The per-relocation step as written: the word at the place is unpacked and
      then ORed with the patch, which raises a TypeError for packed bytes. */
  function ApplyOneAsWritten(image: seq<Byte>, r: Reloc): (res: Result<seq<Byte>, RelocError>)
    ensures res.Ok? ==> PatchAsWritten(r).Ok? && PatchAsWritten(r).value.Word?
  {
    match PatchAsWritten(r)
    case Err(e) => Err(e)
    case Ok(Packed(_)) => if r.ploc + 4 > |image| then Err(ShortWord(r.ploc)) else Err(OrWithBytes)
    case Ok(Word(p)) => ApplyPatch(image, r.ploc, p)
  }

  /** As written, no PC-relative relocation can be applied. */
  lemma Pc32AsWrittenFails(image: seq<Byte>, r: Reloc)
    requires r.rType == R_X86_64_PC32
    ensures ApplyOneAsWritten(image, r).Err?
    ensures FitsI32(Displacement(r)) && r.ploc + 4 <= |image| ==> ApplyOneAsWritten(image, r) == Err(OrWithBytes)
  {
  }

  /** The load/store types and the unhandled ones behave the same as written
      and corrected. */
  lemma AsWrittenElsewhere(image: seq<Byte>, r: Reloc)
    requires r.rType != R_X86_64_PC32 && r.rType != R_AARCH64_ADR_PREL_PG_HI21
    ensures ApplyOneAsWritten(image, r) == ApplyOne(image, r)
  {
  }

  /** A call to a function 16 bytes away, the field at offset 0 with the usual
      addend of -4: as written the step raises; corrected it writes 12. */
  lemma Pc32Witness()
    ensures ApplyOneAsWritten([0, 0, 0, 0], Reloc(0, 16, R_X86_64_PC32, -4)) == Err(OrWithBytes)
    ensures ApplyOne([0, 0, 0, 0], Reloc(0, 16, R_X86_64_PC32, -4)) == Ok([12, 0, 0, 0])
  {
    var r := Reloc(0, 16, R_X86_64_PC32, -4);
    BitOrZero(12);
    var image: seq<Byte> := [0, 0, 0, 0];
    assert Patch(r) == Ok(12);
    assert image[0..4] == image && ReadU32(image) == 0;
    assert WriteU32(12) == [12, 0, 0, 0];
    assert image[..0] + WriteU32(12) + image[4..] == [12, 0, 0, 0];
  }
}

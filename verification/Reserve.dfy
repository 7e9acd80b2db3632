/** ld.go, `addSymbol` for text symbols: every relocation that may overflow gets an epilogue behind
    the function, sized before any address is known. */
module Reserve {
  import opened Bytes
  import X = RelocX86
  import FX = FrameX86
  import A = RelocArm64

  /** The relocation types that reserve, grouped by how much. */
  datatype Kind =
    | AddrArm64   // R_ADDRARM64
    | LdstArm64   // R_ARM64_PCREL_LDST8, 16, 32, 64
    | CallArm64   // R_CALLARM64
    | SlotArm64   // R_ARM64_GOTPCREL, R_ARM64_TLS_IE
    | Pcrel       // R_PCREL
    | Slot        // R_GOTPCREL, R_TLS_IE
    | Call        // R_CALL
    | Other

  /** obj.Reloc as read from the object file: both offsets are from the start of the symbol. */
  datatype ObjReloc = ObjReloc(kind: Kind, offset: nat, toString: bool, epilogueOffset: nat, epilogueSize: nat)

  /** A short jump back would reach from behind an epilogue of `size` bytes. */
  predicate ShortGuess(offset: nat, epilogueOffset: nat, size: nat) {
    var returnOffset := offset + 4 - (epilogueOffset + size) - 2;
    -0x80 < returnOffset < 0
  }

  /** What R_PCREL reserves, judged by the instruction bytes around the displacement.  At offset 1
      the window starts one byte later. */
  function PcrelSize(data: seq<byte>, offset: nat, epilogueOffset: nat): nat
    requires 1 <= offset && offset + 4 <= |data|
  {
    var from := if offset == 1 then 0 else offset - 2;
    var op0, op1 := data[from], data[from + 1];
    if op0 == X.LEA then 8
    else if op0 == X.MOV then if ShortGuess(offset, epilogueOffset, 20) then 17 else 20
    else if op0 == X.CMPL then if ShortGuess(offset, epilogueOffset, 21) then 18 else 21
    else if op0 == X.JMP then 14
    else if op0 == X.CALL2 && op1 == 0x15 then 8
    else if op1 == X.CALL then if ShortGuess(offset, epilogueOffset, 19) then 16 else 19
    else if op1 == X.JMP then 14
    else 0
  }

  /** What R_CALL reserves: the guess looks at the epilogue offset before it is assigned. */
  function CallSize(offset: nat, oldEpilogueOffset: nat): nat {
    if ShortGuess(offset, oldEpilogueOffset, 19) then 16 else 19
  }

  /** The relocation with its epilogue, when `length` bytes of the symbol are laid out. */
  function Reserved(length: nat, data: seq<byte>, r: ObjReloc): ObjReloc
    requires r.kind == Pcrel ==> 1 <= r.offset && r.offset + 4 <= |data|
  {
    match r.kind
    case AddrArm64 => r.(epilogueOffset := length, epilogueSize := 16)
    case LdstArm64 => r.(epilogueOffset := length, epilogueSize := 20)
    case CallArm64 => r.(epilogueOffset := Align8(length), epilogueSize := 16)
    case SlotArm64 => r.(epilogueOffset := Align8(length), epilogueSize := 8)
    case Slot => r.(epilogueOffset := length, epilogueSize := 8)
    case Pcrel => r.(epilogueOffset := length, epilogueSize := PcrelSize(data, r.offset, length))
    case Call => r.(epilogueOffset := length, epilogueSize := CallSize(r.offset, r.epilogueOffset))
    case Other => r
  }

  predicate Skipped(r: ObjReloc, noEpilogues: bool) { noEpilogues && !r.toString }

  predicate WellPlaced(data: seq<byte>, r: ObjReloc) {
    r.kind == Pcrel ==> 1 <= r.offset && r.offset + 4 <= |data|
  }

  function Nops(arm: bool, n: nat): (r: seq<byte>)
    ensures |r| == n
  {
    if arm then A.Nops(n) else X.Nops(n)
  }

  /** Where in the epilogue area relocation `r` lies, after the `k` relocations before it. */
  ghost predicate Laid(relocs: seq<ObjReloc>, k: nat, length: nat)
    requires k <= |relocs|
  {
    && (forall i :: 0 <= i < k && relocs[i].epilogueOffset > 0 ==>
          relocs[i].epilogueOffset + relocs[i].epilogueSize <= length)
    && (forall i, j :: 0 <= i < j < k && relocs[i].epilogueOffset > 0 && relocs[j].epilogueOffset > 0 ==>
          relocs[i].epilogueOffset + relocs[i].epilogueSize <= relocs[j].epilogueOffset)
  }

  /** The relocation was given its epilogue at some layout length. */
  ghost predicate Given(before: ObjReloc, after: ObjReloc, data: seq<byte>, noEpilogues: bool) {
    WellPlaced(data, before)
    && if Skipped(before, noEpilogues) then after == before
       else exists length :: length >= |data| && length % 8 == 0 && after == Reserved(length, data, before)
  }

  /** The first `k` relocations were given their epilogues, the others are untouched. */
  ghost predicate GivenUpTo(before: seq<ObjReloc>, after: seq<ObjReloc>, k: nat, data: seq<byte>, noEpilogues: bool) {
    && |after| == |before| && k <= |before|
    && (forall i :: 0 <= i < k ==> Given(before[i], after[i], data, noEpilogues))
    && (forall i :: k <= i < |before| ==> after[i] == before[i])
  }

  /** One more relocation is laid out behind the others. */
  lemma LayNext(before: seq<ObjReloc>, relocs: seq<ObjReloc>, k: nat, placed: ObjReloc, data: seq<byte>,
                noEpilogues: bool, length: nat, length': nat)
    requires GivenUpTo(before, relocs, k, data, noEpilogues) && Laid(relocs, k, length) && k < |before|
    requires Given(before[k], placed, data, noEpilogues) && length <= length'
    requires placed.epilogueOffset > 0 ==>
      length <= placed.epilogueOffset && placed.epilogueOffset + placed.epilogueSize <= length'
    ensures GivenUpTo(before, relocs[k := placed], k + 1, data, noEpilogues)
    ensures Laid(relocs[k := placed], k + 1, length')
  {
    hide Given;
  }

  class TextSection {
    const arm64: bool
    const noRelocationEpilogues: bool
    var code: seq<byte>

    constructor (arm64: bool, noEpilogues: bool)
      ensures code == [] && this.arm64 == arm64 && noRelocationEpilogues == noEpilogues
    {
      this.arm64 := arm64;
      noRelocationEpilogues := noEpilogues;
      code := [];
    }

    /** `bytearrayAlignNops`. */
    method AlignNops()
      modifies this
      ensures exists pad: seq<byte> :: |pad| < 8 && code == old(code) + pad
      ensures |code| == Align8(|old(code)|)
    {
      var length := |code|;
      if length % 8 != 0 {
        code := code + Nops(arm64, 8 - length % 8);
        assert code == old(code) + Nops(arm64, 8 - length % 8);
      } else {
        assert code == old(code) + [];
      }
    }

    /** Reserves the epilogue of one relocation of the symbol at `offset`. */
    method ReserveOne(offset: nat, data: seq<byte>, reloc: ObjReloc) returns (placed: ObjReloc)
      requires WellPlaced(data, reloc) && offset <= |code| && |code| % 8 == 0 && offset % 8 == 0
      requires reloc.epilogueOffset == reloc.epilogueSize == 0
      modifies this
      ensures placed == Reserved(|old(code)| - offset, data, reloc)
      ensures old(code) <= code && |code| % 8 == 0
      ensures placed.epilogueOffset > 0 ==>
        |old(code)| - offset <= placed.epilogueOffset
        && placed.epilogueOffset + placed.epilogueSize <= |code| - offset
    {
      hide PcrelSize, CallSize;
      var length := |code| - offset;
      placed := Reserved(length, data, reloc);
      if reloc.kind != Other {
        code := code + Nops(arm64, placed.epilogueSize + (placed.epilogueOffset - length));
      }
      AlignNops();
    }

    /** Places a text symbol and reserves an epilogue for each of its relocations.  The epilogues lie
        behind the symbol's bytes, in order and apart; nothing placed before is touched. */
    method AddText(data: seq<byte>, relocs: seq<ObjReloc>) returns (offset: nat, relocs': seq<ObjReloc>)
      requires |code| % 8 == 0
      requires forall r :: r in relocs ==> WellPlaced(data, r) && r.epilogueOffset == r.epilogueSize == 0
      modifies this
      ensures offset == |old(code)| && |code| % 8 == 0
      ensures old(code) + data <= code
      ensures |relocs'| == |relocs| && Laid(relocs', |relocs|, |code| - offset)
      ensures forall i :: 0 <= i < |relocs| ==> Given(relocs[i], relocs'[i], data, noRelocationEpilogues)
    {
      hide Reserved, Given, Laid;
      offset := |code|;
      code := code + data;
      AlignNops();
      relocs' := relocs;
      assert Laid(relocs', 0, |code| - offset) by { LaidNone(relocs', |code| - offset); }
      var i := 0;
      while i < |relocs|
        invariant 0 <= i <= |relocs| && GivenUpTo(relocs, relocs', i, data, noRelocationEpilogues)
        invariant offset + |data| <= |code| && |code| % 8 == 0 && offset == |old(code)|
        invariant old(code) + data <= code
        invariant Laid(relocs', i, |code| - offset)
      {
        assert relocs[i] in relocs;
        ghost var length := |code| - offset;
        var placed := relocs[i];
        if !Skipped(relocs[i], noRelocationEpilogues) {
          placed := ReserveOne(offset, data, relocs[i]);
          GivenHere(relocs[i], placed, data, noRelocationEpilogues, length);
        } else {
          GivenSkipped(relocs[i], data, noRelocationEpilogues);
        }
        LayNext(relocs, relocs', i, placed, data, noRelocationEpilogues, length, |code| - offset);
        relocs' := relocs'[i := placed];
        i := i + 1;
      }
    }
  }

  lemma LaidNone(relocs: seq<ObjReloc>, length: nat)
    ensures Laid(relocs, 0, length)
  {
  }

  lemma GivenHere(before: ObjReloc, after: ObjReloc, data: seq<byte>, noEpilogues: bool, length: nat)
    requires WellPlaced(data, before) && !Skipped(before, noEpilogues)
    requires length >= |data| && length % 8 == 0 && after == Reserved(length, data, before)
    ensures Given(before, after, data, noEpilogues)
  {
    hide Reserved;
  }

  lemma GivenSkipped(before: ObjReloc, data: seq<byte>, noEpilogues: bool)
    requires WellPlaced(data, before) && Skipped(before, noEpilogues)
    ensures Given(before, before, data, noEpilogues)
  {
  }

  /** Who gets an epilogue: with the option on, only relocations against string constants do.
      It starts behind the symbol's bytes at a multiple of eight, and nothing else about the relocation
      changes. */
  lemma WhoGetsRoom(before: ObjReloc, after: ObjReloc, data: seq<byte>, noEpilogues: bool)
    requires Given(before, after, data, noEpilogues) && before.epilogueOffset == before.epilogueSize == 0
    ensures noEpilogues && !before.toString ==> after == before
    ensures before.kind == Other ==> after == before
    ensures !(noEpilogues && !before.toString) && before.kind != Other ==>
      && after.epilogueOffset >= |data| && after.epilogueOffset % 8 == 0
      && (before.kind != Pcrel ==> 8 <= after.epilogueSize <= 20)
    ensures after.(epilogueOffset := 0, epilogueSize := 0) == before
  {
    hide PcrelSize;
  }

  /** Of what R_PCREL reserves for an instruction it knows, at most three bytes go unused, eight for a MOV
      into RAX. */
  lemma LittleIsWasted(data: seq<byte>, r: ObjReloc, length: nat, start: nat, add: int, rex: byte)
    requires r.kind == Pcrel && 2 <= r.offset && r.offset + 4 <= |data| <= length
    requires var op := X.Classify(data[r.offset - 2..r.offset + 4]);
      && op != X.Unsupported && (op == X.Mov ==> data[r.offset - 1] % 8 == 5)
      && (op == X.CallIndirect ==> data[r.offset - 1] == 0x15)
    ensures var r' := Reserved(length, data, r);
      var need := X.EpilogueLength(rex, data[r.offset - 2..r.offset + 4], PlacedX86(r', start, add));
      var load := data[r.offset - 2] == 0x8B && data[r.offset - 1] / 8 % 8 + 8 * (rex / 4 % 2) == 0;
      r'.epilogueSize <= need + if load then 8 else 3
  {
    var site := data[r.offset - 2..r.offset + 4];
    assert site[0] == data[r.offset - 2] && site[1] == data[r.offset - 1];
  }

  // ----- reserved space suffices, or not -----

  /** The relocation in the segment, once its symbol is placed at `start`. */
  function PlacedX86(r: ObjReloc, start: nat, add: int): X.Reloc {
    X.Reloc(start + r.offset, add, start + r.epilogueOffset, r.epilogueSize)
  }

  function PlacedArm64(r: ObjReloc, kind: A.Kind, start: nat, add: int): A.Reloc {
    A.Reloc(kind, start + r.offset, add, start + r.epilogueOffset, r.epilogueSize)
  }

  /** A jump back that was assumed short when reserving is short when relocating: the epilogue's
      code ends before the place the guess was made from. */
  lemma ShortStaysShort(offset: nat, epilogueOffset: nat, size: nat, start: nat, add: int, length: nat, from: nat)
    requires offset + 4 <= epilogueOffset && from <= size
    ensures ShortGuess(offset, epilogueOffset, size) ==>
      X.ShortReturn(X.Reloc(start + offset, add, start + epilogueOffset, length), start + epilogueOffset + from)
  {
  }

  /** The six bytes `relocatePCREL` judges the site by.  At offset 1 the first of them, `front`, is the
      byte in front of the function, which was not looked at when its epilogue was reserved. */
  function SiteBytes(front: byte, data: seq<byte>, offset: nat): (site: seq<byte>)
    requires 1 <= offset && offset + 4 <= |data|
    ensures |site| == 6
  {
    if offset == 1 then [front] + data[..5] else data[offset - 2..offset + 4]
  }

  /** More is written than was reserved.  At offset 2 and beyond: a CALL behind a byte E9, for which the
      room of a JMP was reserved.  At offset 1: a byte 83 or 8B in front of the function, for which the
      instruction is taken for a CMPL or MOV, and too little was reserved for that. */
  predicate Overruns(rex: byte, front: byte, data: seq<byte>, offset: nat, length: nat)
    requires 1 <= offset && offset + 4 <= |data|
  {
    if offset >= 2 then data[offset - 2] == X.JMP && data[offset - 1] == X.CALL && Get32(data, offset) == 0
    else if front == X.CMPL then OverrunsAsCmpl(data[0], data[1], length)
    else front == X.MOV && data[0] % 8 == 5 && OverrunsAsMov(X.DstRegister(rex, data[0]), data[0], data[1], length)
  }

  predicate OverrunsAsCmpl(op: byte, next: byte, length: nat) {
    if op == X.CMPL then false
    else if op == X.MOV then length != 112
    else if op == X.LEA || op == X.JMP || (op == X.CALL2 && next == 0x15) || next == X.JMP then true
    else next == X.CALL && length != 112
  }

  predicate OverrunsAsMov(dst: nat, op: byte, next: byte, length: nat) {
    || op == X.LEA
    || (next == X.CALL && dst != 0 && length != 112)
    || (next == X.JMP && (dst != 0 || length > 120))
  }

  /** R_PCREL: whatever the target, the far form fits its epilogue if and only if the bytes are not
      those of `Overruns`. */
  lemma PcrelFitsIff(data: seq<byte>, r: ObjReloc, length: nat, start: nat, add: int, rex: byte, front: byte)
    requires r.kind == Pcrel && 1 <= r.offset && r.offset + 4 <= |data| <= length && length % 8 == 0
    ensures var r' := Reserved(length, data, r);
      (r'.epilogueSize > 0 ==>
         X.EpilogueLength(rex, SiteBytes(front, data, r.offset), PlacedX86(r', start, add)) <= r'.epilogueSize)
      <==> !Overruns(rex, front, data, r.offset, length)
  {
    hide X.DstRegister;
    if r.offset == 1 {
      StartFitsIff(data, r, length, start, add, rex, front);
    } else {
      InnerFitsIff(data, r, length, start, add, rex, front);
    }
  }

  lemma InnerFitsIff(data: seq<byte>, r: ObjReloc, length: nat, start: nat, add: int, rex: byte, front: byte)
    requires r.kind == Pcrel && 2 <= r.offset && r.offset + 4 <= |data| <= length
    ensures var r' := Reserved(length, data, r);
      (r'.epilogueSize > 0 ==>
         X.EpilogueLength(rex, SiteBytes(front, data, r.offset), PlacedX86(r', start, add)) <= r'.epilogueSize)
      <==> !(data[r.offset - 2] == X.JMP && data[r.offset - 1] == X.CALL && Get32(data, r.offset) == 0)
  {
    hide X.DstRegister;
    var r' := Reserved(length, data, r);
    var site := SiteBytes(front, data, r.offset);
    assert site[2..6] == data[r.offset..r.offset + 4];
    ShortStaysShort(r.offset, length, 20, start, add, r'.epilogueSize, 10);
    ShortStaysShort(r.offset, length, 20, start, add, r'.epilogueSize, 15);
    ShortStaysShort(r.offset, length, 21, start, add, r'.epilogueSize, 16);
    ShortStaysShort(r.offset, length, 19, start, add, r'.epilogueSize, 6);
  }

  lemma StartFitsIff(data: seq<byte>, r: ObjReloc, length: nat, start: nat, add: int, rex: byte, front: byte)
    requires r.kind == Pcrel && r.offset == 1 && 5 <= |data| <= length && length % 8 == 0
    ensures var r' := Reserved(length, data, r);
      (r'.epilogueSize > 0 ==>
         X.EpilogueLength(rex, SiteBytes(front, data, 1), PlacedX86(r', start, add)) <= r'.epilogueSize)
      <==> !Overruns(rex, front, data, 1, length)
  {
    hide X.DstRegister;
    var site := SiteBytes(front, data, 1);
    assert site[0] == front && site[1] == data[0] && site[2] == data[1];
    if X.Classify(site) == X.Call {
      assert site[2..6][0] == 0 by { FirstByteOfZero(site[2..6]); }
    }
  }

  lemma FirstByteOfZero(bs: seq<byte>)
    requires |bs| > 0 && Val(bs) == 0
    ensures bs[0] == 0
  {
  }

  /** R_CALL: a call in the first 17 bytes is promised a short jump back, whatever the length of
      the function.  The far form overflows, by exactly three bytes, if and only if the epilogue
      starts 120 bytes or more behind such a call. */
  lemma CallFitsIff(data: seq<byte>, r: ObjReloc, length: nat, start: nat, add: int, target: int)
    requires r.kind == Call && r.epilogueOffset == 0 && r.offset + 4 <= |data| <= length
    ensures var r' := Reserved(length, data, r);
      var need := |X.FarCall(PlacedX86(r', start, add), target)|;
      && (need <= r'.epilogueSize <==> !(r.offset < 17 && length - (r.offset + 4) >= 120))
      && (need > r'.epilogueSize ==> need == r'.epilogueSize + 3)
  {
  }

  /** The arm64 pair that a reservation was made for. */
  predicate ReservedFor(kind: Kind, pair: A.Kind) {
    match pair
    case AddrArm64 => kind == AddrArm64
    case GotPcrel | TlsIe => kind == SlotArm64
    case _ => kind == LdstArm64
  }

  /** On arm64 what is reserved is what is written, to the byte and at an instruction boundary: for the
      pairs, and for a call. */
  lemma Arm64Fits(data: seq<byte>, r: ObjReloc, pair: A.Kind, length: nat, target: int)
    requires length % 8 == 0 && (r.kind == CallArm64 || ReservedFor(r.kind, pair))
    ensures var r' := Reserved(length, data, r);
      && r'.epilogueSize == (if r.kind == CallArm64 then |A.CALL_CODE + LE64(target)| else A.Need(pair))
      && r'.epilogueSize % 4 == 0 && r'.epilogueOffset % 8 == 0
  {
  }

  lemma SliceOfSlice(b: seq<byte>, start: nat, n: nat, i: nat, j: nat)
    requires i <= j <= n && start + n <= |b|
    ensures b[start..start + n][i..j] == b[start + i..start + j]
  {
    var whole := b[start..start + n];
    var x, y := whole[i..j], b[start + i..start + j];
    assert |x| == |y|;
    forall k | 0 <= k < |x| ensures x[k] == y[k] {
      assert x[k] == whole[i + k] == b[start + i + k] == y[k];
    }
  }

  lemma FrontAndRest(b: seq<byte>, i: nat, j: nat)
    requires i < j <= |b|
    ensures b[i..j] == [b[i]] + b[i + 1..j]
  {
  }

  /** A reserved R_PCREL relocation meets what `relocatePCREL` demands of its caller, wherever there are
      three bytes of the segment in front of its displacement. */
  lemma ReservedIsReady(code: seq<byte>, start: nat, data: seq<byte>, r: ObjReloc, length: nat, add: int)
    requires r.kind == Pcrel && 1 <= r.offset && 3 <= start + r.offset
    requires r.offset + 4 <= |data| <= length && length % 8 == 0
    requires start + |data| <= |code| && code[start..start + |data|] == data
    requires var r' := Reserved(length, data, r); start + r'.epilogueOffset + r'.epilogueSize <= |code|
    ensures FX.Ready(code, map[], PlacedX86(Reserved(length, data, r), start, add))
       <==> !Overruns(code[start + r.offset - 3], code[start + r.offset - 2], data, r.offset, length)
  {
    hide X.Classify, X.EpilogueLength, X.Reset, PcrelSize, Overruns;
    var loc := PlacedX86(Reserved(length, data, r), start, add);
    var front, rex := code[loc.offset - 2], code[loc.offset - 3];
    var site := SiteBytes(front, data, r.offset);
    assert code[loc.offset - 2..loc.End()] == site by {
      SiteInPlace(code, start, data, r.offset);
    }
    FX.ResetAt(code, site, loc, loc.offset - 3);
    PcrelFitsIff(data, r, length, start, add, rex, front);
  }

  lemma SiteInPlace(code: seq<byte>, start: nat, data: seq<byte>, offset: nat)
    requires 1 <= offset && offset + 4 <= |data| && 2 <= start + offset
    requires start + |data| <= |code| && code[start..start + |data|] == data
    ensures code[start + offset - 2..start + offset + 4] == SiteBytes(code[start + offset - 2], data, offset)
  {
    if offset == 1 {
      SliceOfSlice(code, start, |data|, 0, 5);
      FrontAndRest(code, start - 1, start + 5);
    } else {
      SliceOfSlice(code, start, |data|, offset - 2, offset + 4);
      assert start + (offset - 2) == start + offset - 2 && start + (offset + 4) == start + offset + 4;
    }
  }

  /** So does a reserved R_CALL, if and only if it is not both early and far from its epilogue. */
  lemma ReservedCallIsReady(code: seq<byte>, start: nat, data: seq<byte>, r: ObjReloc, length: nat, add: int)
    requires r.kind == Call && r.epilogueOffset == 0 && 1 <= r.offset && r.offset + 4 <= |data| <= length
    requires var r' := Reserved(length, data, r); start + r'.epilogueOffset + r'.epilogueSize <= |code|
    ensures FX.CallReady(code, PlacedX86(Reserved(length, data, r), start, add))
       <==> !(r.offset < 17 && length - (r.offset + 4) >= 120)
  {
    hide X.FarCall;
    CallFitsIff(data, r, length, start, add, 0);
  }
}

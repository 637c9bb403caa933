// What an accepted TDX block is on its own bytes: every condition is stated at its offset in the
// block, with the bits a pixel takes, and no function of the measurement is named.
module TdxExact {
  import opened Bytes
  import opened Options
  import opened TdxBlock

  // Two nonempty ranges have no byte in common.
  predicate Apart(a: nat, aSize: nat, b: nat, bSize: nat) { a + aSize <= b || b + bSize <= a }

  // Bits per pixel of the texture and the transfer code of a plane.
  predicate CodeAllowed(bits: nat, code: nat) {
    || (bits == 4 && (code == 0x00 || code == 0x14))
    || (bits == 8 && (code == 0x00 || code == 0x13))
    || (bits == 24 && code == 0x01)
    || (bits == 32 && code == 0x00)
  }

  // A plane takes 32, 24, 8 or 4 bits an element, rounded up to whole bytes.
  predicate BitsTaken(code: nat, elements: nat, byteCount: nat) {
    && (code == 0x00 ==> 8 * byteCount == 32 * elements)
    && (code == 0x01 ==> 8 * byteCount == 24 * elements)
    && (code == 0x13 ==> 8 * byteCount == 8 * elements)
    && (code == 0x14 ==> 8 * byteCount - 8 < 4 * elements <= 8 * byteCount)
  }

  predicate SizeAllowed(code: nat, elements: nat, limit: nat, byteCount: nat) {
    elements <= limit && BitsTaken(code, elements, byteCount)
  }

  predicate PlaneStands(block: seq<Byte>, h: Header, limit: nat, i: nat, p: Plane)
    requires |block| >= 32
  {
    hide U32At;
    var at := p.objectOffset;
    && 4 * i + 4 <= |block| && at == U32At(block, 24) + U32At(block, 4 * i) && 32 <= at && at + 96 <= |block|
    && p.transferCode == block[at + 7] % 64 && CodeAllowed(h.bitsPerPixel, p.transferCode)
    && p.width == U32At(block, at + 32) > 0 && p.height == U32At(block, at + 36) > 0
    && SizeAllowed(p.transferCode, p.width * p.height, limit, p.byteCount)
    && p.dataOffset == U32At(block, 24) + h.primaryDescriptorBytes + U32At(block, at + 84)
                       + (if h.bitsPerPixel == 4 || h.bitsPerPixel == 8 then 1024 else 0)
    && p.dataOffset <= h.blockStride && p.dataOffset <= |block|
  }

  predicate PaletteStands(block: seq<Byte>, h: Header, q: Palette)
    requires |block| >= 32
  {
    var at := q.objectOffset;
    && at == U32At(block, 28) + U32At(block, 20) && 32 <= at && at + 96 <= |block| && block[at + 7] % 64 == 0
    && (if h.bitsPerPixel == 4 then U32At(block, at + 32) == 8 && U32At(block, at + 36) == 2 && q.entryCount == 16
        else U32At(block, at + 32) == 16 && U32At(block, at + 36) == 16 && q.entryCount == 256)
    && q.byteCount == 4 * q.entryCount
    && q.dataOffset == U32At(block, 28) + h.primaryDescriptorBytes + h.secondaryDescriptorBytes + U32At(block, at + 84)
    && q.dataOffset + q.byteCount <= |block|
  }

  // The records of the planes stand one behind the other, and that of the palette beside them.
  ghost predicate RecordsStand(planes: seq<Plane>, palette: Option<Palette>) {
    && (forall i, j | 0 <= i < j < |planes| :: planes[i].objectOffset + 96 <= planes[j].objectOffset)
    && (palette.Some? ==>
          forall i | 0 <= i < |planes| :: Apart(palette.value.objectOffset, 96, planes[i].objectOffset, 96))
  }

  // The slot of 1024 bytes, then the planes without a gap up to the stride; unused slot bytes are zero.
  ghost predicate StorageStands(block: seq<Byte>, h: Header, planes: seq<Plane>, palette: Option<Palette>) {
    var n := |planes|;
    && (forall i, j | 0 <= i < n && j == i + 1 < n ::
          planes[j].dataOffset == planes[i].dataOffset + planes[i].byteCount)
    && n > 0 && planes[n - 1].dataOffset + planes[n - 1].byteCount == h.blockStride
    && (palette.Some? ==>
          var (from, to) := (palette.value.dataOffset + palette.value.byteCount, planes[0].dataOffset);
          && palette.value.dataOffset + 1024 == to <= |block|
          && forall x | from <= x < to :: block[x] == 0)
  }

  // No record reaches into the storage.
  ghost predicate RecordClear(at: nat, planes: seq<Plane>, palette: Option<Palette>) {
    && (forall i | 0 <= i < |planes| :: Apart(at, 96, planes[i].dataOffset, planes[i].byteCount))
    && (palette.Some? ==> Apart(at, 96, palette.value.dataOffset, 1024))
  }

  ghost predicate RecordsClear(planes: seq<Plane>, palette: Option<Palette>) {
    && (forall i | 0 <= i < |planes| :: RecordClear(planes[i].objectOffset, planes, palette))
    && (palette.Some? ==> RecordClear(palette.value.objectOffset, planes, palette))
  }

  // A block cut short is the only plane of the first block and belongs to a known family.
  ghost predicate CutKnown(block: seq<Byte>, h: Header, blockIndex: nat, families: set<seq<nat>>, planes: seq<Plane>,
      palette: Option<Palette>)
    requires |block| >= 32
  {
    && (h.implicitZeroSuffix <==> |block| < h.blockStride)
    && (|block| < h.blockStride ==>
          && |planes| == 1 && blockIndex == 0
          && var (p, none) := (planes[0], palette.None?);
             [h.bitsPerPixel, h.sampleWidth, h.sampleHeight, h.missing, h.blockStride, U32At(block, 24),
              U32At(block, 28), p.objectOffset, p.dataOffset, p.transferCode, p.width, p.height,
              if none then 0 else palette.value.objectOffset, if none then 0 else palette.value.dataOffset] in families)
  }

  ghost predicate BlockStands(block: seq<Byte>, h: Header, limit: nat, blockIndex: nat, families: set<seq<nat>>,
      planes: seq<Plane>, palette: Option<Palette>)
  {
    && |block| >= 32 && |planes| == h.primaryCount
    && (forall i: nat | i < |planes| :: PlaneStands(block, h, limit, i, planes[i]))
    && (palette.Some? <==> h.bitsPerPixel == 4 || h.bitsPerPixel == 8)
    && (palette.Some? ==> PaletteStands(block, h, palette.value))
    && RecordsStand(planes, palette) && StorageStands(block, h, planes, palette) && RecordsClear(planes, palette)
    && CutKnown(block, h, blockIndex, families, planes, palette)
  }

  // ---------- one plane ----------

  // The transfer code is in the low six bits of the high byte of its word.
  lemma CodeIsByte(block: seq<Byte>, at: nat)
    requires at + 8 <= |block|
    ensures TransferCode(U32At(block, at + 4)) == block[at + 7] % 64
  {
    var a: nat, b: nat, c: nat, high: nat := block[at + 4], block[at + 5], block[at + 6], block[at + 7];
    var low := a + 256 * b + 0x1_0000 * c;
    assert U32At(block, at + 4) == low + 0x100_0000 * high;
    assert low < 0x100_0000;
    assert (low + 0x100_0000 * high) / 0x100_0000 == high;
  }

  lemma Cancel(w: nat, a: nat, b: nat)
    requires w * a < w * b
    ensures a < b
  {
  }

  // The quotient test is the product test without the product.
  lemma QuotientTest(width: nat, height: nat, limit: nat)
    requires width > 0
    ensures width <= limit && height <= limit / width && height > 0 <==> width * height <= limit && height > 0
  {
    if width * height <= limit && height > 0 {
      assert width <= width * height;
      assert width * height < width * (limit / width + 1);
      Cancel(width, height, limit / width + 1);
    }
    if width <= limit && height <= limit / width { ElementLimitImplied(width, height, limit); }
  }

  lemma BytesAre(code: nat, width: nat, height: nat, limit: nat, byteCount: nat)
    requires code in {0x00, 0x01, 0x13, 0x14}
    ensures CheckedPlaneBytes(code, width, height, limit) == Some(byteCount) <==>
            width > 0 && height > 0 && SizeAllowed(code, width * height, limit, byteCount)
  {
    if width > 0 && height > 0 {
      QuotientTest(width, height, limit);
      var elements := width * height;
      assert elements > 0;
    }
  }

  lemma PlaneIs(block: seq<Byte>, h: Header, limit: nat, i: nat, p: Plane)
    requires |block| >= 32
    ensures PlaneAt(block, h, limit, i) == Some(p) <==> PlaneStands(block, h, limit, i, p)
  {
    hide U32At, CheckedPlaneBytes, TransferCode, SizeAllowed;
    if 4 * i + 4 <= |block| {
      var at := U32At(block, 24) + U32At(block, 4 * i);
      if 32 <= at && at + 96 <= |block| {
        CodeIsByte(block, at);
        var code := TransferCode(U32At(block, at + 4));
        if CodeAllowed(h.bitsPerPixel, code) {
          BytesAre(code, U32At(block, at + 32), U32At(block, at + 36), limit, p.byteCount);
        }
      }
    }
  }

  lemma PaletteIs(block: seq<Byte>, h: Header, q: Palette)
    requires |block| >= 32 && Indexed(h)
    ensures PaletteAt(block, h) == Some(q) <==> PaletteStands(block, h, q)
  {
    hide U32At, TransferCode;
    var at := U32At(block, 28) + U32At(block, 20);
    if 32 <= at && at + 96 <= |block| { CodeIsByte(block, at); }
  }

  // ---------- the whole block ----------

  lemma RecordsInOrder(planes: seq<Plane>)
    ensures (forall i, j | 0 <= i < j < |planes| ::
               planes[i].objectOffset < planes[j].objectOffset
               && ObjectsApart(planes[j].objectOffset, planes[i].objectOffset)) <==>
            forall i, j | 0 <= i < j < |planes| :: planes[i].objectOffset + 96 <= planes[j].objectOffset
  {
  }

  lemma PlanesAre(block: seq<Byte>, h: Header, limit: nat, planes: seq<Plane>)
    requires |block| >= 32
    ensures PlanesRead(block, h, limit, planes, h.primaryCount) <==>
      && |planes| == h.primaryCount
      && (forall i: nat | i < |planes| :: PlaneStands(block, h, limit, i, planes[i]))
      && (forall i, j | 0 <= i < j < |planes| :: planes[i].objectOffset + 96 <= planes[j].objectOffset)
  {
    hide PlaneAt, PlaneStands, ObjectsApart;
    forall i: nat | i < |planes|
      ensures PlaneAt(block, h, limit, i) == Some(planes[i]) <==> PlaneStands(block, h, limit, i, planes[i])
    {
      PlaneIs(block, h, limit, i, planes[i]);
    }
    RecordsInOrder(planes);
  }

  lemma PaletteReads(block: seq<Byte>, h: Header, planes: seq<Plane>, palette: Option<Palette>)
    requires |block| >= 32
    ensures PaletteRead(block, h, planes, palette) <==>
      && (palette.Some? <==> h.bitsPerPixel == 4 || h.bitsPerPixel == 8)
      && (palette.Some? ==>
            && PaletteStands(block, h, palette.value)
            && forall i | 0 <= i < |planes| :: Apart(palette.value.objectOffset, 96, planes[i].objectOffset, 96))
  {
    hide PaletteAt, PaletteStands;
    if Indexed(h) && palette.Some? { PaletteIs(block, h, palette.value); }
  }

  lemma StorageIs(block: seq<Byte>, h: Header, planes: seq<Plane>, palette: Option<Palette>)
    requires planes != [] && (forall i | 0 <= i < |planes| :: planes[i].byteCount > 0)
    requires palette.Some? ==> palette.value.byteCount <= 1024
    ensures PlanesTile(planes, h.blockStride) && (palette.Some? ==> SlotOk(block, planes, palette.value)) <==>
            StorageStands(block, h, planes, palette)
  {
    if palette.Some? && palette.value.dataOffset + 1024 == planes[0].dataOffset <= |block| {
      ZerosAre(block, palette.value.dataOffset + palette.value.byteCount, planes[0].dataOffset);
    }
  }

  lemma ZerosAre(block: seq<Byte>, from: nat, to: nat)
    requires from <= to <= |block|
    ensures AllZero(block[from..to]) <==> forall x | from <= x < to :: block[x] == 0
  {
    if AllZero(block[from..to]) {
      forall x | from <= x < to ensures block[x] == 0 { assert block[from..to][x - from] == block[x]; }
    }
  }

  lemma ClearIs(at: nat, planes: seq<Plane>, palette: Option<Palette>)
    requires forall i | 0 <= i < |planes| :: planes[i].byteCount > 0
    ensures ClearOfData(at, planes, palette) <==> RecordClear(at, planes, palette)
  {
  }

  lemma ClearAre(planes: seq<Plane>, palette: Option<Palette>)
    requires forall i | 0 <= i < |planes| :: planes[i].byteCount > 0
    ensures ObjectsClear(planes, palette) <==> RecordsClear(planes, palette)
  {
    var objects, n := Objects(planes, palette), |planes|;
    assert forall i | 0 <= i < n :: objects[i] == planes[i].objectOffset;
    assert palette.Some? ==> |objects| == n + 1 && objects[n] == palette.value.objectOffset;
    assert palette.None? ==> |objects| == n;
    forall k | 0 <= k < |objects|
      ensures ClearOfData(objects[k], planes, palette) <==> RecordClear(objects[k], planes, palette)
    {
      ClearIs(objects[k], planes, palette);
    }
    hide ClearOfData, RecordClear, Objects;
    if RecordsClear(planes, palette) {
      forall k | 0 <= k < |objects| ensures ClearOfData(objects[k], planes, palette) {
        assert k == n || objects[k] == planes[k].objectOffset;
      }
    }
    if ObjectsClear(planes, palette) {
      forall i | 0 <= i < n ensures RecordClear(planes[i].objectOffset, planes, palette) {
        assert ClearOfData(objects[i], planes, palette);
      }
      if palette.Some? { assert ClearOfData(objects[n], planes, palette); }
    }
  }

  // Only the last plane can reach past the block, and it does when the block is cut short.
  lemma CutIs(block: seq<Byte>, h: Header, blockIndex: nat, families: set<seq<nat>>, planes: seq<Plane>,
      palette: Option<Palette>)
    requires |block| >= 32 && planes != [] && PlanesTile(planes, h.blockStride)
    ensures SuffixOk(block, h, blockIndex, planes, palette, families) <==>
            CutKnown(block, h, blockIndex, families, planes, palette)
  {
    hide U32At;
    var last := |planes| - 1;
    forall i: nat | i < last ensures PlaneEnd(planes[i]) <= h.blockStride {
      PlanesAscend(planes, h.blockStride, i, last);
    }
    assert PlaneEnd(planes[last]) == h.blockStride;
    assert (exists i :: 0 <= i < |planes| && PlaneEnd(planes[i]) > |block|) <==> |block| < h.blockStride;
  }

  lemma SizesPositive(block: seq<Byte>, h: Header, limit: nat, planes: seq<Plane>, palette: Option<Palette>)
    requires |block| >= 32
    requires forall i: nat | i < |planes| :: PlaneStands(block, h, limit, i, planes[i])
    requires palette.Some? ==> PaletteStands(block, h, palette.value)
    ensures forall i | 0 <= i < |planes| :: planes[i].byteCount > 0
    ensures palette.Some? ==> palette.value.byteCount <= 1024
  {
    hide U32At;
    forall i: nat | i < |planes| ensures planes[i].byteCount > 0 {
      assert PlaneStands(block, h, limit, i, planes[i]);
      Positive(planes[i].width, planes[i].height);
    }
  }

  lemma Positive(width: nat, height: nat)
    requires width > 0 && height > 0
    ensures width * height > 0
  {
  }

  // The measurement accepts a block exactly when its own bytes say so.
  lemma AcceptedExactly(block: seq<Byte>, h: Header, limit: nat, blockIndex: nat, families: set<seq<nat>>,
      planes: seq<Plane>, palette: Option<Palette>)
    requires h.primaryCount > 0
    ensures Accepted(block, h, limit, blockIndex, families, planes, palette) <==>
            BlockStands(block, h, limit, blockIndex, families, planes, palette)
  {
    hide PlanesRead, PaletteRead, PlaneStands, PaletteStands, StorageStands, PlanesTile, SlotOk, ObjectsClear,
         RecordsClear, SuffixOk, CutKnown;
    if |block| >= 32 {
      PlanesAre(block, h, limit, planes);
      PaletteReads(block, h, planes, palette);
      if && PlanesRead(block, h, limit, planes, h.primaryCount) && PaletteRead(block, h, planes, palette) {
        SizesPositive(block, h, limit, planes, palette);
        StorageIs(block, h, planes, palette);
        ClearAre(planes, palette);
        if PlanesTile(planes, h.blockStride) { CutIs(block, h, blockIndex, families, planes, palette); }
      }
    }
  }
}

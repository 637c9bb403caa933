// One block of a TDX texture (tools/measure_level_tdx_topology.py over
// tools/score_tdx_layout_hypotheses.py): object records, palette slot and primary planes.
module TdxBlock {
  import opened Bytes
  import opened Options
  import opened Sums

  const BLOCK_HEADER_BYTES := 32
  const OBJECT_BYTES := 0x60
  const PALETTE_SLOT_BYTES := 0x400

  datatype Header = Header(bitsPerPixel: nat, sampleWidth: nat, sampleHeight: nat, primaryCount: nat,
                           primaryDescriptorBytes: nat, secondaryDescriptorBytes: nat, blockStride: nat,
                           missing: nat, implicitZeroSuffix: bool)

  datatype Plane = Plane(objectOffset: nat, dataOffset: nat, width: nat, height: nat, transferCode: nat, byteCount: nat)

  datatype Palette = Palette(objectOffset: nat, dataOffset: nat, entryCount: nat, byteCount: nat)

  // ---------- what is read ----------

  predicate Indexed(h: Header) { h.bitsPerPixel == 4 || h.bitsPerPixel == 8 }

  predicate KnownPair(bits: nat, code: nat) {
    (bits, code) in {(4, 0x00), (4, 0x14), (8, 0x00), (8, 0x13), (24, 0x01), (32, 0x00)}
  }

  function BlockU32(block: seq<Byte>, at: nat): Option<nat> {
    if at + 4 > |block| then None else Some(U32At(block, at))
  }

  function TransferCode(word: nat): nat { word / 0x100_0000 % 64 }

  function RectangleBytes(code: nat, width: nat, height: nat): Option<nat> {
    if width == 0 || height == 0 then None
    else if code == 0x00 then Some(width * height * 4)
    else if code == 0x01 then Some(width * height * 3)
    else if code == 0x13 then Some(width * height)
    else if code == 0x14 then Some((width * height + 1) / 2)
    else None
  }

  function CheckedPlaneBytes(code: nat, width: nat, height: nat, limit: nat): Option<nat> {
    if width == 0 || height == 0 || width > limit || height > limit / width || width * height > limit then None
    else RectangleBytes(code, width, height)
  }

  lemma PlaneBytesPositive(code: nat, width: nat, height: nat, limit: nat)
    ensures var r := CheckedPlaneBytes(code, width, height, limit); r.Some? ==> r.value > 0
  {
    if width > 0 && height > 0 {
      assert width * height > 0;
    }
  }

  // The first of the two size limits implies the second.
  lemma ElementLimitImplied(width: nat, height: nat, limit: nat)
    requires width > 0 && height <= limit / width
    ensures width * height <= limit
  {
    assert width * height <= width * (limit / width);
    assert width * (limit / width) <= limit;
  }

  predicate ObjectFits(block: seq<Byte>, at: nat) { BLOCK_HEADER_BYTES <= at && at + OBJECT_BYTES <= |block| }

  // The i-th primary plane as its pointer and object record describe it.
  function PlaneAt(block: seq<Byte>, h: Header, limit: nat, i: nat): Option<Plane> {
    var primaryBase := BlockU32(block, 0x18);
    var pointer := BlockU32(block, 4 * i);
    if primaryBase.None? || pointer.None? then None
    else
      var at := primaryBase.value + pointer.value;
      if !ObjectFits(block, at) then None
      else
        var code := TransferCode(U32At(block, at + 0x04));
        var width, height := U32At(block, at + 0x20), U32At(block, at + 0x24);
        var byteCount := CheckedPlaneBytes(code, width, height, limit);
        if !KnownPair(h.bitsPerPixel, code) || byteCount.None? then None
        else
          var dataOffset := primaryBase.value + h.primaryDescriptorBytes
            + (if Indexed(h) then PALETTE_SLOT_BYTES else 0) + U32At(block, at + 0x54);
          if dataOffset > h.blockStride || dataOffset > |block| then None
          else Some(Plane(at, dataOffset, width, height, code, byteCount.value))
  }

  function PaletteAt(block: seq<Byte>, h: Header): Option<Palette> {
    var secondaryBase := BlockU32(block, 0x1C);
    var pointer := BlockU32(block, 0x14);
    if secondaryBase.None? || pointer.None? then None
    else
      var at := secondaryBase.value + pointer.value;
      if !ObjectFits(block, at) then None
      else
        var four := h.bitsPerPixel == 4;
        var entryCount := if four then 16 else 256;
        var dataOffset := secondaryBase.value + h.primaryDescriptorBytes + h.secondaryDescriptorBytes
          + U32At(block, at + 0x54);
        if TransferCode(U32At(block, at + 0x04)) != 0 then None
        else if U32At(block, at + 0x20) != (if four then 8 else 16) then None
        else if U32At(block, at + 0x24) != (if four then 2 else 16) then None
        else if dataOffset + entryCount * 4 > |block| then None
        else Some(Palette(at, dataOffset, entryCount, entryCount * 4))
  }

  // ---------- the layout ----------

  predicate Overlap(left: nat, leftSize: nat, right: nat, rightSize: nat) {
    left < right + rightSize && right < left + leftSize
  }

  predicate ObjectsApart(a: nat, b: nat) { !Overlap(a, OBJECT_BYTES, b, OBJECT_BYTES) }

  ghost predicate PlanesRead(block: seq<Byte>, h: Header, limit: nat, planes: seq<Plane>, n: nat) {
    && |planes| == n
    && (forall i: nat | i < n :: PlaneAt(block, h, limit, i) == Some(planes[i]))
    && (forall i, j | 0 <= i < j < n :: planes[i].objectOffset < planes[j].objectOffset)
    && (forall i, j | 0 <= i < j < n :: ObjectsApart(planes[j].objectOffset, planes[i].objectOffset))
  }

  function PlaneEnd(plane: Plane): nat { plane.dataOffset + plane.byteCount }

  // Each plane ends where the next one starts, and the last at the block stride.
  ghost predicate PlanesTile(planes: seq<Plane>, stride: nat) {
    && (forall i, j | 0 <= i < |planes| && j == i + 1 < |planes| ::
          PlaneEnd(planes[i]) == planes[j].dataOffset && planes[i].dataOffset < planes[j].dataOffset)
    && (planes != [] ==> PlaneEnd(planes[|planes| - 1]) == stride)
  }

  ghost predicate PaletteRead(block: seq<Byte>, h: Header, planes: seq<Plane>, palette: Option<Palette>) {
    && (Indexed(h) <==> palette.Some?)
    && (palette.Some? ==>
          && PaletteAt(block, h) == palette
          && forall i | 0 <= i < |planes| :: ObjectsApart(palette.value.objectOffset, planes[i].objectOffset))
  }

  predicate SlotOk(block: seq<Byte>, planes: seq<Plane>, palette: Palette) {
    && planes != [] && palette.dataOffset + PALETTE_SLOT_BYTES == planes[0].dataOffset <= |block|
    && palette.byteCount <= PALETTE_SLOT_BYTES
    && AllZero(block[palette.dataOffset + palette.byteCount..palette.dataOffset + PALETTE_SLOT_BYTES])
  }

  function Objects(planes: seq<Plane>, palette: Option<Palette>): seq<nat> {
    seq(|planes|, i requires 0 <= i < |planes| => planes[i].objectOffset)
      + if palette.Some? then [palette.value.objectOffset] else []
  }

  ghost predicate ClearOfData(at: nat, planes: seq<Plane>, palette: Option<Palette>) {
    && (forall i | 0 <= i < |planes| :: !Overlap(at, OBJECT_BYTES, planes[i].dataOffset, planes[i].byteCount))
    && (palette.Some? ==> !Overlap(at, OBJECT_BYTES, palette.value.dataOffset, PALETTE_SLOT_BYTES))
  }

  ghost predicate ObjectsClear(planes: seq<Plane>, palette: Option<Palette>) {
    forall k | 0 <= k < |Objects(planes, palette)| :: ClearOfData(Objects(planes, palette)[k], planes, palette)
  }

  // ---------- what an accepted layout means ----------

  function StorageStart(planes: seq<Plane>, palette: Option<Palette>): nat
    requires planes != []
  {
    if palette.Some? then palette.value.dataOffset else planes[0].dataOffset
  }

  function ByteCounts(planes: seq<Plane>): seq<nat> {
    seq(|planes|, i requires 0 <= i < |planes| => planes[i].byteCount)
  }

  // The owner of a storage byte: plane i, or the palette slot as owner |planes|.
  predicate Owns(planes: seq<Plane>, palette: Option<Palette>, i: nat, x: nat) {
    if i < |planes| then planes[i].dataOffset <= x < PlaneEnd(planes[i])
    else i == |planes| && palette.Some? && palette.value.dataOffset <= x < palette.value.dataOffset + PALETTE_SLOT_BYTES
  }

  ghost predicate Layout(planes: seq<Plane>, palette: Option<Palette>, stride: nat) {
    && planes != [] && PlanesTile(planes, stride)
    && (palette.Some? ==> palette.value.dataOffset + PALETTE_SLOT_BYTES == planes[0].dataOffset)
    && ObjectsClear(planes, palette)
  }

  lemma {:induction false} PlanesAscend(planes: seq<Plane>, stride: nat, i: nat, j: nat)
    requires PlanesTile(planes, stride) && i < j < |planes|
    ensures PlaneEnd(planes[i]) <= planes[j].dataOffset
    decreases j
  {
    if i + 1 < j {
      PlanesAscend(planes, stride, i, j - 1);
      var k := j - 1;
      assert planes[k].dataOffset < planes[j].dataOffset;
      assert PlaneEnd(planes[i]) <= planes[k].dataOffset;
    }
  }

  // The plane sizes telescope.
  lemma {:induction false} SizesTelescope(planes: seq<Plane>, stride: nat, n: nat)
    requires PlanesTile(planes, stride) && 0 < n <= |planes|
    ensures Sum(ByteCounts(planes)[..n]) == PlaneEnd(planes[n - 1]) - planes[0].dataOffset
  {
    var last := n - 1;
    assert ByteCounts(planes)[..n][..last] == ByteCounts(planes)[..last];
    if last > 0 {
      SizesTelescope(planes, stride, last);
      var k := last - 1;
      assert PlaneEnd(planes[k]) == planes[last].dataOffset;
    }
  }

  lemma TotalSize(planes: seq<Plane>, palette: Option<Palette>, stride: nat)
    requires Layout(planes, palette, stride)
    ensures Sum(ByteCounts(planes)) == stride - planes[0].dataOffset
  {
    SizesTelescope(planes, stride, |planes|);
    assert ByteCounts(planes)[..|planes|] == ByteCounts(planes);
  }

  lemma {:induction false} PlaneOwner(planes: seq<Plane>, stride: nat, n: nat, x: nat) returns (i: nat)
    requires PlanesTile(planes, stride) && 0 < n <= |planes|
    requires planes[0].dataOffset <= x < PlaneEnd(planes[n - 1])
    ensures i < n && planes[i].dataOffset <= x < PlaneEnd(planes[i])
  {
    var last := n - 1;
    if planes[last].dataOffset <= x {
      i := last;
    } else {
      var k := last - 1;
      assert PlaneEnd(planes[k]) == planes[last].dataOffset;
      i := PlaneOwner(planes, stride, last, x);
    }
  }

  // Every byte from the storage start to the stride has one owner.
  lemma StorageIsPartitioned(planes: seq<Plane>, palette: Option<Palette>, stride: nat, x: nat) returns (i: nat)
    requires Layout(planes, palette, stride) && StorageStart(planes, palette) <= x < stride
    ensures Owns(planes, palette, i, x)
    ensures forall j: nat | Owns(planes, palette, j, x) :: j == i
  {
    if x < planes[0].dataOffset {
      i := |planes|;
    } else {
      i := PlaneOwner(planes, stride, |planes|, x);
    }
    forall j: nat | Owns(planes, palette, j, x) ensures j == i {
      if i < |planes| && j < |planes| {
        if i < j { PlanesAscend(planes, stride, i, j); }
        if j < i { PlanesAscend(planes, stride, j, i); }
      }
      if j < |planes| && 0 < j { PlanesAscend(planes, stride, 0, j); }
    }
  }

  lemma OwnerOverlaps(planes: seq<Plane>, palette: Option<Palette>, i: nat, x: nat, at: nat)
    requires Owns(planes, palette, i, x) && at <= x < at + OBJECT_BYTES
    ensures !ClearOfData(at, planes, palette)
  {
    assert i < |planes| ==> Overlap(at, OBJECT_BYTES, planes[i].dataOffset, planes[i].byteCount);
  }

  // Object records cannot stand in or behind the storage: they end at or before its start.
  lemma ObjectsPrecedeStorage(planes: seq<Plane>, palette: Option<Palette>, stride: nat, k: nat)
    requires Layout(planes, palette, stride) && k < |Objects(planes, palette)|
    requires Objects(planes, palette)[k] + OBJECT_BYTES <= stride
    requires forall i | 0 <= i < |planes| :: planes[i].byteCount > 0
    ensures Objects(planes, palette)[k] + OBJECT_BYTES <= StorageStart(planes, palette)
  {
    var at, start := Objects(planes, palette)[k], StorageStart(planes, palette);
    if at + OBJECT_BYTES > start {
      var x := if at <= start then start else at;
      var i := StorageIsPartitioned(planes, palette, stride, x);
      OwnerOverlaps(planes, palette, i, x, at);
    }
  }

  // ---------- the measurement ----------

  // The one family of planes that may reach past the available bytes.
  function Signature(h: Header, primaryBase: nat, secondaryBase: nat, plane: Plane, palette: Option<Palette>):
      seq<nat>
  {
    [h.bitsPerPixel, h.sampleWidth, h.sampleHeight, h.missing, h.blockStride, primaryBase, secondaryBase,
     plane.objectOffset, plane.dataOffset, plane.transferCode, plane.width, plane.height,
     if palette.Some? then palette.value.objectOffset else 0, if palette.Some? then palette.value.dataOffset else 0]
  }

  predicate SuffixFamily(block: seq<Byte>, h: Header, blockIndex: nat, planes: seq<Plane>, palette: Option<Palette>,
                         families: set<seq<nat>>, plane: Plane)
    requires |block| >= BLOCK_HEADER_BYTES
  {
    && h.implicitZeroSuffix && |planes| == 1 && blockIndex == 0 && PlaneEnd(plane) == h.blockStride
    && Signature(h, U32At(block, 0x18), U32At(block, 0x1C), plane, palette) in families
  }

  ghost predicate SuffixOk(block: seq<Byte>, h: Header, blockIndex: nat, planes: seq<Plane>, palette: Option<Palette>,
                           families: set<seq<nat>>)
    requires |block| >= BLOCK_HEADER_BYTES
  {
    && (forall i | 0 <= i < |planes| && PlaneEnd(planes[i]) > |block| ::
          SuffixFamily(block, h, blockIndex, planes, palette, families, planes[i]))
    && (h.implicitZeroSuffix <==> exists i :: 0 <= i < |planes| && PlaneEnd(planes[i]) > |block|)
  }

  // The block reads as these planes and this palette, and they form a layout.
  ghost predicate Accepted(block: seq<Byte>, h: Header, limit: nat, blockIndex: nat, families: set<seq<nat>>,
                           planes: seq<Plane>, palette: Option<Palette>) {
    && |block| >= BLOCK_HEADER_BYTES
    && PlanesRead(block, h, limit, planes, h.primaryCount)
    && PaletteRead(block, h, planes, palette)
    && PlanesTile(planes, h.blockStride)
    && (palette.Some? ==> SlotOk(block, planes, palette.value))
    && ObjectsClear(planes, palette)
    && SuffixOk(block, h, blockIndex, planes, palette, families)
  }

  // The reads are determined by the block.
  lemma ReadsAreUnique(block: seq<Byte>, h: Header, limit: nat, p: seq<Plane>, q: seq<Plane>, n: nat)
    requires PlanesRead(block, h, limit, p, n) && PlanesRead(block, h, limit, q, n)
    ensures p == q
  {
    hide PlaneAt;
    forall i: nat | i < n ensures p[i] == q[i] {
      assert PlaneAt(block, h, limit, i) == Some(p[i]);
    }
  }

  lemma PlanesReadPrefix(block: seq<Byte>, h: Header, limit: nat, planes: seq<Plane>, n: nat, k: nat)
    requires PlanesRead(block, h, limit, planes, n) && k <= n
    ensures PlanesRead(block, h, limit, planes[..k], k)
  {
    hide PlaneAt;
  }

  lemma PlanesReadSnoc(block: seq<Byte>, h: Header, limit: nat, planes: seq<Plane>, plane: Plane)
    requires PlanesRead(block, h, limit, planes, |planes|) && PlaneAt(block, h, limit, |planes|) == Some(plane)
    ensures PlanesRead(block, h, limit, planes + [plane], |planes| + 1) <==>
      && (planes != [] ==> planes[|planes| - 1].objectOffset < plane.objectOffset)
      && forall i | 0 <= i < |planes| :: ObjectsApart(plane.objectOffset, planes[i].objectOffset)
  {
    hide PlaneAt, ObjectsApart;
    var all, n := planes + [plane], |planes|;
    if PlanesRead(block, h, limit, all, n + 1) {
      assert planes != [] ==> all[n - 1].objectOffset < all[n].objectOffset;
      forall i | 0 <= i < n ensures ObjectsApart(plane.objectOffset, planes[i].objectOffset) {
        assert ObjectsApart(all[n].objectOffset, all[i].objectOffset);
      }
    }
  }

  // The loop over the primary planes.
  method ReadPlanes(block: seq<Byte>, h: Header, limit: nat) returns (r: Option<seq<Plane>>)
    ensures r.Some? ==> PlanesRead(block, h, limit, r.value, h.primaryCount)
    ensures r.None? ==> forall planes :: !PlanesRead(block, h, limit, planes, h.primaryCount)
  {
    hide PlaneAt, PlanesRead, ObjectsApart;
    var planes: seq<Plane> := [];
    NoPlanes(block, h, limit);
    for index := 0 to h.primaryCount
      invariant |planes| == index && PlanesRead(block, h, limit, planes, index)
    {
      var plane := PlaneAt(block, h, limit, index);
      if plane.None? {
        PlaneMissing(block, h, limit, index);
        return None;
      }
      PlanesReadSnoc(block, h, limit, planes, plane.value);
      var apart := AllApart(plane.value.objectOffset, planes);
      if !apart || (planes != [] && plane.value.objectOffset <= planes[|planes| - 1].objectOffset) {
        PlaneClashes(block, h, limit, planes, plane.value);
        return None;
      }
      planes := planes + [plane.value];
    }
    r := Some(planes);
  }

  lemma NoPlanes(block: seq<Byte>, h: Header, limit: nat)
    ensures PlanesRead(block, h, limit, [], 0)
  {
  }

  lemma PlaneMissing(block: seq<Byte>, h: Header, limit: nat, i: nat)
    requires i < h.primaryCount && PlaneAt(block, h, limit, i).None?
    ensures forall planes :: !PlanesRead(block, h, limit, planes, h.primaryCount)
  {
    hide PlaneAt;
    forall planes ensures !PlanesRead(block, h, limit, planes, h.primaryCount) {
      assert |planes| == h.primaryCount ==> PlaneAt(block, h, limit, i) != Some(planes[i]);
    }
  }

  lemma PlaneClashes(block: seq<Byte>, h: Header, limit: nat, read: seq<Plane>, plane: Plane)
    requires |read| < h.primaryCount && PlanesRead(block, h, limit, read, |read|)
    requires PlaneAt(block, h, limit, |read|) == Some(plane)
    requires !PlanesRead(block, h, limit, read + [plane], |read| + 1)
    ensures forall planes :: !PlanesRead(block, h, limit, planes, h.primaryCount)
  {
    hide PlaneAt, ObjectsApart;
    forall planes ensures !PlanesRead(block, h, limit, planes, h.primaryCount) {
      if PlanesRead(block, h, limit, planes, h.primaryCount) {
        ReadExtends(block, h, limit, read, plane, planes);
      }
    }
  }

  lemma ReadExtends(block: seq<Byte>, h: Header, limit: nat, read: seq<Plane>, plane: Plane, planes: seq<Plane>)
    requires |read| < h.primaryCount && PlanesRead(block, h, limit, read, |read|)
    requires PlaneAt(block, h, limit, |read|) == Some(plane)
    requires PlanesRead(block, h, limit, planes, h.primaryCount)
    ensures PlanesRead(block, h, limit, read + [plane], |read| + 1)
  {
    hide PlaneAt, ObjectsApart;
    var n := |read|;
    assert PlaneAt(block, h, limit, n) == Some(planes[n]);
    PlanesReadPrefix(block, h, limit, planes, h.primaryCount, n);
    ReadsAreUnique(block, h, limit, read, planes[..n], n);
    assert planes[..n + 1] == planes[..n] + [planes[n]];
    PlanesReadPrefix(block, h, limit, planes, h.primaryCount, n + 1);
  }

  method AllApart(at: nat, planes: seq<Plane>) returns (ok: bool)
    ensures ok <==> forall i | 0 <= i < |planes| :: ObjectsApart(at, planes[i].objectOffset)
  {
    for i := 0 to |planes|
      invariant forall j | 0 <= j < i :: ObjectsApart(at, planes[j].objectOffset)
    {
      if !ObjectsApart(at, planes[i].objectOffset) { return false; }
    }
    ok := true;
  }

  // The storage loop: each plane against its successor, or the stride.
  method CheckStorage(planes: seq<Plane>, stride: nat) returns (ok: bool)
    ensures ok <==> PlanesTile(planes, stride)
  {
    for index := 0 to |planes|
      invariant forall i, j | 0 <= i < index && j == i + 1 < |planes| :: PlaneEnd(planes[i]) == planes[j].dataOffset
      invariant forall i, j | 0 <= i < index && j == i + 1 < index :: planes[i].dataOffset < planes[j].dataOffset
      invariant index == |planes| && planes != [] ==> PlaneEnd(planes[index - 1]) == stride
    {
      var next: nat := index + 1;
      var expectedEnd := if next < |planes| then planes[next].dataOffset else stride;
      if PlaneEnd(planes[index]) != expectedEnd { return false; }
      if index > 0 && planes[index].dataOffset <= planes[index - 1].dataOffset {
        var before: nat := index - 1;
        assert !(planes[before].dataOffset < planes[index].dataOffset);
        return false;
      }
    }
    ok := true;
  }

  method CheckObjects(planes: seq<Plane>, palette: Option<Palette>) returns (ok: bool)
    ensures ok <==> ObjectsClear(planes, palette)
  {
    var objects := Objects(planes, palette);
    for k := 0 to |objects|
      invariant forall m | 0 <= m < k :: ClearOfData(objects[m], planes, palette)
    {
      for i := 0 to |planes|
        invariant forall j | 0 <= j < i :: !Overlap(objects[k], OBJECT_BYTES, planes[j].dataOffset, planes[j].byteCount)
      {
        if Overlap(objects[k], OBJECT_BYTES, planes[i].dataOffset, planes[i].byteCount) { return false; }
      }
      if palette.Some? && Overlap(objects[k], OBJECT_BYTES, palette.value.dataOffset, PALETTE_SLOT_BYTES) {
        return false;
      }
    }
    ok := true;
  }

  method CheckSuffix(block: seq<Byte>, h: Header, blockIndex: nat, planes: seq<Plane>, palette: Option<Palette>,
                     families: set<seq<nat>>) returns (ok: bool)
    requires |block| >= BLOCK_HEADER_BYTES
    ensures ok <==> SuffixOk(block, h, blockIndex, planes, palette, families)
  {
    hide SuffixFamily;
    var usesImplicitZero := false;
    for i := 0 to |planes|
      invariant forall j | 0 <= j < i && PlaneEnd(planes[j]) > |block| ::
        SuffixFamily(block, h, blockIndex, planes, palette, families, planes[j])
      invariant usesImplicitZero <==> exists j :: 0 <= j < i && PlaneEnd(planes[j]) > |block|
    {
      if PlaneEnd(planes[i]) > |block| {
        if !SuffixFamily(block, h, blockIndex, planes, palette, families, planes[i]) { return false; }
        usesImplicitZero := true;
      }
    }
    ok := h.implicitZeroSuffix == usesImplicitZero;
  }

  method ReadPalette(block: seq<Byte>, h: Header, planes: seq<Plane>) returns (ok: bool, palette: Option<Palette>)
    ensures ok ==> PaletteRead(block, h, planes, palette)
    ensures !ok ==> forall q :: !PaletteRead(block, h, planes, q)
  {
    hide PaletteAt;
    if !Indexed(h) { return true, None; }
    palette := PaletteAt(block, h);
    if palette.None? { return false, palette; }
    ok := AllApart(palette.value.objectOffset, planes);
  }

  lemma PaletteIsUnique(block: seq<Byte>, h: Header, planes: seq<Plane>, p: Option<Palette>, q: Option<Palette>)
    requires PaletteRead(block, h, planes, p) && PaletteRead(block, h, planes, q)
    ensures p == q
  {
    hide PaletteAt;
  }

  // The bytes an accepted block's slot leaves unused are inside the available bytes.
  lemma SlotInside(block: seq<Byte>, h: Header, limit: nat, planes: seq<Plane>, palette: Option<Palette>)
    requires PlanesRead(block, h, limit, planes, h.primaryCount) && h.primaryCount > 0
    requires PaletteRead(block, h, planes, palette)
    ensures planes[0].dataOffset <= |block|
    ensures palette.Some? ==> palette.value.byteCount <= PALETTE_SLOT_BYTES
  {
    assert PlaneAt(block, h, limit, 0) == Some(planes[0]);
  }

  // Everything behind the reads.
  method CheckLayout(block: seq<Byte>, h: Header, limit: nat, blockIndex: nat, families: set<seq<nat>>,
                     planes: seq<Plane>, palette: Option<Palette>) returns (ok: bool)
    requires |block| >= BLOCK_HEADER_BYTES && h.primaryCount > 0
    requires PlanesRead(block, h, limit, planes, h.primaryCount) && PaletteRead(block, h, planes, palette)
    ensures ok <==> Accepted(block, h, limit, blockIndex, families, planes, palette)
  {
    hide PlanesTile, ObjectsClear, SuffixOk, AllZero;
    SlotInside(block, h, limit, planes, palette);
    hide PlanesRead, PaletteRead;
    ok := CheckStorage(planes, h.blockStride);
    if !ok { return false; }
    if palette.Some? {
      var slot := palette.value;
      if slot.dataOffset + PALETTE_SLOT_BYTES != planes[0].dataOffset { return false; }
      if !AllZero(block[slot.dataOffset + slot.byteCount..slot.dataOffset + PALETTE_SLOT_BYTES]) { return false; }
    }
    ok := CheckObjects(planes, palette);
    if !ok { return false; }
    ok := CheckSuffix(block, h, blockIndex, planes, palette, families);
  }

  lemma AcceptedIsLayout(block: seq<Byte>, h: Header, limit: nat, blockIndex: nat, families: set<seq<nat>>,
                         planes: seq<Plane>, palette: Option<Palette>)
    requires Accepted(block, h, limit, blockIndex, families, planes, palette) && h.primaryCount > 0
    ensures Layout(planes, palette, h.blockStride)
  {
    hide PlaneAt, PaletteAt, PlanesTile, ObjectsClear, SuffixOk, AllZero;
  }

  // The measurement succeeds exactly on blocks that read as a layout, and the plane bytes it
  // reports are all bytes from the first plane to the stride.
  method MeasureTdxBlock(block: seq<Byte>, h: Header, limit: nat, blockIndex: nat, families: set<seq<nat>>)
      returns (r: Option<(nat, nat, nat)>, ghost planes: seq<Plane>, ghost palette: Option<Palette>)
    requires h.primaryCount > 0
    ensures r.Some? ==> Accepted(block, h, limit, blockIndex, families, planes, palette)
    ensures r.None? ==> forall p, q :: !Accepted(block, h, limit, blockIndex, families, p, q)
    ensures r.Some? ==>
      && planes != [] && r.value.0 == h.blockStride - planes[0].dataOffset
      && r.value.1 == (if palette.Some? then palette.value.byteCount else 0)
      && r.value.2 == (if palette.Some? then palette.value.entryCount else 0)
  {
    hide PlanesRead, PaletteRead, PlanesTile, ObjectsClear, SuffixOk, SlotOk;
    planes, palette := [], None;
    if |block| < BLOCK_HEADER_BYTES { return None, planes, palette; }
    var read := ReadPlanes(block, h, limit);
    if read.None? { return None, planes, palette; }
    planes := read.value;
    OnlyThesePlanes(block, h, limit, planes);
    var ok, slot := ReadPalette(block, h, read.value);
    if !ok { return None, planes, palette; }
    palette := slot;
    OnlyThisPalette(block, h, planes, palette);
    ok := CheckLayout(block, h, limit, blockIndex, families, read.value, slot);
    if !ok { return None, planes, palette; }
    AcceptedIsLayout(block, h, limit, blockIndex, families, planes, palette);
    TotalSize(planes, palette, h.blockStride);
    r := Some((Sum(ByteCounts(read.value)), if slot.Some? then slot.value.byteCount else 0,
               if slot.Some? then slot.value.entryCount else 0));
  }

  lemma OnlyThesePlanes(block: seq<Byte>, h: Header, limit: nat, planes: seq<Plane>)
    requires PlanesRead(block, h, limit, planes, h.primaryCount)
    ensures forall p | PlanesRead(block, h, limit, p, h.primaryCount) :: p == planes
  {
    hide PlanesRead;
    forall p | PlanesRead(block, h, limit, p, h.primaryCount) ensures p == planes {
      ReadsAreUnique(block, h, limit, p, planes, h.primaryCount);
    }
  }

  lemma OnlyThisPalette(block: seq<Byte>, h: Header, planes: seq<Plane>, palette: Option<Palette>)
    requires PaletteRead(block, h, planes, palette)
    ensures forall q | PaletteRead(block, h, planes, q) :: q == palette
  {
    hide PaletteRead;
    forall q | PaletteRead(block, h, planes, q) ensures q == palette {
      PaletteIsUnique(block, h, planes, q, palette);
    }
  }

  // In an accepted block every object record stands before the storage, however many there are.
  lemma AcceptedObjectsPrecede(block: seq<Byte>, h: Header, limit: nat, blockIndex: nat, families: set<seq<nat>>,
                               planes: seq<Plane>, palette: Option<Palette>, k: nat)
    requires Accepted(block, h, limit, blockIndex, families, planes, palette) && h.primaryCount > 0
    requires |block| <= h.blockStride
    requires k < |Objects(planes, palette)|
    ensures Objects(planes, palette)[k] + OBJECT_BYTES <= StorageStart(planes, palette)
  {
    AcceptedIsLayout(block, h, limit, blockIndex, families, planes, palette);
    ObjectFitsBlock(block, h, limit, planes, palette, k);
    PlanesHaveBytes(block, h, limit, planes);
    ObjectsPrecedeStorage(planes, palette, h.blockStride, k);
  }

  // And any two of them are apart.
  lemma AcceptedObjectsApart(block: seq<Byte>, h: Header, limit: nat, planes: seq<Plane>, palette: Option<Palette>,
                             k: nat, m: nat)
    requires PlanesRead(block, h, limit, planes, h.primaryCount) && PaletteRead(block, h, planes, palette)
    requires k < m < |Objects(planes, palette)|
    ensures ObjectsApart(Objects(planes, palette)[k], Objects(planes, palette)[m])
  {
    hide PlaneAt, PaletteAt;
    if m < |planes| {
      assert ObjectsApart(planes[m].objectOffset, planes[k].objectOffset);
    }
  }

  // An accepted block's object records, all of them at once.
  lemma AcceptedBlock(block: seq<Byte>, h: Header, limit: nat, blockIndex: nat, families: set<seq<nat>>,
                      planes: seq<Plane>, palette: Option<Palette>)
    requires Accepted(block, h, limit, blockIndex, families, planes, palette) && h.primaryCount > 0
    requires |block| <= h.blockStride
    ensures var at := Objects(planes, palette);
      && (forall k: nat | k < |at| :: at[k] + OBJECT_BYTES <= StorageStart(planes, palette))
      && (forall k: nat, m: nat | k < m < |at| :: ObjectsApart(at[k], at[m]))
  {
    hide PlaneAt, PaletteRead, PlanesTile, ObjectsClear, SuffixOk, SlotOk, Objects, ObjectsApart;
    var at := Objects(planes, palette);
    forall k: nat | k < |at| ensures at[k] + OBJECT_BYTES <= StorageStart(planes, palette) {
      AcceptedObjectsPrecede(block, h, limit, blockIndex, families, planes, palette, k);
    }
    forall k: nat, m: nat | k < m < |at| ensures ObjectsApart(at[k], at[m]) {
      AcceptedObjectsApart(block, h, limit, planes, palette, k, m);
    }
  }

  lemma ObjectFitsBlock(block: seq<Byte>, h: Header, limit: nat, planes: seq<Plane>, palette: Option<Palette>, k: nat)
    requires PlanesRead(block, h, limit, planes, h.primaryCount) && PaletteRead(block, h, planes, palette)
    requires k < |Objects(planes, palette)|
    ensures Objects(planes, palette)[k] + OBJECT_BYTES <= |block|
  {
    hide U32At, CheckedPlaneBytes, KnownPair, TransferCode;
    if k < |planes| {
      assert PlaneAt(block, h, limit, k) == Some(planes[k]);
    }
  }

  lemma PlanesHaveBytes(block: seq<Byte>, h: Header, limit: nat, planes: seq<Plane>)
    requires PlanesRead(block, h, limit, planes, h.primaryCount)
    ensures forall i | 0 <= i < |planes| :: planes[i].byteCount > 0
  {
    hide U32At, CheckedPlaneBytes, KnownPair, TransferCode;
    forall i: nat | i < |planes| ensures planes[i].byteCount > 0 {
      assert PlaneAt(block, h, limit, i) == Some(planes[i]);
      PlaneBytesPositive(planes[i].transferCode, planes[i].width, planes[i].height, limit);
    }
  }

  // Missing bytes are read as zero exactly when the block is cut short.
  lemma ImplicitZeroIffCut(block: seq<Byte>, h: Header, limit: nat, blockIndex: nat, families: set<seq<nat>>,
                           planes: seq<Plane>, palette: Option<Palette>)
    requires Accepted(block, h, limit, blockIndex, families, planes, palette) && h.primaryCount > 0
    ensures h.implicitZeroSuffix <==> |block| < h.blockStride
  {
    hide PlaneAt, PaletteAt, SuffixFamily, ObjectsClear, SlotOk, PaletteRead;
    var last := |planes| - 1;
    forall i: nat | i < last ensures PlaneEnd(planes[i]) <= h.blockStride {
      PlanesAscend(planes, h.blockStride, i, last);
    }
    assert PlaneEnd(planes[last]) == h.blockStride;
  }
}

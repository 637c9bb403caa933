// HOG name tables: the stripped-and-split reading of tools/fingerprint_assets.py, and the
// fixed-memory streaming check of tools/measure_frontend_hog_topology.py that must agree with it.
module NameTable {
  import opened Bytes
  import opened Options

  // ---------- rstrip and split ----------

  function RStrip(s: seq<Byte>): (r: seq<Byte>)
    ensures r <= s
  {
    if s == [] || s[|s| - 1] != 0 then s else RStrip(s[..|s| - 1])
  }

  lemma {:induction false} StrippedEnd(s: seq<Byte>)
    ensures RStrip(s) == [] || RStrip(s)[|RStrip(s)| - 1] != 0
  {
    if s != [] && s[|s| - 1] == 0 {
      StrippedEnd(s[..|s| - 1]);
    }
  }

  // split(b"\0"): one more piece than there are NULs.
  function Split(s: seq<Byte>): (r: seq<seq<Byte>>)
    ensures r != []
  {
    if s == [] then [[]]
    else
      var r, x := Split(s[..|s| - 1]), s[|s| - 1];
      if x == 0 then r + [[]] else r[..|r| - 1] + [r[|r| - 1] + [x]]
  }

  function Names(table: seq<Byte>): seq<seq<Byte>> {
    if RStrip(table) == [] then [] else Split(RStrip(table))
  }

  ghost predicate NamesFit(names: seq<seq<Byte>>, maximumNameBytes: nat) {
    forall i | 0 <= i < |names| :: |names[i]| <= maximumNameBytes
  }

  ghost predicate TableAccepted(table: seq<Byte>, expectedCount: nat, maximumNameBytes: nat) {
    |Names(table)| == expectedCount && NamesFit(Names(table), maximumNameBytes)
  }

  // ---------- the streaming state, byte by byte ----------

  datatype Scan = Scan(completedNames: nat, currentNameBytes: nat, pendingNuls: nat, sawNonNul: bool)

  function Step(st: Scan, value: Byte, expectedCount: nat, maximumNameBytes: nat): Option<Scan> {
    if value == 0 then Some(st.(pendingNuls := st.pendingNuls + 1))
    else
      var completed := st.completedNames + st.pendingNuls;
      var current := if st.pendingNuls > 0 then 1 else st.currentNameBytes + 1;
      if completed >= expectedCount || current > maximumNameBytes then None
      else Some(Scan(completed, current, 0, true))
  }

  function ScanOf(s: seq<Byte>, expectedCount: nat, maximumNameBytes: nat): Option<Scan> {
    if s == [] then Some(Scan(0, 0, 0, false))
    else match ScanOf(s[..|s| - 1], expectedCount, maximumNameBytes)
      case None => None
      case Some(st) => Step(st, s[|s| - 1], expectedCount, maximumNameBytes)
  }

  // What the counters mean for the bytes read so far.
  ghost predicate Means(st: Scan, s: seq<Byte>, expectedCount: nat, maximumNameBytes: nat) {
    var t := RStrip(s);
    && st.pendingNuls == |s| - |t|
    && (st.sawNonNul <==> t != [])
    && |Split(t)| == st.completedNames + 1
    && |Split(t)[st.completedNames]| == st.currentNameBytes
    && NamesFit(Split(t), maximumNameBytes)
    && (st.sawNonNul ==> st.completedNames < expectedCount)
  }

  // Appending n NULs adds n empty pieces.
  lemma {:induction false} SplitNuls(t: seq<Byte>, n: nat)
    ensures var z := seq(n, _ => 0); var r := Split(t + z);
      && |r| == |Split(t)| + n && r[..|Split(t)|] == Split(t)
      && forall i | |Split(t)| <= i < |r| :: r[i] == []
  {
    var z: seq<Byte> := seq(n, _ => 0);
    if n == 0 {
      assert t + z == t;
    } else {
      var y: seq<Byte> := seq(n - 1, _ => 0);
      SplitNuls(t, n - 1);
      assert (t + z)[..|t + z| - 1] == t + y;
    }
  }

  lemma {:induction false} StripRest(s: seq<Byte>)
    ensures s == RStrip(s) + seq(|s| - |RStrip(s)|, _ => 0)
  {
    if s != [] && s[|s| - 1] == 0 {
      StripRest(s[..|s| - 1]);
      assert s == s[..|s| - 1] + [0];
    }
  }

  lemma NulKeepsMeaning(st: Scan, s: seq<Byte>, expectedCount: nat, maximumNameBytes: nat)
    requires Means(st, s, expectedCount, maximumNameBytes)
    ensures Means(st.(pendingNuls := st.pendingNuls + 1), s + [0], expectedCount, maximumNameBytes)
  {
    assert (s + [0])[..|s|] == s;
    assert RStrip(s + [0]) == RStrip(s);
  }

  // The pieces after a non-NUL byte.
  lemma {:induction false} SplitAfterNonNul(s: seq<Byte>, x: Byte)
    requires x != 0
    ensures var t, n := RStrip(s), |s| - |RStrip(s)|;
      var r := Split(s + [x]);
      && RStrip(s + [x]) == s + [x]
      && |r| == |Split(t)| + n
      && (forall i | 0 <= i < |Split(t)| - 1 :: r[i] == Split(t)[i])
      && (n == 0 ==> r[|r| - 1] == Split(t)[|Split(t)| - 1] + [x])
      && (n > 0 ==> r[|Split(t)| - 1] == Split(t)[|Split(t)| - 1] && r[|r| - 1] == [x]
                    && forall i | |Split(t)| <= i < |r| - 1 :: r[i] == [])
  {
    var t, n := RStrip(s), |s| - |RStrip(s)|;
    StripRest(s);
    SplitNuls(t, n);
    assert (s + [x])[..|s|] == s;
  }

  lemma TextStep(st: Scan, s: seq<Byte>, x: Byte, expectedCount: nat, maximumNameBytes: nat)
    requires Means(st, s, expectedCount, maximumNameBytes) && x != 0
    ensures var next := Step(st, x, expectedCount, maximumNameBytes);
      if next.Some? then Means(next.value, s + [x], expectedCount, maximumNameBytes)
      else |Split(s + [x])| > expectedCount || !NamesFit(Split(s + [x]), maximumNameBytes)
  {
    hide Split, RStrip;
    SplitAfterNonNul(s, x);
    var r := Split(s + [x]);
    var completed := st.completedNames + st.pendingNuls;
    assert |r| == completed + 1;
    assert |r[completed]| == if st.pendingNuls > 0 then 1 else st.currentNameBytes + 1;
    if Step(st, x, expectedCount, maximumNameBytes).Some? {
      forall i | 0 <= i < |r| ensures |r[i]| <= maximumNameBytes {
        assert i < |Split(RStrip(s))| - 1 ==> |Split(RStrip(s))[i]| <= maximumNameBytes;
      }
    }
  }

  lemma {:induction false} ScanMeans(s: seq<Byte>, expectedCount: nat, maximumNameBytes: nat)
    requires ScanOf(s, expectedCount, maximumNameBytes).Some?
    ensures Means(ScanOf(s, expectedCount, maximumNameBytes).value, s, expectedCount, maximumNameBytes)
  {
    if s != [] {
      var n := |s| - 1;
      ScanMeans(s[..n], expectedCount, maximumNameBytes);
      var st := ScanOf(s[..n], expectedCount, maximumNameBytes).value;
      assert s == s[..n] + [s[n]];
      if s[n] == 0 {
        NulKeepsMeaning(st, s[..n], expectedCount, maximumNameBytes);
      } else {
        TextStep(st, s[..n], s[n], expectedCount, maximumNameBytes);
      }
    }
  }

  // ---------- a rejected prefix condemns the table ----------

  ghost predicate Excessive(t: seq<Byte>, expectedCount: nat, maximumNameBytes: nat) {
    |Split(t)| > expectedCount || !NamesFit(Split(t), maximumNameBytes)
  }

  lemma {:induction false} ExcessGrows(t: seq<Byte>, w: seq<Byte>, expectedCount: nat, maximumNameBytes: nat)
    requires t <= w && Excessive(t, expectedCount, maximumNameBytes)
    ensures Excessive(w, expectedCount, maximumNameBytes)
  {
    if |t| == |w| {
      assert t == w;
    } else {
      var n := |w| - 1;
      ExcessGrows(t, w[..n], expectedCount, maximumNameBytes);
      var before, after := Split(w[..n]), Split(w);
      assert forall i | 0 <= i < |before| :: |before[i]| <= |after[i]|;
      if !NamesFit(before, maximumNameBytes) {
        var i :| 0 <= i < |before| && |before[i]| > maximumNameBytes;
        assert |after[i]| > maximumNameBytes;
      }
    }
  }

  lemma {:induction false} StripKeeps(t: seq<Byte>, w: seq<Byte>)
    requires t <= w && t != [] && t[|t| - 1] != 0
    ensures t <= RStrip(w)
  {
    if |t| < |w| && w[|w| - 1] == 0 {
      StripKeeps(t, w[..|w| - 1]);
    }
  }

  // Where the scan stops, the bytes so far already hold too many or too long names.
  lemma {:induction false} ScanStops(s: seq<Byte>, table: seq<Byte>, expectedCount: nat, maximumNameBytes: nat)
    requires s <= table && ScanOf(s, expectedCount, maximumNameBytes).None?
    ensures !TableAccepted(table, expectedCount, maximumNameBytes)
  {
    var n := |s| - 1;
    if ScanOf(s[..n], expectedCount, maximumNameBytes).None? {
      ScanStops(s[..n], table, expectedCount, maximumNameBytes);
    } else {
      ScanMeans(s[..n], expectedCount, maximumNameBytes);
      assert s == s[..n] + [s[n]];
      TextStep(ScanOf(s[..n], expectedCount, maximumNameBytes).value, s[..n], s[n], expectedCount, maximumNameBytes);
      StripKeeps(s, table);
      ExcessGrows(s, RStrip(table), expectedCount, maximumNameBytes);
    }
  }

  // The final comparison of the scan decides the table.
  lemma ScanDecides(table: seq<Byte>, expectedCount: nat, maximumNameBytes: nat)
    ensures var r := ScanOf(table, expectedCount, maximumNameBytes);
      TableAccepted(table, expectedCount, maximumNameBytes) <==>
      r.Some? && (if r.value.sawNonNul then r.value.completedNames + 1 else 0) == expectedCount
  {
    if ScanOf(table, expectedCount, maximumNameBytes).None? {
      ScanStops(table, table, expectedCount, maximumNameBytes);
    } else {
      ScanMeans(table, expectedCount, maximumNameBytes);
    }
  }

  // ---------- the chunk shortcuts ----------

  lemma {:induction false} NulChunk(s: seq<Byte>, chunk: seq<Byte>, expectedCount: nat, maximumNameBytes: nat)
    requires ScanOf(s, expectedCount, maximumNameBytes).Some? && forall i | 0 <= i < |chunk| :: chunk[i] == 0
    ensures var st := ScanOf(s, expectedCount, maximumNameBytes).value;
      ScanOf(s + chunk, expectedCount, maximumNameBytes) == Some(st.(pendingNuls := st.pendingNuls + |chunk|))
  {
    if chunk == [] {
      assert s + chunk == s;
    } else {
      var n := |chunk| - 1;
      NulChunk(s, chunk[..n], expectedCount, maximumNameBytes);
      assert (s + chunk)[..|s + chunk| - 1] == s + chunk[..n];
    }
  }

  // A chunk without NULs: one test after it stands for one test per byte.
  function AfterText(st: Scan, size: nat): Scan {
    Scan(st.completedNames + st.pendingNuls, (if st.pendingNuls > 0 then 0 else st.currentNameBytes) + size, 0, true)
  }

  lemma {:induction false} TextChunk(s: seq<Byte>, chunk: seq<Byte>, expectedCount: nat, maximumNameBytes: nat)
    requires ScanOf(s, expectedCount, maximumNameBytes).Some?
    requires chunk != [] && forall i | 0 <= i < |chunk| :: chunk[i] != 0
    ensures var after := AfterText(ScanOf(s, expectedCount, maximumNameBytes).value, |chunk|);
      ScanOf(s + chunk, expectedCount, maximumNameBytes) ==
      if after.completedNames >= expectedCount || after.currentNameBytes > maximumNameBytes then None else Some(after)
  {
    var n := |chunk| - 1;
    assert (s + chunk)[..|s + chunk| - 1] == s + chunk[..n];
    if n == 0 {
      assert s + chunk[..n] == s;
    } else {
      TextChunk(s, chunk[..n], expectedCount, maximumNameBytes);
    }
  }

  lemma {:induction false} PrefixStops(s: seq<Byte>, t: seq<Byte>, expectedCount: nat, maximumNameBytes: nat)
    requires s <= t && ScanOf(s, expectedCount, maximumNameBytes).None?
    ensures ScanOf(t, expectedCount, maximumNameBytes).None?
  {
    if |s| == |t| {
      assert s == t;
    } else {
      PrefixStops(s, t[..|t| - 1], expectedCount, maximumNameBytes);
    }
  }

  // ---------- the streaming check ----------

  predicate NoNul(chunk: seq<Byte>) { forall i | 0 <= i < |chunk| :: chunk[i] != 0 }

  // The byte loop over a mixed chunk.
  method ScanChunk(ghost done: seq<Byte>, chunk: seq<Byte>, st: Scan, expectedCount: nat, maximumNameBytes: nat)
      returns (r: Option<Scan>)
    requires ScanOf(done, expectedCount, maximumNameBytes) == Some(st)
    ensures r == ScanOf(done + chunk, expectedCount, maximumNameBytes)
  {
    var now := st;
    assert done + chunk[..0] == done;
    for i := 0 to |chunk|
      invariant ScanOf(done + chunk[..i], expectedCount, maximumNameBytes) == Some(now)
    {
      var next := Step(now, chunk[i], expectedCount, maximumNameBytes);
      assert (done + chunk[..i + 1])[..|done| + i] == done + chunk[..i];
      if next.None? {
        PrefixStops(done + chunk[..i + 1], done + chunk, expectedCount, maximumNameBytes);
        return None;
      }
      now := next.value;
    }
    assert chunk[..|chunk|] == chunk;
    r := Some(now);
  }

  // One chunk, by whichever of the three ways applies.
  method TakeChunk(ghost done: seq<Byte>, chunk: seq<Byte>, st: Scan, expectedCount: nat, maximumNameBytes: nat)
      returns (r: Option<Scan>)
    requires chunk != [] && ScanOf(done, expectedCount, maximumNameBytes) == Some(st)
    ensures r == ScanOf(done + chunk, expectedCount, maximumNameBytes)
  {
    if AllZero(chunk) {
      NulChunk(done, chunk, expectedCount, maximumNameBytes);
      return Some(st.(pendingNuls := st.pendingNuls + |chunk|));
    }
    if NoNul(chunk) {
      TextChunk(done, chunk, expectedCount, maximumNameBytes);
      var after := AfterText(st, |chunk|);
      if after.completedNames >= expectedCount || after.currentNameBytes > maximumNameBytes { return None; }
      return Some(after);
    }
    r := ScanChunk(done, chunk, st, expectedCount, maximumNameBytes);
  }

  ghost function TableOf(stream: seq<Byte>, offset: nat, size: nat): seq<Byte> {
    if offset + size <= |stream| then stream[offset..offset + size] else []
  }

  // For every chunk size the check accepts exactly the tables that strip and split into the
  // expected number of names, none too long. A read past the end of the stream is a rejection.
  method PrecheckNameTableShape(stream: seq<Byte>, tableOffset: nat, tableSize: nat, expectedCount: nat,
                                maximumNameBytes: nat, chunkBytes: nat) returns (ok: bool)
    requires chunkBytes > 0
    ensures ok <==>
      && (tableSize == 0 || tableOffset + tableSize <= |stream|)
      && TableAccepted(TableOf(stream, tableOffset, tableSize), expectedCount, maximumNameBytes)
  {
    hide ScanOf, TableAccepted;
    var remaining: nat, cursor: nat := tableSize, tableOffset;
    var st := Scan(0, 0, 0, false);
    ghost var done: seq<Byte> := [];
    ScanStart(expectedCount, maximumNameBytes);
    while remaining > 0
      invariant cursor + remaining == tableOffset + tableSize && tableOffset <= cursor
      invariant done == TableOf(stream, tableOffset, cursor - tableOffset) && |done| == cursor - tableOffset
      invariant ScanOf(done, expectedCount, maximumNameBytes) == Some(st)
    {
      var chunkSize := if remaining <= chunkBytes then remaining else chunkBytes;
      if cursor + chunkSize > |stream| { return false; }
      var chunk := stream[cursor..cursor + chunkSize];
      TableGrows(stream, tableOffset, cursor - tableOffset, chunkSize);
      done := done + chunk;
      var next := TakeChunk(done[..cursor - tableOffset], chunk, st, expectedCount, maximumNameBytes);
      if next.None? {
        StoppedTable(stream, tableOffset, tableSize, done, expectedCount, maximumNameBytes);
        return false;
      }
      st := next.value;
      cursor, remaining := cursor + chunkSize, remaining - chunkSize;
    }
    ScanDecides(done, expectedCount, maximumNameBytes);
    ok := (if st.sawNonNul then st.completedNames + 1 else 0) == expectedCount;
  }

  lemma ScanStart(expectedCount: nat, maximumNameBytes: nat)
    ensures ScanOf([], expectedCount, maximumNameBytes) == Some(Scan(0, 0, 0, false))
  {
  }

  lemma TableGrows(stream: seq<Byte>, offset: nat, m: nat, n: nat)
    requires offset + m + n <= |stream|
    ensures TableOf(stream, offset, m + n) == TableOf(stream, offset, m) + stream[offset + m..offset + m + n]
    ensures TableOf(stream, offset, m + n)[..m] == TableOf(stream, offset, m)
  {
  }

  lemma StoppedTable(stream: seq<Byte>, tableOffset: nat, tableSize: nat, done: seq<Byte>,
                     expectedCount: nat, maximumNameBytes: nat)
    requires tableOffset + |done| <= |stream| && |done| <= tableSize
    requires done == TableOf(stream, tableOffset, |done|)
    requires ScanOf(done, expectedCount, maximumNameBytes).None?
    ensures tableOffset + tableSize <= |stream| ==>
      !TableAccepted(TableOf(stream, tableOffset, tableSize), expectedCount, maximumNameBytes)
  {
    if tableOffset + tableSize <= |stream| {
      ScanStops(done, TableOf(stream, tableOffset, tableSize), expectedCount, maximumNameBytes);
    }
  }
}

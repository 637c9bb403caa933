// What each counter of a HOG report counts: members by size, extension and category, archives by
// depth and family.
module HogCells {
  import opened Bytes
  import opened Options
  import opened MemberNames
  import opened HogAggregate
  import opened HogScan

  // ---------- counting ----------

  // The members among the first n that meet a condition.
  ghost function Those(ms: seq<Member>, n: nat, f: Member -> bool): set<nat>
    requires n <= |ms|
  {
    set i: nat | i < n && f(ms[i])
  }

  lemma ThoseStep(ms: seq<Member>, n: nat, f: Member -> bool)
    requires n < |ms|
    ensures |Those(ms, n + 1, f)| == |Those(ms, n, f)| + if f(ms[n]) then 1 else 0
  {
    assert Those(ms, n + 1, f) == Those(ms, n, f) + if f(ms[n]) then {n} else {};
  }

  lemma NoneYet(ms: seq<Member>, f: Member -> bool)
    ensures Those(ms, 0, f) == {}
  {
  }

  // ---------- the seven sizes ----------

  predicate SizeIn(size: nat, b: nat) {
    match b
    case 0 => size == 0
    case 1 => 1 <= size <= 255
    case 2 => 256 <= size <= 4_095
    case 3 => 4_096 <= size <= 65_535
    case 4 => 65_536 <= size <= 1_048_575
    case 5 => 1_048_576 <= size <= 16_777_215
    case 6 => 16_777_216 <= size
    case _ => false
  }

  lemma BucketIsSize(size: nat, b: nat)
    ensures BucketOf(size) == b <==> SizeIn(size, b)
  {
  }

  // Extensions keep their order as categories; .ska and .skas, the sixth and the seventh, share one.
  lemma CategoryIs(x: nat)
    requires x < EXTENSIONS
    ensures CATEGORY_OF[x] == if x <= 5 then x else x - 1
  {
  }

  // ---------- one member ----------

  predicate InCategory(m: Member, c: nat) {
    match m.extension
    case None => c == 14
    case Some(x) => c == if x <= 5 then x else x - 1
  }

  lemma MemberCells(t: Totals, m: Member, x: nat, c: nat, b: nat)
    requires Shape(t) && KnownMember(m) && x < EXTENSIONS && c <= CATEGORIES && b < BUCKETS
    ensures var r := CountMember(t, m);
      && r.members == t.members + 1
      && r.approved == t.approved + (if m.extension.Some? then 1 else 0)
      && r.other == t.other + (if m.extension.None? then 1 else 0)
      && r.extensionCounts[x] == t.extensionCounts[x] + (if m.extension == Some(x) then 1 else 0)
      && r.categoryCounts[c] == t.categoryCounts[c] + (if InCategory(m, c) then 1 else 0)
      && r.extentBuckets[b] == t.extentBuckets[b] + (if SizeIn(m.size, b) then 1 else 0)
      && r.categoryBuckets[c][b] ==
         t.categoryBuckets[c][b] + (if InCategory(m, c) && SizeIn(m.size, b) then 1 else 0)
  {
    BucketIsSize(m.size, b);
    if m.extension.Some? { CategoryIs(m.extension.value); }
    hide BucketOf, SizeIn;
  }

  // ---------- the members of a directory ----------

  // Every cell grows by the number of members it is meant for.
  lemma {:induction false} MembersCells(t: Totals, ms: seq<Member>, n: nat, x: nat, c: nat, b: nat)
    requires Shape(t) && n <= |ms| && (forall i | 0 <= i < |ms| :: KnownMember(ms[i]))
    requires x < EXTENSIONS && c <= CATEGORIES && b < BUCKETS
    ensures var r := CountMembers(t, ms, n);
      && r.members == t.members + n
      && r.approved == t.approved + |Those(ms, n, (m: Member) => m.extension.Some?)|
      && r.other == t.other + |Those(ms, n, (m: Member) => m.extension.None?)|
      && r.extensionCounts[x] == t.extensionCounts[x] + |Those(ms, n, (m: Member) => m.extension == Some(x))|
      && r.categoryCounts[c] == t.categoryCounts[c] + |Those(ms, n, (m: Member) => InCategory(m, c))|
      && r.extentBuckets[b] == t.extentBuckets[b] + |Those(ms, n, (m: Member) => SizeIn(m.size, b))|
      && r.categoryBuckets[c][b] ==
         t.categoryBuckets[c][b] + |Those(ms, n, (m: Member) => InCategory(m, c) && SizeIn(m.size, b))|
  {
    hide CountMember, InCategory, SizeIn, Those;
    if n == 0 {
      NoneYet(ms, (m: Member) => m.extension.Some?);
      NoneYet(ms, (m: Member) => m.extension.None?);
      NoneYet(ms, (m: Member) => m.extension == Some(x));
      NoneYet(ms, (m: Member) => InCategory(m, c));
      NoneYet(ms, (m: Member) => SizeIn(m.size, b));
      NoneYet(ms, (m: Member) => InCategory(m, c) && SizeIn(m.size, b));
    } else {
      var k: nat := n - 1;
      MembersCells(t, ms, k, x, c, b);
      MemberCells(CountMembers(t, ms, k), ms[k], x, c, b);
      ThoseStep(ms, k, (m: Member) => m.extension.Some?);
      ThoseStep(ms, k, (m: Member) => m.extension.None?);
      ThoseStep(ms, k, (m: Member) => m.extension == Some(x));
      ThoseStep(ms, k, (m: Member) => InCategory(m, c));
      ThoseStep(ms, k, (m: Member) => SizeIn(m.size, b));
      ThoseStep(ms, k, (m: Member) => InCategory(m, c) && SizeIn(m.size, b));
    }
  }

  // ---------- the extensions ----------

  const EXTENSION_TEXTS := [".col", ".gui", ".hog", ".ie", ".pop", ".ska", ".skas", ".skl", ".skm", ".so", ".tbl",
                            ".tdx", ".txt", ".vag", ".vum"]

  predicate SpellsText(t: Text, text: string) {
    |t| == |text| && forall i | 0 <= i < |t| :: t[i] == text[i] as int
  }

  // The same letter in capitals, or the same character.
  predicate Capital(c: Byte, text: char) {
    c == text as int || ('A' <= c as char <= 'Z' && c + 32 == text as int)
  }

  // The name ends with the text, in either case, behind something that is not a slash.
  predicate EndsWith(name: Text, text: string) {
    |name| > |text| && var n := |name| - |text|;
      name[n - 1] as char != '/' && forall i | 0 <= i < |text| :: Capital(name[n + i], text[i])
  }

  // Approved extensions are a dot and small letters; archives are the members with .hog.
  lemma VocabularySpelled(x: nat)
    requires x < EXTENSIONS
    ensures |VOCABULARY| == |EXTENSION_TEXTS| == EXTENSIONS && SpellsText(VOCABULARY[x], EXTENSION_TEXTS[x])
    ensures |EXTENSION_TEXTS[x]| > 1 && EXTENSION_TEXTS[x][0] == '.' && EXTENSION_TEXTS[HOG_EXTENSION] == ".hog"
    ensures forall i | 0 < i < |EXTENSION_TEXTS[x]| :: 'a' <= EXTENSION_TEXTS[x][i] <= 'z'
  {
  }

  // The place in the vocabulary that the letters behind the dot name.
  function PlaceOf(t: Text): nat
    requires |t| >= 3
  {
    var (a, b, c) := (t[1] as char, t[2] as char, if |t| > 3 then t[3] as char else ' ');
    if a == 'c' then 0 else if a == 'g' then 1 else if a == 'h' then 2 else if a == 'i' then 3
    else if a == 'p' then 4
    else if a == 's' && b == 'o' then 9
    else if a == 's' then (if c == 'l' then 7 else if c == 'm' then 8 else if |t| == 4 then 5 else 6)
    else if a == 't' then (if b == 'b' then 10 else if b == 'd' then 11 else 12)
    else if b == 'a' then 13
    else 14
  }

  lemma InPlace(x: nat)
    requires x < EXTENSIONS
    ensures |VOCABULARY[x]| >= 3 && PlaceOf(VOCABULARY[x]) == x
  {
  }

  lemma VocabularyOnce(x: nat)
    requires x < EXTENSIONS
    ensures IndexOf(VOCABULARY, VOCABULARY[x]) == Some(x)
  {
    var r := IndexOf(VOCABULARY, VOCABULARY[x]);
    hide IndexOf, PlaceOf;
    assert r.Some? && VOCABULARY[r.value] == VOCABULARY[x];
    InPlace(x);
    InPlace(r.value);
  }

  lemma LowerIs(c: Byte, text: char)
    requires text == '.' || 'a' <= text <= 'z'
    ensures LowerByte(c) == text as int <==> Capital(c, text)
  {
  }

  // The lower-cased end of the name is the text exactly when the name ends with it.
  lemma EndIs(name: Text, x: nat)
    requires x < EXTENSIONS && |name| > |EXTENSION_TEXTS[x]|
    ensures var n := |name| - |EXTENSION_TEXTS[x]|;
      && Lower(name[n..]) == VOCABULARY[x] <==>
         forall i | 0 <= i < |EXTENSION_TEXTS[x]| :: Capital(name[n + i], EXTENSION_TEXTS[x][i])
  {
    VocabularySpelled(x);
    var (text, word) := (EXTENSION_TEXTS[x], VOCABULARY[x]);
    var n := |name| - |text|;
    hide VOCABULARY, EXTENSION_TEXTS, Capital, LowerByte;
    forall i | 0 <= i < |text| ensures Lower(name[n..])[i] == word[i] <==> Capital(name[n + i], text[i]) {
      LowerIs(name[n + i], text[i]);
    }
    if Lower(name[n..]) == word {
      assert forall i | 0 <= i < |text| :: Lower(name[n..])[i] == word[i];
    }
  }

  // Letters and a dot in front are no slashes, and no further dots.
  lemma EndCuts(name: Text, x: nat)
    requires x < EXTENSIONS && EndsWith(name, EXTENSION_TEXTS[x])
    ensures CutsAt(name, |name| - |EXTENSION_TEXTS[x]|)
  {
    VocabularySpelled(x);
    var text := EXTENSION_TEXTS[x];
    var n := |name| - |text|;
    hide VOCABULARY, EXTENSION_TEXTS;
    assert Capital(name[n + 0], text[0]);
    forall i | n < i < |name| ensures name[i] != DOT && name[i] != SLASH {
      var k := i - n;
      assert Capital(name[n + k], text[k]);
    }
  }

  // A name has the x-th approved extension exactly when it ends with it; the stem is what stands
  // before it.
  lemma ExtensionExactly(name: Text, x: nat)
    requires x < EXTENSIONS
    ensures ExtensionOf(name) == Some(x) <==> EndsWith(name, EXTENSION_TEXTS[x])
    ensures EndsWith(name, EXTENSION_TEXTS[x]) ==> StemOf(name) == name[..|name| - |EXTENSION_TEXTS[x]|]
  {
    SuffixIsCut(name);
    VocabularySpelled(x);
    VocabularyOnce(x);
    hide ExtensionAndStem, IndexOf, VOCABULARY, EXTENSION_TEXTS, CutsAt;
    var text := EXTENSION_TEXTS[x];
    if ExtensionOf(name) == Some(x) {
      var n: nat :| CutsAt(name, n);
      CutBounds(name, n);
      assert Lower(name[n..]) == VOCABULARY[x] && |name| - n == |text|;
      EndIs(name, x);
    }
    if EndsWith(name, text) {
      EndCuts(name, x);
      EndIs(name, x);
    }
  }

  lemma CutBounds(name: Text, n: nat)
    requires CutsAt(name, n)
    ensures 0 < n < |name| && name[n - 1] != SLASH
  {
  }
}

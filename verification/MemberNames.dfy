// Archive member names (tools/measure_frontend_hog_topology.py): normalisation, extension and
// stem, and the grouping of a directory's members by stem.
module MemberNames {
  import opened Bytes
  import opened Options

  const SLASH := 47
  const BACKSLASH := 92
  const COLON := 58
  const DOT := 46

  type Text = seq<Byte>

  // ---------- normalisation ----------

  function Slashed(s: Text): (r: Text)
    ensures |r| == |s|
  {
    seq(|s|, i requires 0 <= i < |s| => if s[i] == BACKSLASH then SLASH else s[i])
  }

  predicate LowerLetter(c: Byte) { 97 <= c <= 122 }

  predicate UpperLetter(c: Byte) { 65 <= c <= 90 }

  function UpperByte(c: Byte): Byte { if LowerLetter(c) then c - 32 else c }

  function LowerByte(c: Byte): Byte { if UpperLetter(c) then c + 32 else c }

  function Upper(s: Text): (r: Text)
    ensures |r| == |s|
  {
    seq(|s|, i requires 0 <= i < |s| => UpperByte(s[i]))
  }

  function Lower(s: Text): (r: Text)
    ensures |r| == |s|
  {
    seq(|s|, i requires 0 <= i < |s| => LowerByte(s[i]))
  }

  // The parts between slashes.
  function Components(s: Text): (r: seq<Text>)
    ensures r != []
  {
    if s == [] then [[]]
    else
      var n := |s| - 1;
      var before := Components(s[..n]);
      if s[n] == SLASH then before + [[]]
      else before[..|before| - 1] + [before[|before| - 1] + [s[n]]]
  }

  predicate PlainComponent(c: Text) { c != [] && c != [DOT] && c != [DOT, DOT] && COLON !in c && Printable(c) }

  predicate DriveLetter(s: Text) { |s| >= 2 && (LowerLetter(s[0]) || UpperLetter(s[0])) && s[1] == COLON }

  // A relative path of plain components, no longer than the limit.
  ghost predicate PathOk(s: Text, maximumBytes: nat) {
    && 0 < |s| <= maximumBytes && s[0] != SLASH && !DriveLetter(s)
    && forall k | 0 <= k < |Components(s)| :: PlainComponent(Components(s)[k])
  }

  function AllPlain(cs: seq<Text>): bool {
    forall k | 0 <= k < |cs| :: PlainComponent(cs[k])
  }

  function Normalize(name: Text, maximumBytes: nat): (r: Option<Text>)
    ensures r.Some? <==> PathOk(Slashed(name), maximumBytes)
    ensures r.Some? ==> r.value == Upper(Slashed(name))
  {
    var s := Slashed(name);
    if name == [] || |name| > maximumBytes || s[0] == SLASH || DriveLetter(s) then None
    else if !AllPlain(Components(s)) then None
    else Some(Upper(s))
  }

  lemma NoComponents()
    ensures Components([]) == [[]] && Upper([]) == []
  {
  }

  lemma ComponentsSnoc(s: Text, x: Byte)
    ensures var c := Components(s);
      Components(s + [x]) == if x == SLASH then c + [[]] else c[..|c| - 1] + [c[|c| - 1] + [x]]
  {
    assert (s + [x])[..|s|] == s;
  }

  lemma SlashUpper(x: Byte)
    ensures UpperByte(x) == SLASH <==> x == SLASH
  {
  }

  lemma UpperSnoc(c: Text, x: Byte)
    ensures Upper(c + [x]) == Upper(c) + [UpperByte(x)]
  {
  }

  lemma {:induction false} ComponentsUpper(s: Text)
    ensures |Components(Upper(s))| == |Components(s)|
    ensures forall k | 0 <= k < |Components(s)| :: Components(Upper(s))[k] == Upper(Components(s)[k])
  {
    hide Upper, UpperByte, Components;
    NoComponents();
    if s == [] {
      assert Upper(s) == [];
    } else {
      var (init, x) := (s[..|s| - 1], s[|s| - 1]);
      assert s == init + [x];
      var (before, after) := (Components(init), Components(Upper(init)));
      ComponentsUpper(init);
      SlashUpper(x);
      UpperSnoc(init, x);
      UpperSnoc(before[|before| - 1], x);
      ComponentsSnoc(init, x);
      ComponentsSnoc(Upper(init), UpperByte(x));
    }
  }

  lemma PlainUpper(c: Text)
    requires PlainComponent(c)
    ensures PlainComponent(Upper(c))
  {
    var u := Upper(c);
    assert forall i | 0 <= i < |c| :: u[i] == UpperByte(c[i]);
    assert forall i | 0 <= i < |c| :: u[i] == DOT <==> c[i] == DOT;
    assert |c| == 1 ==> c == [c[0]];
    assert |c| == 2 ==> c == [c[0], c[1]];
  }

  // ---------- what normalisation means ----------

  // The components put together again.
  function Joined(cs: seq<Text>): Text {
    if cs == [] then [] else if |cs| == 1 then cs[0]
    else Joined(cs[..|cs| - 1]) + [SLASH] + cs[|cs| - 1]
  }

  // Components are the one way to cut a text at its slashes.
  lemma {:induction false} ComponentsCut(s: Text)
    ensures Joined(Components(s)) == s
    ensures forall k | 0 <= k < |Components(s)| :: SLASH !in Components(s)[k]
  {
    if s != [] {
      var n := |s| - 1;
      ComponentsCut(s[..n]);
      var before, after := Components(s[..n]), Components(s);
      assert s == s[..n] + [s[n]];
      if s[n] == SLASH {
        assert after[..|after| - 1] == before;
      } else {
        assert after[..|after| - 1] == before[..|before| - 1];
        LastGrows(before, s[n]);
      }
    }
  }

  lemma LastGrows(cs: seq<Text>, x: Byte)
    requires cs != []
    ensures Joined(cs[..|cs| - 1] + [cs[|cs| - 1] + [x]]) == Joined(cs) + [x]
  {
    var n := |cs| - 1;
    var grown := cs[..n] + [cs[n] + [x]];
    assert grown[..n] == cs[..n] && grown[n] == cs[n] + [x] && |grown| == |cs|;
    if n > 0 {
      var front := Joined(cs[..n]) + [SLASH];
      assert Joined(cs) == front + cs[n] && Joined(grown) == front + (cs[n] + [x]);
      Reassociate(front, cs[n], [x]);
    }
  }

  lemma {:induction false} SlashFirst(s: Text)
    requires s != [] && s[0] == SLASH
    ensures |Components(s)| > 1 && Components(s)[0] == []
  {
    var n := |s| - 1;
    if n > 0 {
      SlashFirst(s[..n]);
    }
  }

  lemma {:induction false} InSomeComponent(s: Text, x: Byte)
    requires x in s && x != SLASH
    ensures exists k :: 0 <= k < |Components(s)| && x in Components(s)[k]
  {
    var n := |s| - 1;
    var before, after := Components(s[..n]), Components(s);
    if s[n] == x {
      assert x in after[|after| - 1];
    } else {
      assert s == s[..n] + [s[n]];
      InSomeComponent(s[..n], x);
      var k :| 0 <= k < |before| && x in before[k];
      assert x in after[k];
    }
  }

  // Only the length and the components decide: a leading slash and a drive letter always show
  // as a component that is empty or holds a colon.
  lemma AcceptedByComponents(name: Text, maximumBytes: nat)
    ensures Normalize(name, maximumBytes).Some? <==>
      0 < |name| <= maximumBytes && AllPlain(Components(Slashed(name)))
  {
    hide Components, Printable;
    var s := Slashed(name);
    if s != [] && AllPlain(Components(s)) {
      if s[0] == SLASH {
        SlashFirst(s);
      }
      if DriveLetter(s) {
        InSomeComponent(s, COLON);
      }
    }
  }

  // The components of a normal form are the upper-cased components of the name, all plain.
  lemma NormalComponents(name: Text, maximumBytes: nat)
    requires Normalize(name, maximumBytes).Some?
    ensures var given, normal := Components(Slashed(name)), Components(Normalize(name, maximumBytes).value);
      && |normal| == |given|
      && forall k | 0 <= k < |given| :: normal[k] == Upper(given[k]) && PlainComponent(normal[k])
  {
    hide PlainComponent;
    var s := Slashed(name);
    ComponentsUpper(s);
    forall k | 0 <= k < |Components(s)| ensures PlainComponent(Upper(Components(s)[k])) {
      PlainUpper(Components(s)[k]);
    }
  }

  // ---------- acceptance, character by character ----------

  predicate Separates(c: char) { c == '/' || c == '\\' }

  // A longest run of characters without a separator.
  ghost predicate IsPiece(name: Text, a: nat, b: nat) {
    && a <= b <= |name| && (a == 0 || Separates(name[a - 1] as char)) && (b == |name| || Separates(name[b] as char))
    && forall i | a <= i < b :: !Separates(name[i] as char)
  }

  // No run is empty, one dot or two dots.
  ghost predicate PieceOk(name: Text, a: nat, b: nat)
    requires a <= b <= |name|
  {
    a < b && !(b == a + 1 && name[a] as char == '.') && !(b == a + 2 && name[a] as char == name[a + 1] as char == '.')
  }

  predicate CharacterOk(c: char) { ' ' <= c <= '~' && c != ':' }

  // Slashes lean forward, and letters are capital.
  predicate CharacterIs(given: char, normal: char) {
    && (Separates(given) ==> normal == '/')
    && ('a' <= given <= 'z' ==> normal as int == given as int - 'a' as int + 'A' as int)
    && (!Separates(given) && !('a' <= given <= 'z') ==> normal == given)
  }

  lemma SlashedPiece(name: Text, i: nat)
    requires i < |name|
    ensures Separates(name[i] as char) <==> Slashed(name)[i] == SLASH
    ensures Separates(name[i] as char) <==> Separates(Slashed(name)[i] as char)
  {
  }

  lemma {:induction false} PieceToComponent(s: Text, a: nat, b: nat) returns (k: nat)
    requires IsPiece(s, a, b) && BACKSLASH !in s
    ensures k < |Components(s)| && Components(s)[k] == s[a..b]
    ensures k == |Components(s)| - 1 <==> b == |s|
    decreases |s|
  {
    hide Components;
    NoComponents();
    if s == [] {
      k := 0;
    } else {
      var n: nat := |s| - 1;
      assert s == s[..n] + [s[n]];
      ComponentsSnoc(s[..n], s[n]);
      if b <= n {
        k := PieceToComponent(s[..n], a, b);
        assert s[..n][a..b] == s[a..b];
      } else if a == n + 1 {
        k := |Components(s)| - 1;
      } else {
        k := PieceToComponent(s[..n], a, n);
        assert s[a..b] == s[..n][a..n] + [s[n]];
      }
    }
  }

  lemma {:induction false} ComponentToPiece(s: Text, k: nat) returns (a: nat, b: nat)
    requires k < |Components(s)| && BACKSLASH !in s
    ensures IsPiece(s, a, b) && Components(s)[k] == s[a..b]
    ensures k == |Components(s)| - 1 <==> b == |s|
    decreases |s|
  {
    hide Components;
    NoComponents();
    if s == [] {
      a, b := 0, 0;
    } else {
      var n: nat := |s| - 1;
      var before := Components(s[..n]);
      assert s == s[..n] + [s[n]];
      ComponentsSnoc(s[..n], s[n]);
      if s[n] == SLASH && k == |before| {
        a, b := n + 1, n + 1;
      } else {
        a, b := ComponentToPiece(s[..n], k);
        if s[n] != SLASH && k == |before| - 1 {
          assert s[a..n + 1] == s[..n][a..b] + [s[n]];
          b := n + 1;
        } else {
          assert s[..n][a..b] == s[a..b];
        }
      }
    }
  }

  lemma PieceIsPlain(name: Text, a: nat, b: nat)
    requires a <= b <= |name| && forall i | 0 <= i < |name| :: CharacterOk(name[i] as char)
    requires forall i | a <= i < b :: !Separates(name[i] as char)
    ensures PlainComponent(Slashed(name)[a..b]) <==> PieceOk(name, a, b)
  {
    var c := Slashed(name)[a..b];
    assert forall i | 0 <= i < |c| :: c[i] == name[a + i];
    assert |c| == 1 ==> c == [c[0]] && c[0] == name[a];
    assert |c| == 2 ==> c == [c[0], c[1]] && c[0] == name[a] && c[1] == name[a + 1];
  }

  lemma SamePieces(name: Text, a: nat, b: nat)
    ensures IsPiece(name, a, b) <==> IsPiece(Slashed(name), a, b)
    ensures BACKSLASH !in Slashed(name)
  {
    forall i: nat | i < |name| ensures Separates(name[i] as char) <==> Separates(Slashed(name)[i] as char) {
      SlashedPiece(name, i);
    }
  }

  // A name is accepted exactly when its length fits, its characters are printable and no colons,
  // and nothing between its separators is empty, one dot or two dots.
  lemma AcceptedExactly(name: Text, maximumBytes: nat)
    ensures Normalize(name, maximumBytes).Some? <==>
      && 0 < |name| <= maximumBytes && (forall i | 0 <= i < |name| :: CharacterOk(name[i] as char))
      && forall a: nat, b: nat | IsPiece(name, a, b) :: PieceOk(name, a, b)
  {
    hide Normalize, Components, PlainComponent, IsPiece, PieceOk, Slashed, CharacterOk;
    AcceptedByComponents(name, maximumBytes);
    var s := Slashed(name);
    if Normalize(name, maximumBytes).Some? {
      CharactersOk(name);
      forall a: nat, b: nat | IsPiece(name, a, b) ensures a <= b <= |name| && PieceOk(name, a, b) {
        SamePieces(name, a, b);
        var k := PieceToComponent(s, a, b);
        PieceBounds(name, a, b);
        PieceIsPlain(name, a, b);
      }
    }
    forall a: nat, b: nat | IsPiece(name, a, b) ensures a <= b <= |name| { PieceBounds(name, a, b); }
    if && (forall i | 0 <= i < |name| :: CharacterOk(name[i] as char)) && 0 < |name| <= maximumBytes
       && forall a: nat, b: nat | IsPiece(name, a, b) :: PieceOk(name, a, b)
    {
      SamePieces(name, 0, 0);
      forall k | 0 <= k < |Components(s)| ensures PlainComponent(Components(s)[k]) {
        var a, b := ComponentToPiece(s, k);
        SamePieces(name, a, b);
        PieceBounds(name, a, b);
        PieceIsPlain(name, a, b);
      }
    }
  }

  lemma PieceBounds(name: Text, a: nat, b: nat)
    requires IsPiece(name, a, b)
    ensures a <= b <= |name| && forall i | a <= i < b :: !Separates(name[i] as char)
  {
  }

  lemma CharactersOk(name: Text)
    requires AllPlain(Components(Slashed(name)))
    ensures forall i | 0 <= i < |name| :: CharacterOk(name[i] as char)
  {
    var s := Slashed(name);
    hide Components;
    forall i | 0 <= i < |name| ensures CharacterOk(name[i] as char) {
      if s[i] != SLASH {
        InSomeComponent(s, s[i]);
        var k :| 0 <= k < |Components(s)| && s[i] in Components(s)[k];
        assert PlainComponent(Components(s)[k]);
      }
    }
  }

  lemma NormalCharacters(name: Text, maximumBytes: nat)
    requires Normalize(name, maximumBytes).Some?
    ensures var r := Normalize(name, maximumBytes).value;
      |r| == |name| && forall i | 0 <= i < |name| :: CharacterIs(name[i] as char, r[i] as char)
  {
    hide PathOk, AllPlain;
  }

  // The same character up to letter case and slash direction.
  predicate Alike(a: Byte, b: Byte) {
    || a == b
    || (a in {SLASH, BACKSLASH} && b in {SLASH, BACKSLASH})
    || (UpperLetter(a) && b == a + 32)
    || (UpperLetter(b) && a == b + 32)
  }

  // Two accepted names collide exactly when they agree up to letter case and slash direction.
  lemma CollisionIsLikeness(a: Text, b: Text, maximumBytes: nat)
    requires Normalize(a, maximumBytes).Some? && Normalize(b, maximumBytes).Some?
    ensures Normalize(a, maximumBytes) == Normalize(b, maximumBytes) <==>
            |a| == |b| && forall i | 0 <= i < |a| :: Alike(a[i], b[i])
  {
    hide PathOk, Components, Alike;
    var x, y := Upper(Slashed(a)), Upper(Slashed(b));
    forall i | 0 <= i < |a| && i < |b| ensures x[i] == y[i] <==> Alike(a[i], b[i]) {
      LikeBytes(a[i], b[i]);
    }
    if x == y {
      assert forall i | 0 <= i < |a| :: x[i] == y[i];
    }
  }

  lemma LikeBytes(a: Byte, b: Byte)
    ensures var x: Byte, y: Byte := if a == BACKSLASH then SLASH else a, if b == BACKSLASH then SLASH else b;
      UpperByte(x) == UpperByte(y) <==> Alike(a, b)
  {
  }

  // A normalised name is its own normal form.
  lemma NormalizeIsIdempotent(name: Text, maximumBytes: nat)
    requires Normalize(name, maximumBytes).Some?
    ensures Normalize(Normalize(name, maximumBytes).value, maximumBytes) == Normalize(name, maximumBytes)
  {
    hide Components, PlainComponent;
    var s := Slashed(name);
    var u := Upper(s);
    assert Slashed(u) == u && Upper(u) == u;
    ComponentsUpper(s);
    forall k | 0 <= k < |Components(u)| ensures PlainComponent(Components(u)[k]) {
      assert PlainComponent(Components(s)[k]);
      PlainUpper(Components(s)[k]);
    }
  }

  // ---------- extension and stem ----------

  // One past the last occurrence, or zero.
  function AfterLast(s: Text, c: Byte): (r: nat)
    ensures r <= |s| && (r > 0 ==> s[r - 1] == c)
    ensures forall i | r <= i < |s| :: s[i] != c
  {
    if s == [] then 0 else if s[|s| - 1] == c then |s| else AfterLast(s[..|s| - 1], c)
  }

  datatype Suffix = Suffix(extension: Text, stem: Text)

  function ExtensionAndStem(s: Text): Option<Suffix> {
    var componentStart, afterDot := AfterLast(s, SLASH), AfterLast(s, DOT);
    if afterDot == 0 || afterDot - 1 <= componentStart || afterDot == |s| then None
    else Some(Suffix(Lower(s[afterDot - 1..]), s[..afterDot - 1]))
  }

  // Where a name may be cut: at a dot inside its last component with no dot behind it.
  predicate CutsAt(s: Text, n: nat) {
    && 0 < n < |s| - 1 && s[n] == DOT && s[n - 1] != SLASH
    && forall i | n < i < |s| :: s[i] != DOT && s[i] != SLASH
  }

  // A name has an extension and a stem exactly when it can be cut, at the last dot of its last
  // component with text on both sides; there is one such place at most.
  lemma SuffixIsCut(s: Text)
    ensures ExtensionAndStem(s).Some? <==> exists n: nat :: CutsAt(s, n)
    ensures forall n: nat | CutsAt(s, n) :: ExtensionAndStem(s) == Some(Suffix(Lower(s[n..]), s[..n]))
  {
    var afterSlash, afterDot := AfterLast(s, SLASH), AfterLast(s, DOT);
    if ExtensionAndStem(s).Some? {
      var n: nat := afterDot - 1;
      assert CutsAt(s, n);
    }
    forall n: nat | CutsAt(s, n) ensures ExtensionAndStem(s) == Some(Suffix(Lower(s[n..]), s[..n])) {
      assert afterDot == n + 1 && afterSlash < n;
    }
  }

  // ---------- grouping by stem ----------

  datatype Group = Group(stem: Text, extensions: set<nat>)

  datatype Tagged = Tagged(extension: Option<nat>, stem: Text)

  // A dictionary in insertion order: extend the stem's group, or append one.
  function AddToGroup(groups: seq<Group>, stem: Text, extension: nat): (r: seq<Group>)
    ensures |groups| <= |r| <= |groups| + 1
  {
    if groups == [] then [Group(stem, {extension})]
    else if groups[0].stem == stem then [Group(stem, groups[0].extensions + {extension})] + groups[1..]
    else [groups[0]] + AddToGroup(groups[1..], stem, extension)
  }

  function GroupsOf(tags: seq<Tagged>, n: nat): seq<Group>
    requires n <= |tags|
  {
    if n == 0 then []
    else if tags[n - 1].extension.Some?
    then AddToGroup(GroupsOf(tags, n - 1), tags[n - 1].stem, tags[n - 1].extension.value)
    else GroupsOf(tags, n - 1)
  }

  ghost predicate HasPair(groups: seq<Group>, stem: Text, extension: nat) {
    exists g :: g in groups && g.stem == stem && extension in g.extensions
  }

  ghost predicate StemsDistinct(groups: seq<Group>) {
    forall i, j | 0 <= i < j < |groups| :: groups[i].stem != groups[j].stem
  }

  lemma {:induction false} AddedPair(groups: seq<Group>, stem: Text, extension: nat, x: Text, e: nat)
    ensures HasPair(AddToGroup(groups, stem, extension), x, e) <==>
            HasPair(groups, x, e) || (x == stem && e == extension)
  {
    var r := AddToGroup(groups, stem, extension);
    if groups == [] {
      assert r[0] in r;
    } else if groups[0].stem == stem {
      assert r[0] in r && groups[0] in groups;
      forall g | g in groups ensures g == groups[0] || g in r { }
      forall g | g in r ensures g == r[0] || g in groups { }
    } else {
      AddedPair(groups[1..], stem, extension, x, e);
      PairInHeadOrTail(groups, x, e);
      PairInHeadOrTail(r, x, e);
      assert r[1..] == AddToGroup(groups[1..], stem, extension);
    }
  }

  lemma PairInHeadOrTail(groups: seq<Group>, x: Text, e: nat)
    requires groups != []
    ensures HasPair(groups, x, e) <==> (groups[0].stem == x && e in groups[0].extensions) || HasPair(groups[1..], x, e)
  {
    assert groups == [groups[0]] + groups[1..];
    assert groups[0] in groups;
    forall g | g in groups[1..] ensures g in groups { }
  }

  ghost predicate Seen(tags: seq<Tagged>, n: nat, x: Text, e: nat)
    requires n <= |tags|
  {
    exists i :: 0 <= i < n && tags[i].stem == x && tags[i].extension == Some(e)
  }

  // The groups hold exactly the extensions seen with each stem.
  lemma {:induction false} GroupsHoldWhatWasSeen(tags: seq<Tagged>, n: nat, x: Text, e: nat)
    requires n <= |tags|
    ensures HasPair(GroupsOf(tags, n), x, e) <==> Seen(tags, n, x, e)
  {
    if n > 0 {
      GroupsHoldWhatWasSeen(tags, n - 1, x, e);
      if tags[n - 1].extension.Some? {
        AddedPair(GroupsOf(tags, n - 1), tags[n - 1].stem, tags[n - 1].extension.value, x, e);
      }
    }
  }

  lemma {:induction false} StemsOfAdded(groups: seq<Group>, stem: Text, extension: nat)
    requires StemsDistinct(groups)
    ensures var r := AddToGroup(groups, stem, extension);
      && StemsDistinct(r)
      && (forall g | g in r :: g.stem == stem || exists h :: h in groups && h.stem == g.stem)
  {
    var r := AddToGroup(groups, stem, extension);
    if groups != [] && groups[0].stem != stem {
      StemsOfAdded(groups[1..], stem, extension);
      forall j | 0 < j < |r| ensures r[0].stem != r[j].stem {
        assert r[j] == AddToGroup(groups[1..], stem, extension)[j - 1];
        assert r[j] in AddToGroup(groups[1..], stem, extension);
      }
    }
  }

  // Every stem has one group, as a dictionary has one entry for a key.
  lemma {:induction false} OneGroupPerStem(tags: seq<Tagged>, n: nat)
    requires n <= |tags|
    ensures StemsDistinct(GroupsOf(tags, n))
  {
    if n > 0 {
      OneGroupPerStem(tags, n - 1);
      if tags[n - 1].extension.Some? {
        StemsOfAdded(GroupsOf(tags, n - 1), tags[n - 1].stem, tags[n - 1].extension.value);
      }
    }
  }

  predicate Both(g: Group, l: nat, r: nat) { l in g.extensions && r in g.extensions }

  // The stems of the first k groups that hold both extensions.
  ghost function StemsOfGroups(groups: seq<Group>, k: nat, l: nat, r: nat): set<Text>
    requires k <= |groups|
  {
    set i | 0 <= i < k && Both(groups[i], l, r) :: groups[i].stem
  }

  // The stems seen with both extensions among the first n members.
  ghost function StemsSeen(tags: seq<Tagged>, n: nat, l: nat, r: nat): set<Text>
    requires n <= |tags|
  {
    set i | 0 <= i < n && Seen(tags, n, tags[i].stem, l) && Seen(tags, n, tags[i].stem, r) :: tags[i].stem
  }

  lemma StemsOfGroupsStep(groups: seq<Group>, k: nat, l: nat, r: nat)
    requires k < |groups| && StemsDistinct(groups)
    ensures |StemsOfGroups(groups, k + 1, l, r)| ==
            |StemsOfGroups(groups, k, l, r)| + if Both(groups[k], l, r) then 1 else 0
  {
    hide Both;
    var before, after := StemsOfGroups(groups, k, l, r), StemsOfGroups(groups, k + 1, l, r);
    assert after == if Both(groups[k], l, r) then before + {groups[k].stem} else before;
  }

  lemma GroupHasBoth(groups: seq<Group>, x: Text, l: nat, r: nat)
    requires StemsDistinct(groups)
    ensures x in StemsOfGroups(groups, |groups|, l, r) <==> HasPair(groups, x, l) && HasPair(groups, x, r)
  {
    if HasPair(groups, x, l) && HasPair(groups, x, r) {
      var g :| g in groups && g.stem == x && l in g.extensions;
      var h :| h in groups && h.stem == x && r in h.extensions;
      var i :| 0 <= i < |groups| && groups[i] == g;
      var j :| 0 <= j < |groups| && groups[j] == h;
      assert i == j;
      assert Both(groups[i], l, r);
    }
    if x in StemsOfGroups(groups, |groups|, l, r) {
      var i :| 0 <= i < |groups| && Both(groups[i], l, r) && groups[i].stem == x;
      assert groups[i] in groups;
    }
  }

  // The groups that hold two extensions stand for the stems seen with both.
  lemma GroupsStandForStems(tags: seq<Tagged>, n: nat, l: nat, r: nat)
    requires n <= |tags|
    ensures StemsOfGroups(GroupsOf(tags, n), |GroupsOf(tags, n)|, l, r) == StemsSeen(tags, n, l, r)
  {
    var groups := GroupsOf(tags, n);
    OneGroupPerStem(tags, n);
    hide StemsOfGroups, HasPair, StemsDistinct;
    forall x ensures x in StemsOfGroups(groups, |groups|, l, r) <==> x in StemsSeen(tags, n, l, r) {
      GroupHasBoth(groups, x, l, r);
      GroupsHoldWhatWasSeen(tags, n, x, l);
      GroupsHoldWhatWasSeen(tags, n, x, r);
    }
  }

  lemma {:induction false} GroupsPrefix(tags: seq<Tagged>, more: seq<Tagged>, n: nat)
    requires n <= |tags|
    ensures GroupsOf(tags + more, n) == GroupsOf(tags, n)
  {
    if n > 0 {
      GroupsPrefix(tags, more, n - 1);
    }
  }
}

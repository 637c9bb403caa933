// Site-event rows of a front-end trace (tools/validate_frontend_trace.py): sites numbered by
// first appearance, one class each, rows of a frame in strict order, totals that add up.
module SiteEvents {
  import opened Cardinality
  import opened Numbering
  import opened TransitionTrace

  const CLASSES := 5
  const MAX_SITE_EVENTS := 32_768
  const MAX_SITE_COUNT := 4_096
  const MAX_PER_CLASS_COUNT := 1_000_000
  const UINT32_MAX := 0xFFFF_FFFF

  datatype SiteEvent = SiteEvent(frameDelta: nat, site: nat, eventClass: nat, count: nat)

  predicate EventInRange(row: SiteEvent) {
    && row.frameDelta < MAX_FRAME_COUNT && row.site < MAX_SITE_COUNT && row.eventClass < CLASSES
    && 0 < row.count <= MAX_PER_CLASS_COUNT
  }

  // The rows as frames and sites only.
  function Track(rows: seq<SiteEvent>): (r: seq<Transition>)
    ensures |r| == |rows|
  {
    seq(|rows|, i requires 0 <= i < |rows| => Transition(rows[i].frameDelta, rows[i].site))
  }

  predicate KeyLess(a: SiteEvent, b: SiteEvent) {
    a.site < b.site || (a.site == b.site && a.eventClass < b.eventClass)
  }

  ghost predicate NeighboursOrdered(rows: seq<SiteEvent>, n: nat)
    requires n <= |rows|
  {
    forall i, j | 0 <= i && j == i + 1 < n && rows[j].frameDelta == 0 :: KeyLess(rows[i], rows[j])
  }

  ghost predicate OneClassPerSite(rows: seq<SiteEvent>, n: nat)
    requires n <= |rows|
  {
    forall i, j | 0 <= i < j < n && rows[i].site == rows[j].site :: rows[i].eventClass == rows[j].eventClass
  }

  // The events of one class among the first n rows.
  function ClassTotal(rows: seq<SiteEvent>, n: nat, c: nat): nat
    requires n <= |rows|
  {
    if n == 0 then 0 else ClassTotal(rows, n - 1, c) + if rows[n - 1].eventClass == c then rows[n - 1].count else 0
  }

  ghost predicate SiteEventsAccepted(rows: seq<SiteEvent>, frameCount: nat, expected: seq<nat>)
    requires |expected| == CLASSES
  {
    && 0 < |rows| <= MAX_SITE_EVENTS && (forall i | 0 <= i < |rows| :: EventInRange(rows[i]))
    && InFrames(Track(rows), |rows|, frameCount)
    && NeighboursOrdered(rows, |rows|) && OneClassPerSite(rows, |rows|)
    && Normalized(Ordinals(Track(rows)))
    && forall c | 0 <= c < CLASSES :: ClassTotal(rows, |rows|, c) == expected[c]
  }

  // The dictionary knows exactly the sites seen, with their classes.
  ghost predicate Remembers(classes: map<nat, nat>, rows: seq<SiteEvent>, n: nat)
    requires n <= |rows|
  {
    && (forall s :: s in classes <==> s in Ordinals(Track(rows))[..n])
    && (forall i | 0 <= i < n :: rows[i].site in classes && classes[rows[i].site] == rows[i].eventClass)
  }

  lemma RememberFirst(classes: map<nat, nat>, rows: seq<SiteEvent>, n: nat)
    requires n < |rows| && Remembers(classes, rows, n) && rows[n].site !in classes
    requires OneClassPerSite(rows, n)
    ensures Remembers(classes[rows[n].site := rows[n].eventClass], rows, n + 1) && OneClassPerSite(rows, n + 1)
  {
    var s := Ordinals(Track(rows));
    assert s[..n + 1] == s[..n] + [rows[n].site];
  }

  lemma RememberAgain(classes: map<nat, nat>, rows: seq<SiteEvent>, n: nat)
    requires n < |rows| && Remembers(classes, rows, n) && rows[n].site in classes
    requires OneClassPerSite(rows, n)
    ensures classes[rows[n].site] == rows[n].eventClass ==>
            Remembers(classes, rows, n + 1) && OneClassPerSite(rows, n + 1)
    ensures classes[rows[n].site] != rows[n].eventClass ==> !OneClassPerSite(rows, |rows|)
  {
    var s := Ordinals(Track(rows));
    assert s[..n + 1] == s[..n] + [rows[n].site];
    var k :| 0 <= k < n && s[..n][k] == rows[n].site;
    assert rows[k].site == rows[n].site;
  }

  // Known sites are the numbers below next.
  lemma KnownIsBelow(classes: map<nat, nat>, rows: seq<SiteEvent>, n: nat, next: nat, s: nat)
    requires n <= |rows| && Remembers(classes, rows, n) && NormalSoFar(Ordinals(Track(rows)), n, next)
    ensures s in classes <==> s < next
  {
    assert s in Ordinals(Track(rows))[..n] <==> s in Distinct(Ordinals(Track(rows))[..n]);
    assert s in Below(next) <==> s < next;
  }

  method ValidateSiteEvents(rows: seq<SiteEvent>, frameCount: nat, expected: seq<nat>) returns (ok: bool)
    requires |expected| == CLASSES && forall c | 0 <= c < CLASSES :: expected[c] <= UINT32_MAX
    ensures ok <==> SiteEventsAccepted(rows, frameCount, expected)
  {
    hide Normalized, NormalSoFar, Remembers, OneClassPerSite, NeighboursOrdered, KeyLess, EventInRange, Track,
         InFrames, Absolute;
    if rows == [] || |rows| > MAX_SITE_EVENTS { return false; }
    ghost var s := Ordinals(Track(rows));
    var observed: seq<nat> := [0, 0, 0, 0, 0];
    var siteClasses: map<nat, nat> := map[];
    var nextSite, absoluteFrame := 0, 0;
    NothingYet(s);
    NothingRemembered(rows);
    EventFields(rows);
    FrameStart(rows, frameCount);
    for i := 0 to |rows|
      invariant absoluteFrame == Absolute(Track(rows), i) && InFrames(Track(rows), i, frameCount)
      invariant forall k | 0 <= k < i :: EventInRange(rows[k])
      invariant NeighboursOrdered(rows, i) && OneClassPerSite(rows, i)
      invariant NormalSoFar(s, i, nextSite) && Remembers(siteClasses, rows, i)
      invariant |observed| == CLASSES && forall c | 0 <= c < CLASSES :: observed[c] == ClassTotal(rows, i, c)
    {
      var row := rows[i];
      if !EventInRange(row) { return false; }
      absoluteFrame := absoluteFrame + row.frameDelta;
      FrameStep(rows, i, frameCount);
      if absoluteFrame >= frameCount { return false; }
      OrderedSoFar(rows, i);
      if row.frameDelta == 0 && i > 0 && !KeyLess(rows[i - 1], row) { return false; }
      KnownIsBelow(siteClasses, rows, i, nextSite, row.site);
      if row.site !in siteClasses {
        if row.site != nextSite {
          SkippedNumber(s, i, nextSite);
          return false;
        }
        NextNumber(s, i, nextSite);
        RememberFirst(siteClasses, rows, i);
        siteClasses, nextSite := siteClasses[row.site := row.eventClass], nextSite + 1;
      } else {
        SeenNumber(s, i, nextSite);
        RememberAgain(siteClasses, rows, i);
        if siteClasses[row.site] != row.eventClass { return false; }
      }
      var total := observed[row.eventClass] + row.count;
      if total > UINT32_MAX {
        TotalsGrow(rows, i + 1, |rows|, row.eventClass);
        return false;
      }
      observed := observed[row.eventClass := total];
    }
    AllNormal(s, nextSite);
    ok := observed == expected;
  }

  lemma FrameStart(rows: seq<SiteEvent>, frameCount: nat)
    ensures Absolute(Track(rows), 0) == 0 && InFrames(Track(rows), 0, frameCount)
    ensures forall i: nat | i < |rows| :: Ordinals(Track(rows))[i] == rows[i].site
  {
  }

  // One more row: its frame exists, or the rows do not fit the frames at all.
  lemma FrameStep(rows: seq<SiteEvent>, i: nat, frameCount: nat)
    requires i < |rows| && InFrames(Track(rows), i, frameCount)
    ensures Absolute(Track(rows), i + 1) == Absolute(Track(rows), i) + rows[i].frameDelta
    ensures if Absolute(Track(rows), i + 1) < frameCount then InFrames(Track(rows), i + 1, frameCount)
            else !InFrames(Track(rows), |rows|, frameCount)
  {
  }

  lemma NothingRemembered(rows: seq<SiteEvent>)
    ensures Remembers(map[], rows, 0) && NeighboursOrdered(rows, 0) && OneClassPerSite(rows, 0)
  {
  }

  lemma EventFields(rows: seq<SiteEvent>)
    ensures forall i | 0 <= i < |rows| && EventInRange(rows[i]) :: rows[i].eventClass < CLASSES
  {
  }

  lemma OrderedSoFar(rows: seq<SiteEvent>, j: nat)
    requires j < |rows| && NeighboursOrdered(rows, j)
    ensures rows[j].frameDelta == 0 && j > 0 && !KeyLess(rows[j - 1], rows[j]) ==> !NeighboursOrdered(rows, |rows|)
    ensures !(rows[j].frameDelta == 0 && j > 0 && !KeyLess(rows[j - 1], rows[j])) ==> NeighboursOrdered(rows, j + 1)
  {
    hide KeyLess;
    if j > 0 {
      var i := j - 1;
      assert NeighboursOrdered(rows, |rows|) && rows[j].frameDelta == 0 ==> KeyLess(rows[i], rows[j]);
    }
  }

  // A total that overflows on the way would not be met at the end either.
  lemma {:induction false} TotalsGrow(rows: seq<SiteEvent>, m: nat, n: nat, c: nat)
    requires m <= n <= |rows|
    ensures ClassTotal(rows, m, c) <= ClassTotal(rows, n, c)
    decreases n
  {
    if m < n {
      TotalsGrow(rows, m, n - 1, c);
    }
  }

  // Rows of the same frame are strictly ordered, so no site and class occurs twice in a frame.
  lemma {:induction false} SameFrameOrdered(rows: seq<SiteEvent>, i: nat, j: nat)
    requires NeighboursOrdered(rows, |rows|) && i < j < |rows|
    requires Absolute(Track(rows), i + 1) == Absolute(Track(rows), j + 1)
    ensures KeyLess(rows[i], rows[j])
    decreases j
  {
    AbsoluteGrows(Track(rows), i + 1, j);
    var k := j - 1;
    assert rows[j].frameDelta == 0;
    assert KeyLess(rows[k], rows[j]);
    if i < k {
      SameFrameOrdered(rows, i, k);
    }
  }
}

/** Display enumeration and best-display selection. */
module Monitors {
  import opened Types
  import opened Platform

  /** A catalogue entry: display name, enumeration index and descriptor. */
  datatype Entry = Entry(name: string, index: nat, handle: Monitor)

  /** Display name to (enumeration index, descriptor). */
  type Catalog = map<string, (nat, Monitor)>

  /** `c` is the catalogue of the enumeration `ms`: its keys are exactly the
      names that occur, and each key maps to the last display carrying it,
      with that display's enumeration index. */
  ghost predicate Enumerates(ms: seq<Monitor>, c: Catalog) {
    && (forall k :: k in c <==> exists i :: 0 <= i < |ms| && ms[i].name == Some(k))
    && (forall k :: k in c ==>
          && c[k].0 < |ms|
          && ms[c[k].0] == c[k].1
          && c[k].1.name == Some(k)
          && (forall j :: c[k].0 < j < |ms| ==> ms[j].name != Some(k)))
  }

  /** Collects the named displays of `ms`, later duplicates overwriting earlier ones. */
  function Collect(ms: seq<Monitor>): (c: Catalog)
    ensures Enumerates(ms, c)
  {
    if |ms| == 0 then map[]
    else
      var last := |ms| - 1;
      var earlier := Collect(ms[..last]);
      assert forall i :: 0 <= i < last ==> ms[..last][i] == ms[i];
      match ms[last].name
      case Some(n) => earlier[n := (last, ms[last])]
      case None => earlier
  }

  /** The catalogue of named displays, or None when no display has a name. */
  function AvailableMonitors(ms: seq<Monitor>): (r: Option<Catalog>)
    ensures r.None? <==> forall i :: 0 <= i < |ms| ==> ms[i].name.None?
    ensures r.Some? ==> |r.value| > 0 && Enumerates(ms, r.value)
  {
    var c := Collect(ms);
    if |c| > 0 then Some(c)
    else
      assert forall i :: 0 <= i < |ms| ==> ms[i].name.None? || ms[i].name.value in c;
      None
  }

  /** Two names of one catalogue never share an enumeration index. */
  lemma EnumeratedIndicesDistinct(ms: seq<Monitor>, c: Catalog, k1: string, k2: string)
    requires Enumerates(ms, c)
    requires k1 in c && k2 in c && k1 != k2
    ensures c[k1].0 != c[k2].0
  {
  }

  /** `es` lists the entries of `c` once each, in some order: the hash map's
      iteration order, which the model leaves arbitrary. */
  ghost predicate IterationOf(es: seq<Entry>, c: Catalog) {
    && (forall i :: 0 <= i < |es| ==> es[i].name in c && c[es[i].name] == (es[i].index, es[i].handle))
    && (forall k :: k in c ==> exists i :: 0 <= i < |es| && es[i].name == k)
    && (forall i, j :: 0 <= i < j < |es| ==> es[i].name != es[j].name)
  }

  /** No two entries of `es` share an enumeration index. */
  ghost predicate DistinctIndices(es: seq<Entry>) {
    forall i, j :: 0 <= i < j < |es| ==> es[i].index != es[j].index
  }

  /** Any iteration of an enumerated catalogue has distinct indices. */
  lemma IterationIndicesDistinct(ms: seq<Monitor>, c: Catalog, es: seq<Entry>)
    requires Enumerates(ms, c) && IterationOf(es, c)
    ensures DistinctIndices(es)
  {
    forall i, j | 0 <= i < j < |es|
      ensures es[i].index != es[j].index
    {
      EnumeratedIndicesDistinct(ms, c, es[i].name, es[j].name);
    }
  }

  /** Refresh rate as a rank: a display without a rate ranks below every rate. */
  function RefreshRank(m: Monitor): int {
    match m.refreshMillihertz
    case None => -1
    case Some(r) => r as int
  }

  /** Reference order: `c` is at least as good as `s` when it is at least as
      wide, at least as tall, and its (refresh rank, smaller index) pair is
      lexicographically no worse. */
  predicate AtLeastAsGood(c: Entry, s: Entry) {
    && c.handle.width >= s.handle.width
    && c.handle.height >= s.handle.height
    && (|| RefreshRank(c.handle) > RefreshRank(s.handle)
        || (RefreshRank(c.handle) == RefreshRank(s.handle) && c.index <= s.index))
  }

  /** The selection step: does the scan replace `selected` with `current`? */
  function Replaces(selected: Entry, current: Entry): (r: bool)
    ensures r ==> current.handle.width >= selected.handle.width
    ensures r ==> current.handle.height >= selected.handle.height
    ensures r && selected.handle.refreshMillihertz.Some? ==>
      && current.handle.refreshMillihertz.Some?
      && current.handle.refreshMillihertz.value >= selected.handle.refreshMillihertz.value
    ensures current.handle.width >= selected.handle.width
      && current.handle.height >= selected.handle.height
      && current.handle.refreshMillihertz == selected.handle.refreshMillihertz
      ==> (r <==> current.index <= selected.index)
    ensures r <==> AtLeastAsGood(current, selected)
  {
    var s := selected.handle;
    var c := current.handle;
    if c.width < s.width then false
    else if c.height < s.height then false
    else
      match (c.refreshMillihertz, s.refreshMillihertz)
      case (Some(_), None) => true
      case (None, Some(_)) => false
      case (Some(cr), Some(sr)) =>
        if cr != sr then !(cr < sr) else !(current.index > selected.index)
      case (None, None) => !(current.index > selected.index)
  }

  lemma AtLeastAsGoodTransitive(a: Entry, b: Entry, c: Entry)
    requires AtLeastAsGood(a, b) && AtLeastAsGood(b, c)
    ensures AtLeastAsGood(a, c)
  {
  }

  /** The selection after considering one more entry. */
  function Step(selected: Entry, current: Entry): Entry {
    if Replaces(selected, current) then current else selected
  }

  /** The scan over the remaining entries, starting from `selected`. */
  function Scan(selected: Entry, rest: seq<Entry>): (r: Entry)
    ensures r == selected || r in rest
    ensures AtLeastAsGood(r, selected)
    decreases |rest|
  {
    if |rest| == 0 then selected
    else
      var next := Step(selected, rest[0]);
      var r := Scan(next, rest[1..]);
      assert r == next || r in rest by {
        if r != next { assert r in rest[1..]; }
      }
      assert AtLeastAsGood(r, next);
      AtLeastAsGoodTransitive(r, next, selected);
      r
  }

  /** The best display of a non-empty catalogue iteration. */
  function BestMonitor(es: seq<Entry>): (r: Entry)
    requires |es| > 0
    ensures r in es
    ensures AtLeastAsGood(r, es[0])
  {
    Scan(es[0], es[1..])
  }

  /** The selected display of a catalogue iteration is one of its entries. */
  lemma BestMonitorInCatalog(c: Catalog, es: seq<Entry>)
    requires IterationOf(es, c) && |c| > 0
    ensures |es| > 0
    ensures BestMonitor(es).name in c
    ensures c[BestMonitor(es).name] == (BestMonitor(es).index, BestMonitor(es).handle)
  {
    var k :| k in c;
    assert exists i :: 0 <= i < |es| && es[i].name == k;
  }

  /** Once a display that is at least as good as every entry is selected (or
      still ahead), the scan ends on it. */
  lemma {:induction false} ScanReachesDominant(es: seq<Entry>, selected: Entry, rest: seq<Entry>, m: Entry)
    requires DistinctIndices(es)
    requires selected in es && forall e :: e in rest ==> e in es
    requires m == selected || m in rest
    requires forall e :: e in es ==> AtLeastAsGood(m, e)
    ensures Scan(selected, rest) == m
    decreases |rest|
  {
    if |rest| > 0 {
      var next := Step(selected, rest[0]);
      if m == selected {
        if Replaces(selected, rest[0]) {
          SameIndexSameEntry(es, m, rest[0]);
        }
        assert next == m;
      } else if rest[0] == m {
        assert next == m;
      } else {
        assert m in rest[1..];
      }
      assert forall e :: e in rest[1..] ==> e in rest;
      ScanReachesDominant(es, next, rest[1..], m);
    }
  }

  /** Mutually "at least as good" entries of one iteration are the same entry. */
  lemma SameIndexSameEntry(es: seq<Entry>, a: Entry, b: Entry)
    requires DistinctIndices(es) && a in es && b in es
    requires AtLeastAsGood(a, b) && AtLeastAsGood(b, a)
    ensures a == b
  {
    var i :| 0 <= i < |es| && es[i] == a;
    var j :| 0 <= j < |es| && es[j] == b;
    assert es[i].index == es[j].index;
  }

  /** When one display is at least as good as every other, it is selected,
      whatever the iteration order. */
  lemma DominantMonitorWins(es: seq<Entry>, m: Entry)
    requires DistinctIndices(es) && m in es
    requires forall e :: e in es ==> AtLeastAsGood(m, e)
    ensures |es| > 0 && BestMonitor(es) == m
  {
    assert forall e :: e in es[1..] ==> e in es;
    assert m == es[0] || m in es[1..];
    ScanReachesDominant(es, es[0], es[1..], m);
  }

  /** A catalogue with a dominant display selects it from every iteration order. */
  lemma DominantMonitorOrderIndependent(ms: seq<Monitor>, c: Catalog, es1: seq<Entry>, es2: seq<Entry>, m: Entry)
    requires Enumerates(ms, c) && IterationOf(es1, c) && IterationOf(es2, c)
    requires m in es1
    requires forall e :: e in es1 ==> AtLeastAsGood(m, e)
    ensures |es1| > 0 && |es2| > 0
    ensures BestMonitor(es1) == m && BestMonitor(es2) == m
  {
    IterationIndicesDistinct(ms, c, es1);
    IterationIndicesDistinct(ms, c, es2);
    DominantMonitorWins(es1, m);
    assert m in es2 by {
      var i :| 0 <= i < |es2| && es2[i].name == m.name;
      assert c[m.name] == (m.index, m.handle);
    }
    forall e | e in es2
      ensures AtLeastAsGood(m, e)
    {
      var i :| 0 <= i < |es1| && es1[i].name == e.name;
      assert es1[i] == e;
    }
    DominantMonitorWins(es2, m);
  }

  /** A named display at scale 1 whose best video mode is its own size. */
  function Display(name: string, w: U32, h: U32, refresh: Option<U32>): Monitor {
    Monitor(Some(name), w, h, refresh, 1.0, (w, h))
  }

  /** Three equally sized displays at 60 Hz, 144 Hz and without a rate: the
      144 Hz display is selected. */
  lemma RefreshRateTieBreak()
    ensures BestMonitor([
      Entry("A", 0, Display("A", 1920, 1080, Some(60000))),
      Entry("B", 1, Display("B", 1920, 1080, Some(144000))),
      Entry("C", 2, Display("C", 1920, 1080, None))]).name == "B"
  {
    var es := [
      Entry("A", 0, Display("A", 1920, 1080, Some(60000))),
      Entry("B", 1, Display("B", 1920, 1080, Some(144000))),
      Entry("C", 2, Display("C", 1920, 1080, None))];
    DominantMonitorWins(es, es[1]);
  }

  /** Two identical displays: the smaller enumeration index is selected. */
  lemma IndexTieBreak()
    ensures BestMonitor([
      Entry("A", 0, Display("A", 1920, 1080, Some(60000))),
      Entry("B", 1, Display("B", 1920, 1080, Some(60000)))]).name == "A"
  {
    var es := [
      Entry("A", 0, Display("A", 1920, 1080, Some(60000))),
      Entry("B", 1, Display("B", 1920, 1080, Some(60000)))];
    DominantMonitorWins(es, es[0]);
  }

  /** The rule is not lexicographic: a strictly wider but shorter display
      never displaces the selection, so the result depends on iteration order. */
  lemma WiderButShorterDependsOnOrder()
    ensures BestMonitor([
      Entry("tall", 0, Display("tall", 100, 200, None)),
      Entry("wide", 1, Display("wide", 200, 100, None))]).name == "tall"
    ensures BestMonitor([
      Entry("wide", 1, Display("wide", 200, 100, None)),
      Entry("tall", 0, Display("tall", 100, 200, None))]).name == "wide"
  {
  }

  /** Conversely, an entry that some other entry beats on any axis is not
      selected when that other entry comes first: without a dominant display,
      every display loses under some iteration order. */
  lemma {:induction false} NotDominantNotSelected(e: Entry, r: Entry, rest: seq<Entry>)
    requires e != r && r !in rest
    requires !AtLeastAsGood(r, e)
    ensures BestMonitor([e, r] + rest) != r
  {
    var es := [e, r] + rest;
    assert es[0] == e && es[1..] == [r] + rest;
    assert Step(e, r) == e;
    assert ([r] + rest)[1..] == rest;
    var result := Scan(e, rest);
    assert Scan(e, [r] + rest) == result;
  }

  // ------------------------------------------------- lexicographic selection

  /** The priority order the selection is documented to follow: width, then
      height, then refresh rank, then smaller index, each deciding only on a
      tie of the ones before. */
  predicate LexAtLeastAsGood(c: Entry, s: Entry) {
    var cw, sw := c.handle.width, s.handle.width;
    var ch, sh := c.handle.height, s.handle.height;
    var cr, sr := RefreshRank(c.handle), RefreshRank(s.handle);
    || cw > sw
    || (cw == sw && ch > sh)
    || (cw == sw && ch == sh && cr > sr)
    || (cw == sw && ch == sh && cr == sr && c.index <= s.index)
  }

  lemma LexTotal(a: Entry, b: Entry)
    ensures LexAtLeastAsGood(a, b) || LexAtLeastAsGood(b, a)
  {
  }

  lemma LexTransitive(a: Entry, b: Entry, c: Entry)
    requires LexAtLeastAsGood(a, b) && LexAtLeastAsGood(b, c)
    ensures LexAtLeastAsGood(a, c)
  {
  }

  /** The scan with the documented order in place of the code's rule: the
      result is at least as good as the start and every remaining entry. */
  function LexScan(selected: Entry, rest: seq<Entry>): (r: Entry)
    ensures r == selected || r in rest
    ensures LexAtLeastAsGood(r, selected)
    ensures forall e :: e in rest ==> LexAtLeastAsGood(r, e)
    decreases |rest|
  {
    if |rest| == 0 then selected
    else
      var next := if LexAtLeastAsGood(rest[0], selected) then rest[0] else selected;
      LexTotal(rest[0], selected);
      var r := LexScan(next, rest[1..]);
      assert r == next || r in rest by {
        if r != next { assert r in rest[1..]; }
      }
      LexTransitive(r, next, selected);
      LexTransitive(r, next, rest[0]);
      assert forall e :: e in rest ==> e == rest[0] || e in rest[1..];
      r
  }

  /** The documented selection: a greatest entry of the iteration in the
      lexicographic order. */
  function LexBestMonitor(es: seq<Entry>): (r: Entry)
    requires |es| > 0
    ensures r in es
    ensures forall e :: e in es ==> LexAtLeastAsGood(r, e)
  {
    assert forall e :: e in es ==> e == es[0] || e in es[1..];
    LexScan(es[0], es[1..])
  }

  /** Two iterations of one catalogue hold the same entries. */
  lemma IterationsShareEntries(c: Catalog, es1: seq<Entry>, es2: seq<Entry>, x: Entry)
    requires IterationOf(es1, c) && IterationOf(es2, c) && x in es2
    ensures x in es1
  {
    var k := x.name;
    assert k in c;
    var i :| 0 <= i < |es1| && es1[i].name == k;
    assert es1[i] == x;
  }

  /** Under the documented order the selection does not depend on the
      iteration order of the catalogue. */
  lemma LexBestOrderIndependent(ms: seq<Monitor>, c: Catalog, es1: seq<Entry>, es2: seq<Entry>)
    requires Enumerates(ms, c) && IterationOf(es1, c) && IterationOf(es2, c) && |c| > 0
    ensures |es1| > 0 && |es2| > 0
    ensures LexBestMonitor(es1) == LexBestMonitor(es2)
  {
    BestMonitorInCatalog(c, es1);
    BestMonitorInCatalog(c, es2);
    IterationIndicesDistinct(ms, c, es1);
    var r1 := LexBestMonitor(es1);
    var r2 := LexBestMonitor(es2);
    IterationsShareEntries(c, es1, es2, r2);
    IterationsShareEntries(c, es2, es1, r1);
    assert LexAtLeastAsGood(r1, r2) && LexAtLeastAsGood(r2, r1);
    assert r1.index == r2.index;
    var i :| 0 <= i < |es1| && es1[i] == r1;
    var j :| 0 <= j < |es1| && es1[j] == r2;
    assert es1[i].index == es1[j].index;
  }

  /** The documented order selects the wider display in either order. */
  lemma LexWiderWins()
    ensures LexBestMonitor([
      Entry("tall", 0, Display("tall", 100, 200, None)),
      Entry("wide", 1, Display("wide", 200, 100, None))]).name == "wide"
    ensures LexBestMonitor([
      Entry("wide", 1, Display("wide", 200, 100, None)),
      Entry("tall", 0, Display("tall", 100, 200, None))]).name == "wide"
  {
    var a := Entry("tall", 0, Display("tall", 100, 200, None));
    var b := Entry("wide", 1, Display("wide", 200, 100, None));
    assert LexAtLeastAsGood(LexBestMonitor([a, b]), b);
    assert LexAtLeastAsGood(LexBestMonitor([b, a]), b);
  }
}

/** The reserved metadata regions of a stream: merged in place, searched by bisection. */
module Regions {

  datatype Region = Region(startSector: int, endSector: int)

  predicate Holds(r: Region, sector: int) {
    r.startSector <= sector < r.endSector
  }

  ghost predicate Covered(rs: seq<Region>, sector: int) {
    exists i :: 0 <= i < |rs| && Holds(rs[i], sector)
  }

  /** Sector membership in the list as given: (start, count) pairs in any order, overlapping, some not positive. */
  ghost predicate Listed(regions: seq<(int, int)>, sector: int) {
    exists i :: 0 <= i < |regions| && regions[i].0 <= sector < regions[i].0 + regions[i].1
  }

  /** Non-empty regions in order, with a gap between any two. */
  ghost predicate Normalized(rs: seq<Region>) {
    (forall i :: 0 <= i < |rs| ==> rs[i].startSector < rs[i].endSector) &&
    (forall i, j :: 0 <= i < j < |rs| ==> rs[i].endSector < rs[j].startSector)
  }

  // ---------- building the list ----------

  method Collect(regions: seq<(int, int)>, out: array<Region>) returns (n: nat)
    requires out.Length == |regions|
    modifies out
    ensures n <= out.Length
    ensures forall i :: 0 <= i < n ==> out[i].startSector < out[i].endSector
    ensures forall s :: Covered(out[..n], s) <==> Listed(regions, s)
  {
    n := 0;
    for i := 0 to |regions|
      invariant n <= i
      invariant forall k :: 0 <= k < n ==> out[k].startSector < out[k].endSector
      invariant forall s :: Covered(out[..n], s) <==> Listed(regions[..i], s)
    {
      var r := regions[i];
      ghost var was := out[..n];
      assert regions[..i + 1] == regions[..i] + [r];
      ListedAppend(regions[..i], r);
      if r.1 > 0 {
        out[n] := Region(r.0, r.0 + r.1);
        n := n + 1;
        assert out[..n] == was + [Region(r.0, r.0 + r.1)];
        CoveredAppend(was, Region(r.0, r.0 + r.1));
      }
    }
    assert regions[..|regions|] == regions;
  }

  lemma ListedAppend(regions: seq<(int, int)>, r: (int, int))
    ensures forall s :: Listed(regions + [r], s) <==> Listed(regions, s) || r.0 <= s < r.0 + r.1
  {
    forall s ensures Listed(regions + [r], s) <==> Listed(regions, s) || r.0 <= s < r.0 + r.1 {
      if r.0 <= s < r.0 + r.1 { assert (regions + [r])[|regions|] == r; }
      if Listed(regions, s) {
        var i :| 0 <= i < |regions| && regions[i].0 <= s < regions[i].0 + regions[i].1;
        assert (regions + [r])[i] == regions[i];
      }
    }
  }

  lemma CoveredAppend(rs: seq<Region>, r: Region)
    ensures forall s :: Covered(rs + [r], s) <==> Covered(rs, s) || Holds(r, s)
  {
    forall s ensures Covered(rs + [r], s) <==> Covered(rs, s) || Holds(r, s) {
      if Holds(r, s) { assert (rs + [r])[|rs|] == r; }
      if Covered(rs, s) {
        var i :| 0 <= i < |rs| && Holds(rs[i], s);
        assert (rs + [r])[i] == rs[i];
      }
    }
  }

  ghost predicate SortedByStart(rs: seq<Region>) {
    forall i, j :: 0 <= i < j < |rs| ==> rs[i].startSector <= rs[j].startSector
  }

  /** Where a region starting at x goes: after everything that starts no later. */
  function Position(rs: seq<Region>, x: int): (k: nat)
    ensures k <= |rs|
    ensures forall i :: 0 <= i < k ==> rs[i].startSector <= x
    ensures k < |rs| ==> x < rs[k].startSector
  {
    if rs == [] || x < rs[0].startSector then 0 else 1 + Position(rs[1..], x)
  }

  function Insert(r: Region, rs: seq<Region>): seq<Region> {
    var k := Position(rs, r.startSector);
    rs[..k] + [r] + rs[k..]
  }

  lemma InsertKeepsOrder(r: Region, rs: seq<Region>)
    requires SortedByStart(rs)
    ensures SortedByStart(Insert(r, rs))
  {
    var k, out := Position(rs, r.startSector), Insert(r, rs);
    forall i, j | 0 <= i < j < |out| ensures out[i].startSector <= out[j].startSector {
      assert j > k ==> out[j] == rs[j - 1] && rs[k].startSector <= rs[j - 1].startSector;
    }
  }

  lemma InsertKeepsMembers(r: Region, rs: seq<Region>)
    ensures multiset(Insert(r, rs)) == multiset(rs) + multiset{r}
  {
    var k := Position(rs, r.startSector);
    assert rs == rs[..k] + rs[k..];
  }

  function Sorted(rs: seq<Region>): seq<Region> {
    if rs == [] then [] else Insert(rs[0], Sorted(rs[1..]))
  }

  lemma {:induction false} SortedIsSorted(rs: seq<Region>)
    ensures SortedByStart(Sorted(rs)) && multiset(Sorted(rs)) == multiset(rs) && |Sorted(rs)| == |rs|
  {
    if rs != [] {
      SortedIsSorted(rs[1..]);
      InsertKeepsOrder(rs[0], Sorted(rs[1..]));
      InsertKeepsMembers(rs[0], Sorted(rs[1..]));
      assert rs == [rs[0]] + rs[1..];
    }
  }

  /** The library sort, of which only this is used: the first n entries, in some order sorted by start. */
  method SortByStart(out: array<Region>, n: nat)
    requires n <= out.Length
    modifies out
    ensures SortedByStart(out[..n]) && multiset(out[..n]) == multiset(old(out[..n]))
  {
    var sorted := Sorted(out[..n]);
    SortedIsSorted(out[..n]);
    for i := 0 to n
      invariant out[..i] == sorted[..i]
    {
      out[i] := sorted[i];
    }
    assert out[..n] == sorted;
  }

  lemma SameCover(a: seq<Region>, b: seq<Region>)
    requires multiset(a) == multiset(b)
    ensures forall s :: Covered(a, s) <==> Covered(b, s)
  {
    forall s ensures Covered(a, s) <==> Covered(b, s) {
      if Covered(a, s) { CoverFromMembers(a, b, s); }
      if Covered(b, s) { CoverFromMembers(b, a, s); }
    }
  }

  lemma CoverFromMembers(a: seq<Region>, b: seq<Region>, s: int)
    requires multiset(a) == multiset(b) && Covered(a, s)
    ensures Covered(b, s)
  {
    var i :| 0 <= i < |a| && Holds(a[i], s);
    assert a[i] in multiset(a);
    assert a[i] in multiset(b);
    assert a[i] in b;
  }

  // ---------- merging in place ----------

  ghost predicate NonEmpty(rs: seq<Region>) {
    forall i :: 0 <= i < |rs| ==> rs[i].startSector < rs[i].endSector
  }

  /** What the merge keeps: `done` is the merged form of what was read; nothing unread starts before its last entry. */
  ghost predicate Merging(done: seq<Region>, read: seq<Region>, rest: seq<Region>) {
    Normalized(done) && (forall s :: Covered(done, s) <==> Covered(read, s)) &&
    (done != [] ==> forall k :: 0 <= k < |rest| ==> done[|done| - 1].startSector <= rest[k].startSector)
  }

  /** One region on: it opens a new entry, or widens the last one. */
  function MergeOne(done: seq<Region>, rr: Region): seq<Region> {
    if done == [] then [rr]
    else
      var last := done[|done| - 1];
      if rr.startSector <= last.endSector then
        if rr.endSector > last.endSector then done[|done| - 1 := last.(endSector := rr.endSector)] else done
      else done + [rr]
  }

  lemma MergeOneCover(done: seq<Region>, rr: Region, s: int)
    requires Normalized(done) && rr.startSector < rr.endSector
    requires done != [] ==> done[|done| - 1].startSector <= rr.startSector
    ensures Covered(MergeOne(done, rr), s) <==> Covered(done, s) || Holds(rr, s)
  {
    var out := MergeOne(done, rr);
    if Covered(done, s) {
      var i :| 0 <= i < |done| && Holds(done[i], s);
      assert Holds(out[i], s);
    }
    if Holds(rr, s) {
      assert out != [] && (Holds(out[|out| - 1], s) || done != []);
      assert Holds(out[|out| - 1], s);
    }
    if Covered(out, s) {
      var i :| 0 <= i < |out| && Holds(out[i], s);
      if i < |done| && !Holds(rr, s) { assert Holds(done[i], s); }
    }
  }

  lemma MergeOneKeeps(done: seq<Region>, read: seq<Region>, rest: seq<Region>)
    requires rest != [] && Merging(done, read, rest) && SortedByStart(rest) && rest[0].startSector < rest[0].endSector
    ensures Merging(MergeOne(done, rest[0]), read + [rest[0]], rest[1..])
  {
    CoveredAppend(read, rest[0]);
    forall s ensures Covered(MergeOne(done, rest[0]), s) <==> Covered(read + [rest[0]], s) {
      MergeOneCover(done, rest[0], s);
    }
  }

  /** Writes at or before the entry being read, so that what is still to be read is untouched. */
  method MergeStep(out: array<Region>, i: nat, w: nat) returns (w': nat)
    requires w <= i < out.Length
    modifies out
    ensures w' <= i + 1 && out[..w'] == MergeOne(old(out[..w]), old(out[i]))
    ensures out[i + 1..] == old(out[i + 1..])
  {
    var rr := out[i];
    if w == 0 {
      out[0] := rr;
      return 1;
    }
    if rr.startSector <= out[w - 1].endSector {
      if rr.endSector > out[w - 1].endSector {
        out[w - 1] := out[w - 1].(endSector := rr.endSector);
      }
      return w;
    }
    out[w] := rr;
    return w + 1;
  }

  /** Merges out[..n] into out[..w], over the entries it has already read. */
  method MergeInPlace(out: array<Region>, n: nat) returns (w: nat)
    requires n <= out.Length && SortedByStart(out[..n]) && NonEmpty(out[..n])
    modifies out
    ensures w <= n
    ensures Normalized(out[..w])
    ensures forall s :: Covered(out[..w], s) <==> Covered(old(out[..n]), s)
  {
    ghost var all := out[..];
    ghost var was := out[..n];
    w := 0;
    for i := 0 to n
      invariant w <= i
      invariant out[i..] == all[i..]
      invariant Merging(out[..w], was[..i], was[i..])
    {
      assert out[i] == out[i..][0] == was[i] == was[i..][0];
      assert was[i..][1..] == was[i + 1..] && was[..i + 1] == was[..i] + [was[i]];
      assert out[i..][1..] == out[i + 1..];
      MergeOneKeeps(out[..w], was[..i], was[i..]);
      w := MergeStep(out, i, w);
    }
    assert was[..n] == was;
  }

  /** setReservedRegions: the list a stream keeps. */
  method MergeRegions(regions: seq<(int, int)>) returns (reserved: seq<Region>)
    ensures Normalized(reserved)
    ensures forall s :: Covered(reserved, s) <==> Listed(regions, s)
  {
    if |regions| == 0 {
      return [];
    }
    var out := new Region[|regions|](_ => Region(0, 0));
    var n := Collect(regions, out);
    ghost var collected := out[..n];
    SortByStart(out, n);
    SameCover(out[..n], collected);
    SameLengths(collected, out[..n]);
    var w := MergeInPlace(out, n);
    return out[..w];
  }

  lemma SameLengths(a: seq<Region>, b: seq<Region>)
    requires multiset(a) == multiset(b) && NonEmpty(a)
    ensures NonEmpty(b)
  {
    forall i | 0 <= i < |b| ensures b[i].startSector < b[i].endSector {
      assert b[i] in multiset(b);
      assert b[i] in multiset(a);
    }
  }

  // ---------- the list is determined by what it covers ----------

  lemma CoverTail(a: seq<Region>, s: int)
    requires a != [] && Normalized(a)
    ensures Covered(a[1..], s) <==> Covered(a, s) && s >= a[0].endSector
  {
    if Covered(a[1..], s) {
      var i :| 0 <= i < |a[1..]| && Holds(a[1..][i], s);
      assert Holds(a[i + 1], s);
    }
    if Covered(a, s) && s >= a[0].endSector {
      var i :| 0 <= i < |a| && Holds(a[i], s);
      assert Holds(a[1..][i - 1], s);
    }
  }

  lemma EndNotCovered(rs: seq<Region>, i: nat)
    requires Normalized(rs) && i < |rs|
    ensures !Covered(rs, rs[i].endSector)
  {
    forall k | 0 <= k < |rs| ensures !Holds(rs[k], rs[i].endSector) {
      assert k < i ==> rs[k].endSector < rs[i].startSector < rs[i].endSector;
    }
  }

  lemma FirstCovered(a: seq<Region>, b: seq<Region>)
    requires a != [] && Normalized(a) && Normalized(b) && forall s :: Covered(a, s) <==> Covered(b, s)
    ensures b != [] && b[0].startSector <= a[0].startSector
    ensures b[0].startSector == a[0].startSector ==> b[0].endSector <= a[0].endSector
  {
    assert Holds(a[0], a[0].startSector);
    assert Covered(a, a[0].startSector);
    if b[0].startSector == a[0].startSector && b[0].endSector > a[0].endSector {
      EndNotCovered(a, 0);
      assert Holds(b[0], a[0].endSector);
    }
  }

  /** Two normalized lists covering the same sectors are the same list: the order ties are sorted in cannot show. */
  lemma {:induction false} NormalFormIsUnique(a: seq<Region>, b: seq<Region>)
    requires Normalized(a) && Normalized(b) && forall s :: Covered(a, s) <==> Covered(b, s)
    ensures a == b
  {
    if a != [] {
      FirstCovered(a, b);
      FirstCovered(b, a);
      assert a[0] == b[0];
      forall s ensures Covered(a[1..], s) <==> Covered(b[1..], s) {
        CoverTail(a, s);
        CoverTail(b, s);
      }
      NormalFormIsUnique(a[1..], b[1..]);
      assert a == [a[0]] + a[1..] && b == [b[0]] + b[1..];
    } else if b != [] {
      FirstCovered(b, a);
    }
  }

  // ---------- bisection ----------

  /** The library search: the boundary it stops at, whatever f is. */
  function Search(lo: nat, hi: nat, f: nat -> bool): (i: nat)
    requires lo <= hi
    ensures lo <= i <= hi
    ensures i > lo ==> !f(i - 1)
    ensures i < hi ==> f(i)
    decreases hi - lo
  {
    if lo == hi then lo
    else
      var h := (lo + hi) / 2;
      if !f(h) then Search(h + 1, hi, f) else Search(lo, h, f)
  }

  function FirstStartAfter(rs: seq<Region>, sector: int): (i: nat)
    requires Normalized(rs)
    ensures i <= |rs|
    ensures forall k :: 0 <= k < i ==> rs[k].startSector <= sector
    ensures forall k :: i <= k < |rs| ==> rs[k].startSector > sector
  {
    Search(0, |rs|, (i: nat) => i >= |rs| || rs[i].startSector > sector)
  }

  function FirstEndAfter(rs: seq<Region>, sector: int): (i: nat)
    requires Normalized(rs)
    ensures i <= |rs|
    ensures forall k :: 0 <= k < i ==> rs[k].endSector <= sector
    ensures forall k :: i <= k < |rs| ==> rs[k].endSector > sector
  {
    Search(0, |rs|, (i: nat) => i >= |rs| || rs[i].endSector > sector)
  }

  /** Membership by bisection is membership in the list. */
  predicate IsReserved(rs: seq<Region>, sector: int)
    requires Normalized(rs)
    ensures IsReserved(rs, sector) <==> Covered(rs, sector)
  {
    if |rs| == 0 then false
    else
      var i := FirstStartAfter(rs, sector);
      if i == 0 then false
      else
        var rr := rs[i - 1];
        assert forall k :: 0 <= k < |rs| && Holds(rs[k], sector) ==> k == i - 1;
        assert sector >= rr.startSector && sector < rr.endSector ==> Holds(rs[i - 1], sector);
        sector >= rr.startSector && sector < rr.endSector
  }

  // ---------- byte offsets ----------

  lemma SectorBounds(o: int, ss: int)
    requires ss > 0
    ensures (o / ss) * ss <= o < (o / ss + 1) * ss
  {
  }

  lemma SectorNumber(o: nat, ss: int)
    requires ss > 0
    ensures o / ss >= 0
  {
  }

  lemma SectorSplit(o: int, ss: int)
    requires ss > 0
    ensures o == o / ss * ss + o % ss && 0 <= o % ss < ss
  {
  }

  lemma SectorOrder(a: int, b: int, ss: int)
    requires ss > 0 && a * ss < b * ss
    ensures a < b
  {
  }

  /** An offset lies in sector k exactly when it is between the byte bounds of k. */
  lemma SectorAtLeast(o: int, k: int, ss: int)
    requires ss > 0
    ensures o / ss >= k <==> o >= k * ss
  {
    SectorBounds(o, ss);
    if o >= k * ss { SectorOrder(k, o / ss + 1, ss); }
    if o / ss >= k { Scale(k, o / ss, ss); }
  }

  lemma Scale(a: int, b: int, ss: int)
    requires ss > 0 && a <= b
    ensures a * ss <= b * ss
  {
  }

  lemma SectorOfStart(k: int, ss: int)
    requires ss > 0
    ensures k * ss / ss == k
  {
    SectorAtLeast(k * ss, k, ss);
    SectorAtLeast(k * ss, k + 1, ss);
  }

  ghost predicate ReservedByte(rs: seq<Region>, ss: int, o: int)
    requires ss > 0
  {
    Covered(rs, o / ss)
  }

  /** The least unreserved offset from off on; the last line is never reached. */
  function NextUnreservedOffset(rs: seq<Region>, ss: int, off: nat): (r: int)
    requires Normalized(rs) && ss > 0
    ensures r >= off && !ReservedByte(rs, ss, r)
    ensures forall o :: off <= o < r ==> ReservedByte(rs, ss, o)
  {
    var sector := off / ss;
    if !IsReserved(rs, sector) then off
    else
      var i := FirstEndAfter(rs, sector);
      EndOfRegion(rs, ss, off, i);
      if i < |rs| && sector >= rs[i].startSector && sector < rs[i].endSector then rs[i].endSector * ss
      else (sector + 1) * ss
  }

  lemma EndOfRegion(rs: seq<Region>, ss: int, off: nat, i: nat)
    requires Normalized(rs) && ss > 0 && ReservedByte(rs, ss, off) && i == FirstEndAfter(rs, off / ss)
    ensures i < |rs| && Holds(rs[i], off / ss)
    ensures var r := rs[i].endSector * ss;
            r >= off && !ReservedByte(rs, ss, r) && forall o :: off <= o < r ==> ReservedByte(rs, ss, o)
  {
    var k :| 0 <= k < |rs| && Holds(rs[k], off / ss);
    assert k == i;
    var e := rs[i].endSector;
    SectorOfStart(e, ss);
    SectorAtLeast(off, e, ss);
    EndNotCovered(rs, i);
    forall o | off <= o < e * ss ensures ReservedByte(rs, ss, o) {
      SectorAtLeast(o, e, ss);
      SectorAtLeast(off, rs[i].startSector, ss);
      SectorAtLeast(o, rs[i].startSector, ss);
      assert Holds(rs[i], o / ss);
    }
  }

  /** From an unreserved offset, the least later reserved one, or -1 when there is none. */
  function NextReservedStartOffset(rs: seq<Region>, ss: int, off: nat): (r: int)
    requires Normalized(rs) && ss > 0
    ensures !ReservedByte(rs, ss, off) ==> (r == -1 <==> forall o :: o >= off ==> !ReservedByte(rs, ss, o))
    ensures !ReservedByte(rs, ss, off) && r != -1 ==>
              r > off && ReservedByte(rs, ss, r) && forall o :: off <= o < r ==> !ReservedByte(rs, ss, o)
  {
    var sector := off / ss;
    var i := FirstStartAfter(rs, sector);
    StartOfRegion(rs, ss, off, i);
    if i < |rs| then rs[i].startSector * ss else -1
  }

  lemma StartOfRegion(rs: seq<Region>, ss: int, off: nat, i: nat)
    requires Normalized(rs) && ss > 0 && i == FirstStartAfter(rs, off / ss)
    ensures i < |rs| ==> rs[i].startSector * ss > off && ReservedByte(rs, ss, rs[i].startSector * ss)
    ensures !ReservedByte(rs, ss, off) ==>
              forall o :: o >= off && (i < |rs| ==> o < rs[i].startSector * ss) ==> !ReservedByte(rs, ss, o)
  {
    if i < |rs| {
      SectorOfStart(rs[i].startSector, ss);
      SectorAtLeast(off, rs[i].startSector, ss);
      assert Holds(rs[i], rs[i].startSector);
    }
    if !ReservedByte(rs, ss, off) {
      forall o | o >= off && (i < |rs| ==> o < rs[i].startSector * ss) ensures !ReservedByte(rs, ss, o) {
        if Covered(rs, o / ss) {
          var k :| 0 <= k < |rs| && Holds(rs[k], o / ss);
          SectorAtLeast(o, off / ss, ss);
          SectorBounds(off, ss);
          if i < |rs| { SectorAtLeast(o, rs[i].startSector, ss); }
          assert k < i;
          assert Holds(rs[k], off / ss);
        }
      }
    }
  }
}

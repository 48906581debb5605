/**
  The TD HOB that firmware measures first: guest memory split into ranges, the firmware's own sections marked accepted, and
  one resource emitted per range. The digest of the emitted bytes is not part of the model.
 */
module TdHob {
  import opened Sorting

  datatype SectionKind = TdHobSection | TempMem | OtherSection

  datatype Section = Section(address: nat, size: nat, kind: SectionKind) {
    function End(): nat {
      address + size
    }
  }

  datatype Range = Range(accepted: bool, start: int, end: int)

  datatype Resource = Resource(accepted: bool, start: int, length: int)

  const DEFAULT_BASE := 0x809000
  const LOW_MEMORY_END := 0x8000_0000
  const HIGH_MEMORY_START := 0x1_0000_0000
  const SPLIT_MEMORY_SIZE := 0xB000_0000

  predicate ByStart(a: Range, b: Range) {
    a.start <= b.start
  }

  predicate ByAddress(a: Section, b: Section) {
    a.address <= b.address
  }

  // ------------------------------------------------------------ accepting a section

  /** What is left of a range outside [start, end); an accepted range is never cut. */
  function Pieces(r: Range, start: int, end: int): seq<Range> {
    if r.accepted || r.end <= start || r.start >= end then [r]
    else (if r.start < start then [Range(false, r.start, start)] else [])
         + (if r.end > end then [Range(false, end, r.end)] else [])
  }

  function Carve(ranges: seq<Range>, start: int, end: int): seq<Range> {
    if ranges == [] then [] else Carve(ranges[..|ranges| - 1], start, end) + Pieces(ranges[|ranges| - 1], start, end)
  }

  lemma CarveSnoc(ranges: seq<Range>, r: Range, start: int, end: int)
    ensures Carve(ranges + [r], start, end) == Carve(ranges, start, end) + Pieces(r, start, end)
  {
    assert (ranges + [r])[..|ranges|] == ranges;
  }

  function Accepted(ranges: seq<Range>, start: int, end: int): seq<Range> {
    if start >= end then ranges else Sort(Carve(ranges, start, end) + [Range(true, start, end)], ByStart)
  }

  class MemoryMap {
    var ranges: seq<Range>

    constructor (memorySize: nat)
      ensures ranges == [Range(false, 0, memorySize)]
    {
      ranges := [Range(false, 0, memorySize)];
    }

    method Accept(start: int, end: int)
      modifies this
      ensures ranges == Accepted(old(ranges), start, end)
    {
      if start >= end {
        return;
      }
      var current, pieces: seq<Range> := ranges, [];
      for i := 0 to |current|
        invariant pieces == Carve(current[..i], start, end)
      {
        var r := current[i];
        assert current[..i + 1] == current[..i] + [r];
        CarveSnoc(current[..i], r, start, end);
        if r.accepted || r.end <= start || r.start >= end {
          pieces := pieces + [r];
        } else {
          ghost var before := pieces;
          if r.start < start {
            pieces := pieces + [Range(false, r.start, start)];
          }
          if r.end > end {
            pieces := pieces + [Range(false, end, r.end)];
          }
          assert pieces == before + Pieces(r, start, end);
        }
      }
      assert current[..|current|] == current;
      ranges := Sort(pieces + [Range(true, start, end)], ByStart);
    }
  }

  // ------------------------------------------------------------ the layout of disjoint sections

  function Gap(start: int, end: int): seq<Range> {
    if start < end then [Range(false, start, end)] else []
  }

  function EndOf(sections: seq<Section>): nat {
    if sections == [] then 0 else sections[|sections| - 1].End()
  }

  /** Memory up to the end of the last section: each section accepted, each gap before one not. */
  function Front(sections: seq<Section>): seq<Range>
    decreases |sections|, 0
  {
    if sections == [] then []
    else
      var last := sections[|sections| - 1];
      Layout(sections[..|sections| - 1], last.address) + [Range(true, last.address, last.End())]
  }

  /** All of memory: the sections, and the gaps between them and after them. */
  function Layout(sections: seq<Section>, memorySize: int): seq<Range>
    decreases |sections|, 1
  {
    Front(sections) + Gap(EndOf(sections), memorySize)
  }

  /** Sections in address order, none of them empty, none overlapping, all inside memory. */
  predicate Fits(sections: seq<Section>, memorySize: int) {
    if sections == [] then memorySize >= 0
    else
      var last := sections[|sections| - 1];
      last.size > 0 && last.End() <= memorySize && Fits(sections[..|sections| - 1], last.address)
  }

  /** Ranges in ascending order, not empty, each ending where the next begins or before, the last by `end`. */
  predicate Chain(ranges: seq<Range>, end: int) {
    ranges == [] ||
    var last := ranges[|ranges| - 1];
    last.start < last.end <= end && Chain(ranges[..|ranges| - 1], last.start)
  }

  lemma {:induction false} ChainExtend(ranges: seq<Range>, end: int, end': int)
    requires Chain(ranges, end) && end <= end'
    ensures Chain(ranges, end')
  {
  }

  lemma {:induction false} ChainSorted(ranges: seq<Range>, end: int)
    requires Chain(ranges, end)
    ensures Sorted(ranges, ByStart)
    ensures forall i :: 0 <= i < |ranges| ==> ranges[i].start < end
  {
    if ranges != [] {
      ChainSorted(ranges[..|ranges| - 1], ranges[|ranges| - 1].start);
    }
  }

  lemma {:induction false} ChainCarve(ranges: seq<Range>, end: int, a: int, b: int)
    requires Chain(ranges, end) && a < b
    ensures Chain(Carve(ranges, a, b), end)
  {
    if ranges != [] {
      var (front, last) := (ranges[..|ranges| - 1], ranges[|ranges| - 1]);
      ChainCarve(front, last.start, a, b);
      ChainAppend(Carve(front, a, b), last.start, Pieces(last, a, b), end);
    }
  }

  lemma ChainAppend(ranges: seq<Range>, mid: int, more: seq<Range>, end: int)
    requires Chain(ranges, mid) && mid <= end && |more| <= 2
    requires |more| >= 1 ==> mid <= more[0].start < more[0].end <= end
    requires |more| == 2 ==> more[0].end <= more[1].start < more[1].end <= end
    ensures Chain(ranges + more, end)
  {
    if |more| == 0 {
      assert ranges + more == ranges;
      ChainExtend(ranges, mid, end);
    } else {
      var one := ranges + [more[0]];
      assert one[..|one| - 1] == ranges;
      ChainExtend(ranges, mid, more[0].start);
      if |more| == 1 {
        assert ranges + more == one;
      } else {
        var two := ranges + more;
        assert two[..|two| - 1] == one;
      }
    }
  }

  lemma {:induction false} LayoutChain(sections: seq<Section>, memorySize: int)
    requires Fits(sections, memorySize)
    ensures Chain(Layout(sections, memorySize), memorySize)
    ensures Chain(Front(sections), EndOf(sections)) && EndOf(sections) <= memorySize
  {
    if sections != [] {
      var last := sections[|sections| - 1];
      var before := sections[..|sections| - 1];
      LayoutChain(before, last.address);
      ChainAppend(Layout(before, last.address), last.address, [Range(true, last.address, last.End())], last.End());
    }
    ChainAppend(Front(sections), EndOf(sections), Gap(EndOf(sections), memorySize), memorySize);
  }

  // ------------------------------------------------------------ accepting preserves the layout

  lemma Associative<T>(a: seq<T>, b: seq<T>, c: seq<T>)
    ensures a + b + c == a + (b + c)
  {
  }

  lemma {:induction false} CarveConcat(a: seq<Range>, b: seq<Range>, start: int, end: int)
    ensures Carve(a + b, start, end) == Carve(a, start, end) + Carve(b, start, end)
  {
    if b == [] {
      assert a + b == a;
    } else {
      var (front, last) := (b[..|b| - 1], b[|b| - 1]);
      assert a + b == (a + front) + [last];
      CarveConcat(a, front, start, end);
      CarveSnoc(a + front, last, start, end);
      Associative(Carve(a, start, end), Carve(front, start, end), Pieces(last, start, end));
    }
  }

  lemma {:induction false} CarveUntouched(ranges: seq<Range>, start: int, end: int)
    requires forall i :: 0 <= i < |ranges| ==> ranges[i].accepted || ranges[i].end <= start || ranges[i].start >= end
    ensures Carve(ranges, start, end) == ranges
  {
    if ranges != [] {
      CarveUntouched(ranges[..|ranges| - 1], start, end);
      assert ranges == ranges[..|ranges| - 1] + [ranges[|ranges| - 1]];
    }
  }

  /** On a sorted map only the new range has to find its place. */
  lemma AcceptedInserts(ranges: seq<Range>, end: int, a: int, b: int)
    requires Chain(ranges, end) && a < b
    ensures Accepted(ranges, a, b) == Insert(Range(true, a, b), Carve(ranges, a, b), ByStart)
  {
    var carved := Carve(ranges, a, b);
    ChainCarve(ranges, end, a, b);
    ChainSorted(carved, end);
    SortOfSorted(carved, ByStart);
    var all := carved + [Range(true, a, b)];
    assert all[..|all| - 1] == carved;
  }

  lemma {:induction false} InsertBefore(x: Range, front: seq<Range>, after: seq<Range>)
    requires forall i :: 0 <= i < |after| ==> x.start < after[i].start
    ensures Insert(x, front + after, ByStart) == Insert(x, front, ByStart) + after
  {
    if after == [] {
      assert front + after == front;
    } else {
      var all := front + after;
      assert all[..|all| - 1] == front + after[..|after| - 1];
      InsertBefore(x, front, after[..|after| - 1]);
      assert after == after[..|after| - 1] + [after[|after| - 1]];
    }
  }

  lemma {:induction false} EarlierThan(ranges: seq<Range>, end: int, a: int)
    requires Chain(ranges, end) && end <= a
    ensures forall i :: 0 <= i < |ranges| ==> ranges[i].end <= a && ranges[i].start < a
  {
    if ranges != [] {
      EarlierThan(ranges[..|ranges| - 1], ranges[|ranges| - 1].start, a);
    }
  }

  predicate Disjoint(sections: seq<Section>, x: Section) {
    forall i :: 0 <= i < |sections| ==> x.End() <= sections[i].address || sections[i].End() <= x.address
  }

  /** The map after accepting x, when only x has to find its place. */
  function Placed(ranges: seq<Range>, x: Section): seq<Range> {
    Insert(Range(true, x.address, x.End()), Carve(ranges, x.address, x.End()), ByStart)
  }

  lemma LayoutSnoc(sections: seq<Section>, last: Section, memorySize: int)
    ensures Layout(sections + [last], memorySize)
            == Layout(sections, last.address) + ([Range(true, last.address, last.End())] + Gap(last.End(), memorySize))
    ensures last.size > 0 && last.End() <= memorySize && Fits(sections, last.address) ==> Fits(sections + [last], memorySize)
  {
    assert (sections + [last])[..|sections|] == sections;
    Associative(Layout(sections, last.address), [Range(true, last.address, last.End())], Gap(last.End(), memorySize));
  }

  lemma CarveLastGap(sections: seq<Section>, memorySize: int, a: int, b: int)
    requires Fits(sections, memorySize) && EndOf(sections) <= a < b <= memorySize
    ensures Carve(Layout(sections, memorySize), a, b) == Layout(sections, a) + Gap(b, memorySize)
    ensures forall i :: 0 <= i < |Layout(sections, a)| ==> Layout(sections, a)[i].start <= a
  {
    var front := Front(sections);
    LayoutChain(sections, memorySize);
    EarlierThan(front, EndOf(sections), a);
    CarveUntouched(front, a, b);
    CarveGap(EndOf(sections), memorySize, a, b);
    CarveConcat(front, Gap(EndOf(sections), memorySize), a, b);
    Associative(front, Gap(EndOf(sections), a), Gap(b, memorySize));
  }

  /** A section behind all others splits the last gap. */
  lemma AcceptLast(sections: seq<Section>, memorySize: int, x: Section)
    requires Fits(sections, memorySize) && x.size > 0 && EndOf(sections) <= x.address && x.End() <= memorySize
    ensures Placed(Layout(sections, memorySize), x) == Layout(sections + [x], memorySize)
  {
    var (head, r) := (Layout(sections, x.address), Range(true, x.address, x.End()));
    CarveLastGap(sections, memorySize, x.address, x.End());
    assert Insert(r, head, ByStart) == head + [r];
    InsertBefore(r, head, Gap(x.End(), memorySize));
    LayoutSnoc(sections, x, memorySize);
    Associative(head, [r], Gap(x.End(), memorySize));
  }

  lemma CarveGap(start: int, end: int, a: int, b: int)
    requires start <= a < b <= end
    ensures Carve(Gap(start, end), a, b) == Gap(start, a) + Gap(b, end)
  {
    assert Gap(start, end)[..0] == [];
    assert Carve([], a, b) == [];
  }

  lemma PlacedBefore(ranges: seq<Range>, end: int, after: seq<Range>, x: Section)
    requires x.size > 0 && x.End() <= end
    requires forall i :: 0 <= i < |after| ==> end <= after[i].start
    ensures Placed(ranges + after, x) == Placed(ranges, x) + after
  {
    CarveConcat(ranges, after, x.address, x.End());
    CarveUntouched(after, x.address, x.End());
    InsertBefore(Range(true, x.address, x.End()), Carve(ranges, x.address, x.End()), after);
  }

  /** A section before the last one is placed as if the last one were the end of memory. */
  lemma {:induction false} AcceptBeforeLast(before: seq<Section>, last: Section, memorySize: int, x: Section, placed: seq<Section>)
    requires last.size > 0 && last.End() <= memorySize && x.size > 0 && x.End() <= last.address
    requires Placed(Layout(before, last.address), x) == Layout(placed, last.address)
    ensures Placed(Layout(before + [last], memorySize), x) == Layout(placed + [last], memorySize)
  {
    var after := [Range(true, last.address, last.End())] + Gap(last.End(), memorySize);
    LayoutSnoc(before, last, memorySize);
    LayoutSnoc(placed, last, memorySize);
    PlacedBefore(Layout(before, last.address), last.address, after, x);
  }

  /** Accepting one more disjoint section gives the layout of the sections with it. */
  lemma {:induction false} AcceptKeepsLayout(sections: seq<Section>, memorySize: int, x: Section)
    requires Fits(sections, memorySize) && x.size > 0 && x.End() <= memorySize && Disjoint(sections, x)
    ensures Fits(Insert(x, sections, ByAddress), memorySize)
    ensures Placed(Layout(sections, memorySize), x) == Layout(Insert(x, sections, ByAddress), memorySize)
  {
    if sections == [] || ByAddress(sections[|sections| - 1], x) {
      AcceptLast(sections, memorySize, x);
      assert (sections + [x])[..|sections|] == sections;
    } else {
      var (before, last) := (sections[..|sections| - 1], sections[|sections| - 1]);
      assert sections == before + [last];
      assert Disjoint(before, x);
      AcceptKeepsLayout(before, last.address, x);
      var placed := Insert(x, before, ByAddress);
      AcceptBeforeLast(before, last, memorySize, x, placed);
      assert (placed + [last])[..|placed|] == placed;
    }
  }

  // ------------------------------------------------------------ what a layout says of memory

  /** Every address of memory lies in exactly one range, and the ranges follow one another without a hole. */
  predicate Covers(ranges: seq<Range>, start: int, end: int) {
    if ranges == [] then start == end
    else
      var last := ranges[|ranges| - 1];
      start <= last.start < last.end == end && Covers(ranges[..|ranges| - 1], start, last.start)
  }

  lemma CoversSnoc(ranges: seq<Range>, r: Range, start: int)
    requires Covers(ranges, start, r.start) && start <= r.start < r.end
    ensures Covers(ranges + [r], start, r.end)
  {
    assert (ranges + [r])[..|ranges|] == ranges;
  }

  lemma {:induction false} LayoutCovers(sections: seq<Section>, memorySize: int)
    requires Fits(sections, memorySize)
    ensures Covers(Layout(sections, memorySize), 0, memorySize)
    ensures Covers(Front(sections), 0, EndOf(sections))
  {
    if sections != [] {
      var (before, last) := (sections[..|sections| - 1], sections[|sections| - 1]);
      LayoutCovers(before, last.address);
      CoversSnoc(Layout(before, last.address), Range(true, last.address, last.End()), 0);
    }
    var (front, end) := (Front(sections), EndOf(sections));
    if end < memorySize { CoversSnoc(front, Range(false, end, memorySize), 0); } else { assert front + [] == front; }
  }

  predicate InSection(sections: seq<Section>, address: int) {
    exists i :: 0 <= i < |sections| && sections[i].address <= address < sections[i].End()
  }

  predicate InAccepted(ranges: seq<Range>, address: int) {
    exists i :: 0 <= i < |ranges| && ranges[i].accepted && ranges[i].start <= address < ranges[i].end
  }

  /** A range is accepted exactly where a section lies. */
  lemma {:induction false} LayoutFlags(sections: seq<Section>, memorySize: int, address: int)
    ensures InAccepted(Layout(sections, memorySize), address) <==> InSection(sections, address)
  {
    var (front, gap) := (Front(sections), Gap(EndOf(sections), memorySize));
    if sections != [] {
      var (before, last) := (sections[..|sections| - 1], sections[|sections| - 1]);
      LayoutFlags(before, last.address, address);
      InAcceptedSnoc(Layout(before, last.address), Range(true, last.address, last.End()), address);
      assert sections == before + [last];
      InSectionSnoc(before, last, address);
    }
    if gap == [] {
      assert front + gap == front;
    } else {
      InAcceptedSnoc(front, gap[0], address);
      assert front + gap == front + [gap[0]];
    }
  }

  lemma InAcceptedSnoc(ranges: seq<Range>, last: Range, address: int)
    ensures InAccepted(ranges + [last], address) <==>
            InAccepted(ranges, address) || (last.accepted && last.start <= address < last.end)
  {
    var all := ranges + [last];
    if InAccepted(ranges, address) {
      var i :| 0 <= i < |ranges| && ranges[i].accepted && ranges[i].start <= address < ranges[i].end;
      assert all[i] == ranges[i];
    }
    assert all[|ranges|] == last;
  }

  lemma InSectionSnoc(sections: seq<Section>, last: Section, address: int)
    ensures InSection(sections + [last], address) <==> InSection(sections, address) || last.address <= address < last.End()
  {
    var all := sections + [last];
    if InSection(sections, address) {
      var i :| 0 <= i < |sections| && sections[i].address <= address < sections[i].End();
      assert all[i] == sections[i];
    }
    assert all[|sections|] == last;
  }

  // ------------------------------------------------------------ the whole HOB

  predicate Measured(s: Section) {
    s.kind != OtherSection && s.size > 0
  }

  /** The sections that mark memory, in the order of the metadata. */
  function MeasuredSections(sections: seq<Section>): seq<Section> {
    if sections == [] then []
    else
      var last := sections[|sections| - 1];
      MeasuredSections(sections[..|sections| - 1]) + (if Measured(last) then [last] else [])
  }

  function AcceptAll(sections: seq<Section>, memorySize: nat): seq<Range> {
    if sections == [] then [Range(false, 0, memorySize)]
    else
      var last := sections[|sections| - 1];
      var before := AcceptAll(sections[..|sections| - 1], memorySize);
      if last.kind == OtherSection then before else Accepted(before, last.address, last.End())
  }

  predicate PairwiseDisjoint(sections: seq<Section>, memorySize: int) {
    && (forall i :: 0 <= i < |sections| ==> sections[i].size > 0 && sections[i].End() <= memorySize)
    && (forall i, j :: 0 <= i < j < |sections| ==>
          sections[i].End() <= sections[j].address || sections[j].End() <= sections[i].address)
  }

  lemma AcceptStep(done: seq<Section>, last: Section, memorySize: int)
    requires PairwiseDisjoint(done + [last], memorySize) && Fits(Sort(done, ByAddress), memorySize)
    ensures Fits(Sort(done + [last], ByAddress), memorySize)
    ensures Accepted(Layout(Sort(done, ByAddress), memorySize), last.address, last.End())
            == Layout(Sort(done + [last], ByAddress), memorySize)
  {
    var placed := Sort(done, ByAddress);
    assert (done + [last])[..|done|] == done;
    assert last.size > 0 && last.End() <= memorySize by { assert (done + [last])[|done|] == last; }
    assert Disjoint(placed, last) by { SortedDisjoint(done, last, memorySize); }
    assert Accepted(Layout(placed, memorySize), last.address, last.End()) == Placed(Layout(placed, memorySize), last) by {
      LayoutChain(placed, memorySize);
      AcceptedInserts(Layout(placed, memorySize), memorySize, last.address, last.End());
    }
    AcceptKeepsLayout(placed, memorySize, last);
  }

  /** After every section has been accepted, memory is laid out as the sections in address order prescribe. */
  lemma {:induction false} AcceptAllIsLayout(sections: seq<Section>, memorySize: nat)
    requires memorySize > 0 && PairwiseDisjoint(MeasuredSections(sections), memorySize)
    ensures Fits(Sort(MeasuredSections(sections), ByAddress), memorySize)
    ensures AcceptAll(sections, memorySize) == Layout(Sort(MeasuredSections(sections), ByAddress), memorySize)
  {
    if sections != [] {
      var (before, last) := (sections[..|sections| - 1], sections[|sections| - 1]);
      var done := MeasuredSections(before);
      var all := MeasuredSections(sections);
      assert all == if Measured(last) then done + [last] else done;
      assert PairwiseDisjoint(done, memorySize) by {
        assert forall i :: 0 <= i < |done| ==> done[i] == all[i];
      }
      AcceptAllIsLayout(before, memorySize);
      if Measured(last) {
        AcceptStep(done, last, memorySize);
        assert AcceptAll(sections, memorySize) == Accepted(AcceptAll(before, memorySize), last.address, last.End());
      } else {
        assert AcceptAll(sections, memorySize) == AcceptAll(before, memorySize);
      }
    }
  }

  /** After all sections are accepted the ranges cover memory from 0 to its size, in order and without hole or overlap, and
      an address is in an accepted one exactly when a measured section holds it. */
  lemma AcceptedMap(sections: seq<Section>, memorySize: nat)
    requires memorySize > 0 && PairwiseDisjoint(MeasuredSections(sections), memorySize)
    ensures Covers(AcceptAll(sections, memorySize), 0, memorySize)
    ensures forall address :: InAccepted(AcceptAll(sections, memorySize), address)
                              <==> InSection(MeasuredSections(sections), address)
  {
    var placed := Sort(MeasuredSections(sections), ByAddress);
    AcceptAllIsLayout(sections, memorySize);
    LayoutCovers(placed, memorySize);
    forall address ensures InAccepted(AcceptAll(sections, memorySize), address)
                           <==> InSection(MeasuredSections(sections), address)
    {
      LayoutFlags(placed, memorySize, address);
      SortedHoldsSame(MeasuredSections(sections), address);
    }
  }

  lemma SortedHoldsSame(sections: seq<Section>, address: int)
    ensures InSection(Sort(sections, ByAddress), address) <==> InSection(sections, address)
  {
    var placed := Sort(sections, ByAddress);
    SortKeepsElements(sections, ByAddress);
    if i :| 0 <= i < |sections| && sections[i].address <= address < sections[i].End() {
      assert sections[i] in multiset(placed);
    }
    if i :| 0 <= i < |placed| && placed[i].address <= address < placed[i].End() {
      assert placed[i] in multiset(sections);
    }
  }

  lemma ByAddressIsOrdering()
    ensures Ordering(ByAddress)
  {
  }

  /** The order of the firmware's metadata makes no difference to the map. */
  lemma OrderIsIrrelevant(a: seq<Section>, b: seq<Section>, memorySize: nat)
    requires memorySize > 0 && PairwiseDisjoint(MeasuredSections(a), memorySize) && PairwiseDisjoint(MeasuredSections(b), memorySize)
    requires multiset(MeasuredSections(a)) == multiset(MeasuredSections(b))
    ensures AcceptAll(a, memorySize) == AcceptAll(b, memorySize)
  {
    AcceptAllIsLayout(a, memorySize);
    AcceptAllIsLayout(b, memorySize);
    ByAddressIsOrdering();
    DisjointKeys(MeasuredSections(a), memorySize);
    SortIgnoresOrder(MeasuredSections(a), MeasuredSections(b), ByAddress);
  }

  lemma DisjointKeys(sections: seq<Section>, memorySize: int)
    requires PairwiseDisjoint(sections, memorySize)
    ensures DistinctKeys(multiset(sections), ByAddress)
  {
    forall x, y | x in multiset(sections) && y in multiset(sections) && ByAddress(x, y) && ByAddress(y, x) ensures x == y {
      var i :| 0 <= i < |sections| && sections[i] == x;
      var j :| 0 <= j < |sections| && sections[j] == y;
    }
  }

  lemma SortedDisjoint(done: seq<Section>, last: Section, memorySize: int)
    requires PairwiseDisjoint(done + [last], memorySize)
    ensures Disjoint(Sort(done, ByAddress), last)
  {
    var placed := Sort(done, ByAddress);
    SortKeepsElements(done, ByAddress);
    forall i | 0 <= i < |placed| ensures last.End() <= placed[i].address || placed[i].End() <= last.address {
      assert placed[i] in multiset(done);
      var j :| 0 <= j < |done| && done[j] == placed[i];
      assert (done + [last])[j] == done[j] && (done + [last])[|done|] == last;
    }
  }

  function SumLengths(resources: seq<Resource>): int {
    if resources == [] then 0 else SumLengths(resources[..|resources| - 1]) + resources[|resources| - 1].length
  }

  function RangeResources(ranges: seq<Range>): (rs: seq<Resource>)
    ensures |rs| == |ranges|
  {
    seq(|ranges|, i requires 0 <= i < |ranges| => Resource(ranges[i].accepted, ranges[i].start, ranges[i].end - ranges[i].start))
  }

  /** The last range is emitted as unaccepted memory, split around the hole below 4 GiB when memory is large. */
  function LastResources(last: Range, memorySize: int): seq<Resource> {
    if memorySize >= SPLIT_MEMORY_SIZE then
      (if last.start < LOW_MEMORY_END then [Resource(false, last.start, LOW_MEMORY_END - last.start)] else [])
      + (if last.end > LOW_MEMORY_END then [Resource(false, HIGH_MEMORY_START, last.end - LOW_MEMORY_END)] else [])
    else [Resource(false, last.start, last.end - last.start)]
  }

  function Emitted(ranges: seq<Range>, memorySize: int): seq<Resource>
    requires ranges != []
  {
    RangeResources(ranges[..|ranges| - 1]) + LastResources(ranges[|ranges| - 1], memorySize)
  }

  /** The address of the last TD HOB section, or the default. */
  function BaseAddress(sections: seq<Section>): nat {
    if sections == [] then DEFAULT_BASE
    else
      var last := sections[|sections| - 1];
      if last.kind == TdHobSection then last.address else BaseAddress(sections[..|sections| - 1])
  }

  /** That is the address of the one no other TD HOB section comes after. */
  lemma {:induction false} BaseExactly(sections: seq<Section>, i: nat)
    requires i <= |sections| && forall j :: i <= j < |sections| ==> !sections[j].kind.TdHobSection?
    ensures i > 0 && sections[i - 1].kind.TdHobSection? ==> BaseAddress(sections) == sections[i - 1].address
    ensures i == 0 ==> BaseAddress(sections) == 0x80_9000
    decreases |sections|
  {
    if i < |sections| { BaseExactly(sections[..|sections| - 1], i); }
  }

  /** The sections that the TD measures are those of the two kinds that are not empty. */
  lemma {:induction false} MeasuredExactly(sections: seq<Section>, s: Section)
    ensures s in MeasuredSections(sections) <==> s in sections && (s.kind.TdHobSection? || s.kind.TempMem?) && s.size != 0
    ensures multiset(MeasuredSections(sections)) <= multiset(sections)
  {
    if sections != [] {
      var n := |sections| - 1;
      MeasuredExactly(sections[..n], s);
      assert sections == sections[..n] + [sections[n]];
    }
  }

  method EmitResources(ranges: seq<Range>, memorySize: int) returns (resources: seq<Resource>)
    requires ranges != []
    ensures resources == Emitted(ranges, memorySize)
  {
    var (front, last) := (ranges[..|ranges| - 1], ranges[|ranges| - 1]);
    resources := [];
    for i := 0 to |front|
      invariant resources == RangeResources(front)[..i]
    {
      resources := resources + [Resource(front[i].accepted, front[i].start, front[i].end - front[i].start)];
    }
    if memorySize >= SPLIT_MEMORY_SIZE {
      if last.start < LOW_MEMORY_END {
        resources := resources + [Resource(false, last.start, LOW_MEMORY_END - last.start)];
      }
      if last.end > LOW_MEMORY_END {
        resources := resources + [Resource(false, HIGH_MEMORY_START, last.end - LOW_MEMORY_END)];
      }
    } else {
      resources := resources + [Resource(false, last.start, last.end - last.start)];
    }
  }

  /** The resources of the HOB and the end address patched into its header: 56 bytes of header, 48 a resource, 8 at the end. */
  method MeasureTdHob(sections: seq<Section>, memorySize: nat) returns (resources: seq<Resource>, endOfHob: nat)
    ensures AcceptAll(sections, memorySize) != []
    ensures resources == Emitted(AcceptAll(sections, memorySize), memorySize)
    ensures endOfHob == BaseAddress(sections) + 56 + 48 * |resources| + 8
  {
    var memory := new MemoryMap(memorySize);
    var base: nat := DEFAULT_BASE;
    for i := 0 to |sections|
      invariant memory.ranges == AcceptAll(sections[..i], memorySize)
      invariant base == BaseAddress(sections[..i])
    {
      var s := sections[i];
      assert sections[..i + 1][..i] == sections[..i];
      if s.kind == TdHobSection || s.kind == TempMem {
        memory.Accept(s.address, s.End());
      }
      if s.kind == TdHobSection {
        base := s.address;
      }
    }
    assert sections[..|sections|] == sections;
    AcceptAllNonEmpty(sections, memorySize);
    resources := EmitResources(memory.ranges, memorySize);
    endOfHob := base + 56 + 48 * |resources| + 8;
  }

  lemma {:induction false} AcceptAllNonEmpty(sections: seq<Section>, memorySize: nat)
    ensures AcceptAll(sections, memorySize) != []
  {
    if sections != [] {
      AcceptAllNonEmpty(sections[..|sections| - 1], memorySize);
      var last := sections[|sections| - 1];
      SortKeepsElements(Carve(AcceptAll(sections[..|sections| - 1], memorySize), last.address, last.End())
                        + [Range(true, last.address, last.End())], ByStart);
    }
  }

  lemma {:induction false} SumOfCover(ranges: seq<Range>, start: int, end: int)
    requires Covers(ranges, start, end)
    ensures SumLengths(RangeResources(ranges)) == end - start
  {
    if ranges != [] {
      SumOfCover(ranges[..|ranges| - 1], start, ranges[|ranges| - 1].start);
      assert RangeResources(ranges)[..|ranges| - 1] == RangeResources(ranges[..|ranges| - 1]);
    }
  }

  lemma {:induction false} SumAppend(a: seq<Resource>, b: seq<Resource>)
    ensures SumLengths(a + b) == SumLengths(a) + SumLengths(b)
  {
    if b == [] {
      assert a + b == a;
    } else {
      SumAppend(a, b[..|b| - 1]);
      assert (a + b)[..|a + b| - 1] == a + b[..|b| - 1];
    }
  }

  /** Where the last range starts, from the sections in address order: behind the last one, or at its address when it reaches
      the end of memory. */
  function LastStart(placed: seq<Section>, memorySize: nat): nat {
    if EndOf(placed) < memorySize || placed == [] then EndOf(placed) else placed[|placed| - 1].address
  }

  lemma LastRangeStart(placed: seq<Section>, memorySize: nat)
    requires Fits(placed, memorySize) && memorySize > 0
    ensures var ranges := Layout(placed, memorySize); ranges != [] && ranges[|ranges| - 1].start == LastStart(placed, memorySize)
  {
  }

  /** The emitted lengths add up to the memory exactly when memory is not split, or the last section ends at or below 2 GiB,
      or starts there when it reaches the end of memory. */
  lemma EmittedTotal(sections: seq<Section>, memorySize: nat)
    requires memorySize > 0 && PairwiseDisjoint(MeasuredSections(sections), memorySize)
    ensures var ranges := AcceptAll(sections, memorySize);
            ranges != [] &&
            (SumLengths(Emitted(ranges, memorySize)) == memorySize <==>
             memorySize < SPLIT_MEMORY_SIZE
             || LastStart(Sort(MeasuredSections(sections), ByAddress), memorySize) <= LOW_MEMORY_END)
  {
    var ranges := AcceptAll(sections, memorySize);
    AcceptAllNonEmpty(sections, memorySize);
    AcceptAllIsLayout(sections, memorySize);
    LayoutCovers(Sort(MeasuredSections(sections), ByAddress), memorySize);
    LastRangeStart(Sort(MeasuredSections(sections), ByAddress), memorySize);
    var (front, last) := (ranges[..|ranges| - 1], ranges[|ranges| - 1]);
    SumOfCover(front, 0, last.start);
    SumAppend(RangeResources(front), LastResources(last, memorySize));
    LastTotal(last, memorySize);
  }

  /** Unaccepted memory from a start to the end of memory or, with 2.75 GiB or more, up to 2 GiB if the start is below, and
      from 4 GiB on for what memory holds above 2 GiB. */
  function UnacceptedFrom(start: int, memorySize: int): seq<Resource> {
    if memorySize < 0xB000_0000 then [Resource(false, start, memorySize - start)]
    else if start < 0x8000_0000 then
      [Resource(false, start, 0x8000_0000 - start), Resource(false, 0x1_0000_0000, memorySize - 0x8000_0000)]
    else [Resource(false, 0x1_0000_0000, memorySize - 0x8000_0000)]
  }

  lemma LastResourcesExactly(last: Range, memorySize: int)
    requires last.end == memorySize
    ensures LastResources(last, memorySize) == UnacceptedFrom(last.start, memorySize)
  {
  }

  /** The last resources are the unaccepted memory from the start of the last range on. */
  lemma EmittedLast(sections: seq<Section>, memorySize: nat)
    requires memorySize > 0 && PairwiseDisjoint(MeasuredSections(sections), memorySize)
    ensures AcceptAll(sections, memorySize) != []
    ensures var ranges := AcceptAll(sections, memorySize);
            Emitted(ranges, memorySize)
            == RangeResources(ranges[..|ranges| - 1])
               + UnacceptedFrom(LastStart(Sort(MeasuredSections(sections), ByAddress), memorySize), memorySize)
  {
    var ranges := AcceptAll(sections, memorySize);
    LastRangeIs(sections, memorySize);
    LastResourcesExactly(ranges[|ranges| - 1], memorySize);
  }

  lemma LastRangeIs(sections: seq<Section>, memorySize: nat)
    requires memorySize > 0 && PairwiseDisjoint(MeasuredSections(sections), memorySize)
    ensures var ranges := AcceptAll(sections, memorySize);
            && ranges != [] && ranges[|ranges| - 1].end == memorySize
            && ranges[|ranges| - 1].start == LastStart(Sort(MeasuredSections(sections), ByAddress), memorySize)
  {
    var placed := Sort(MeasuredSections(sections), ByAddress);
    AcceptAllNonEmpty(sections, memorySize);
    AcceptAllIsLayout(sections, memorySize);
    LastRangeStart(placed, memorySize);
    LayoutCovers(placed, memorySize);
  }

  lemma AcceptedResource(ranges: seq<Range>, memorySize: int, address: int, length: int) returns (i: nat)
    requires ranges != [] && Resource(true, address, length) in Emitted(ranges, memorySize)
    ensures i < |ranges| - 1 && ranges[i] == Range(true, address, address + length)
  {
    var front := RangeResources(ranges[..|ranges| - 1]);
    assert Resource(true, address, length) !in LastResources(ranges[|ranges| - 1], memorySize);
    assert Resource(true, address, length) in front;
    i :| 0 <= i < |front| && front[i] == Resource(true, address, length);
  }

  lemma PlacedIsMeasured(sections: seq<Section>, k: nat)
    requires k < |Sort(MeasuredSections(sections), ByAddress)|
    ensures var s := Sort(MeasuredSections(sections), ByAddress)[k];
            s in sections && (s.kind.TdHobSection? || s.kind.TempMem?)
  {
    var placed := Sort(MeasuredSections(sections), ByAddress);
    SortKeepsElements(MeasuredSections(sections), ByAddress);
    assert placed[k] in multiset(placed);
    MeasuredExactly(sections, placed[k]);
  }

  /** Nothing but a section is emitted as accepted memory. */
  lemma EmittedOnlySections(sections: seq<Section>, memorySize: nat, address: int, length: int)
    requires memorySize > 0 && PairwiseDisjoint(MeasuredSections(sections), memorySize)
    ensures AcceptAll(sections, memorySize) != []
    ensures Resource(true, address, length) in Emitted(AcceptAll(sections, memorySize), memorySize) ==>
              exists s :: s in sections && (s.kind.TdHobSection? || s.kind.TempMem?) && s.address == address && s.size == length
  {
    var placed := Sort(MeasuredSections(sections), ByAddress);
    AcceptAllNonEmpty(sections, memorySize);
    AcceptAllIsLayout(sections, memorySize);
    if Resource(true, address, length) in Emitted(AcceptAll(sections, memorySize), memorySize) {
      var i := AcceptedResource(AcceptAll(sections, memorySize), memorySize, address, length);
      var k := AcceptedIsSection(placed, memorySize, i);
      PlacedIsMeasured(sections, k);
    }
  }

  lemma {:induction false} AcceptedIsSection(placed: seq<Section>, memorySize: int, i: nat) returns (k: nat)
    requires i < |Layout(placed, memorySize)| && Layout(placed, memorySize)[i].accepted
    ensures k < |placed| && Layout(placed, memorySize)[i] == Range(true, placed[k].address, placed[k].End())
    decreases |placed|
  {
    var n := |placed| - 1;
    if i < |Layout(placed[..n], placed[n].address)| {
      k := AcceptedIsSection(placed[..n], placed[n].address, i);
    } else {
      k := n;
    }
  }

  /** With 4 GiB and a section at 2.25 GiB they do not. */
  lemma MiscountedMemory()
    ensures var (sections, memorySize) := ([Section(0x9000_0000, 0x1000, TempMem)], 0x1_0000_0000);
            && PairwiseDisjoint(MeasuredSections(sections), memorySize) && AcceptAll(sections, memorySize) != []
            && SumLengths(Emitted(AcceptAll(sections, memorySize), memorySize)) != memorySize
  {
    var (s, memorySize) := (Section(0x9000_0000, 0x1000, TempMem), 0x1_0000_0000);
    OneSection(s, memorySize);
    EmittedTotal([s], memorySize);
  }

  lemma SectionAlone(s: Section)
    requires Measured(s)
    ensures MeasuredSections([s]) == [s] && Sort([s], ByAddress) == [s]
  {
    assert [s][..0] == [];
  }

  lemma LayoutOfOne(s: Section, memorySize: nat)
    ensures Layout([s], memorySize) == Gap(0, s.address) + [Range(true, s.address, s.End())] + Gap(s.End(), memorySize)
  {
    assert [s][..0] == [] && Front([s]) == Layout([], s.address) + [Range(true, s.address, s.End())];
    assert Front([]) + Gap(0, s.address) == Gap(0, s.address);
  }

  lemma OneSection(s: Section, memorySize: nat)
    requires Measured(s) && s.size > 0 && s.End() <= memorySize
    ensures MeasuredSections([s]) == [s] && Sort([s], ByAddress) == [s] && PairwiseDisjoint([s], memorySize)
    ensures AcceptAll([s], memorySize)
            == Gap(0, s.address) + [Range(true, s.address, s.End())] + Gap(s.End(), memorySize)
  {
    SectionAlone(s);
    LayoutOfOne(s, memorySize);
    AcceptAllIsLayout([s], memorySize);
  }

  lemma LastTotal(last: Range, memorySize: int)
    requires last.end == memorySize
    ensures SumLengths(LastResources(last, memorySize)) == last.end - last.start
            <==> memorySize < SPLIT_MEMORY_SIZE || last.start <= LOW_MEMORY_END
  {
    var rs := LastResources(last, memorySize);
    if |rs| == 2 {
      assert rs[..1] == [rs[0]];
      SumOne(rs[0]);
    } else if |rs| == 1 {
      SumOne(rs[0]);
      assert rs == [rs[0]];
    }
  }

  lemma SumOne(r: Resource)
    ensures SumLengths([r]) == r.length
  {
    assert [r][..0] == [];
  }

  lemma {:induction false} SectionRange(sections: seq<Section>, k: nat) returns (i: nat)
    requires k < |sections|
    ensures i < |Front(sections)| && Front(sections)[i] == Range(true, sections[k].address, sections[k].End())
  {
    var (before, last) := (sections[..|sections| - 1], sections[|sections| - 1]);
    if k == |sections| - 1 {
      i := |Front(sections)| - 1;
    } else {
      i := SectionRange(before, k);
      assert Front(sections) == Front(before) + (Gap(EndOf(before), last.address) + [Range(true, last.address, last.End())]);
    }
  }

  /** A section is emitted as accepted memory unless it reaches the end of memory: the last range is always emitted as
      unaccepted. */
  lemma EmittedAccepted(sections: seq<Section>, memorySize: nat, k: nat)
    requires memorySize > 0 && PairwiseDisjoint(MeasuredSections(sections), memorySize)
    requires k < |Sort(MeasuredSections(sections), ByAddress)|
    ensures var s := Sort(MeasuredSections(sections), ByAddress)[k];
            AcceptAll(sections, memorySize) != [] &&
            (Resource(true, s.address, s.size) in Emitted(AcceptAll(sections, memorySize), memorySize) <==> s.End() != memorySize)
  {
    AcceptAllNonEmpty(sections, memorySize);
    AcceptAllIsLayout(sections, memorySize);
    EmittedSection(Sort(MeasuredSections(sections), ByAddress), memorySize, k);
  }

  /** A section that fills the end of memory is not emitted as accepted. */
  lemma LastSectionUnaccepted()
    ensures var (s, memorySize) := (Section(0x1000, 0x1000, TempMem), 0x2000);
            && PairwiseDisjoint(MeasuredSections([s]), memorySize) && AcceptAll([s], memorySize) != []
            && Resource(true, s.address, s.size) !in Emitted(AcceptAll([s], memorySize), memorySize)
  {
    var s := Section(0x1000, 0x1000, TempMem);
    OneSection(s, 0x2000);
    EmittedAccepted([s], 0x2000, 0);
  }

  lemma SectionInLayout(placed: seq<Section>, memorySize: nat, k: nat) returns (i: nat)
    requires k < |placed|
    ensures i < |Layout(placed, memorySize)|
    ensures Layout(placed, memorySize)[i] == Range(true, placed[k].address, placed[k].End())
  {
    i := SectionRange(placed, k);
  }

  lemma EmittedSection(placed: seq<Section>, memorySize: nat, k: nat)
    requires Fits(placed, memorySize) && k < |placed| && Layout(placed, memorySize) != []
    ensures Resource(true, placed[k].address, placed[k].size) in Emitted(Layout(placed, memorySize), memorySize)
            <==> placed[k].End() != memorySize
  {
    var i := SectionInLayout(placed, memorySize, k);
    LastRange(placed, memorySize, i);
    LayoutChain(placed, memorySize);
    EmittedAt(Layout(placed, memorySize), memorySize, i, placed[k]);
  }

  lemma EmittedAt(ranges: seq<Range>, memorySize: int, i: nat, s: Section)
    requires Chain(ranges, memorySize) && i < |ranges| && ranges[i] == Range(true, s.address, s.End())
    ensures Resource(true, s.address, s.size) in Emitted(ranges, memorySize) <==> i < |ranges| - 1
  {
    EmittedAcceptedRange(ranges, memorySize, i);
  }

  lemma LastRange(placed: seq<Section>, memorySize: int, i: nat)
    requires Fits(placed, memorySize) && i < |Layout(placed, memorySize)|
    ensures Layout(placed, memorySize)[i].end == memorySize <==> i == |Layout(placed, memorySize)| - 1
  {
    var ranges := Layout(placed, memorySize);
    LayoutCovers(placed, memorySize);
    LayoutChain(placed, memorySize);
    if i < |ranges| - 1 {
      EarlierThan(ranges[..|ranges| - 1], ranges[|ranges| - 1].start, ranges[|ranges| - 1].start);
    }
  }

  lemma EmittedAcceptedRange(ranges: seq<Range>, memorySize: int, i: nat)
    requires Chain(ranges, memorySize) && i < |ranges| && ranges[i].accepted
    ensures Resource(true, ranges[i].start, ranges[i].end - ranges[i].start) in Emitted(ranges, memorySize) <==> i < |ranges| - 1
  {
    var (front, last) := (ranges[..|ranges| - 1], ranges[|ranges| - 1]);
    var r := Resource(true, ranges[i].start, ranges[i].end - ranges[i].start);
    if i < |ranges| - 1 {
      assert RangeResources(front)[i] == r;
    } else {
      ChainSorted(front, last.start);
      assert r !in RangeResources(front);
      assert r !in LastResources(last, memorySize);
    }
  }
}

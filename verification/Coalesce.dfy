/** The greedy planner of bulk register reads (src/reader/modbus/batch.rs:18-72). */
module Coalescing {
  import opened Wrappers
  import opened Domain

  const MAX_COALESCE_GAP: u16 := 10
  const MAX_REGISTERS_PER_READ: u16 := 125

  function SaturatingAdd(a: u16, b: u16): u16 {
    if a + b < 0x1_0000 then a + b else 0xFFFF
  }

  function SaturatingSub(a: u16, b: u16): u16 {
    if a >= b then a - b else 0
  }

  datatype IndexedMetric = IndexedMetric(idx: nat, metric: MetricConfig, addr: u16, count: u16)

  /** The exclusive end of an item's registers, saturating at 65535 as the source computes it. */
  function ItemEnd(item: IndexedMetric): u16 {
    SaturatingAdd(item.addr, item.count)
  }

  datatype MergedRange = MergedRange(start: u16, end: u16, members: seq<IndexedMetric>) {
    predicate Valid() { start <= end }

    function Count(): u16
      requires Valid()
    {
      end - start
    }
  }

  predicate Merges(last: MergedRange, item: IndexedMetric) {
    && SaturatingSub(item.addr, last.end) <= MAX_COALESCE_GAP
    && SaturatingSub(ItemEnd(item), last.start) <= MAX_REGISTERS_PER_READ
  }

  function MaxU16(a: u16, b: u16): u16 {
    if a >= b then a else b
  }

  function AddItem(ranges: seq<MergedRange>, item: IndexedMetric): seq<MergedRange> {
    if ranges != [] && Merges(ranges[|ranges| - 1], item) then
      var last := ranges[|ranges| - 1];
      ranges[..|ranges| - 1] + [MergedRange(last.start, MaxU16(last.end, ItemEnd(item)), last.members + [item])]
    else
      ranges + [MergedRange(item.addr, ItemEnd(item), [item])]
  }

  /** What the loop of `coalesce` has built after all of `items`. */
  function Plan(items: seq<IndexedMetric>): seq<MergedRange> {
    if items == [] then [] else AddItem(Plan(items[..|items| - 1]), items[|items| - 1])
  }

  lemma {:induction false} PlanNext(items: seq<IndexedMetric>, i: nat)
    requires i < |items|
    ensures Plan(items[..i + 1]) == AddItem(Plan(items[..i]), items[i])
  {
    assert items[..i + 1][..i] == items[..i];
  }

  method Coalesce(items: seq<IndexedMetric>) returns (ranges: seq<MergedRange>)
    ensures ranges == Plan(items)
  {
    ranges := [];
    for i := 0 to |items|
      invariant ranges == Plan(items[..i])
    {
      var item := items[i];
      PlanNext(items, i);
      hide Plan;
      var itemEnd := SaturatingAdd(item.addr, item.count);
      if |ranges| > 0 {
        var last := ranges[|ranges| - 1];
        var gap := SaturatingSub(item.addr, last.end);
        var mergedCount := SaturatingSub(itemEnd, last.start);
        if gap <= MAX_COALESCE_GAP && mergedCount <= MAX_REGISTERS_PER_READ {
          last := last.(end := MaxU16(last.end, itemEnd), members := last.members + [item]);
          ranges := ranges[..|ranges| - 1] + [last];
          continue;
        }
      }
      ranges := ranges + [MergedRange(item.addr, itemEnd, [item])];
    }
    assert items[..|items|] == items;
  }

  /**
   Two items in address order share a read exactly if at most ten registers lie between them
   and the read has at most 125. The read begins with the first and ends with the later end.
   */
  lemma {:induction false} PairMergesExactly(a: IndexedMetric, b: IndexedMetric)
    requires a.addr <= b.addr && a.addr + a.count <= 65535 && b.addr + b.count <= 65535
    ensures var endA, endB := a.addr + a.count, b.addr + b.count;
      Plan([a, b]) ==
        if b.addr - endA <= 10 && endB - a.addr <= 125
        then [MergedRange(a.addr, if endA >= endB then endA else endB, [a, b])]
        else [MergedRange(a.addr, endA, [a]), MergedRange(b.addr, endB, [b])]
  {
    assert Plan([a, b]) == AddItem(Plan([a]), b) by {
      assert [a, b][..1] == [a];
    }
    var one := MergedRange(a.addr, a.addr + a.count, [a]);
    assert [a][..0] == [] && [a, b][..1] == [a];
    assert Plan([a]) == AddItem([], a) == [one];
    hide Plan;
    assert [one][..0] == [] && [a] + [b] == [a, b];
    assert AddItem([one], b) == if Merges(one, b) then [MergedRange(one.start, MaxU16(one.end, ItemEnd(b)), [a, b])]
      else [one, MergedRange(b.addr, ItemEnd(b), [b])];
  }

  // ----- what a plan has to be -----

  /** What the caller hands over: sorted by address, each item small enough for one read. */
  ghost predicate Plannable(items: seq<IndexedMetric>) {
    && (forall i, j | 0 <= i < j < |items| :: items[i].addr <= items[j].addr)
    && (forall i | 0 <= i < |items| :: 1 <= items[i].count <= MAX_REGISTERS_PER_READ)
  }

  function MaxEnd(items: seq<IndexedMetric>): u16 {
    if items == [] then 0 else MaxU16(MaxEnd(items[..|items| - 1]), ItemEnd(items[|items| - 1]))
  }

  /** A group of items, in address order, that one read may serve. */
  ghost predicate Legal(group: seq<IndexedMetric>) {
    && group != []
    && (forall k | 0 <= k < |group| :: ItemEnd(group[k]) - group[0].addr <= MAX_REGISTERS_PER_READ)
    && (forall k | 1 <= k < |group| :: group[k].addr - MaxEnd(group[..k]) <= MAX_COALESCE_GAP)
  }

  function Flatten(groups: seq<seq<IndexedMetric>>): seq<IndexedMetric> {
    if groups == [] then [] else Flatten(groups[..|groups| - 1]) + groups[|groups| - 1]
  }

  /** A way to serve `items` with one read per group. */
  ghost predicate Serves(groups: seq<seq<IndexedMetric>>, items: seq<IndexedMetric>) {
    Flatten(groups) == items && forall i | 0 <= i < |groups| :: Legal(groups[i])
  }

  /** A range is one legal group, and its bounds are those of its members. */
  ghost predicate Good(range: MergedRange) {
    && Legal(range.members)
    && range.start == range.members[0].addr
    && range.end == MaxEnd(range.members)
  }

  /** The items that the ranges serve, in order. */
  function Members(ranges: seq<MergedRange>): seq<IndexedMetric> {
    if ranges == [] then [] else Members(ranges[..|ranges| - 1]) + ranges[|ranges| - 1].members
  }

  /** The loop invariant of `coalesce`: each range ends beyond everything that precedes it. */
  ghost predicate WellPlanned(ranges: seq<MergedRange>) {
    ranges != [] ==>
      var last := ranges[|ranges| - 1];
      && Good(last)
      && last.end == MaxEnd(Members(ranges))
      && WellPlanned(ranges[..|ranges| - 1])
  }

  lemma {:induction false} MaxEndBounds(items: seq<IndexedMetric>, n: nat)
    requires n <= |items|
    ensures MaxEnd(items[n..]) <= MaxEnd(items)
    ensures forall k | 0 <= k < |items| :: ItemEnd(items[k]) <= MaxEnd(items)
  {
    if items != [] {
      if n < |items| {
        MaxEndBounds(items[..|items| - 1], n);
        assert items[n..][..|items| - n - 1] == items[..|items| - 1][n..];
      } else {
        MaxEndBounds(items[..|items| - 1], n - 1);
      }
    }
  }

  lemma {:induction false} FlattenSnoc(groups: seq<seq<IndexedMetric>>, last: seq<IndexedMetric>)
    ensures Flatten(groups + [last]) == Flatten(groups) + last
  {
    assert (groups + [last])[..|groups|] == groups;
  }

  lemma {:induction false} LegalIsNonEmpty(group: seq<IndexedMetric>)
    requires Legal(group)
    ensures group != []
  {
  }

  lemma {:induction false} LegalSnoc(group: seq<IndexedMetric>, item: IndexedMetric)
    requires group != []
    ensures Legal(group + [item])
       <==> && Legal(group)
            && ItemEnd(item) - group[0].addr <= MAX_REGISTERS_PER_READ
            && item.addr - MaxEnd(group) <= MAX_COALESCE_GAP
  {
    var g := group + [item];
    assert g[..|group|] == group;
    assert forall k | 1 <= k < |group| :: g[..k] == group[..k];
    if Legal(g) {
      assert forall k | 0 <= k < |group| :: g[k] == group[k];
      assert g[|group|] == item;
      forall k | 1 <= k < |group| ensures group[k].addr - MaxEnd(group[..k]) <= MAX_COALESCE_GAP {
        assert g[k].addr - MaxEnd(g[..k]) <= MAX_COALESCE_GAP;
      }
    }
  }

  lemma {:induction false} MaxEndSnoc(items: seq<IndexedMetric>, item: IndexedMetric)
    ensures MaxEnd(items + [item]) == MaxU16(MaxEnd(items), ItemEnd(item))
  {
    assert (items + [item])[..|items|] == items;
  }

  lemma {:induction false} EndWithinSpan(group: seq<IndexedMetric>)
    requires Legal(group)
    ensures MaxEnd(group) - group[0].addr <= MAX_REGISTERS_PER_READ
  {
    if |group| > 1 {
      var front := group[..|group| - 1];
      assert group == front + [group[|group| - 1]];
      LegalSnoc(front, group[|group| - 1]);
      EndWithinSpan(front);
    }
  }

  // ----- the plan keeps its invariant -----

  lemma {:induction false} MembersSnoc(ranges: seq<MergedRange>, range: MergedRange)
    ensures Members(ranges + [range]) == Members(ranges) + range.members
  {
    assert (ranges + [range])[..|ranges|] == ranges;
  }

  lemma {:induction false} AddItemMembers(ranges: seq<MergedRange>, item: IndexedMetric)
    ensures Members(AddItem(ranges, item)) == Members(ranges) + [item]
  {
    hide Merges;
    if ranges != [] && Merges(ranges[|ranges| - 1], item) {
      var front, after := ranges[..|ranges| - 1], AddItem(ranges, item);
      MembersSnoc(front, after[|after| - 1]);
    } else {
      MembersSnoc(ranges, MergedRange(item.addr, ItemEnd(item), [item]));
    }
  }

  lemma {:induction false} WellPlannedSnoc(ranges: seq<MergedRange>, range: MergedRange)
    requires WellPlanned(ranges)
    requires Good(range)
    requires range.end == MaxEnd(Members(ranges + [range]))
    ensures WellPlanned(ranges + [range])
  {
    hide Good, Members, MaxEnd;
    assert (ranges + [range])[..|ranges|] == ranges;
  }

  lemma {:induction false} MergeKeepsPlan(ranges: seq<MergedRange>, item: IndexedMetric)
    requires WellPlanned(ranges)
    requires ranges != [] && Merges(ranges[|ranges| - 1], item)
    requires ranges[|ranges| - 1].start <= item.addr
    ensures WellPlanned(AddItem(ranges, item))
  {
    var front, last, after := ranges[..|ranges| - 1], ranges[|ranges| - 1], AddItem(ranges, item);
    LegalIsNonEmpty(last.members);
    hide Legal, MaxEnd, Members;
    LegalSnoc(last.members, item);
    MaxEndSnoc(last.members, item);
    AddItemMembers(ranges, item);
    MaxEndSnoc(Members(ranges), item);
    WellPlannedSnoc(front, after[|after| - 1]);
  }

  lemma {:induction false} LegalAlone(item: IndexedMetric)
    requires item.count <= MAX_REGISTERS_PER_READ
    ensures Legal([item]) && MaxEnd([item]) == ItemEnd(item)
  {
    MaxEndSnoc([], item);
    assert [] + [item] == [item];
  }

  /** An item that opens a range ends beyond every item before it. */
  lemma {:induction false} OpenKeepsPlan(ranges: seq<MergedRange>, item: IndexedMetric)
    requires WellPlanned(ranges)
    requires ranges != [] ==> !Merges(ranges[|ranges| - 1], item)
    requires item.count <= MAX_REGISTERS_PER_READ
    ensures WellPlanned(AddItem(ranges, item))
    ensures ranges != [] ==> MaxEnd(Members(ranges)) < ItemEnd(item)
  {
    hide Legal, MaxEnd;
    LegalAlone(item);
    AddItemMembers(ranges, item);
    MaxEndSnoc(Members(ranges), item);
    if ranges == [] {
      assert Members(ranges) + [item] == [item];
    } else {
      EndWithinSpan(ranges[|ranges| - 1].members);
    }
    hide Members;
    WellPlannedSnoc(ranges, MergedRange(item.addr, ItemEnd(item), [item]));
  }

  lemma {:induction false} PlannablePrefix(items: seq<IndexedMetric>, n: nat)
    requires Plannable(items) && n <= |items|
    ensures Plannable(items[..n])
    ensures items != [] ==> 1 <= items[|items| - 1].count <= MAX_REGISTERS_PER_READ
  {
  }

  lemma {:induction false} LastStartsEarlier(ranges: seq<MergedRange>, item: IndexedMetric)
    requires WellPlanned(ranges) && ranges != []
    requires Plannable(Members(ranges) + [item])
    ensures ranges[|ranges| - 1].start <= item.addr
  {
    var front, last := Members(ranges[..|ranges| - 1]), ranges[|ranges| - 1];
    var all := Members(ranges) + [item];
    assert all[|front|] == last.members[0] && all[|all| - 1] == item;
  }

  lemma {:induction false} AddItemKeepsPlan(ranges: seq<MergedRange>, item: IndexedMetric)
    requires WellPlanned(ranges)
    requires item.count <= MAX_REGISTERS_PER_READ
    requires ranges != [] ==> ranges[|ranges| - 1].start <= item.addr
    ensures WellPlanned(AddItem(ranges, item))
  {
    hide Members, WellPlanned, AddItem;
    if ranges != [] && Merges(ranges[|ranges| - 1], item) {
      MergeKeepsPlan(ranges, item);
    } else {
      OpenKeepsPlan(ranges, item);
    }
  }

  lemma {:induction false} EmptyPlan()
    ensures WellPlanned(Plan([])) && Members(Plan([])) == []
  {
  }

  lemma {:induction false} PlanInvariant(items: seq<IndexedMetric>)
    requires Plannable(items)
    ensures WellPlanned(Plan(items)) && Members(Plan(items)) == items
  {
    hide WellPlanned, AddItem, Plan, Plannable, Members;
    if items == [] {
      EmptyPlan();
    } else {
      var front, item := items[..|items| - 1], items[|items| - 1];
      PlannablePrefix(items, |items| - 1);
      PlanInvariant(front);
      PlanNext(items, |items| - 1);
      var ranges := Plan(front);
      assert items == items[..|items| - 1 + 1] == Members(ranges) + [item];
      AddItemMembers(ranges, item);
      if ranges != [] {
        LastStartsEarlier(ranges, item);
      }
      AddItemKeepsPlan(ranges, item);
    }
  }

  // ----- what the invariant means -----

  function Groups(ranges: seq<MergedRange>): (groups: seq<seq<IndexedMetric>>)
    ensures |groups| == |ranges|
  {
    seq(|ranges|, i requires 0 <= i < |ranges| => ranges[i].members)
  }

  lemma {:induction false} MembersAreFlattened(ranges: seq<MergedRange>)
    ensures Flatten(Groups(ranges)) == Members(ranges)
  {
    if ranges != [] {
      MembersAreFlattened(ranges[..|ranges| - 1]);
      assert Groups(ranges)[..|ranges| - 1] == Groups(ranges[..|ranges| - 1]);
    }
  }

  lemma {:induction false} WellPlannedGood(ranges: seq<MergedRange>, i: nat)
    requires WellPlanned(ranges) && i < |ranges|
    ensures Good(ranges[i])
  {
    hide Good;
    if i < |ranges| - 1 {
      WellPlannedGood(ranges[..|ranges| - 1], i);
    }
  }

  /** The ranges partition the items, in their order, into legal groups with tight bounds. */
  lemma {:induction false} PlanServes(items: seq<IndexedMetric>)
    requires Plannable(items)
    ensures Serves(Groups(Plan(items)), items)
    ensures forall i | 0 <= i < |Plan(items)| :: Good(Plan(items)[i])
  {
    var ranges := Plan(items);
    PlanInvariant(items);
    MembersAreFlattened(ranges);
    forall i | 0 <= i < |ranges| ensures Good(ranges[i]) && Legal(Groups(ranges)[i]) {
      WellPlannedGood(ranges, i);
    }
  }

  /** The members of one good range lie inside it, and the range fits one read. */
  lemma {:induction false} GoodRangeBounds(range: MergedRange, k: nat)
    requires Good(range) && k < |range.members| && Plannable(range.members)
    ensures range.start <= range.members[k].addr
    ensures ItemEnd(range.members[k]) <= range.end
    ensures range.Valid() && range.Count() <= MAX_REGISTERS_PER_READ
    ensures range.Count() == 0 <==> range.start == 0xFFFF
  {
    MaxEndBounds(range.members, 0);
    EndWithinSpan(range.members);
    assert ItemEnd(range.members[0]) <= range.end;
  }

  // ----- no plan uses fewer reads -----

  lemma {:induction false} LegalPrefix(group: seq<IndexedMetric>)
    requires Legal(group) && |group| > 1
    ensures Legal(group[..|group| - 1])
  {
    assert group == group[..|group| - 1] + [group[|group| - 1]];
    LegalSnoc(group[..|group| - 1], group[|group| - 1]);
  }

  /** Taking the last item away from a partition into legal groups leaves one. */
  function Shorter(init: seq<seq<IndexedMetric>>, last: seq<IndexedMetric>): (r: seq<seq<IndexedMetric>>)
    requires last != []
  {
    if |last| == 1 then init else init + [last[..|last| - 1]]
  }

  lemma {:induction false} ServesSplits(groups: seq<seq<IndexedMetric>>, items: seq<IndexedMetric>)
    returns (init: seq<seq<IndexedMetric>>, last: seq<IndexedMetric>)
    requires Serves(groups, items) && items != []
    ensures groups == init + [last] && Legal(last) && last != []
    ensures items == Flatten(init) + last
    ensures Serves(Shorter(init, last), items[..|items| - 1])
  {
    init, last := groups[..|groups| - 1], groups[|groups| - 1];
    if |last| > 1 {
      LegalPrefix(last);
      FlattenSnoc(init, last[..|last| - 1]);
    }
  }

  /**
   The plan stays ahead of every competing partition: it has fewer groups, or as many
   with a last group that opened no earlier.
   */
  ghost predicate Ahead(ranges: seq<MergedRange>, groups: seq<seq<IndexedMetric>>) {
    || |ranges| < |groups|
    || (&& |ranges| == |groups|
        && (ranges != [] ==> |ranges[|ranges| - 1].members| <= |groups[|groups| - 1]|))
  }

  lemma {:induction false} ShorterStartsLater(before: seq<IndexedMetric>, short: seq<IndexedMetric>,
      front: seq<IndexedMetric>, long: seq<IndexedMetric>)
    requires before + short == front + long && Plannable(front + long)
    requires 0 < |short| <= |long|
    ensures long[0].addr <= short[0].addr
    ensures MaxEnd(long) <= MaxEnd(front + long)
  {
    assert long[0] == (front + long)[|front|] && short[0] == (before + short)[|before|];
    assert (front + long)[|front|..] == long;
    MaxEndBounds(front + long, |front|);
  }

  /** A last range that opened no earlier than a legal group accepts what the group accepts. */
  lemma {:induction false} MergesWhenLegal(ranges: seq<MergedRange>, front: seq<IndexedMetric>,
      group: seq<IndexedMetric>, item: IndexedMetric)
    requires WellPlanned(ranges) && ranges != []
    requires Members(ranges) == front + group && Plannable(front + group)
    requires group != [] && Legal(group + [item])
    requires |ranges[|ranges| - 1].members| <= |group|
    ensures Merges(ranges[|ranges| - 1], item)
  {
    var last := ranges[|ranges| - 1];
    LegalIsNonEmpty(last.members);
    hide Legal, MaxEnd, Plannable;
    ShorterStartsLater(Members(ranges[..|ranges| - 1]), last.members, front, group);
    LegalSnoc(group, item);
  }

  lemma {:induction false} AheadAfterNewGroup(ranges: seq<MergedRange>, groups: seq<seq<IndexedMetric>>, item: IndexedMetric)
    requires Ahead(ranges, groups)
    ensures Ahead(AddItem(ranges, item), groups + [[item]])
  {
  }

  lemma {:induction false} AheadAfterLongerGroup(ranges: seq<MergedRange>, groups: seq<seq<IndexedMetric>>,
      group: seq<IndexedMetric>, item: IndexedMetric)
    requires WellPlanned(ranges)
    requires Members(ranges) == Flatten(groups) + group && Plannable(Members(ranges))
    requires group != [] && Legal(group + [item])
    requires Ahead(ranges, groups + [group])
    ensures Ahead(AddItem(ranges, item), groups + [group + [item]])
  {
    hide Legal, WellPlanned, Plannable, Members, Flatten;
    if |ranges| == |groups| + 1 {
      MergesWhenLegal(ranges, Flatten(groups), group, item);
    }
  }

  lemma {:induction false} SplitLast(front: seq<IndexedMetric>, last: seq<IndexedMetric>,
      items: seq<IndexedMetric>, item: IndexedMetric)
    requires last != [] && front + last == items + [item]
    ensures last == last[..|last| - 1] + [item]
    ensures items == front + last[..|last| - 1]
  {
    assert last[|last| - 1] == (front + last)[|items|] == (items + [item])[|items|] == item;
    assert front + last[..|last| - 1] == (front + last)[..|items|] == (items + [item])[..|items|] == items;
  }

  lemma {:induction false} AheadStep(ranges: seq<MergedRange>, item: IndexedMetric,
      init: seq<seq<IndexedMetric>>, last: seq<IndexedMetric>)
    requires Plannable(Members(ranges)) && WellPlanned(ranges)
    requires Legal(last) && last != [] && Flatten(init) + last == Members(ranges) + [item]
    requires Ahead(ranges, Shorter(init, last))
    ensures Ahead(AddItem(ranges, item), init + [last])
  {
    hide Legal, WellPlanned, Plannable, AddItem, Merges, Members, Flatten, Ahead;
    SplitLast(Flatten(init), last, Members(ranges), item);
    if |last| == 1 {
      assert last == [item];
      AheadAfterNewGroup(ranges, init, item);
    } else {
      AheadAfterLongerGroup(ranges, init, last[..|last| - 1], item);
    }
  }

  lemma {:induction false} StaysAhead(items: seq<IndexedMetric>, groups: seq<seq<IndexedMetric>>)
    requires Plannable(items)
    requires Serves(groups, items)
    ensures Ahead(Plan(items), groups)
  {
    hide Legal, WellPlanned, Members, AddItem;
    if items != [] {
      var front, item := items[..|items| - 1], items[|items| - 1];
      var init, last := ServesSplits(groups, items);
      PlannablePrefix(items, |items| - 1);
      StaysAhead(front, Shorter(init, last));
      PlanInvariant(front);
      assert Plan(items) == AddItem(Plan(front), item) && items == front + [item];
      hide Plan, Ahead, Plannable, Serves, Shorter;
      AheadStep(Plan(front), item, init, last);
    }
  }

  /**
   The greedy plan is optimal: no way to split the sorted items into contiguous legal
   groups issues fewer reads, and the plan itself is such a way.
   */
  lemma {:induction false} PlanIsOptimal(items: seq<IndexedMetric>, groups: seq<seq<IndexedMetric>>)
    requires Plannable(items)
    requires Serves(groups, items)
    ensures Serves(Groups(Plan(items)), items)
    ensures |Groups(Plan(items))| <= |groups|
  {
    PlanServes(items);
    StaysAhead(items, groups);
  }
}

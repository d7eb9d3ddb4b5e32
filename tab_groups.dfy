/** `processTabGroups` of src/background/background.ts:84-110: one forward pass over the
    tabs that puts each tab into the first existing group whose representative (the group's
    first tab) it resembles, or into a new group `group_<count + 1>`.

    The object `groups` is an ordered sequence of (key, indices) entries: its keys are never
    integer-like, so `for...in` visits them in insertion order. The pass is specified on the
    index lists alone, in creation order (FirstFit, Step, Grouping); Keyed attaches the keys
    `group_1`, `group_2`, ... to them. ProcessTabGroups and PlaceTab are the loops, proved to
    compute Keyed(Grouping(...)). `toLowerCase` is the parameter `lower`. */
module TabGroups {
  import opened Wrappers
  import opened Levenshtein
  import opened Similarity
  import opened GroupKeys

  /** The two fields of a browser tab the grouping reads; both may be missing. */
  datatype Tab = Tab(title: Option<string>, url: Option<string>)

  /** One entry of the `groups` object: its key and the indices of its tabs. */
  datatype Group = Group(key: string, members: seq<nat>)

  /** `threshold` (src/background/background.ts:86), exactly 3/10. */
  const Threshold: real := 0.3

  /** `(field || '')`: a missing field reads as the empty string. */
  function OrEmpty(field: Option<string>): string
  {
    match field
    case Some(s) => s
    case None => ""
  }

  /** `title + ' ' + url` with missing fields empty. */
  function TabText(t: Tab): string
  {
    OrEmpty(t.title) + " " + OrEmpty(t.url)
  }

  /** The test `sim > threshold` on two lower-cased texts. */
  predicate Joins(text: string, repText: string)
  {
    Score(text, repText) > Threshold
  }

  /** The comparison the source makes between a tab's text and a representative's text:
      `similarity(tabText.toLowerCase(), groupText.toLowerCase()) > threshold`, in that
      argument order (the score is not symmetric). */
  predicate Resembles(lower: string -> string, tabText: string, groupText: string)
  {
    Joins(lower(tabText), lower(groupText))
  }

  /** Resembles as the comparison FirstFit, Step and Grouping are given; they take any
      comparison, so the facts about the shape of the result hold whatever it is. */
  function SourceTest(lower: string -> string): (string, string) -> bool
  {
    (tabText, groupText) => Resembles(lower, tabText, groupText)
  }

  /** The text of group g's first tab, against which candidates are compared. A group is
      never empty and holds only indices of tabs (GroupingPartition), so the fallback ""
      is never used on the groups the pass builds. */
  function RepText(tabs: seq<Tab>, groups: seq<seq<nat>>, g: nat): string
    requires g < |groups|
  {
    if |groups[g]| > 0 && groups[g][0] < |tabs| then TabText(tabs[groups[g][0]]) else ""
  }

  // ---------------------------------------------------------------------------------------
  // The `groups` object and its keys

  /** The object whose k-th entry (counting from 1) is `group_k` with the k-th index list. */
  function Keyed(groups: seq<seq<nat>>): seq<Group>
  {
    seq(|groups|, g requires 0 <= g < |groups| => Group(GroupKey(g + 1), groups[g]))
  }

  /** The first position holding `key`, as a property lookup finds it. */
  function KeyIndex(entries: seq<Group>, key: string, from: nat): (r: Option<nat>)
    requires from <= |entries|
    ensures r.Some? ==> from <= r.value < |entries| && entries[r.value].key == key
    ensures r.Some? ==> forall h :: from <= h < r.value ==> entries[h].key != key
    ensures r.None? ==> forall h :: from <= h < |entries| ==> entries[h].key != key
    decreases |entries| - from
  {
    if from == |entries| then None
    else if entries[from].key == key then Some(from)
    else KeyIndex(entries, key, from + 1)
  }

  /** `groups[key] = members`: overwrites an existing property in place, or adds a new one
      at the end of the insertion order. */
  function Assign(entries: seq<Group>, key: string, members: seq<nat>): seq<Group>
  {
    match KeyIndex(entries, key, 0)
    case Some(g) => entries[g := Group(key, members)]
    case None => entries + [Group(key, members)]
  }

  /** The key `group_<count + 1>` a new group gets is not yet a key of the object, so the
      assignment at src/background/background.ts:105 appends a new entry. */
  lemma NewKeyIsFresh(groups: seq<seq<nat>>, members: seq<nat>)
    ensures forall g :: 0 <= g < |groups| ==> Keyed(groups)[g].key != GroupKey(|groups| + 1)
    ensures Assign(Keyed(groups), GroupKey(|groups| + 1), members) == Keyed(groups + [members])
  {
    forall g | 0 <= g < |groups|
      ensures Keyed(groups)[g].key != GroupKey(|groups| + 1)
    {
      GroupKeyInjective(g + 1, |groups| + 1);
    }
  }

  // ---------------------------------------------------------------------------------------
  // Invariants of the index lists

  ghost predicate NonEmpty(groups: seq<seq<nat>>)
  {
    forall g :: 0 <= g < |groups| ==> |groups[g]| > 0
  }

  ghost predicate Bounded(groups: seq<seq<nat>>, n: nat)
  {
    forall g, p :: 0 <= g < |groups| && 0 <= p < |groups[g]| ==> groups[g][p] < n
  }

  /** Within each group the indices are strictly increasing. */
  ghost predicate Increasing(groups: seq<seq<nat>>)
  {
    forall g, p, q :: 0 <= g < |groups| && 0 <= p < q < |groups[g]| ==> groups[g][p] < groups[g][q]
  }

  /** No index lies in two groups. */
  ghost predicate Disjoint(groups: seq<seq<nat>>)
  {
    forall g, h, p, q ::
      0 <= g < |groups| && 0 <= h < |groups| && g != h && 0 <= p < |groups[g]| && 0 <= q < |groups[h]|
      ==> groups[g][p] != groups[h][q]
  }

  ghost predicate Covers(groups: seq<seq<nat>>, i: nat)
  {
    exists g :: 0 <= g < |groups| && i in groups[g]
  }

  /** The groups partition 0 .. n-1: every group is non-empty and strictly increasing,
      holds only indices below n, no index lies in two groups, and every index lies in one. */
  ghost predicate Partition(groups: seq<seq<nat>>, n: nat)
  {
    NonEmpty(groups) && Bounded(groups, n) && Increasing(groups) && Disjoint(groups)
    && forall i :: 0 <= i < n ==> Covers(groups, i)
  }

  /** Groups appear in the order they were created, which is the order of their first tabs. */
  ghost predicate CreationOrdered(groups: seq<seq<nat>>)
    requires NonEmpty(groups)
  {
    forall g, h :: 0 <= g < h < |groups| ==> groups[g][0] < groups[h][0]
  }

  // ---------------------------------------------------------------------------------------
  // The specification of one pass

  /** The first group, from position `from` on, whose representative `text` resembles. */
  function FirstFit(tabs: seq<Tab>, groups: seq<seq<nat>>, text: string,
                    similar: (string, string) -> bool, from: nat): (r: Option<nat>)
    requires from <= |groups|
    ensures r.Some? ==> from <= r.value < |groups| && similar(text, RepText(tabs, groups, r.value))
    ensures r.Some? ==> forall h :: from <= h < r.value ==> !similar(text, RepText(tabs, groups, h))
    ensures r.None? ==> forall h :: from <= h < |groups| ==> !similar(text, RepText(tabs, groups, h))
    decreases |groups| - from
  {
    if from == |groups| then None
    else if similar(text, RepText(tabs, groups, from)) then Some(from)
    else FirstFit(tabs, groups, text, similar, from + 1)
  }

  /** Placing tab i: push it onto the first group it resembles, else start the group [i] at
      the end. */
  function Step(tabs: seq<Tab>, groups: seq<seq<nat>>, i: nat, similar: (string, string) -> bool): seq<seq<nat>>
    requires i < |tabs|
  {
    match FirstFit(tabs, groups, TabText(tabs[i]), similar, 0)
    case Some(g) => groups[g := groups[g] + [i]]
    case None => groups + [[i]]
  }

  /** The index lists after the first n tabs, in creation order; the result of
      `processTabGroups` is Keyed(Grouping(tabs, |tabs|, ...)). There are at most n. */
  function Grouping(tabs: seq<Tab>, n: nat, similar: (string, string) -> bool): (r: seq<seq<nat>>)
    requires n <= |tabs|
    ensures |r| <= n
    decreases n
  {
    if n == 0 then [] else Step(tabs, Grouping(tabs, n - 1, similar), n - 1, similar)
  }

  // ---------------------------------------------------------------------------------------
  // The invariants hold after every tab

  /** A step adds at most one group and only ever appends: every existing group keeps its
      index list as a prefix, so its first tab stays its representative. */
  lemma StepExtends(tabs: seq<Tab>, groups: seq<seq<nat>>, i: nat, similar: (string, string) -> bool)
    requires i < |tabs|
    ensures var r := Step(tabs, groups, i, similar);
      |groups| <= |r| <= |groups| + 1
      && (forall g :: 0 <= g < |groups| ==> r[g] == groups[g] || r[g] == groups[g] + [i])
      && (|r| == |groups| + 1 ==> r[|groups|] == [i])
  {
  }

  /** Placing tab n - 1 into a partition of 0 .. n-2 gives a partition of 0 .. n-1. */
  lemma StepPartition(tabs: seq<Tab>, n: nat, similar: (string, string) -> bool)
    requires 0 < n <= |tabs| && Partition(Grouping(tabs, n - 1, similar), n - 1)
    ensures Partition(Grouping(tabs, n, similar), n)
  {
    var groups := Grouping(tabs, n - 1, similar);
    match FirstFit(tabs, groups, TabText(tabs[n - 1]), similar, 0)
    case Some(g) => PushPartition(groups, g, n - 1);
    case None => CreatePartition(groups, n - 1);
  }

  /** After the first n tabs the groups partition 0 .. n-1. */
  lemma {:induction false} GroupingPartition(tabs: seq<Tab>, n: nat, similar: (string, string) -> bool)
    requires n <= |tabs|
    ensures Partition(Grouping(tabs, n, similar), n)
  {
    if n > 0 {
      GroupingPartition(tabs, n - 1, similar);
      StepPartition(tabs, n, similar);
    }
  }

  /** Placing tab n - 1 keeps the groups in the order of their first tabs. */
  lemma StepOrdered(tabs: seq<Tab>, n: nat, similar: (string, string) -> bool)
    requires 0 < n <= |tabs|
    requires Partition(Grouping(tabs, n - 1, similar), n - 1)
    requires CreationOrdered(Grouping(tabs, n - 1, similar))
    ensures NonEmpty(Grouping(tabs, n, similar)) && CreationOrdered(Grouping(tabs, n, similar))
  {
    var groups := Grouping(tabs, n - 1, similar);
    StepPartition(tabs, n, similar);
    match FirstFit(tabs, groups, TabText(tabs[n - 1]), similar, 0)
    case Some(g) =>
      var r := groups[g := groups[g] + [n - 1]];
      assert forall h :: 0 <= h < |groups| ==> r[h][0] == groups[h][0];
    case None =>
      if |groups| > 0 {
        assert groups[|groups| - 1][0] < n - 1;
      }
  }

  /** After the first n tabs the groups are in the order of their first tabs. */
  lemma {:induction false} GroupingOrdered(tabs: seq<Tab>, n: nat, similar: (string, string) -> bool)
    requires n <= |tabs|
    ensures NonEmpty(Grouping(tabs, n, similar)) && CreationOrdered(Grouping(tabs, n, similar))
  {
    if n > 0 {
      GroupingPartition(tabs, n - 1, similar);
      GroupingOrdered(tabs, n - 1, similar);
      StepOrdered(tabs, n, similar);
    } else {
      GroupingPartition(tabs, n, similar);
    }
  }

  /** Pushing the next index onto an existing group keeps the partition. */
  lemma PushPartition(groups: seq<seq<nat>>, g: nat, i: nat)
    requires Partition(groups, i) && g < |groups|
    ensures Partition(groups[g := groups[g] + [i]], i + 1)
  {
    var r := groups[g := groups[g] + [i]];
    PushIncreasing(groups, g, i);
    PushDisjoint(groups, g, i);
    forall k | 0 <= k < i + 1
      ensures Covers(r, k)
    {
      if k == i {
        assert k in r[g];
      } else {
        assert Covers(groups, k);
        var h :| 0 <= h < |groups| && k in groups[h];
        assert k in r[h];
      }
    }
  }

  lemma PushIncreasing(groups: seq<seq<nat>>, g: nat, i: nat)
    requires Increasing(groups) && Bounded(groups, i) && g < |groups|
    ensures Increasing(groups[g := groups[g] + [i]])
  {
  }

  lemma PushDisjoint(groups: seq<seq<nat>>, g: nat, i: nat)
    requires Disjoint(groups) && Bounded(groups, i) && g < |groups|
    ensures Disjoint(groups[g := groups[g] + [i]])
  {
  }

  /** Appending the group [i] keeps the partition. */
  lemma CreatePartition(groups: seq<seq<nat>>, i: nat)
    requires Partition(groups, i)
    ensures Partition(groups + [[i]], i + 1)
  {
    var r := groups + [[i]];
    CreateDisjoint(groups, i);
    forall k | 0 <= k < i + 1
      ensures Covers(r, k)
    {
      if k == i {
        assert k in r[|groups|];
      } else {
        assert Covers(groups, k);
        var h :| 0 <= h < |groups| && k in groups[h];
        assert k in r[h];
      }
    }
  }

  lemma CreateDisjoint(groups: seq<seq<nat>>, i: nat)
    requires Disjoint(groups) && Bounded(groups, i)
    ensures Disjoint(groups + [[i]])
  {
  }

  // ---------------------------------------------------------------------------------------
  // The imperative pass

  /** `processTabGroups(tabs)`: places the tabs one by one, in input order. */
  method ProcessTabGroups(tabs: seq<Tab>, lower: string -> string) returns (groups: seq<Group>)
    ensures groups == Keyed(Grouping(tabs, |tabs|, SourceTest(lower)))
  {
    groups := [];
    var i := 0;
    while i < |tabs|
      invariant i <= |tabs|
      invariant groups == Keyed(Grouping(tabs, i, SourceTest(lower)))
    {
      groups := PlaceTab(tabs, groups, i, lower);
      i := i + 1;
    }
  }

  /** The test of src/background/background.ts:95-97 for one entry: lower-case both texts,
      score them in this order, compare with the threshold. */
  method Compare(lower: string -> string, tabText: string, groupText: string) returns (joins: bool)
    ensures joins == Resembles(lower, tabText, groupText)
  {
    var sim := ComputeSimilarity(lower(tabText), lower(groupText));
    joins := sim > Threshold;
  }

  /** One pass of the outer loop: scan the entries in insertion order, push tab i onto the
      first whose representative it resembles and stop; if none, assign `group_<count + 1>`.
      Placing tab i into the groups of the tabs before it gives the groups of tabs 0 .. i. */
  method PlaceTab(tabs: seq<Tab>, groups: seq<Group>, i: nat, lower: string -> string) returns (r: seq<Group>)
    requires i < |tabs| && groups == Keyed(Grouping(tabs, i, SourceTest(lower)))
    ensures r == Keyed(Grouping(tabs, i + 1, SourceTest(lower)))
  {
    ghost var lists := Grouping(tabs, i, SourceTest(lower));
    GroupingWellFormed(tabs, i, SourceTest(lower));
    r := groups;
    var placed := false;
    var tabText := TabText(tabs[i]);
    var g := 0;
    while g < |r|
      invariant 0 <= g <= |r|
      invariant r == groups && !placed
      invariant forall h :: 0 <= h < g ==> !Resembles(lower, tabText, RepText(tabs, lists, h))
    {
      assert r[g].members == lists[g];
      var groupText := TabText(tabs[r[g].members[0]]);
      var joins := Compare(lower, tabText, groupText);
      if joins {
        PlacedAt(tabs, i, lower, g);
        r := r[g := Group(r[g].key, r[g].members + [i])];
        placed := true;
        break;
      }
      g := g + 1;
    }
    if !placed {
      PlacedNowhere(tabs, i, lower);
      r := Assign(r, GroupKey(|r| + 1), [i]);
    }
  }

  /** The groups the pass builds are non-empty and hold only indices of tabs seen so far. */
  lemma GroupingWellFormed(tabs: seq<Tab>, n: nat, similar: (string, string) -> bool)
    requires n <= |tabs|
    ensures NonEmpty(Grouping(tabs, n, similar)) && Bounded(Grouping(tabs, n, similar), n)
  {
    GroupingPartition(tabs, n, similar);
  }

  /** Tab i resembles the representative of entry g and of none before it: the object
      for tabs 0 .. i is the previous one with i pushed onto entry g. */
  lemma PlacedAt(tabs: seq<Tab>, i: nat, lower: string -> string, g: nat)
    requires i < |tabs| && g < |Grouping(tabs, i, SourceTest(lower))|
    requires Resembles(lower, TabText(tabs[i]), RepText(tabs, Grouping(tabs, i, SourceTest(lower)), g))
    requires forall h :: 0 <= h < g ==>
      !Resembles(lower, TabText(tabs[i]), RepText(tabs, Grouping(tabs, i, SourceTest(lower)), h))
    ensures var entries := Keyed(Grouping(tabs, i, SourceTest(lower)));
      Keyed(Grouping(tabs, i + 1, SourceTest(lower))) == entries[g := Group(entries[g].key, entries[g].members + [i])]
  {
    var lists := Grouping(tabs, i, SourceTest(lower));
    assert FirstFit(tabs, lists, TabText(tabs[i]), SourceTest(lower), 0) == Some(g);
    var pushed := lists[g := lists[g] + [i]];
    assert Grouping(tabs, i + 1, SourceTest(lower)) == pushed;
    var entries := Keyed(lists);
    assert Keyed(pushed) == entries[g := Group(entries[g].key, entries[g].members + [i])];
  }

  /** Tab i resembles no representative: the object for tabs 0 .. i is the previous one
      with `group_<count + 1>` placed the list [i]. */
  lemma PlacedNowhere(tabs: seq<Tab>, i: nat, lower: string -> string)
    requires i < |tabs|
    requires forall h :: 0 <= h < |Grouping(tabs, i, SourceTest(lower))| ==>
      !Resembles(lower, TabText(tabs[i]), RepText(tabs, Grouping(tabs, i, SourceTest(lower)), h))
    ensures var lists := Grouping(tabs, i, SourceTest(lower));
      Keyed(Grouping(tabs, i + 1, SourceTest(lower))) == Assign(Keyed(lists), GroupKey(|lists| + 1), [i])
  {
    var lists := Grouping(tabs, i, SourceTest(lower));
    assert FirstFit(tabs, lists, TabText(tabs[i]), SourceTest(lower), 0) == None;
    NewKeyIsFresh(lists, [i]);
  }

  // ---------------------------------------------------------------------------------------
  // The threshold test

  /** The comparison with 0.3 in integers: with n the longer length and d the distance read
      from the table, a text joins exactly when 10 * (n - d) > 3 * n, or both are empty. */
  lemma JoinsIff(text: string, repText: string)
    ensures Joins(text, repText) <==>
      var n := LongerLength(text, repText);
      n == 0 || 10 * (n - Distance(text, repText)) > 3 * n
  {
    var n := LongerLength(text, repText);
    if n > 0 {
      AboveThreshold(n - Distance(text, repText), n);
    }
  }

  lemma AboveThreshold(m: int, n: int)
    requires n > 0
    ensures m as real / n as real > Threshold <==> 10 * m > 3 * n
  {
    var q := m as real / n as real;
    assert q * n as real == m as real;
    assert q > 0.3 <==> q * (10 * n) as real > (3 * n) as real;
  }

  /** A text joins a representative equal to it unless it is a single character:
      (n - 1) / n > 0.3 exactly when n >= 2, and two empty texts score 1. */
  lemma JoinsSelfIff(s: string)
    ensures Joins(s, s) <==> |s| != 1
  {
    JoinsIff(s, s);
    if |s| > 0 {
      LevDropOne(s);
    }
  }

  // ---------------------------------------------------------------------------------------
  // Where each tab lands

  /** Stated on the finished result: no group created before the tab's own one has a
      representative it resembles, and a tab that is not its group's first member resembles
      that group's representative. */
  ghost predicate FirstFitHolds(tabs: seq<Tab>, groups: seq<seq<nat>>, n: nat, similar: (string, string) -> bool)
    requires n <= |tabs| && NonEmpty(groups) && Bounded(groups, n)
  {
    forall g, p :: 0 <= g < |groups| && 0 <= p < |groups[g]| ==>
      var text := TabText(tabs[groups[g][p]]);
      (forall h :: 0 <= h < g ==> !similar(text, RepText(tabs, groups, h)))
      && (p > 0 ==> similar(text, RepText(tabs, groups, g)))
  }

  /** Placing tab n - 1 keeps the first-fit rule for every tab placed so far and holds it
      for tab n - 1. */
  lemma StepFirstFit(tabs: seq<Tab>, n: nat, similar: (string, string) -> bool)
    requires 0 < n <= |tabs|
    requires NonEmpty(Grouping(tabs, n - 1, similar)) && Bounded(Grouping(tabs, n - 1, similar), n - 1)
    requires FirstFitHolds(tabs, Grouping(tabs, n - 1, similar), n - 1, similar)
    ensures NonEmpty(Grouping(tabs, n, similar)) && Bounded(Grouping(tabs, n, similar), n)
    ensures FirstFitHolds(tabs, Grouping(tabs, n, similar), n, similar)
  {
    var groups := Grouping(tabs, n - 1, similar);
    match FirstFit(tabs, groups, TabText(tabs[n - 1]), similar, 0)
    case Some(g0) => PushFirstFit(tabs, groups, g0, n - 1, similar);
    case None => CreateFirstFit(tabs, groups, n - 1, similar);
  }

  /** After the first n tabs every tab sits by the first-fit rule. */
  lemma {:induction false} GroupingFirstFit(tabs: seq<Tab>, n: nat, similar: (string, string) -> bool)
    requires n <= |tabs|
    ensures NonEmpty(Grouping(tabs, n, similar)) && Bounded(Grouping(tabs, n, similar), n)
    ensures FirstFitHolds(tabs, Grouping(tabs, n, similar), n, similar)
  {
    if n > 0 {
      GroupingFirstFit(tabs, n - 1, similar);
      StepFirstFit(tabs, n, similar);
    }
  }

  lemma PushFirstFit(tabs: seq<Tab>, groups: seq<seq<nat>>, g0: nat, i: nat, similar: (string, string) -> bool)
    requires i < |tabs| && g0 < |groups| && NonEmpty(groups) && Bounded(groups, i)
    requires FirstFitHolds(tabs, groups, i, similar)
    requires similar(TabText(tabs[i]), RepText(tabs, groups, g0))
    requires forall h :: 0 <= h < g0 ==> !similar(TabText(tabs[i]), RepText(tabs, groups, h))
    ensures var r := groups[g0 := groups[g0] + [i]];
      NonEmpty(r) && Bounded(r, i + 1) && FirstFitHolds(tabs, r, i + 1, similar)
  {
    var r := groups[g0 := groups[g0] + [i]];
    assert forall h :: 0 <= h < |groups| ==> RepText(tabs, r, h) == RepText(tabs, groups, h);
    forall g, p | 0 <= g < |r| && 0 <= p < |r[g]|
      ensures var t := TabText(tabs[r[g][p]]);
        (forall h :: 0 <= h < g ==> !similar(t, RepText(tabs, r, h)))
        && (p > 0 ==> similar(t, RepText(tabs, r, g)))
    {
      if g == g0 && p == |groups[g]| {
      } else {
        assert r[g][p] == groups[g][p];
      }
    }
  }

  lemma CreateFirstFit(tabs: seq<Tab>, groups: seq<seq<nat>>, i: nat, similar: (string, string) -> bool)
    requires i < |tabs| && NonEmpty(groups) && Bounded(groups, i)
    requires FirstFitHolds(tabs, groups, i, similar)
    requires forall h :: 0 <= h < |groups| ==> !similar(TabText(tabs[i]), RepText(tabs, groups, h))
    ensures var r := groups + [[i]];
      NonEmpty(r) && Bounded(r, i + 1) && FirstFitHolds(tabs, r, i + 1, similar)
  {
    var r := groups + [[i]];
    assert forall h :: 0 <= h < |groups| ==> RepText(tabs, r, h) == RepText(tabs, groups, h);
    forall g, p | 0 <= g < |r| && 0 <= p < |r[g]|
      ensures var t := TabText(tabs[r[g][p]]);
        (forall h :: 0 <= h < g ==> !similar(t, RepText(tabs, r, h)))
        && (p > 0 ==> similar(t, RepText(tabs, r, g)))
    {
      if g < |groups| {
        assert r[g][p] == groups[g][p];
      }
    }
  }

  // ---------------------------------------------------------------------------------------
  // The result as a whole

  /** The keys of the object are `group_1`, ..., `group_k` in creation order, so no two
      entries share a key. */
  lemma KeysDistinct(groups: seq<seq<nat>>)
    ensures forall g :: 0 <= g < |groups| ==> Keyed(groups)[g].key == GroupKey(g + 1)
    ensures forall g, h :: 0 <= g < |groups| && 0 <= h < |groups| && g != h ==>
      Keyed(groups)[g].key != Keyed(groups)[h].key
  {
    forall g, h | 0 <= g < |groups| && 0 <= h < |groups| && g != h
      ensures Keyed(groups)[g].key != Keyed(groups)[h].key
    {
      GroupKeyInjective(g + 1, h + 1);
    }
  }

  /** No tabs give the empty object; otherwise the first entry is `group_1` and starts with
      tab 0, and there are at most as many groups as tabs. */
  lemma FirstGroup(tabs: seq<Tab>, similar: (string, string) -> bool)
    ensures var r := Keyed(Grouping(tabs, |tabs|, similar));
      |r| <= |tabs|
      && (|tabs| == 0 ==> r == [])
      && (|tabs| > 0 ==> |r| > 0 && r[0].key == "group_1" && |r[0].members| > 0 && r[0].members[0] == 0)
  {
    var groups := Grouping(tabs, |tabs|, similar);
    if |tabs| > 0 {
      GroupingPartition(tabs, |tabs|, similar);
      GroupingOrdered(tabs, |tabs|, similar);
      assert Covers(groups, 0);
      var h :| 0 <= h < |groups| && 0 in groups[h];
      var p :| 0 <= p < |groups[h]| && groups[h][p] == 0;
      if groups[0][0] != 0 {
        assert false;
      }
    }
  }

  /** A tab with neither title nor url. */
  predicate Blank(t: Tab)
  {
    OrEmpty(t.title) == "" && OrEmpty(t.url) == ""
  }

  /** A blank tab's text is the single space, and only a blank tab's is. With a lower-casing
      that leaves the space alone, a blank tab never joins a group whose representative is
      blank: " " scores 0 against " ". */
  lemma BlankNeverJoinsBlank(lower: string -> string, t: Tab, rep: Tab)
    requires lower(" ") == " "
    ensures Blank(t) <==> TabText(t) == " "
    ensures Blank(t) && Blank(rep) ==> !Resembles(lower, TabText(t), TabText(rep))
  {
    if TabText(t) == " " {
      assert |OrEmpty(t.title)| + 1 + |OrEmpty(t.url)| == 1;
    }
    JoinsSelfIff(" ");
  }

  /** In the result, a group started by a blank tab holds no other blank tab. */
  lemma BlankTabsApart(tabs: seq<Tab>, lower: string -> string)
    requires lower(" ") == " "
    ensures var groups := Grouping(tabs, |tabs|, SourceTest(lower));
      NonEmpty(groups) && Bounded(groups, |tabs|)
    ensures var groups := Grouping(tabs, |tabs|, SourceTest(lower));
      forall g, p :: 0 <= g < |groups| && 0 < p < |groups[g]| && Blank(tabs[groups[g][0]])
        ==> !Blank(tabs[groups[g][p]])
  {
    var groups := Grouping(tabs, |tabs|, SourceTest(lower));
    GroupingFirstFit(tabs, |tabs|, SourceTest(lower));
    forall g, p | 0 <= g < |groups| && 0 < p < |groups[g]| && Blank(tabs[groups[g][0]])
      ensures !Blank(tabs[groups[g][p]])
    {
      BlankNeverJoinsBlank(lower, tabs[groups[g][p]], tabs[groups[g][0]]);
    }
  }

  /** The indices 0 .. n-1 in order. */
  function Indices(n: nat): (r: seq<nat>)
    ensures |r| == n && forall k :: 0 <= k < n ==> r[k] == k
  {
    seq(n, k requires 0 <= k < n => k)
  }

  /** Tabs that all have the same text, lower-cased to anything but a single character,
      form one group holding every tab. */
  lemma {:induction false} AllAlike(tabs: seq<Tab>, lower: string -> string, n: nat)
    requires 0 < n <= |tabs|
    requires forall k :: 0 <= k < |tabs| ==> TabText(tabs[k]) == TabText(tabs[0])
    requires |lower(TabText(tabs[0]))| != 1
    ensures Grouping(tabs, n, SourceTest(lower)) == [Indices(n)]
  {
    if n == 1 {
      assert Grouping(tabs, 0, SourceTest(lower)) == [];
      assert Indices(1) == [0];
    } else {
      AllAlike(tabs, lower, n - 1);
      var prev := Grouping(tabs, n - 1, SourceTest(lower));
      JoinsSelfIff(lower(TabText(tabs[0])));
      assert RepText(tabs, prev, 0) == TabText(tabs[0]);
      assert FirstFit(tabs, prev, TabText(tabs[n - 1]), SourceTest(lower), 0) == Some(0);
      assert Indices(n - 1) + [n - 1] == Indices(n);
    }
  }
}

/**
  The entourage page's grouping of its sections: a left fold that collects the
  sections into lists keyed by their group heading (or "Other"), followed by
  `Object.entries`, which lists the keys that are array indices first, in
  ascending numeric order, and every other key in the order it was created.
 */
module Entourage {
  import opened Optional

  /** One block of names on the page. An absent `ordered` or `columns` flag is false. */
  datatype Section = Section(
    key: string,
    title: string,
    items: seq<string>,
    ordered: bool,
    columns: bool,
    groupHeading: Option<string>)

  const Other: string := "Other"

  /** `section.groupHeading || 'Other'`. */
  function GroupKey(s: Section): (k: string)
    ensures k != ""
    ensures k == Other || (s.groupHeading == Some(k))
    ensures (s.groupHeading.None? || s.groupHeading == Some("")) ==> k == Other
    ensures s.groupHeading.Some? && s.groupHeading.value != "" ==> k == s.groupHeading.value
  {
    match s.groupHeading
    case Some(h) => if h == "" then Other else h
    case None => Other
  }

  /** The accumulator object: its own properties and the order in which they were created. */
  datatype Groups = Groups(lists: map<string, seq<Section>>, order: seq<string>)

  /**
    The reduce callback, with the accumulator read as a dictionary of its own
    properties: the section joins the end of its key's list, creating it when
    the key is new, and at most one key is added.
   */
  function Step(acc: Groups, s: Section): (r: Groups)
    ensures r.lists.Keys == acc.lists.Keys + {GroupKey(s)}
    ensures |r.lists[GroupKey(s)]| > 0 && r.lists[GroupKey(s)][|r.lists[GroupKey(s)]| - 1] == s
    ensures acc.order <= r.order && |r.order| <= |acc.order| + 1
  {
    var g := GroupKey(s);
    if g in acc.lists then Groups(acc.lists[g := acc.lists[g] + [s]], acc.order)
    else Groups(acc.lists[g := [s]], acc.order + [g])
  }

  /** `sections.reduce(step, {})`: at most one key per section, and the last section ends its key's list. */
  function Group(sections: seq<Section>): (r: Groups)
    ensures |r.order| <= |sections|
    ensures sections != [] ==> var k := GroupKey(sections[|sections| - 1]);
      k in r.lists && |r.lists[k]| > 0 && r.lists[k][|r.lists[k]| - 1] == sections[|sections| - 1]
  {
    if sections == [] then Groups(map[], [])
    else Step(Group(sections[..|sections| - 1]), sections[|sections| - 1])
  }

  // ---------------------------------------------------------------------------
  // Reference definitions: what the groups should be, independently of the fold.

  /** The sections whose key is `k`, in input order. */
  function Members(sections: seq<Section>, k: string): (r: seq<Section>)
    ensures |r| <= |sections|
  {
    if sections == [] then []
    else
      var prefix, last := sections[..|sections| - 1], sections[|sections| - 1];
      Members(prefix, k) + (if GroupKey(last) == k then [last] else [])
  }

  /** Where the first section with key `k` stands in the input, or the input's length when there is none. */
  function FirstIndex(sections: seq<Section>, k: string): (i: nat)
    ensures i <= |sections|
  {
    if sections == [] then 0
    else
      var prefix := sections[..|sections| - 1];
      var i := FirstIndex(prefix, k);
      if i < |prefix| then i
      else if GroupKey(sections[|sections| - 1]) == k then |sections| - 1
      else |sections|
  }

  /** `FirstIndex` finds the first section with key `k`: that section has it and none before it does. */
  lemma {:induction false} FirstIndexIsFirst(sections: seq<Section>, k: string)
    ensures var i := FirstIndex(sections, k);
      && (i < |sections| ==> GroupKey(sections[i]) == k)
      && (forall j :: 0 <= j < i && j < |sections| ==> GroupKey(sections[j]) != k)
  {
    if sections != [] {
      var prefix := sections[..|sections| - 1];
      FirstIndexIsFirst(prefix, k);
      assert forall j :: 0 <= j < |prefix| ==> sections[j] == prefix[j];
    }
  }

  /** Some section has key `k`. */
  predicate Occurs(sections: seq<Section>, k: string) {
    FirstIndex(sections, k) < |sections|
  }

  predicate Distinct(ks: seq<string>) {
    forall i, j :: 0 <= i < j < |ks| ==> ks[i] != ks[j]
  }

  /** The keys are listed by where their first section stands. */
  predicate InFirstAppearanceOrder(sections: seq<Section>, ks: seq<string>) {
    forall i, j :: 0 <= i < j < |ks| ==> FirstIndex(sections, ks[i]) < FirstIndex(sections, ks[j])
  }

  lemma {:induction false} MembersSnoc(prefix: seq<Section>, last: Section, k: string)
    ensures Members(prefix + [last], k) == Members(prefix, k) + (if GroupKey(last) == k then [last] else [])
  {
    var sections := prefix + [last];
    assert sections[..|sections| - 1] == prefix;
  }

  lemma {:induction false} FirstIndexSnoc(prefix: seq<Section>, last: Section, k: string)
    ensures FirstIndex(prefix + [last], k) ==
      if Occurs(prefix, k) then FirstIndex(prefix, k)
      else if GroupKey(last) == k then |prefix| else |prefix| + 1
  {
    var sections := prefix + [last];
    assert sections[..|sections| - 1] == prefix;
  }

  /** The group of `k` holds exactly the sections with key `k`, and is empty exactly when no section has that key. */
  lemma {:induction false} MembersAreThoseWithKey(sections: seq<Section>, k: string)
    ensures forall s :: s in Members(sections, k) <==> s in sections && GroupKey(s) == k
    ensures Members(sections, k) != [] <==> Occurs(sections, k)
  {
    if sections != [] {
      var prefix, last := sections[..|sections| - 1], sections[|sections| - 1];
      assert sections == prefix + [last];
      MembersAreThoseWithKey(prefix, k);
      FirstIndexSnoc(prefix, last, k);
      MembersSnoc(prefix, last, k);
    }
  }

  // ---------------------------------------------------------------------------
  // The fold builds exactly the reference groups.

  /** `acc` holds, for each key met in `sections`, the reference list of its sections, and its keys once each. */
  ghost predicate HoldsMembers(sections: seq<Section>, acc: Groups) {
    && (forall k :: k in acc.lists <==> Occurs(sections, k))
    && (forall k :: k in acc.lists ==> acc.lists[k] == Members(sections, k))
    && (forall k :: k in acc.order <==> k in acc.lists)
    && Distinct(acc.order)
  }

  /** The fold's accumulator holds, for each key met, the reference list of its sections, and its keys once each. */
  lemma {:induction false} GroupHoldsMembers(sections: seq<Section>)
    ensures var acc := Group(sections);
      && (forall k :: k in acc.lists <==> Occurs(sections, k))
      && (forall k :: k in acc.lists ==> acc.lists[k] == Members(sections, k))
      && (forall k :: k in acc.order <==> k in acc.lists)
      && Distinct(acc.order)
  {
    if sections != [] {
      var prefix, last := sections[..|sections| - 1], sections[|sections| - 1];
      assert sections == prefix + [last];
      GroupHoldsMembers(prefix);
      assert Group(sections) == Step(Group(prefix), last);
      StepHoldsMembers(prefix, last, Group(prefix));
    }
  }

  /** One step of the fold keeps the accumulator equal to the reference groups. */
  lemma StepHoldsMembers(prefix: seq<Section>, last: Section, acc: Groups)
    requires HoldsMembers(prefix, acc)
    ensures HoldsMembers(prefix + [last], Step(acc, last))
  {
    var sections := prefix + [last];
    assert sections[..|sections| - 1] == prefix && sections[|sections| - 1] == last;
    forall k
      ensures Members(sections, k) == Members(prefix, k) + (if GroupKey(last) == k then [last] else [])
      ensures Occurs(sections, k) <==> Occurs(prefix, k) || GroupKey(last) == k
    {
      MembersSnoc(prefix, last, k);
      FirstIndexSnoc(prefix, last, k);
      MembersAreThoseWithKey(prefix, k);
    }
    var g := GroupKey(last);
    if g !in acc.lists {
      MembersAreThoseWithKey(prefix, g);
      MembersSnoc(prefix, last, g);
      assert Members(prefix, g) == [];
      assert Members(sections, g) == [last];
      SnocDistinct(acc.order, g);
    }
  }

  /** The fold creates the keys in the order their first sections appear. */
  lemma {:induction false} GroupOrderIsFirstAppearance(sections: seq<Section>)
    ensures InFirstAppearanceOrder(sections, Group(sections).order)
  {
    if sections != [] {
      var prefix, last := sections[..|sections| - 1], sections[|sections| - 1];
      assert sections == prefix + [last];
      GroupOrderIsFirstAppearance(prefix);
      GroupHoldsMembers(prefix);
      assert Group(sections) == Step(Group(prefix), last);
      StepKeepsFirstAppearance(prefix, last, Group(prefix));
    }
  }

  /** One step of the fold keeps the keys in first-appearance order. */
  lemma StepKeepsFirstAppearance(prefix: seq<Section>, last: Section, acc: Groups)
    requires HoldsMembers(prefix, acc) && InFirstAppearanceOrder(prefix, acc.order)
    ensures InFirstAppearanceOrder(prefix + [last], Step(acc, last).order)
  {
    var sections := prefix + [last];
    var order := acc.order;
    forall k | k in order ensures FirstIndex(sections, k) == FirstIndex(prefix, k) < |prefix| {
      FirstIndexSnoc(prefix, last, k);
    }
    var g := GroupKey(last);
    if g !in acc.lists {
      FirstIndexSnoc(prefix, last, g);
      var order' := order + [g];
      assert Step(acc, last).order == order';
      forall i, j | 0 <= i < j < |order'|
        ensures FirstIndex(sections, order'[i]) < FirstIndex(sections, order'[j])
      {
        assert order'[i] == order[i] && order[i] in order;
        if j < |order| {
          assert order'[j] == order[j] && order[j] in order;
        }
      }
    } else {
      assert Step(acc, last).order == order;
      forall i, j | 0 <= i < j < |order|
        ensures FirstIndex(sections, order[i]) < FirstIndex(sections, order[j])
      {
        assert order[i] in order && order[j] in order;
      }
    }
  }

  // ---------------------------------------------------------------------------
  // `Object.entries`: array-index keys first, ascending; then the rest in creation order.

  predicate IsDigit(c: char) { '0' <= c <= '9' }

  /** The decimal value of a string of digits. */
  function DigitsValue(s: string): nat {
    if s == [] then 0
    else
      var c := s[|s| - 1];
      DigitsValue(s[..|s| - 1]) * 10 + (if IsDigit(c) then c as int - '0' as int else 0)
  }

  /** An array index: the canonical decimal form of an integer below 2^32 - 1. */
  predicate IsArrayIndex(s: string) {
    && s != []
    && (forall i :: 0 <= i < |s| ==> IsDigit(s[i]))
    && (s[0] == '0' ==> |s| == 1)
    && DigitsValue(s) < 0xFFFF_FFFF
  }

  /** The keys for which `p` holds, keeping their order; `p` selects array indices or the others. */
  function Select(ks: seq<string>, indices: bool): (r: seq<string>)
    ensures forall k :: k in r <==> k in ks && IsArrayIndex(k) == indices
    ensures Distinct(ks) ==> Distinct(r)
    ensures |r| <= |ks|
  {
    if ks == [] then []
    else
      var prefix, last := ks[..|ks| - 1], ks[|ks| - 1];
      assert ks == prefix + [last];
      var r := Select(prefix, indices);
      SnocDistinct(prefix, last);
      if IsArrayIndex(last) == indices then
        SnocDistinct(r, last);
        r + [last]
      else r
  }

  /** A list with one key appended is distinct exactly when the list is and the key is new. */
  lemma SnocDistinct(xs: seq<string>, x: string)
    ensures Distinct(xs + [x]) <==> Distinct(xs) && x !in xs
  {
    var ys := xs + [x];
    assert forall i :: 0 <= i < |xs| ==> ys[i] == xs[i];
    if x in xs {
      var i :| 0 <= i < |xs| && xs[i] == x;
      assert ys[i] == ys[|xs|];
    }
  }

  predicate SortedByValue(ks: seq<string>) {
    forall i, j :: 0 <= i < j < |ks| ==> DigitsValue(ks[i]) <= DigitsValue(ks[j])
  }

  /** A key no larger than any of a sorted list, put in front, keeps it sorted; one not in a distinct list keeps it distinct. */
  lemma ConsKeepsSortedDistinct(head: string, rest: seq<string>)
    ensures (forall x :: x in rest ==> DigitsValue(head) <= DigitsValue(x)) && SortedByValue(rest)
      ==> SortedByValue([head] + rest)
    ensures head !in rest && Distinct(rest) ==> Distinct([head] + rest)
  {
    var r := [head] + rest;
    assert forall i :: 1 <= i < |r| ==> r[i] == rest[i - 1];
    assert forall i :: 1 <= i < |r| ==> r[i] in rest;
  }

  /** The tail of a sorted, distinct list is sorted and distinct and lies above its head. */
  lemma TailKeepsSortedDistinct(sorted: seq<string>)
    ensures sorted != [] && SortedByValue(sorted) ==>
      SortedByValue(sorted[1..]) && forall x :: x in sorted ==> DigitsValue(sorted[0]) <= DigitsValue(x)
    ensures sorted != [] && Distinct(sorted) ==> Distinct(sorted[1..]) && sorted[0] !in sorted[1..]
  {
    if sorted != [] {
      var tail := sorted[1..];
      assert forall i :: 0 <= i < |tail| ==> tail[i] == sorted[i + 1];
    }
  }

  /** Inserts an array-index key into a list sorted by numeric value. */
  function InsertByValue(k: string, sorted: seq<string>): (r: seq<string>)
    requires SortedByValue(sorted)
    ensures |r| == |sorted| + 1
    ensures forall x :: x in r <==> x == k || x in sorted
    ensures SortedByValue(r)
    ensures Distinct(sorted) && k !in sorted ==> Distinct(r)
  {
    if sorted == [] || DigitsValue(k) <= DigitsValue(sorted[0]) then
      TailKeepsSortedDistinct(sorted);
      ConsKeepsSortedDistinct(k, sorted);
      [k] + sorted
    else
      var head, tail := sorted[0], sorted[1..];
      assert sorted == [head] + tail;
      TailKeepsSortedDistinct(sorted);
      var rest := InsertByValue(k, tail);
      ConsKeepsSortedDistinct(head, rest);
      [head] + rest
  }

  /** The array-index keys in ascending numeric order. */
  function SortByValue(ks: seq<string>): (r: seq<string>)
    ensures |r| == |ks|
    ensures forall x :: x in r <==> x in ks
    ensures SortedByValue(r)
    ensures Distinct(ks) ==> Distinct(r)
  {
    if ks == [] then []
    else
      var prefix, last := ks[..|ks| - 1], ks[|ks| - 1];
      assert ks == prefix + [last];
      SnocDistinct(prefix, last);
      InsertByValue(last, SortByValue(prefix))
  }

  /** The order in which `Object.entries` lists the own keys created in `order`. */
  function EntryOrder(order: seq<string>): (r: seq<string>)
    ensures forall k :: k in r <==> k in order
    ensures Distinct(order) ==> Distinct(r)
  {
    var indices, others := SortByValue(Select(order, true)), Select(order, false);
    var r := indices + others;
    assert Distinct(order) ==> Distinct(r) by {
      if Distinct(order) {
        forall i, j | 0 <= i < j < |r| ensures r[i] != r[j] {
          if j < |indices| {
            assert r[i] == indices[i] && r[j] == indices[j];
          } else if i >= |indices| {
            assert r[i] == others[i - |indices|] && r[j] == others[j - |indices|];
          } else {
            assert r[i] in indices && r[j] in others;
          }
        }
      }
    }
    r
  }

  /** In `Object.entries` order, array-index keys come first, ascending, and the other keys keep their creation order. */
  lemma EntryOrderShape(order: seq<string>)
    ensures var r := EntryOrder(order);
      && (forall i, j :: 0 <= i < j < |r| && IsArrayIndex(r[j]) ==>
            IsArrayIndex(r[i]) && DigitsValue(r[i]) <= DigitsValue(r[j]))
      && r[|r| - |Select(order, false)|..] == Select(order, false)
      && (forall i :: 0 <= i < |r| - |Select(order, false)| ==> IsArrayIndex(r[i]))
  {
    var indices, others := SortByValue(Select(order, true)), Select(order, false);
    var r := indices + others;
    assert r[|indices|..] == others;
    forall i, j | 0 <= i < j < |r| && IsArrayIndex(r[j])
      ensures IsArrayIndex(r[i]) && DigitsValue(r[i]) <= DigitsValue(r[j])
    {
      assert r[i] == indices[i] && r[j] == indices[j];
      assert r[i] in indices;
    }
    forall i | 0 <= i < |indices| ensures IsArrayIndex(r[i]) {
      assert r[i] == indices[i];
      assert r[i] in indices;
    }
  }

  /**
    `Object.entries(grouped)`: every key created on the accumulator, paired
    with its own list, each key listed once when the keys were created once.
   */
  function Entries(acc: Groups): (e: seq<(string, seq<Section>)>)
    requires forall k :: k in acc.order ==> k in acc.lists
    ensures forall k :: k in Keys(e) <==> k in acc.order
    ensures forall i :: 0 <= i < |e| ==> e[i].0 in acc.order && e[i].1 == acc.lists[e[i].0]
    ensures Distinct(acc.order) ==> Distinct(Keys(e))
  {
    var ks := EntryOrder(acc.order);
    var e := seq(|ks|, i requires 0 <= i < |ks| => (ks[i], acc.lists[ks[i]]));
    assert Keys(e) == ks;
    e
  }

  /** The group list the page renders: it is empty exactly when there are no sections. */
  function GroupEntries(sections: seq<Section>): (e: seq<(string, seq<Section>)>)
    ensures e == [] <==> sections == []
  {
    GroupHoldsMembers(sections);
    var acc := Group(sections);
    assert sections != [] ==> GroupKey(sections[|sections| - 1]) in EntryOrder(acc.order);
    Entries(acc)
  }

  // ---------------------------------------------------------------------------
  // What the page gets.

  /** Every section lands in exactly one group, the one for its key, and each group keeps input order. */
  lemma GroupEntriesPartition(sections: seq<Section>)
    ensures var e := GroupEntries(sections);
      && (forall i, j :: 0 <= i < j < |e| ==> e[i].0 != e[j].0)
      && (forall i :: 0 <= i < |e| ==> e[i].1 == Members(sections, e[i].0) && e[i].1 != [])
      && (forall s :: s in sections ==> exists i :: 0 <= i < |e| && e[i].0 == GroupKey(s))
  {
    GroupHoldsMembers(sections);
    EntriesPartition(sections, Group(sections));
  }

  /** `Object.entries` of an accumulator holding the reference groups lists each of them once. */
  lemma EntriesPartition(sections: seq<Section>, acc: Groups)
    requires HoldsMembers(sections, acc)
    ensures var e := Entries(acc);
      && (forall i, j :: 0 <= i < j < |e| ==> e[i].0 != e[j].0)
      && (forall i :: 0 <= i < |e| ==> e[i].1 == Members(sections, e[i].0) && e[i].1 != [])
      && (forall s :: s in sections ==> exists i :: 0 <= i < |e| && e[i].0 == GroupKey(s))
  {
    EntriesKeys(acc);
    var e := Entries(acc);
    var ks := EntryOrder(acc.order);
    assert Keys(e) == ks;
    forall i | 0 <= i < |e| ensures e[i].1 == Members(sections, e[i].0) && e[i].1 != [] {
      assert e[i].0 == ks[i];
      MembersAreThoseWithKey(sections, e[i].0);
    }
    forall s | s in sections ensures exists i :: 0 <= i < |e| && e[i].0 == GroupKey(s) {
      MembersAreThoseWithKey(sections, GroupKey(s));
      var i :| 0 <= i < |ks| && ks[i] == GroupKey(s);
      assert e[i].0 == Keys(e)[i];
    }
    forall i, j | 0 <= i < j < |e| ensures e[i].0 != e[j].0 {
      assert e[i].0 == ks[i] && e[j].0 == ks[j];
    }
  }

  /** The groups hold as many sections, in all, as the input. */
  lemma GroupEntriesCount(sections: seq<Section>)
    ensures TotalSize(GroupEntries(sections)) == |sections|
  {
    var e := GroupEntries(sections);
    GroupEntriesPartition(sections);
    var ks := seq(|e|, i requires 0 <= i < |e| => e[i].0);
    assert TotalSize(e) == MemberCount(sections, ks) by {
      SizesAreMemberCounts(sections, e, ks);
    }
    forall s | s in sections ensures GroupKey(s) in ks {
      var i :| 0 <= i < |e| && e[i].0 == GroupKey(s);
      assert ks[i] == GroupKey(s);
    }
    MemberCountCovers(sections, ks);
  }

  /** Array-index keys come first, in ascending numeric order; every other key follows in order of first appearance. */
  lemma GroupEntriesOrder(sections: seq<Section>)
    ensures var ks := Keys(GroupEntries(sections));
      && (forall k :: k in ks ==> Occurs(sections, k))
      && (forall i, j :: 0 <= i < j < |ks| && IsArrayIndex(ks[j]) ==>
            IsArrayIndex(ks[i]) && DigitsValue(ks[i]) <= DigitsValue(ks[j]))
      && (forall i, j :: 0 <= i < j < |ks| && !IsArrayIndex(ks[i]) && !IsArrayIndex(ks[j]) ==>
            FirstIndex(sections, ks[i]) < FirstIndex(sections, ks[j]))
  {
    GroupHoldsMembers(sections);
    GroupOrderIsFirstAppearance(sections);
    var order := Group(sections).order;
    EntryOrderShape(order);
    EntryOrderKeepsFirstAppearance(sections, order);
    EntriesKeys(Group(sections));
  }

  /** The group names of an entry list, in order. */
  function Keys(e: seq<(string, seq<Section>)>): seq<string> {
    seq(|e|, i requires 0 <= i < |e| => e[i].0)
  }

  /** `Object.entries` lists each key with its own list, in the entry order of the keys. */
  lemma EntriesKeys(acc: Groups)
    requires forall k :: k in acc.order ==> k in acc.lists
    ensures Keys(Entries(acc)) == EntryOrder(acc.order)
    ensures forall i :: 0 <= i < |Entries(acc)| ==> Entries(acc)[i].1 == acc.lists[Entries(acc)[i].0]
  {
  }

  /** `Object.entries` order keeps the non-index keys in first-appearance order. */
  lemma EntryOrderKeepsFirstAppearance(sections: seq<Section>, order: seq<string>)
    requires InFirstAppearanceOrder(sections, order)
    ensures var ks := EntryOrder(order);
      forall i, j :: 0 <= i < j < |ks| && !IsArrayIndex(ks[i]) && !IsArrayIndex(ks[j]) ==>
        FirstIndex(sections, ks[i]) < FirstIndex(sections, ks[j])
  {
    var ks := EntryOrder(order);
    var indices, others := SortByValue(Select(order, true)), Select(order, false);
    assert ks == indices + others;
    SelectKeepsFirstAppearance(sections, order);
    var n := |indices|;
    forall i | 0 <= i < |ks| && !IsArrayIndex(ks[i]) ensures n <= i && ks[i] == others[i - n] {
    }
  }

  /** Keeping only the non-index keys keeps them in first-appearance order. */
  lemma {:induction false} SelectKeepsFirstAppearance(sections: seq<Section>, ks: seq<string>)
    requires InFirstAppearanceOrder(sections, ks)
    ensures InFirstAppearanceOrder(sections, Select(ks, false))
  {
    if ks != [] {
      var prefix, last := ks[..|ks| - 1], ks[|ks| - 1];
      assert ks == prefix + [last];
      OrderSplits(sections, prefix, last);
      SelectKeepsFirstAppearance(sections, prefix);
      if !IsArrayIndex(last) {
        OrderSnoc(sections, Select(prefix, false), last);
      }
    }
  }

  /** A list in first-appearance order stays so without its last key, and that key appears after all the others. */
  lemma OrderSplits(sections: seq<Section>, prefix: seq<string>, last: string)
    requires InFirstAppearanceOrder(sections, prefix + [last])
    ensures InFirstAppearanceOrder(sections, prefix)
    ensures forall x :: x in prefix ==> FirstIndex(sections, x) < FirstIndex(sections, last)
  {
    var ks := prefix + [last];
    assert forall i :: 0 <= i < |prefix| ==> ks[i] == prefix[i];
    assert ks[|prefix|] == last;
  }

  /** Appending a key that appears after all the others keeps first-appearance order. */
  lemma OrderSnoc(sections: seq<Section>, r: seq<string>, last: string)
    requires InFirstAppearanceOrder(sections, r)
    requires forall x :: x in r ==> FirstIndex(sections, x) < FirstIndex(sections, last)
    ensures InFirstAppearanceOrder(sections, r + [last])
  {
    var r' := r + [last];
    assert forall i :: 0 <= i < |r| ==> r'[i] == r[i] && r[i] in r;
  }

  // ---------------------------------------------------------------------------
  // Counting.

  function TotalSize(e: seq<(string, seq<Section>)>): nat {
    if e == [] then 0 else TotalSize(e[..|e| - 1]) + |e[|e| - 1].1|
  }

  /** How many sections belong to the keys `ks`, counted key by key. */
  function MemberCount(sections: seq<Section>, ks: seq<string>): nat {
    if ks == [] then 0 else MemberCount(sections, ks[..|ks| - 1]) + |Members(sections, ks[|ks| - 1])|
  }

  lemma {:induction false} SizesAreMemberCounts(sections: seq<Section>, e: seq<(string, seq<Section>)>, ks: seq<string>)
    requires |ks| == |e|
    requires forall i :: 0 <= i < |e| ==> ks[i] == e[i].0 && e[i].1 == Members(sections, e[i].0)
    ensures TotalSize(e) == MemberCount(sections, ks)
  {
    if e != [] {
      SizesAreMemberCounts(sections, e[..|e| - 1], ks[..|ks| - 1]);
    }
  }

  /** Adding one section adds one to the count of a list of distinct keys that holds its key. */
  lemma {:induction false} MemberCountSnoc(prefix: seq<Section>, last: Section, ks: seq<string>)
    requires Distinct(ks)
    ensures MemberCount(prefix + [last], ks) == MemberCount(prefix, ks) + (if GroupKey(last) in ks then 1 else 0)
  {
    if ks != [] {
      var init, k := ks[..|ks| - 1], ks[|ks| - 1];
      assert ks == init + [k];
      assert GroupKey(last) in ks <==> GroupKey(last) in init || GroupKey(last) == k;
      assert k == GroupKey(last) ==> GroupKey(last) !in init;
      MemberCountSnoc(prefix, last, init);
      MembersSnoc(prefix, last, k);
    }
  }

  /** Distinct keys that cover every section's key count every section once. */
  lemma {:induction false} MemberCountCovers(sections: seq<Section>, ks: seq<string>)
    requires Distinct(ks)
    requires forall s :: s in sections ==> GroupKey(s) in ks
    ensures MemberCount(sections, ks) == |sections|
  {
    if sections == [] {
      MemberCountEmpty(ks);
    } else {
      var prefix, last := sections[..|sections| - 1], sections[|sections| - 1];
      assert sections == prefix + [last];
      MemberCountCovers(prefix, ks);
      MemberCountSnoc(prefix, last, ks);
    }
  }

  lemma {:induction false} MemberCountEmpty(ks: seq<string>)
    ensures MemberCount([], ks) == 0
  {
    if ks != [] {
      MemberCountEmpty(ks[..|ks| - 1]);
    }
  }

  // ---------------------------------------------------------------------------
  // The reduce as written, over a plain `{}` accumulator.

  /** The names a plain object inherits from `Object.prototype`. */
  const InheritedNames: set<string> := {
    "constructor", "__defineGetter__", "__defineSetter__", "hasOwnProperty",
    "__lookupGetter__", "__lookupSetter__", "isPrototypeOf", "propertyIsEnumerable",
    "toString", "valueOf", "__proto__", "toLocaleString"
  }

  datatype Outcome = Done(groups: Groups) | TypeError

  /**
    The reduce callback on a plain object: for a key that is not an own property
    but is inherited, `acc[group]` is truthy, so no list is created, and the
    inherited member has no `push` to call.
   */
  function StepAsWritten(acc: Groups, s: Section): (o: Outcome)
    ensures o == TypeError <==> GroupKey(s) !in acc.lists && GroupKey(s) in InheritedNames
    ensures o.Done? ==> o.groups == Step(acc, s)
  {
    var g := GroupKey(s);
    if g in acc.lists then Done(Step(acc, s))
    else if g in InheritedNames then TypeError
    else Done(Step(acc, s))
  }

  /**
    `sections.reduce(step, {})` on a plain object: when it completes it builds
    the dictionary fold, and it throws only on a section whose key is inherited.
   */
  function GroupAsWritten(sections: seq<Section>): (o: Outcome)
    ensures o.Done? ==> o.groups == Group(sections)
    ensures o == TypeError ==> exists i :: 0 <= i < |sections| && GroupKey(sections[i]) in InheritedNames
  {
    if sections == [] then Done(Groups(map[], []))
    else
      var prefix := sections[..|sections| - 1];
      match GroupAsWritten(prefix)
      case TypeError =>
        assert forall i :: 0 <= i < |prefix| ==> prefix[i] == sections[i];
        TypeError
      case Done(acc) => StepAsWritten(acc, sections[|sections| - 1])
  }

  /** A single section headed "constructor" makes the page's reduce throw. */
  lemma ConstructorHeadingThrows(s: Section)
    requires s.groupHeading == Some("constructor")
    ensures GroupAsWritten([s]) == TypeError
  {
    assert [s][..0] == [];
  }

  /** Any section, at any position, whose key is an inherited name makes the reduce as written throw. */
  lemma {:induction false} InheritedHeadingThrows(sections: seq<Section>, i: nat)
    requires i < |sections| && GroupKey(sections[i]) in InheritedNames
    ensures GroupAsWritten(sections) == TypeError
  {
    var prefix := sections[..|sections| - 1];
    if i < |prefix| {
      assert prefix[i] == sections[i];
      InheritedHeadingThrows(prefix, i);
    } else if exists j :: 0 <= j < |prefix| && GroupKey(prefix[j]) in InheritedNames {
      var j :| 0 <= j < |prefix| && GroupKey(prefix[j]) in InheritedNames;
      InheritedHeadingThrows(prefix, j);
    } else {
      forall s | s in prefix ensures GroupKey(s) !in InheritedNames {
        var j :| 0 <= j < |prefix| && prefix[j] == s;
      }
      AsWrittenAgreesWithoutInheritedNames(prefix);
      KeyNotCreated(prefix, GroupKey(sections[i]));
    }
  }

  /** A key no section carries has no list in the fold. */
  lemma KeyNotCreated(sections: seq<Section>, k: string)
    requires forall j :: 0 <= j < |sections| ==> GroupKey(sections[j]) != k
    ensures k !in Group(sections).lists
  {
    FirstIndexIsFirst(sections, k);
    GroupHoldsMembers(sections);
  }

  /** When no key is an inherited name, the reduce as written builds exactly the dictionary fold. */
  lemma {:induction false} AsWrittenAgreesWithoutInheritedNames(sections: seq<Section>)
    requires forall s :: s in sections ==> GroupKey(s) !in InheritedNames
    ensures GroupAsWritten(sections) == Done(Group(sections))
  {
    if sections != [] {
      var prefix := sections[..|sections| - 1];
      assert forall s :: s in prefix ==> s in sections;
      AsWrittenAgreesWithoutInheritedNames(prefix);
    }
  }
}

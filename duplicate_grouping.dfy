/** How one block definition's direct block references are grouped into
    duplicates (AcadLib/Blocks/Dublicate/CheckDublicateBlocks.cs, lines
    80-86): `GroupBy(g => g)`, keep the groups of more than one member,
    take each group's first member and set its CountDublic to the group's
    size.

    A BlockRefDublicateInfo is seen here through what its equality compares,
    the `key`; two infos are "equal" for GroupBy exactly when their keys are
    equal. GroupBy is modelled as LINQ enumerates it: one pass over the
    infos, appending each to the group of its key or opening a new group at
    the end. */
module DuplicateGrouping {
  import opened AcadTypes

  /** A BlockRefDublicateInfo: the block reference it describes and the
      value its Equals compares. */
  datatype RefInfo<K> = RefInfo(idBlRef: ObjectId, key: K)

  /** A group's first member with its CountDublic set to the group size. */
  datatype DuplicateGroup<K> = DuplicateGroup(first: RefInfo<K>, countDublic: nat)

  ghost predicate NoDuplicateKeys<K>(ks: seq<K>)
  {
    forall a, b :: 0 <= a < b < |ks| ==> ks[a] != ks[b]
  }

  /** The infos whose key is `k`, in enumeration order: the siblings that
      compare equal to an info with that key. */
  function WithKey<K(==)>(xs: seq<RefInfo<K>>, k: K): (g: seq<RefInfo<K>>)
    ensures forall i :: 0 <= i < |g| ==> g[i].key == k
    ensures forall i :: 0 <= i < |xs| && xs[i].key == k ==> xs[i] in g
    decreases |xs|
  {
    if xs == [] then []
    else
      var init := xs[..|xs| - 1];
      assert forall i :: 0 <= i < |xs| - 1 ==> xs[i] == init[i];
      WithKey(init, k) + (if xs[|xs| - 1].key == k then [xs[|xs| - 1]] else [])
  }

  /** The position of the first info with key `k`, or |xs| if there is
      none. */
  function FirstIndex<K(==)>(xs: seq<RefInfo<K>>, k: K): (i: nat)
    ensures i <= |xs|
    ensures i < |xs| ==> xs[i].key == k
    ensures forall j :: 0 <= j < i && j < |xs| ==> xs[j].key != k
    decreases |xs|
  {
    if xs == [] then 0
    else
      var init := xs[..|xs| - 1];
      var f := FirstIndex(init, k);
      if f < |init| then f
      else if xs[|xs| - 1].key == k then |init|
      else |xs|
  }

  /** The distinct keys of `xs`, in order of first occurrence. */
  function KeysInOrder<K(==)>(xs: seq<RefInfo<K>>): (ks: seq<K>)
    decreases |xs|
  {
    if xs == [] then []
    else
      var ks := KeysInOrder(xs[..|xs| - 1]);
      if xs[|xs| - 1].key in ks then ks else ks + [xs[|xs| - 1].key]
  }

  /** Adds one info to the groups built so far (one step of GroupBy). */
  function AddToGroups<K(==)>(groups: seq<seq<RefInfo<K>>>, x: RefInfo<K>): (gs: seq<seq<RefInfo<K>>>)
    ensures |groups| <= |gs| <= |groups| + 1
    ensures |gs| == |groups| + 1 ==> gs[|groups|] == [x]
    decreases |groups|
  {
    if groups == [] then [[x]]
    else if groups[0] != [] && groups[0][0].key == x.key then [groups[0] + [x]] + groups[1..]
    else [groups[0]] + AddToGroups(groups[1..], x)
  }

  /** `infos.GroupBy(g => g)`. */
  function GroupBy<K(==)>(xs: seq<RefInfo<K>>): (gs: seq<seq<RefInfo<K>>>)
    ensures |gs| <= |xs|
    decreases |xs|
  {
    if xs == [] then []
    else AddToGroups(GroupBy(xs[..|xs| - 1]), xs[|xs| - 1])
  }

  /** `.Where(b => b.Count() > 1).Select(s => first with CountDublic = s.Count())`. */
  function SelectDuplicates<K>(groups: seq<seq<RefInfo<K>>>): (ds: seq<DuplicateGroup<K>>)
    ensures |ds| <= |groups|
    ensures forall i :: 0 <= i < |ds| ==> ds[i].countDublic >= 2
    decreases |groups|
  {
    if groups == [] then []
    else
      (if |groups[0]| > 1 then [DuplicateGroup(groups[0][0], |groups[0]|)] else [])
      + SelectDuplicates(groups[1..])
  }

  /** The duplicates found among one definition's block references. */
  function Duplicates<K(==)>(xs: seq<RefInfo<K>>): (ds: seq<DuplicateGroup<K>>)
    ensures |ds| <= |xs|
    ensures forall i :: 0 <= i < |ds| ==> ds[i].countDublic >= 2
  {
    SelectDuplicates(GroupBy(xs))
  }

  // ---------------------------------------------------------------------
  // Properties

  /** The keys are listed once each, exactly the keys present, in the order
      of their first occurrence. */
  lemma {:induction false} KeysInOrderFacts<K>(xs: seq<RefInfo<K>>)
    ensures NoDuplicateKeys(KeysInOrder(xs))
    ensures forall k :: k in KeysInOrder(xs) <==> FirstIndex(xs, k) < |xs|
    ensures forall a, b :: 0 <= a < b < |KeysInOrder(xs)| ==>
              FirstIndex(xs, KeysInOrder(xs)[a]) < FirstIndex(xs, KeysInOrder(xs)[b])
    decreases |xs|
  {
    if xs != [] {
      var init := xs[..|xs| - 1];
      KeysInOrderFacts(init);
      var x := xs[|xs| - 1];
      var ks := KeysInOrder(init);
      forall k | k in ks ensures FirstIndex(xs, k) == FirstIndex(init, k) {
        assert FirstIndex(init, k) < |init|;
      }
      if x.key !in ks {
        assert FirstIndex(xs, x.key) == |init|;
      }
    }
  }

  /** The group of a key is non-empty exactly when the key occurs, and it
      starts with the key's first occurrence. */
  lemma {:induction false} WithKeyFirst<K>(xs: seq<RefInfo<K>>, k: K)
    ensures WithKey(xs, k) != [] <==> FirstIndex(xs, k) < |xs|
    ensures WithKey(xs, k) != [] ==> WithKey(xs, k)[0] == xs[FirstIndex(xs, k)]
    decreases |xs|
  {
    if xs != [] {
      WithKeyFirst(xs[..|xs| - 1], k);
    }
  }

  lemma {:induction false} AddToGroupsShape<K>(gs: seq<seq<RefInfo<K>>>, ks: seq<K>, x: RefInfo<K>)
    requires |gs| == |ks| && NoDuplicateKeys(ks)
    requires forall j :: 0 <= j < |gs| ==> gs[j] != [] && gs[j][0].key == ks[j]
    ensures x.key !in ks ==> AddToGroups(gs, x) == gs + [[x]]
    ensures forall m :: 0 <= m < |ks| && ks[m] == x.key ==> AddToGroups(gs, x) == gs[m := gs[m] + [x]]
    decreases |gs|
  {
    if gs != [] && gs[0][0].key != x.key {
      AddToGroupsShape(gs[1..], ks[1..], x);
      assert gs == [gs[0]] + gs[1..];
      forall m | 0 <= m < |ks| && ks[m] == x.key
        ensures AddToGroups(gs, x) == gs[m := gs[m] + [x]]
      {
        assert m > 0 && ks[1..][m - 1] == x.key;
        assert gs[m := gs[m] + [x]] == [gs[0]] + gs[1..][m - 1 := gs[1..][m - 1] + [x]];
      }
    } else if gs != [] {
      forall m | 0 <= m < |ks| && ks[m] == x.key
        ensures AddToGroups(gs, x) == gs[m := gs[m] + [x]]
      {
        assert m == 0;
      }
    }
  }

  /** GroupBy yields one group per distinct key, in order of first
      occurrence, each holding exactly the infos with that key in order. */
  lemma {:induction false} GroupByShape<K>(xs: seq<RefInfo<K>>)
    ensures |GroupBy(xs)| == |KeysInOrder(xs)|
    ensures forall j :: 0 <= j < |GroupBy(xs)| ==> GroupBy(xs)[j] == WithKey(xs, KeysInOrder(xs)[j])
    decreases |xs|
  {
    if xs != [] {
      var init := xs[..|xs| - 1];
      var x := xs[|xs| - 1];
      GroupByShape(init);
      KeysInOrderFacts(init);
      var gs: seq<seq<RefInfo<K>>>, ks: seq<K> := GroupBy(init), KeysInOrder(init);
      forall j | 0 <= j < |gs| ensures gs[j] != [] && gs[j][0].key == ks[j] {
        assert ks[j] in ks;
        WithKeyFirst(init, ks[j]);
        assert gs[j] == WithKey(init, ks[j]);
      }
      AddToGroupsShape(gs, ks, x);
      assert GroupBy(xs) == AddToGroups(gs, x);
      if x.key !in ks {
        assert KeysInOrder(xs) == ks + [x.key];
        assert GroupBy(xs) == gs + [[x]];
        forall j | 0 <= j < |gs| + 1 ensures GroupBy(xs)[j] == WithKey(xs, KeysInOrder(xs)[j]) {
          if j < |gs| {
            assert ks[j] in ks;
            assert WithKey(xs, ks[j]) == WithKey(init, ks[j]);
          } else {
            WithKeyFirst(init, x.key);
            assert WithKey(xs, x.key) == [x];
          }
        }
      } else {
        var m :| 0 <= m < |ks| && ks[m] == x.key;
        assert KeysInOrder(xs) == ks;
        assert GroupBy(xs) == gs[m := gs[m] + [x]];
        forall j | 0 <= j < |gs| ensures GroupBy(xs)[j] == WithKey(xs, ks[j]) {
          if j == m {
            assert WithKey(xs, ks[j]) == WithKey(init, ks[j]) + [x];
          } else {
            assert ks[j] != x.key;
            assert WithKey(xs, ks[j]) == WithKey(init, ks[j]);
          }
        }
      }
    }
  }

  /** The group that entry `i` of SelectDuplicates(gs) comes from. */
  ghost function SourceGroup<K>(gs: seq<seq<RefInfo<K>>>, i: nat): (a: nat)
    requires i < |SelectDuplicates(gs)|
    ensures a < |gs| && |gs[a]| > 1
    ensures SelectDuplicates(gs)[i] == DuplicateGroup(gs[a][0], |gs[a]|)
    decreases |gs|
  {
    if |gs[0]| > 1 then
      if i == 0 then 0 else 1 + SourceGroup(gs[1..], i - 1)
    else 1 + SourceGroup(gs[1..], i)
  }

  /** SelectDuplicates keeps the order of the groups it selects from. */
  lemma {:induction false} SourceGroupAscending<K>(gs: seq<seq<RefInfo<K>>>, i: nat, j: nat)
    requires i < j < |SelectDuplicates(gs)|
    ensures SourceGroup(gs, i) < SourceGroup(gs, j)
    decreases |gs|
  {
    if |gs[0]| > 1 {
      if i > 0 {
        SourceGroupAscending(gs[1..], i - 1, j - 1);
      }
    } else {
      SourceGroupAscending(gs[1..], i, j);
    }
  }

  /** Every group of more than one member is selected. */
  lemma {:induction false} SelectDuplicatesComplete<K>(gs: seq<seq<RefInfo<K>>>, a: nat)
    requires a < |gs| && |gs[a]| > 1
    ensures DuplicateGroup(gs[a][0], |gs[a]|) in SelectDuplicates(gs)
    decreases |gs|
  {
    if a > 0 {
      assert gs[1..][a - 1] == gs[a];
      SelectDuplicatesComplete(gs[1..], a - 1);
    }
  }

  /** The duplicates' representatives occur in `xs` in strictly increasing
      positions: the order of first occurrence of their keys. */
  ghost predicate InFirstOccurrenceOrder<K>(xs: seq<RefInfo<K>>, ds: seq<DuplicateGroup<K>>)
  {
    forall i, j :: 0 <= i < j < |ds| ==>
      FirstIndex(xs, ds[i].first.key) < FirstIndex(xs, ds[j].first.key)
  }

  /** GroupBy's groups are the non-empty runs of each key, first members
      first. */
  lemma GroupsKeyed<K>(xs: seq<RefInfo<K>>)
    ensures |GroupBy(xs)| == |KeysInOrder(xs)|
    ensures forall a :: 0 <= a < |GroupBy(xs)| ==>
              && GroupBy(xs)[a] == WithKey(xs, KeysInOrder(xs)[a])
              && GroupBy(xs)[a] != []
              && GroupBy(xs)[a][0].key == KeysInOrder(xs)[a]
              && FirstIndex(xs, KeysInOrder(xs)[a]) < |xs|
              && GroupBy(xs)[a][0] == xs[FirstIndex(xs, KeysInOrder(xs)[a])]
    ensures forall k :: k in KeysInOrder(xs) <==> FirstIndex(xs, k) < |xs|
  {
    var gs: seq<seq<RefInfo<K>>>, ks: seq<K> := GroupBy(xs), KeysInOrder(xs);
    GroupByShape(xs);
    KeysInOrderFacts(xs);
    forall a | 0 <= a < |gs|
      ensures gs[a] != [] && gs[a][0].key == ks[a]
      ensures FirstIndex(xs, ks[a]) < |xs| && gs[a][0] == xs[FirstIndex(xs, ks[a])]
    {
      assert ks[a] in ks;
      WithKeyFirst(xs, ks[a]);
    }
  }

  /** Every duplicate entry has CountDublic >= 2, equal to the number of
      sibling infos with its key, and is the first of those siblings. */
  lemma DuplicateEntries<K>(xs: seq<RefInfo<K>>)
    ensures forall d :: d in Duplicates(xs) ==>
              && d.countDublic >= 2
              && d.countDublic == |WithKey(xs, d.first.key)|
              && FirstIndex(xs, d.first.key) < |xs|
              && d.first == xs[FirstIndex(xs, d.first.key)]
  {
    var gs, ds := GroupBy(xs), Duplicates(xs);
    GroupsKeyed(xs);
    forall d | d in ds
      ensures d.countDublic >= 2 && d.countDublic == |WithKey(xs, d.first.key)|
      ensures FirstIndex(xs, d.first.key) < |xs| && d.first == xs[FirstIndex(xs, d.first.key)]
    {
      var i :| 0 <= i < |ds| && ds[i] == d;
      var a := SourceGroup(gs, i);
    }
  }

  /** A key is reported exactly when at least two siblings carry it: a
      sibling with a unique key produces no entry. */
  lemma DuplicatesExactlyRepeatedKeys<K>(xs: seq<RefInfo<K>>)
    ensures forall i :: 0 <= i < |xs| ==>
              ((exists d :: d in Duplicates(xs) && d.first.key == xs[i].key) <==> |WithKey(xs, xs[i].key)| >= 2)
  {
    var gs, ks, ds := GroupBy(xs), KeysInOrder(xs), Duplicates(xs);
    GroupsKeyed(xs);
    forall i | 0 <= i < |xs|
      ensures (exists d :: d in ds && d.first.key == xs[i].key) <==> |WithKey(xs, xs[i].key)| >= 2
    {
      var k := xs[i].key;
      assert FirstIndex(xs, k) <= i;
      var a :| 0 <= a < |ks| && ks[a] == k;
      if |WithKey(xs, k)| >= 2 {
        SelectDuplicatesComplete(gs, a);
        assert DuplicateGroup(gs[a][0], |gs[a]|) in ds;
      }
      if exists d :: d in ds && d.first.key == k {
        var d :| d in ds && d.first.key == k;
        var j :| 0 <= j < |ds| && ds[j] == d;
        var b := SourceGroup(gs, j);
        assert ks[b] == k;
      }
    }
  }

  /** The entries come in order of the first occurrence of their keys, so
      no key is reported twice. */
  lemma DuplicatesOrdered<K>(xs: seq<RefInfo<K>>)
    ensures InFirstOccurrenceOrder(xs, Duplicates(xs))
  {
    var gs, ks, ds := GroupBy(xs), KeysInOrder(xs), Duplicates(xs);
    GroupsKeyed(xs);
    KeysInOrderFacts(xs);
    forall i, j | 0 <= i < j < |ds|
      ensures FirstIndex(xs, ds[i].first.key) < FirstIndex(xs, ds[j].first.key)
    {
      SourceGroupAscending(gs, i, j);
      var a, b := SourceGroup(gs, i), SourceGroup(gs, j);
      assert ds[i].first.key == ks[a] && ds[j].first.key == ks[b];
    }
  }
}

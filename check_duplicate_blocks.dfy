/** The check for overlapping (duplicate) block references
    (AcadLib/Blocks/Dublicate/CheckDublicateBlocks.cs).

    Starting from model space with the identity transform, the check walks
    the block definitions. In each definition it collects the direct block
    references, groups them (module DuplicateGrouping) and appends every
    group of more than one, carried into model space, to one result list.
    Then it descends into the referenced definitions. Three rules keep the
    walk bounded: a definition is analysed at most once per run; a single
    counter, `curDepth`, that is reset once per run and raised once per
    expanded definition, stops the descent once it reaches DEPTH (so it is
    a budget of expansions, not a nesting depth); and an exception while
    reading any definition aborts the run, which then reports nothing.

    The drawing database is a map from a block definition's id to its
    entities in enumeration order; opening an id that is not in the map is
    the exception. The static fields of the source are the fields of one
    DuplicateBlocksChecker object. */
module DuplicateBlocks {
  import opened AcadTypes
  import opened Wrappers
  import opened DuplicateGrouping
  import opened Errors

  /** An entity of a block definition: a block reference (the definition it
      inserts, its own transform and its duplicate info) or anything else. */
  datatype Entity<K> =
    | BlockReference(target: ObjectId, blockTransform: Matrix3d, info: RefInfo<K>)
    | OtherEntity

  type Database<K> = map<ObjectId, seq<Entity<K>>>

  /** `TransCopy(transToModel)` of a group's first info: the info, its
      CountDublic and the transform into model space. */
  datatype DuplicateRecord<K> = DuplicateRecord(info: RefInfo<K>, countDublic: nat, transformToModel: Matrix3d)

  /** The initial value of the public static DEPTH. */
  const DefaultDepth: int := 5

  /** The run's state: curDepth, attemptedblocks, AllDublicBlRefInfos, and
      (for the proofs) the definitions whose children were descended into. */
  datatype Walk<K> = Walk(curDepth: int, attempted: set<ObjectId>, found: seq<DuplicateRecord<K>>, expanded: set<ObjectId>)

  /** The state at the start of a run. */
  function Fresh<K>(): (w: Walk<K>)
    ensures w.curDepth == 0 && w.attempted == {} && w.found == [] && w.expanded == {}
  {
    Walk(0, {}, [], {})
  }

  // ---------------------------------------------------------------------
  // One definition's entities (lines 67-77)

  /** The positions of the block references among `es`, in increasing
      order: exactly the entities the `blRef == null` test lets through. */
  function RefPositions<K>(es: seq<Entity<K>>): (ps: seq<nat>)
    ensures forall i :: 0 <= i < |ps| ==> ps[i] < |es| && es[ps[i]].BlockReference?
    ensures forall i, j :: 0 <= i < j < |ps| ==> ps[i] < ps[j]
    ensures forall k :: 0 <= k < |es| && es[k].BlockReference? ==> k in ps
    decreases |es|
  {
    if es == [] then []
    else
      RefPositions(es[..|es| - 1]) + (if es[|es| - 1].BlockReference? then [|es| - 1] else [])
  }

  /** The block references among `es`, in order. */
  function BlockReferences<K>(es: seq<Entity<K>>): (rs: seq<Entity<K>>)
    ensures |rs| == |RefPositions(es)|
    ensures forall i :: 0 <= i < |rs| ==> rs[i] == es[RefPositions(es)[i]]
    ensures forall k :: 0 <= k < |es| && es[k].BlockReference? ==> es[k] in rs
    decreases |es|
  {
    if es == [] then []
    else
      var last := es[|es| - 1];
      BlockReferences(es[..|es| - 1]) + (if last.BlockReference? then [last] else [])
  }

  /** The duplicate infos of the block references among `es`, in order. */
  function InfosOf<K>(es: seq<Entity<K>>): (infos: seq<RefInfo<K>>)
    ensures |infos| <= |es|
    decreases |es|
  {
    if es == [] then []
    else
      var last := es[|es| - 1];
      InfosOf(es[..|es| - 1]) + (if last.BlockReference? then [last.info] else [])
  }

  /** The definitions to descend into from `es`, each with its transform
      into model space `transToModel * blockTransform`, in order. */
  function ChildrenOf<K>(es: seq<Entity<K>>, transToModel: Matrix3d): (next: seq<(ObjectId, Matrix3d)>)
    ensures |next| <= |es|
    decreases |es|
  {
    if es == [] then []
    else
      var last := es[|es| - 1];
      ChildrenOf(es[..|es| - 1], transToModel)
      + (if last.BlockReference? then [(last.target, Mul(transToModel, last.blockTransform))] else [])
  }

  /** Entities that are not block references contribute nothing: the infos
      and the children are the block references' own, index by index. */
  lemma {:induction false} OnlyBlockReferencesCount<K>(es: seq<Entity<K>>, transToModel: Matrix3d)
    ensures |InfosOf(es)| == |ChildrenOf(es, transToModel)| == |BlockReferences(es)|
    ensures forall j :: 0 <= j < |BlockReferences(es)| ==>
              && InfosOf(es)[j] == BlockReferences(es)[j].info
              && ChildrenOf(es, transToModel)[j] ==
                   (BlockReferences(es)[j].target, Mul(transToModel, BlockReferences(es)[j].blockTransform))
    decreases |es|
  {
    if es != [] {
      OnlyBlockReferencesCount(es[..|es| - 1], transToModel);
    }
  }

  /** `dublicBlRefInfos.Select(b => b.TransCopy(transToModel))`. */
  function TransCopies<K>(groups: seq<DuplicateGroup<K>>, transToModel: Matrix3d): (rs: seq<DuplicateRecord<K>>)
    ensures |rs| == |groups|
    ensures forall i :: 0 <= i < |rs| ==>
              rs[i].info == groups[i].first && rs[i].countDublic == groups[i].countDublic
    ensures forall i :: 0 <= i < |rs| ==> rs[i].transformToModel == transToModel
  {
    seq(|groups|, i requires 0 <= i < |groups| => DuplicateRecord(groups[i].first, groups[i].countDublic, transToModel))
  }

  /** What analysing definition `id`, reached with `transToModel`, adds to
      the result list. */
  function Reported<K(==)>(db: Database<K>, id: ObjectId, transToModel: Matrix3d): (rs: seq<DuplicateRecord<K>>)
    ensures id !in db ==> rs == []
    ensures id in db ==> |rs| == |Duplicates(InfosOf(db[id]))| <= |InfosOf(db[id])|
    ensures forall i :: 0 <= i < |rs| ==> rs[i].transformToModel == transToModel && rs[i].countDublic >= 2
  {
    if id in db then TransCopies(Duplicates(InfosOf(db[id])), transToModel) else []
  }

  lemma SubsetDifferenceSmaller<T>(u: set<T>, a: set<T>, b: set<T>)
    requires a <= b
    ensures |u - b| <= |u - a|
    ensures (exists x :: x in u && x in b && x !in a) ==> |u - b| < |u - a|
  {
    assert u - b <= u - a;
    var d := (u - a) - (u - b);
    assert u - a == (u - b) + d;
    assert (u - b) !! d;
  }

  // ---------------------------------------------------------------------
  // The walk, as functions (GetDublicateBlocks, lines 56-101)

  /** GetDublicateBlocks(idBtr, transToModel) from the state `w`, with DEPTH
      equal to `depth`: Throws(OpenFailed) when some definition it has to
      read is not in the database. */
  function Visit<K(==)>(db: Database<K>, depth: int, idBtr: ObjectId, transToModel: Matrix3d, w: Walk<K>): (r: Result<Walk<K>>)
    ensures r.Ok? ==> w.attempted <= r.value.attempted
    decreases |db.Keys - w.attempted|, 0, 0
  {
    if idBtr in w.attempted then Ok(w)
    else if idBtr !in db then Throws(OpenFailed)
    else
      var es := db[idBtr];
      var w1 := w.(attempted := w.attempted + {idBtr},
                   found := w.found + Reported(db, idBtr, transToModel));
      if w1.curDepth < depth then
        SubsetDifferenceSmaller(db.Keys, w.attempted, w1.attempted);
        VisitAll(db, depth, ChildrenOf(es, transToModel),
                 w1.(curDepth := w1.curDepth + 1, expanded := w1.expanded + {idBtr}))
      else Ok(w1)
  }

  /** The foreach over idsBtrNext: visits each child in order, stopping at
      the first exception. */
  function VisitAll<K(==)>(db: Database<K>, depth: int, next: seq<(ObjectId, Matrix3d)>, w: Walk<K>): (r: Result<Walk<K>>)
    ensures r.Ok? ==> w.attempted <= r.value.attempted
    decreases |db.Keys - w.attempted|, 1, |next|
  {
    if next == [] then Ok(w)
    else
      match Visit(db, depth, next[0].0, next[0].1, w)
      case Throws(e) => Throws(e)
      case Ok(w') =>
        SubsetDifferenceSmaller(db.Keys, w.attempted, w'.attempted);
        VisitAll(db, depth, next[1..], w')
  }

  /** The traversal part of Check: model space, the identity transform and
      a fresh state. */
  function Run<K(==)>(db: Database<K>, depth: int, modelSpace: ObjectId): (r: Result<Walk<K>>)
    ensures modelSpace !in db ==> r == Throws(OpenFailed)
    ensures r.Ok? ==> modelSpace in r.value.attempted
  {
    Visit(db, depth, modelSpace, Identity(), Fresh())
  }

  /** The errors Check adds for the result list, one per entry, in order. */
  function DuplicateErrors<K>(found: seq<DuplicateRecord<K>>, message: DuplicateRecord<K> -> string): (es: seq<Error>)
    ensures |es| == |found|
    ensures forall i :: 0 <= i < |es| ==>
              es[i] == Error(message(found[i]), OnIdWithTransform(found[i].info.idBlRef, found[i].transformToModel), Some(ErrorIcon))
  {
    seq(|found|, i requires 0 <= i < |found| =>
      Error(message(found[i]), OnIdWithTransform(found[i].info.idBlRef, found[i].transformToModel), Some(ErrorIcon)))
  }

  lemma DuplicateErrorsAppend<K>(found: seq<DuplicateRecord<K>>, d: DuplicateRecord<K>, message: DuplicateRecord<K> -> string)
    ensures DuplicateErrors(found + [d], message) ==
              DuplicateErrors(found, message) + [Error(message(d), OnIdWithTransform(d.info.idBlRef, d.transformToModel), Some(ErrorIcon))]
  {
  }

  // ---------------------------------------------------------------------
  // Properties of the walk

  function Max(a: int, b: int): int
  {
    if a < b then b else a
  }

  /** A definition already in the attempted set is not analysed again: the
      call changes nothing. */
  lemma AnalysedAtMostOnce<K>(db: Database<K>, depth: int, idBtr: ObjectId, transToModel: Matrix3d, w: Walk<K>)
    requires idBtr in w.attempted
    ensures Visit(db, depth, idBtr, transToModel, w) == Ok(w)
  {
  }

  /** How one call changes the state: the attempted set and the set of
      expanded definitions only grow, every newly expanded definition is
      newly attempted, the result list only grows at its end, and curDepth
      rises by exactly the number of newly expanded definitions without
      passing max(curDepth, DEPTH). */
  ghost predicate Advances<K>(w: Walk<K>, r: Walk<K>, depth: int)
  {
    && w.attempted <= r.attempted
    && w.expanded <= r.expanded
    && r.expanded - w.expanded <= r.attempted - w.attempted
    && |w.found| <= |r.found| && r.found[..|w.found|] == w.found
    && w.curDepth <= r.curDepth <= Max(w.curDepth, depth)
    && r.curDepth - w.curDepth == |r.expanded - w.expanded|
  }

  lemma AdvancesTransitive<K>(w1: Walk<K>, w2: Walk<K>, w3: Walk<K>, depth: int)
    requires Advances(w1, w2, depth) && Advances(w2, w3, depth)
    ensures Advances(w1, w3, depth)
  {
    assert w3.found[..|w1.found|] == w3.found[..|w2.found|][..|w1.found|];
    assert w3.expanded - w1.expanded == (w3.expanded - w2.expanded) + (w2.expanded - w1.expanded);
    assert (w3.expanded - w2.expanded) !! (w2.expanded - w1.expanded);
  }

  /** Visit on a definition not yet analysed, with budget left: analyse it,
      count it, and go on with its children. */
  lemma VisitDescends<K>(db: Database<K>, depth: int, idBtr: ObjectId, transToModel: Matrix3d, w: Walk<K>)
    requires idBtr !in w.attempted && idBtr in db && w.curDepth < depth
    ensures Visit(db, depth, idBtr, transToModel, w) ==
              VisitAll(db, depth, ChildrenOf(db[idBtr], transToModel),
                       Walk(w.curDepth + 1, w.attempted + {idBtr}, w.found + Reported(db, idBtr, transToModel), w.expanded + {idBtr}))
  {
  }

  /** Visit on a definition not yet analysed, with the budget spent: analyse
      it and stop. */
  lemma VisitStops<K>(db: Database<K>, depth: int, idBtr: ObjectId, transToModel: Matrix3d, w: Walk<K>)
    requires idBtr !in w.attempted && idBtr in db && depth <= w.curDepth
    ensures Visit(db, depth, idBtr, transToModel, w) ==
              Ok(Walk(w.curDepth, w.attempted + {idBtr}, w.found + Reported(db, idBtr, transToModel), w.expanded))
  {
  }

  /** One turn of the loop over the children, when the call on the first
      child does not throw. */
  lemma VisitAllStep<K>(db: Database<K>, depth: int, next: seq<(ObjectId, Matrix3d)>, w: Walk<K>)
    requires next != [] && Visit(db, depth, next[0].0, next[0].1, w).Ok?
    ensures VisitAll(db, depth, next, w) == VisitAll(db, depth, next[1..], Visit(db, depth, next[0].0, next[0].1, w).value)
  {
  }

  lemma {:induction false} VisitAdvances<K>(db: Database<K>, depth: int, idBtr: ObjectId, transToModel: Matrix3d, w: Walk<K>)
    requires w.expanded <= w.attempted
    ensures Visit(db, depth, idBtr, transToModel, w).Ok? ==>
              Advances(w, Visit(db, depth, idBtr, transToModel, w).value, depth)
    decreases |db.Keys - w.attempted|, 0, 0
  {
    if idBtr !in w.attempted && idBtr in db {
      var found1 := w.found + Reported(db, idBtr, transToModel);
      assert found1[..|w.found|] == w.found;
      if w.curDepth < depth {
        var next := ChildrenOf(db[idBtr], transToModel);
        var w2 := Walk(w.curDepth + 1, w.attempted + {idBtr}, found1, w.expanded + {idBtr});
        VisitDescends(db, depth, idBtr, transToModel, w);
        SubsetDifferenceSmaller(db.Keys, w.attempted, w2.attempted);
        VisitAllAdvances(db, depth, next, w2);
        assert w2.expanded - w.expanded == {idBtr};
        assert Advances(w, w2, depth);
        var r := VisitAll(db, depth, next, w2);
        if r.Ok? {
          AdvancesTransitive(w, w2, r.value, depth);
        }
      } else {
        VisitStops(db, depth, idBtr, transToModel, w);
      }
    }
  }

  lemma {:induction false} VisitAllAdvances<K>(db: Database<K>, depth: int, next: seq<(ObjectId, Matrix3d)>, w: Walk<K>)
    requires w.expanded <= w.attempted
    ensures VisitAll(db, depth, next, w).Ok? ==> Advances(w, VisitAll(db, depth, next, w).value, depth)
    decreases |db.Keys - w.attempted|, 1, |next|
  {
    if next == [] {
      assert w.found[..|w.found|] == w.found;
    } else {
      VisitAdvances(db, depth, next[0].0, next[0].1, w);
      var r0 := Visit(db, depth, next[0].0, next[0].1, w);
      if r0.Ok? {
        SubsetDifferenceSmaller(db.Keys, w.attempted, r0.value.attempted);
        assert r0.value.expanded <= r0.value.attempted by {
          assert r0.value.expanded <= w.expanded + (r0.value.expanded - w.expanded);
        }
        VisitAllAdvances(db, depth, next[1..], r0.value);
        var r := VisitAll(db, depth, next[1..], r0.value);
        if r.Ok? {
          AdvancesTransitive(w, r0.value, r.value, depth);
        }
      }
    }
  }

  /** The expansion budget: after a run, curDepth lies in 0..max(0, DEPTH),
      it equals the number of definitions whose children were descended
      into, and each of those was analysed. */
  lemma RunBudget<K>(db: Database<K>, depth: int, modelSpace: ObjectId)
    ensures Run(db, depth, modelSpace).Ok? ==>
              var r := Run(db, depth, modelSpace).value;
              && 0 <= r.curDepth <= Max(0, depth)
              && |r.expanded| == r.curDepth
              && r.expanded <= r.attempted
              && modelSpace in r.attempted
  {
    VisitAdvances(db, depth, modelSpace, Identity(), Fresh<K>());
  }

  /** `p` is a chain of block references from `root`: it starts at `root`
      with the identity, and each step goes to a child of the previous
      definition with the transform `previous * blockTransform`. */
  ghost predicate IsPath<K>(db: Database<K>, root: ObjectId, p: seq<(ObjectId, Matrix3d)>)
  {
    && |p| > 0
    && p[0] == (root, Identity())
    && forall i :: 0 <= i < |p| - 1 ==> p[i].0 in db && p[i + 1] in ChildrenOf(db[p[i].0], p[i].1)
  }

  /** Definition `id` is reached from `root` with the transform `t`. */
  ghost predicate Reachable<K>(db: Database<K>, root: ObjectId, id: ObjectId, t: Matrix3d)
  {
    exists p :: IsPath(db, root, p) && p[|p| - 1] == (id, t)
  }

  lemma ChildReachable<K>(db: Database<K>, root: ObjectId, id: ObjectId, t: Matrix3d, c: (ObjectId, Matrix3d))
    requires Reachable(db, root, id, t) && id in db && c in ChildrenOf(db[id], t)
    ensures Reachable(db, root, c.0, c.1)
  {
    var p :| IsPath(db, root, p) && p[|p| - 1] == (id, t);
    var q := p + [c];
    forall i | 0 <= i < |q| - 1 ensures q[i].0 in db && q[i + 1] in ChildrenOf(db[q[i].0], q[i].1) {
      if i < |p| - 1 {
        assert q[i] == p[i] && q[i + 1] == p[i + 1];
      }
    }
    assert IsPath(db, root, q);
  }

  lemma ChildrenReachable<K>(db: Database<K>, root: ObjectId, id: ObjectId, t: Matrix3d)
    requires Reachable(db, root, id, t) && id in db
    ensures forall c :: c in ChildrenOf(db[id], t) ==> Reachable(db, root, c.0, c.1)
  {
    forall c | c in ChildrenOf(db[id], t) ensures Reachable(db, root, c.0, c.1) {
      ChildReachable(db, root, id, t, c);
    }
  }

  /** Every entry of `found` was reported by a definition reached from
      `root`, with the transform it was reached with. */
  ghost predicate FoundOnPaths<K>(db: Database<K>, root: ObjectId, found: seq<DuplicateRecord<K>>)
  {
    forall i :: 0 <= i < |found| ==>
      exists id, t :: Reachable(db, root, id, t) && found[i] in Reported(db, id, t)
  }

  lemma FoundOnPathsAppend<K>(db: Database<K>, root: ObjectId, found: seq<DuplicateRecord<K>>, id: ObjectId, t: Matrix3d)
    requires FoundOnPaths(db, root, found) && Reachable(db, root, id, t)
    ensures FoundOnPaths(db, root, found + Reported(db, id, t))
  {
    var found1 := found + Reported(db, id, t);
    forall i | 0 <= i < |found1|
      ensures exists id', t' :: Reachable(db, root, id', t') && found1[i] in Reported(db, id', t')
    {
      if i >= |found| {
        assert found1[i] in Reported(db, id, t);
      } else {
        assert found1[i] == found[i];
      }
    }
  }

  lemma {:induction false} VisitOnPaths<K>(db: Database<K>, depth: int, root: ObjectId, idBtr: ObjectId, transToModel: Matrix3d, w: Walk<K>)
    requires Reachable(db, root, idBtr, transToModel) && FoundOnPaths(db, root, w.found)
    ensures Visit(db, depth, idBtr, transToModel, w).Ok? ==>
              FoundOnPaths(db, root, Visit(db, depth, idBtr, transToModel, w).value.found)
    decreases |db.Keys - w.attempted|, 0, 0
  {
    if idBtr !in w.attempted && idBtr in db {
      var found1 := w.found + Reported(db, idBtr, transToModel);
      assert FoundOnPaths(db, root, found1) by {
        FoundOnPathsAppend(db, root, w.found, idBtr, transToModel);
      }
      if w.curDepth < depth {
        var next := ChildrenOf(db[idBtr], transToModel);
        var w2 := Walk(w.curDepth + 1, w.attempted + {idBtr}, found1, w.expanded + {idBtr});
        assert forall c :: c in next ==> Reachable(db, root, c.0, c.1) by {
          ChildrenReachable(db, root, idBtr, transToModel);
        }
        SubsetDifferenceSmaller(db.Keys, w.attempted, w2.attempted);
        VisitAllOnPaths(db, depth, root, next, w2);
        VisitDescends(db, depth, idBtr, transToModel, w);
      } else {
        VisitStops(db, depth, idBtr, transToModel, w);
      }
    }
  }

  lemma {:induction false} VisitAllOnPaths<K>(db: Database<K>, depth: int, root: ObjectId, next: seq<(ObjectId, Matrix3d)>, w: Walk<K>)
    requires forall c :: c in next ==> Reachable(db, root, c.0, c.1)
    requires FoundOnPaths(db, root, w.found)
    ensures VisitAll(db, depth, next, w).Ok? ==> FoundOnPaths(db, root, VisitAll(db, depth, next, w).value.found)
    decreases |db.Keys - w.attempted|, 1, |next|
  {
    if next != [] {
      assert next[0] in next;
      VisitOnPaths(db, depth, root, next[0].0, next[0].1, w);
      var r0 := Visit(db, depth, next[0].0, next[0].1, w);
      if r0.Ok? {
        SubsetDifferenceSmaller(db.Keys, w.attempted, r0.value.attempted);
        VisitAllOnPaths(db, depth, root, next[1..], r0.value);
      }
    }
  }

  /** What a definition reports: every entry carries the transform the
      definition was reached with, has CountDublic >= 2 equal to the number
      of its sibling references with the same key, and is the first of
      them. */
  lemma ReportedEntries<K>(db: Database<K>, id: ObjectId, t: Matrix3d)
    ensures forall d :: d in Reported(db, id, t) ==>
              && id in db
              && d.transformToModel == t
              && d.countDublic >= 2
              && d.countDublic == |WithKey(InfosOf(db[id]), d.info.key)|
              && FirstIndex(InfosOf(db[id]), d.info.key) < |InfosOf(db[id])|
              && d.info == InfosOf(db[id])[FirstIndex(InfosOf(db[id]), d.info.key)]
  {
    if id in db {
      var ds := Duplicates(InfosOf(db[id]));
      DuplicateEntries(InfosOf(db[id]));
      forall d | d in Reported(db, id, t)
        ensures d.transformToModel == t && d.countDublic >= 2
        ensures d.countDublic == |WithKey(InfosOf(db[id]), d.info.key)|
        ensures FirstIndex(InfosOf(db[id]), d.info.key) < |InfosOf(db[id])|
        ensures d.info == InfosOf(db[id])[FirstIndex(InfosOf(db[id]), d.info.key)]
      {
        var i :| 0 <= i < |Reported(db, id, t)| && Reported(db, id, t)[i] == d;
        assert ds[i] in ds;
      }
    }
  }

  /** Soundness of a run: every reported duplicate is a group of at least
      two equal sibling references in some definition reached from model
      space through a chain of block references, headed by the first of
      them, and carries the product of the block transforms along that
      chain. */
  lemma RunSound<K>(db: Database<K>, depth: int, modelSpace: ObjectId)
    ensures Run(db, depth, modelSpace).Ok? ==>
              forall d :: d in Run(db, depth, modelSpace).value.found ==>
                exists id, t :: Reachable(db, modelSpace, id, t) && d in Reported(db, id, t)
                                && d.transformToModel == t && d.countDublic >= 2
  {
    assert IsPath(db, modelSpace, [(modelSpace, Identity())]);
    VisitOnPaths(db, depth, modelSpace, modelSpace, Identity(), Fresh<K>());
    var r := Run(db, depth, modelSpace);
    if r.Ok? {
      forall d | d in r.value.found
        ensures exists id, t :: Reachable(db, modelSpace, id, t) && d in Reported(db, id, t)
                                && d.transformToModel == t && d.countDublic >= 2
      {
        var i :| 0 <= i < |r.value.found| && r.value.found[i] == d;
        var id, t :| Reachable(db, modelSpace, id, t) && d in Reported(db, id, t);
        ReportedEntries(db, id, t);
      }
    }
  }

  /** Model space is analysed first, with the identity: its duplicates open
      the result list. */
  lemma RunStartsWithModelSpace<K>(db: Database<K>, depth: int, modelSpace: ObjectId)
    ensures Run(db, depth, modelSpace).Ok? ==>
              var rootFound := Reported(db, modelSpace, Identity());
              var found := Run(db, depth, modelSpace).value.found;
              |rootFound| <= |found| && found[..|rootFound|] == rootFound
    ensures modelSpace !in db ==> Run(db, depth, modelSpace) == Throws(OpenFailed)
  {
    var r := Run(db, depth, modelSpace);
    if r.Ok? && modelSpace in db {
      var w0 := Fresh<K>();
      var w1 := w0.(attempted := w0.attempted + {modelSpace},
                    found := w0.found + Reported(db, modelSpace, Identity()));
      assert w1.found == Reported(db, modelSpace, Identity());
      if 0 < depth {
        var w2 := w1.(curDepth := w1.curDepth + 1, expanded := w1.expanded + {modelSpace});
        assert r == VisitAll(db, depth, ChildrenOf(db[modelSpace], Identity()), w2);
        VisitAllAdvances(db, depth, ChildrenOf(db[modelSpace], Identity()), w2);
      } else {
        assert r == Ok(w1);
      }
    }
  }

  /** With DEPTH <= 0 there is no descent at all: only model space's own
      block references are checked. */
  lemma RunWithoutDescent<K>(db: Database<K>, depth: int, modelSpace: ObjectId)
    requires depth <= 0 && modelSpace in db
    ensures Run(db, depth, modelSpace) ==
              Ok(Walk(0, {modelSpace}, Reported(db, modelSpace, Identity()), {}))
  {
    var w0 := Fresh<K>();
    assert w0.attempted + {modelSpace} == {modelSpace};
    assert w0.found + Reported(db, modelSpace, Identity()) == Reported(db, modelSpace, Identity());
  }

  /** Every block reference in the database names a definition in it. */
  ghost predicate Closed<K>(db: Database<K>)
  {
    forall id, e :: id in db && e in db[id] && e.BlockReference? ==> e.target in db
  }

  lemma {:induction false} ChildrenInDatabase<K>(es: seq<Entity<K>>, t: Matrix3d, c: (ObjectId, Matrix3d))
    requires c in ChildrenOf(es, t)
    ensures exists e :: e in es && e.BlockReference? && e.target == c.0
    decreases |es|
  {
    var init := es[..|es| - 1];
    if c in ChildrenOf(init, t) {
      ChildrenInDatabase(init, t, c);
      var e :| e in init && e.BlockReference? && e.target == c.0;
      assert e in es;
    } else {
      assert es[|es| - 1] in es;
    }
  }

  /** A run over a database in which every referenced definition exists
      never throws. */
  lemma {:induction false} VisitNeverThrows<K>(db: Database<K>, depth: int, idBtr: ObjectId, transToModel: Matrix3d, w: Walk<K>)
    requires Closed(db) && (idBtr in db || idBtr in w.attempted)
    ensures Visit(db, depth, idBtr, transToModel, w).Ok?
    decreases |db.Keys - w.attempted|, 0, 0
  {
    if idBtr !in w.attempted {
      if w.curDepth < depth {
        var next := ChildrenOf(db[idBtr], transToModel);
        var w2 := Walk(w.curDepth + 1, w.attempted + {idBtr}, w.found + Reported(db, idBtr, transToModel), w.expanded + {idBtr});
        VisitDescends(db, depth, idBtr, transToModel, w);
        forall c | c in next ensures c.0 in db {
          ChildrenInDatabase(db[idBtr], transToModel, c);
          var e :| e in db[idBtr] && e.BlockReference? && e.target == c.0;
        }
        SubsetDifferenceSmaller(db.Keys, w.attempted, w2.attempted);
        VisitAllNeverThrows(db, depth, next, w2);
      } else {
        VisitStops(db, depth, idBtr, transToModel, w);
      }
    }
  }

  lemma {:induction false} VisitAllNeverThrows<K>(db: Database<K>, depth: int, next: seq<(ObjectId, Matrix3d)>, w: Walk<K>)
    requires Closed(db) && forall c :: c in next ==> c.0 in db
    ensures VisitAll(db, depth, next, w).Ok?
    decreases |db.Keys - w.attempted|, 1, |next|
  {
    if next != [] {
      assert next[0] in next;
      VisitNeverThrows(db, depth, next[0].0, next[0].1, w);
      var r0 := Visit(db, depth, next[0].0, next[0].1, w);
      SubsetDifferenceSmaller(db.Keys, w.attempted, r0.value.attempted);
      VisitAllNeverThrows(db, depth, next[1..], r0.value);
    }
  }

  /** Check aborts exactly on a database it cannot read through: with model
      space present and every reference resolvable, the run succeeds. */
  lemma RunSucceedsOnClosedDatabase<K>(db: Database<K>, depth: int, modelSpace: ObjectId)
    requires Closed(db) && modelSpace in db
    ensures Run(db, depth, modelSpace).Ok?
  {
    VisitNeverThrows(db, depth, modelSpace, Identity(), Fresh<K>());
  }

  // ---------------------------------------------------------------------
  // Completeness: the walk does descend

  lemma {:induction false} BlockReferenceIsChild<K>(es: seq<Entity<K>>, t: Matrix3d, k: nat)
    requires k < |es| && es[k].BlockReference?
    ensures (es[k].target, Mul(t, es[k].blockTransform)) in ChildrenOf(es, t)
    decreases |es|
  {
    var init := es[..|es| - 1];
    if k < |es| - 1 {
      assert init[k] == es[k];
      BlockReferenceIsChild(init, t, k);
    }
  }

  /** Definition `id` exists and every definition its block references
      insert is in `attempted`. */
  ghost predicate ChildrenAttempted<K>(db: Database<K>, id: ObjectId, attempted: set<ObjectId>)
  {
    id in db && forall e :: e in db[id] && e.BlockReference? ==> e.target in attempted
  }

  /** What the calls leading from state `w` to state `r` covered: every
      definition they expanded had all its children attempted, every
      definition they attempted exists, and while the budget is not spent
      every definition they attempted was expanded. */
  ghost predicate Covers<K>(db: Database<K>, depth: int, w: Walk<K>, r: Walk<K>)
  {
    && (forall id :: id in r.expanded && id !in w.expanded ==> ChildrenAttempted(db, id, r.attempted))
    && (forall id :: id in r.attempted && id !in w.attempted ==> id in db)
    && (r.curDepth < depth ==> forall id :: id in r.attempted && id !in w.attempted ==> id in r.expanded)
  }

  lemma CoversTransitive<K>(db: Database<K>, depth: int, w: Walk<K>, w1: Walk<K>, w2: Walk<K>)
    requires Covers(db, depth, w, w1) && Covers(db, depth, w1, w2)
    requires w.attempted <= w1.attempted && Advances(w1, w2, depth)
    ensures Covers(db, depth, w, w2)
  {
    forall id | id in w2.expanded && id !in w.expanded
      ensures ChildrenAttempted(db, id, w2.attempted)
    {
      if id in w1.expanded {
        assert ChildrenAttempted(db, id, w1.attempted);
      }
    }
  }

  lemma ExpandedChildrenAttempted<K>(db: Database<K>, id: ObjectId, t: Matrix3d, attempted: set<ObjectId>)
    requires id in db && forall c :: c in ChildrenOf(db[id], t) ==> c.0 in attempted
    ensures ChildrenAttempted(db, id, attempted)
  {
    forall e | e in db[id] && e.BlockReference? ensures e.target in attempted {
      var k :| 0 <= k < |db[id]| && db[id][k] == e;
      BlockReferenceIsChild(db[id], t, k);
    }
  }

  lemma {:induction false} VisitCovers<K>(db: Database<K>, depth: int, idBtr: ObjectId, transToModel: Matrix3d, w: Walk<K>)
    requires w.expanded <= w.attempted
    ensures Visit(db, depth, idBtr, transToModel, w).Ok? ==>
              && idBtr in Visit(db, depth, idBtr, transToModel, w).value.attempted
              && Covers(db, depth, w, Visit(db, depth, idBtr, transToModel, w).value)
    decreases |db.Keys - w.attempted|, 0, 0
  {
    if idBtr !in w.attempted && idBtr in db {
      if w.curDepth < depth {
        var next := ChildrenOf(db[idBtr], transToModel);
        var w2 := Walk(w.curDepth + 1, w.attempted + {idBtr}, w.found + Reported(db, idBtr, transToModel), w.expanded + {idBtr});
        VisitDescends(db, depth, idBtr, transToModel, w);
        SubsetDifferenceSmaller(db.Keys, w.attempted, w2.attempted);
        VisitAllCovers(db, depth, next, w2);
        var r := VisitAll(db, depth, next, w2);
        if r.Ok? {
          var v := r.value;
          assert w2.expanded <= v.expanded by {
            VisitAllAdvances(db, depth, next, w2);
          }
          ExpandedChildrenAttempted(db, idBtr, transToModel, v.attempted);
          forall id | id in v.expanded && id !in w.expanded
            ensures ChildrenAttempted(db, id, v.attempted)
          {
            if id != idBtr {
              assert id !in w2.expanded;
            }
          }
          assert Covers(db, depth, w, v);
        }
      } else {
        var w1 := Walk(w.curDepth, w.attempted + {idBtr}, w.found + Reported(db, idBtr, transToModel), w.expanded);
        VisitStops(db, depth, idBtr, transToModel, w);
        assert Covers(db, depth, w, w1);
      }
    }
  }

  lemma {:induction false} VisitAllCovers<K>(db: Database<K>, depth: int, next: seq<(ObjectId, Matrix3d)>, w: Walk<K>)
    requires w.expanded <= w.attempted
    ensures VisitAll(db, depth, next, w).Ok? ==>
              && (forall c :: c in next ==> c.0 in VisitAll(db, depth, next, w).value.attempted)
              && Covers(db, depth, w, VisitAll(db, depth, next, w).value)
    decreases |db.Keys - w.attempted|, 1, |next|
  {
    if next != [] {
      VisitCovers(db, depth, next[0].0, next[0].1, w);
      VisitAdvances(db, depth, next[0].0, next[0].1, w);
      var r0 := Visit(db, depth, next[0].0, next[0].1, w);
      if r0.Ok? {
        var v0 := r0.value;
        assert v0.expanded <= v0.attempted by {
          assert v0.expanded <= w.expanded + (v0.expanded - w.expanded);
        }
        SubsetDifferenceSmaller(db.Keys, w.attempted, v0.attempted);
        VisitAllCovers(db, depth, next[1..], v0);
        VisitAllAdvances(db, depth, next[1..], v0);
        var r := VisitAll(db, depth, next[1..], v0);
        VisitAllStep(db, depth, next, w);
        if r.Ok? {
          CoversTransitive(db, depth, w, v0, r.value);
          forall c | c in next ensures c.0 in r.value.attempted {
            var i :| 0 <= i < |next| && next[i] == c;
            if i > 0 {
              assert next[1..][i - 1] == c;
            }
          }
        }
      }
    }
  }

  /** After a run, every analysed definition exists; every definition whose
      children were descended into had all of them attempted; and while the
      budget is not spent, every analysed definition was expanded. */
  lemma RunCovers<K>(db: Database<K>, depth: int, modelSpace: ObjectId)
    ensures Run(db, depth, modelSpace).Ok? ==>
              var r := Run(db, depth, modelSpace).value;
              && modelSpace in r.attempted
              && r.attempted <= db.Keys
              && (forall id :: id in r.expanded ==> ChildrenAttempted(db, id, r.attempted))
              && (r.curDepth < depth ==> r.expanded == r.attempted)
  {
    VisitCovers(db, depth, modelSpace, Identity(), Fresh<K>());
    VisitAdvances(db, depth, modelSpace, Identity(), Fresh<K>());
  }

  lemma {:induction false} PathAttempted<K>(db: Database<K>, root: ObjectId, p: seq<(ObjectId, Matrix3d)>, attempted: set<ObjectId>)
    requires IsPath(db, root, p) && root in attempted
    requires forall id :: id in attempted ==> ChildrenAttempted(db, id, attempted)
    ensures p[|p| - 1].0 in attempted
    decreases |p|
  {
    if |p| > 1 {
      var q := p[..|p| - 1];
      forall i | 0 <= i < |q| - 1 ensures q[i].0 in db && q[i + 1] in ChildrenOf(db[q[i].0], q[i].1) {
        assert q[i] == p[i] && q[i + 1] == p[i + 1];
      }
      assert IsPath(db, root, q);
      PathAttempted(db, root, q, attempted);
      var prev := p[|p| - 2];
      assert prev == q[|q| - 1];
      ChildrenInDatabase(db[prev.0], prev.1, p[|p| - 1]);
      assert ChildrenAttempted(db, prev.0, attempted);
    }
  }

  /** While the expansion budget is not spent, a run analyses every
      definition reachable from model space through block references. */
  lemma RunReachesAll<K>(db: Database<K>, depth: int, modelSpace: ObjectId)
    ensures Run(db, depth, modelSpace).Ok? && Run(db, depth, modelSpace).value.curDepth < depth ==>
              forall id, t :: Reachable(db, modelSpace, id, t) ==> id in Run(db, depth, modelSpace).value.attempted
  {
    RunCovers(db, depth, modelSpace);
    var r := Run(db, depth, modelSpace);
    if r.Ok? && r.value.curDepth < depth {
      forall id, t | Reachable(db, modelSpace, id, t) ensures id in r.value.attempted {
        var p :| IsPath(db, modelSpace, p) && p[|p| - 1] == (id, t);
        PathAttempted(db, modelSpace, p, r.value.attempted);
      }
    }
  }

  /** `part` stands in `whole` as a contiguous block starting at `i`. */
  ghost predicate OccursAt<T>(whole: seq<T>, part: seq<T>, i: int)
  {
    0 <= i <= |whole| - |part| && whole[i..i + |part|] == part
  }

  /** The records of definition `id`, for some transform it is reached
      with, stand as one contiguous block in `found`. */
  ghost predicate ReportedInto<K>(db: Database<K>, root: ObjectId, id: ObjectId, found: seq<DuplicateRecord<K>>)
  {
    exists t, i :: Reachable(db, root, id, t) && OccursAt(found, Reported(db, id, t), i)
  }

  lemma ReportedIntoExtends<K>(db: Database<K>, root: ObjectId, id: ObjectId, found: seq<DuplicateRecord<K>>, found': seq<DuplicateRecord<K>>)
    requires ReportedInto(db, root, id, found)
    requires |found| <= |found'| && found'[..|found|] == found
    ensures ReportedInto(db, root, id, found')
  {
    var t, i :| Reachable(db, root, id, t) && OccursAt(found, Reported(db, id, t), i);
    assert found'[i..i + |Reported(db, id, t)|] == found[i..i + |Reported(db, id, t)|];
    assert OccursAt(found', Reported(db, id, t), i);
  }

  /** The last step of VisitReports: the definition's own records sit right
      after the records present before the call, and the definitions
      analysed below it already have theirs in the list. */
  lemma NewDefinitionReported<K>(db: Database<K>, root: ObjectId, idBtr: ObjectId, transToModel: Matrix3d, w: Walk<K>, v1: Walk<K>, v: Walk<K>)
    requires Reachable(db, root, idBtr, transToModel)
    requires v1.found == w.found + Reported(db, idBtr, transToModel) && v1.attempted == w.attempted + {idBtr}
    requires |v1.found| <= |v.found| && v.found[..|v1.found|] == v1.found
    requires forall id :: id in v.attempted && id !in v1.attempted ==> ReportedInto(db, root, id, v.found)
    ensures OccursAt(v.found, Reported(db, idBtr, transToModel), |w.found|)
    ensures forall id :: id in v.attempted && id !in w.attempted ==> ReportedInto(db, root, id, v.found)
  {
    var own := Reported(db, idBtr, transToModel);
    assert v.found[|w.found|..|w.found| + |own|] == v.found[..|v1.found|][|w.found|..];
    assert OccursAt(v.found, own, |w.found|);
    assert ReportedInto(db, root, idBtr, v.found);
  }

  /** A call on a definition not yet analysed appends that definition's own
      records first, before anything its children add (pre-order), and
      every definition the call analyses has its records in the list. */
  lemma {:induction false} VisitReports<K>(db: Database<K>, depth: int, root: ObjectId, idBtr: ObjectId, transToModel: Matrix3d, w: Walk<K>)
    requires Reachable(db, root, idBtr, transToModel) && w.expanded <= w.attempted
    ensures Visit(db, depth, idBtr, transToModel, w).Ok? && idBtr !in w.attempted ==>
              OccursAt(Visit(db, depth, idBtr, transToModel, w).value.found, Reported(db, idBtr, transToModel), |w.found|)
    ensures Visit(db, depth, idBtr, transToModel, w).Ok? ==>
              var r := Visit(db, depth, idBtr, transToModel, w).value;
              forall id :: id in r.attempted && id !in w.attempted ==> ReportedInto(db, root, id, r.found)
    decreases |db.Keys - w.attempted|, 0, 0
  {
    if idBtr !in w.attempted && idBtr in db {
      var own := Reported(db, idBtr, transToModel);
      if w.curDepth < depth {
        var next := ChildrenOf(db[idBtr], transToModel);
        var w2 := Walk(w.curDepth + 1, w.attempted + {idBtr}, w.found + own, w.expanded + {idBtr});
        VisitDescends(db, depth, idBtr, transToModel, w);
        SubsetDifferenceSmaller(db.Keys, w.attempted, w2.attempted);
        assert forall c :: c in next ==> Reachable(db, root, c.0, c.1) by {
          ChildrenReachable(db, root, idBtr, transToModel);
        }
        VisitAllReports(db, depth, root, next, w2);
        var r := VisitAll(db, depth, next, w2);
        if r.Ok? {
          assert |w2.found| <= |r.value.found| && r.value.found[..|w2.found|] == w2.found by {
            VisitAllAdvances(db, depth, next, w2);
          }
          NewDefinitionReported(db, root, idBtr, transToModel, w, w2, r.value);
        }
      } else {
        var w1 := Walk(w.curDepth, w.attempted + {idBtr}, w.found + own, w.expanded);
        VisitStops(db, depth, idBtr, transToModel, w);
        assert w1.found[..|w1.found|] == w1.found;
        NewDefinitionReported(db, root, idBtr, transToModel, w, w1, w1);
      }
    }
  }

  lemma {:induction false} VisitAllReports<K>(db: Database<K>, depth: int, root: ObjectId, next: seq<(ObjectId, Matrix3d)>, w: Walk<K>)
    requires forall c :: c in next ==> Reachable(db, root, c.0, c.1)
    requires w.expanded <= w.attempted
    ensures VisitAll(db, depth, next, w).Ok? ==>
              var r := VisitAll(db, depth, next, w).value;
              forall id :: id in r.attempted && id !in w.attempted ==> ReportedInto(db, root, id, r.found)
    decreases |db.Keys - w.attempted|, 1, |next|
  {
    if next != [] {
      var r0 := Visit(db, depth, next[0].0, next[0].1, w);
      if r0.Ok? {
        var v0 := r0.value;
        assert forall id :: id in v0.attempted && id !in w.attempted ==> ReportedInto(db, root, id, v0.found) by {
          assert next[0] in next;
          VisitReports(db, depth, root, next[0].0, next[0].1, w);
        }
        assert v0.expanded <= v0.attempted && w.attempted <= v0.attempted by {
          VisitAdvances(db, depth, next[0].0, next[0].1, w);
          assert v0.expanded <= w.expanded + (v0.expanded - w.expanded);
        }
        SubsetDifferenceSmaller(db.Keys, w.attempted, v0.attempted);
        VisitAllReports(db, depth, root, next[1..], v0);
        VisitAllStep(db, depth, next, w);
        var r := VisitAll(db, depth, next[1..], v0);
        if r.Ok? {
          assert |v0.found| <= |r.value.found| && r.value.found[..|v0.found|] == v0.found by {
            VisitAllAdvances(db, depth, next[1..], v0);
          }
          forall id | id in r.value.attempted && id !in w.attempted
            ensures ReportedInto(db, root, id, r.value.found)
          {
            if id in v0.attempted {
              ReportedIntoExtends(db, root, id, v0.found, r.value.found);
            }
          }
        }
      }
    }
  }

  /** Every definition a run analyses has its duplicates, carried into model
      space by a transform it is reached with, in the result list as one
      contiguous block. */
  lemma RunReportsEveryAnalysedDefinition<K>(db: Database<K>, depth: int, modelSpace: ObjectId)
    ensures Run(db, depth, modelSpace).Ok? ==>
              var r := Run(db, depth, modelSpace).value;
              forall id :: id in r.attempted ==> id in db && ReportedInto(db, modelSpace, id, r.found)
  {
    assert IsPath(db, modelSpace, [(modelSpace, Identity())]);
    VisitReports(db, depth, modelSpace, modelSpace, Identity(), Fresh<K>());
    RunCovers(db, depth, modelSpace);
  }

  /** Transforms compose down the chain: a block reference `e2` inside the
      definition that a block reference `e1` of model space inserts is
      reached with `e1.BlockTransform * e2.BlockTransform`, the walk's
      `Identity * T1 * T2`. */
  lemma NestedReferenceTransform<K>(db: Database<K>, modelSpace: ObjectId, e1: Entity<K>, e2: Entity<K>)
    requires modelSpace in db && e1 in db[modelSpace] && e1.BlockReference?
    requires e1.target in db && e2 in db[e1.target] && e2.BlockReference?
    ensures Reachable(db, modelSpace, e2.target, Mul(e1.blockTransform, e2.blockTransform))
  {
    IdentityIsUnit(e1.blockTransform);
    var k1 :| 0 <= k1 < |db[modelSpace]| && db[modelSpace][k1] == e1;
    BlockReferenceIsChild(db[modelSpace], Identity(), k1);
    var k2 :| 0 <= k2 < |db[e1.target]| && db[e1.target][k2] == e2;
    BlockReferenceIsChild(db[e1.target], e1.blockTransform, k2);
    var p := [(modelSpace, Identity()), (e1.target, e1.blockTransform),
              (e2.target, Mul(e1.blockTransform, e2.blockTransform))];
    assert IsPath(db, modelSpace, p);
  }

  // ---------------------------------------------------------------------
  // The budget bounds the descent: only expanded definitions are entered

  /** Definition `p` exists and one of its block references inserts `id`. */
  ghost predicate Inserts<K>(db: Database<K>, p: ObjectId, id: ObjectId)
  {
    p in db && exists e :: e in db[p] && e.BlockReference? && e.target == id
  }

  /** Apart from the definition it was called on, a call analyses only
      definitions inserted by a definition whose children were descended
      into (and so counted against the budget). */
  lemma {:induction false} VisitOnlyInserted<K>(db: Database<K>, depth: int, idBtr: ObjectId, transToModel: Matrix3d, w: Walk<K>)
    requires w.expanded <= w.attempted
    ensures Visit(db, depth, idBtr, transToModel, w).Ok? ==>
              var r := Visit(db, depth, idBtr, transToModel, w).value;
              forall id :: id in r.attempted && id !in w.attempted && id != idBtr ==>
                InsertedByExpanded(db, r.expanded, id)
    decreases |db.Keys - w.attempted|, 0, 0
  {
    if idBtr !in w.attempted && idBtr in db {
      if w.curDepth < depth {
        var next := ChildrenOf(db[idBtr], transToModel);
        var w2 := Walk(w.curDepth + 1, w.attempted + {idBtr}, w.found + Reported(db, idBtr, transToModel), w.expanded + {idBtr});
        VisitDescends(db, depth, idBtr, transToModel, w);
        SubsetDifferenceSmaller(db.Keys, w.attempted, w2.attempted);
        VisitAllOnlyInserted(db, depth, next, w2);
        var r := VisitAll(db, depth, next, w2);
        if r.Ok? {
          var v := r.value;
          assert idBtr in v.expanded by {
            VisitAllAdvances(db, depth, next, w2);
          }
          forall id | id in v.attempted && id !in w.attempted && id != idBtr
            ensures InsertedByExpanded(db, v.expanded, id)
          {
            if AmongChildren(next, id) {
              var c :| c in next && c.0 == id;
              ChildrenInDatabase(db[idBtr], transToModel, c);
              assert Inserts(db, idBtr, id);
            }
          }
        }
      } else {
        VisitStops(db, depth, idBtr, transToModel, w);
      }
    }
  }

  /** `id` is the first component of one of the pairs in `next`. */
  ghost predicate AmongChildren(next: seq<(ObjectId, Matrix3d)>, id: ObjectId)
  {
    exists c :: c in next && c.0 == id
  }

  /** Some definition in `expanded` inserts `id`. */
  ghost predicate InsertedByExpanded<K>(db: Database<K>, expanded: set<ObjectId>, id: ObjectId)
  {
    exists p :: p in expanded && Inserts(db, p, id)
  }

  lemma {:induction false} VisitAllOnlyInserted<K>(db: Database<K>, depth: int, next: seq<(ObjectId, Matrix3d)>, w: Walk<K>)
    requires w.expanded <= w.attempted
    ensures VisitAll(db, depth, next, w).Ok? ==>
              var r := VisitAll(db, depth, next, w).value;
              forall id :: id in r.attempted && id !in w.attempted ==>
                AmongChildren(next, id) || InsertedByExpanded(db, r.expanded, id)
    decreases |db.Keys - w.attempted|, 1, |next|
  {
    if next != [] {
      var r0 := Visit(db, depth, next[0].0, next[0].1, w);
      if r0.Ok? {
        var v0 := r0.value;
        assert v0.expanded <= v0.attempted && w.attempted <= v0.attempted by {
          VisitAdvances(db, depth, next[0].0, next[0].1, w);
          assert v0.expanded <= w.expanded + (v0.expanded - w.expanded);
        }
        assert forall id :: id in v0.attempted && id !in w.attempted && id != next[0].0 ==>
                 InsertedByExpanded(db, v0.expanded, id) by {
          VisitOnlyInserted(db, depth, next[0].0, next[0].1, w);
        }
        SubsetDifferenceSmaller(db.Keys, w.attempted, v0.attempted);
        var r := VisitAll(db, depth, next[1..], v0);
        VisitAllStep(db, depth, next, w);
        if r.Ok? {
          assert v0.expanded <= r.value.expanded by {
            VisitAllAdvances(db, depth, next[1..], v0);
          }
          VisitAllOnlyInserted(db, depth, next[1..], v0);
          OnlyInsertedStep(db, next, w, v0, r.value);
        }
      }
    }
  }

  /** The induction step of VisitAllOnlyInserted: the first child's call
      and the rest of the loop combined. */
  lemma OnlyInsertedStep<K>(db: Database<K>, next: seq<(ObjectId, Matrix3d)>, w: Walk<K>, v0: Walk<K>, v: Walk<K>)
    requires next != []
    requires v0.expanded <= v.expanded
    requires forall id :: id in v0.attempted && id !in w.attempted && id != next[0].0 ==>
               InsertedByExpanded(db, v0.expanded, id)
    requires forall id :: id in v.attempted && id !in v0.attempted ==>
               AmongChildren(next[1..], id) || InsertedByExpanded(db, v.expanded, id)
    ensures forall id :: id in v.attempted && id !in w.attempted ==>
              AmongChildren(next, id) || InsertedByExpanded(db, v.expanded, id)
  {
    forall id | id in v.attempted && id !in w.attempted
      ensures AmongChildren(next, id) || InsertedByExpanded(db, v.expanded, id)
    {
      if id == next[0].0 {
        assert next[0] in next;
      } else if id in v0.attempted {
        var p :| p in v0.expanded && Inserts(db, p, id);
        assert p in v.expanded;
      } else if AmongChildren(next[1..], id) {
        var c :| c in next[1..] && c.0 == id;
        assert c in next;
      }
    }
  }

  /** The budget is what bounds the descent: every definition a run
      analyses, other than model space, is inserted by one of the at most
      max(0, DEPTH) definitions whose children were descended into. */
  lemma RunOnlyInserted<K>(db: Database<K>, depth: int, modelSpace: ObjectId)
    ensures Run(db, depth, modelSpace).Ok? ==>
              var r := Run(db, depth, modelSpace).value;
              && |r.expanded| <= Max(0, depth)
              && forall id :: id in r.attempted && id != modelSpace ==>
                   exists p :: p in r.expanded && Inserts(db, p, id)
  {
    VisitOnlyInserted(db, depth, modelSpace, Identity(), Fresh<K>());
    RunBudget(db, depth, modelSpace);
    var r := Run(db, depth, modelSpace);
    assert r == Visit(db, depth, modelSpace, Identity(), Fresh<K>());
    if r.Ok? {
      forall id | id in r.value.attempted && id != modelSpace
        ensures exists p :: p in r.value.expanded && Inserts(db, p, id)
      {
        assert id !in Fresh<K>().attempted;
        assert InsertedByExpanded(db, r.value.expanded, id);
      }
    }
  }

  /** The ids `chain[0..k]` are all in `s`. */
  lemma {:induction false} ChainPrefixExpanded<K>(db: Database<K>, chain: seq<ObjectId>, expanded: set<ObjectId>, attempted: set<ObjectId>, k: nat)
    requires 0 < k < |chain|
    requires expanded <= attempted && chain[k] in attempted
    requires forall j :: 0 < j < |chain| ==> forall p :: Inserts(db, p, chain[j]) ==> p == chain[j - 1]
    requires forall id :: id in attempted && id != chain[0] ==> exists p :: p in expanded && Inserts(db, p, id)
    requires forall i, j :: 0 <= i < j < |chain| ==> chain[i] != chain[j]
    ensures forall j :: 0 <= j < k ==> chain[j] in expanded
    decreases k
  {
    var p :| p in expanded && Inserts(db, p, chain[k]);
    assert p == chain[k - 1];
    if k > 1 {
      ChainPrefixExpanded(db, chain, expanded, attempted, k - 1);
    }
  }

  /** If the chain's k-th definition was analysed, the k definitions
      above it were all expanded, so k is within the budget. */
  lemma ChainLevelWithinBudget<K>(db: Database<K>, chain: seq<ObjectId>, expanded: set<ObjectId>, attempted: set<ObjectId>, k: nat)
    requires 0 < k < |chain|
    requires expanded <= attempted && chain[k] in attempted
    requires forall j :: 0 < j < |chain| ==> forall p :: Inserts(db, p, chain[j]) ==> p == chain[j - 1]
    requires forall id :: id in attempted && id != chain[0] ==> exists p :: p in expanded && Inserts(db, p, id)
    requires forall i, j :: 0 <= i < j < |chain| ==> chain[i] != chain[j]
    ensures k <= |expanded|
  {
    ChainPrefixExpanded(db, chain, expanded, attempted, k);
    var prefix := set j | 0 <= j < k :: chain[j];
    DistinctPrefixSize(chain, k);
    assert prefix <= expanded;
    SubsetSize(prefix, expanded);
  }

  /** A chain of definitions, each inserted only by the one before it, is
      analysed down to level DEPTH and no further: with DEPTH = 1 and model
      space -> A -> B, B is never opened. */
  lemma ChainCutOff<K>(db: Database<K>, depth: int, chain: seq<ObjectId>)
    requires |chain| > 0
    requires forall i, j :: 0 <= i < j < |chain| ==> chain[i] != chain[j]
    requires forall j :: 0 < j < |chain| ==> forall p :: Inserts(db, p, chain[j]) ==> p == chain[j - 1]
    ensures Run(db, depth, chain[0]).Ok? ==>
              forall k :: Max(0, depth) < k < |chain| ==> chain[k] !in Run(db, depth, chain[0]).value.attempted
  {
    RunOnlyInserted(db, depth, chain[0]);
    RunBudget(db, depth, chain[0]);
    var r := Run(db, depth, chain[0]);
    if r.Ok? {
      var v := r.value;
      forall k | 0 < k < |chain| && chain[k] in v.attempted ensures k <= Max(0, depth) {
        ChainLevelWithinBudget(db, chain, v.expanded, v.attempted, k);
      }
    }
  }

  lemma SubsetSize<T>(a: set<T>, b: set<T>)
    requires a <= b
    ensures |a| <= |b|
  {
    assert b == a + (b - a);
    assert a !! (b - a);
  }

  lemma {:induction false} DistinctPrefixSize<T>(s: seq<T>, k: nat)
    requires k <= |s|
    requires forall i, j :: 0 <= i < j < |s| ==> s[i] != s[j]
    ensures |set j | 0 <= j < k :: s[j]| == k
    decreases k
  {
    if k > 0 {
      DistinctPrefixSize(s, k - 1);
      var before := set j | 0 <= j < k - 1 :: s[j];
      assert (set j | 0 <= j < k :: s[j]) == before + {s[k - 1]};
      assert s[k - 1] !in before;
    }
  }

  // ---------------------------------------------------------------------
  // The order of the siblings (the foreach over idsBtrNext)

  /** The loop over `a + b` is the loop over `a` followed by the loop over
      `b` from where it stopped; an exception in `a` ends both. */
  lemma {:induction false} VisitAllAppend<K>(db: Database<K>, depth: int, a: seq<(ObjectId, Matrix3d)>, b: seq<(ObjectId, Matrix3d)>, w: Walk<K>)
    ensures VisitAll(db, depth, a, w).Throws? ==> VisitAll(db, depth, a + b, w) == VisitAll(db, depth, a, w)
    ensures VisitAll(db, depth, a, w).Ok? ==>
              VisitAll(db, depth, a + b, w) == VisitAll(db, depth, b, VisitAll(db, depth, a, w).value)
    decreases |a|
  {
    if a == [] {
      assert a + b == b;
    } else {
      assert (a + b)[0] == a[0];
      assert (a + b)[1..] == a[1..] + b;
      var r0 := Visit(db, depth, a[0].0, a[0].1, w);
      if r0.Ok? {
        VisitAllAppend(db, depth, a[1..], b, r0.value);
      }
    }
  }

  lemma OccursAtExtends<T>(whole: seq<T>, whole': seq<T>, part: seq<T>, i: int)
    requires OccursAt(whole, part, i)
    requires |whole| <= |whole'| && whole'[..|whole|] == whole
    ensures OccursAt(whole', part, i)
  {
    assert whole'[i..i + |part|] == whole[i..i + |part|];
  }

  /** A call on a definition not analysed before puts that definition's
      own records right after the records present before the call. */
  lemma VisitOwnRecordsFirst<K>(db: Database<K>, depth: int, idBtr: ObjectId, transToModel: Matrix3d, w: Walk<K>)
    requires w.expanded <= w.attempted
    ensures Visit(db, depth, idBtr, transToModel, w).Ok? && idBtr !in w.attempted ==>
              OccursAt(Visit(db, depth, idBtr, transToModel, w).value.found, Reported(db, idBtr, transToModel), |w.found|)
  {
    if idBtr !in w.attempted && idBtr in db {
      var own := Reported(db, idBtr, transToModel);
      var found1 := w.found + own;
      assert OccursAt(found1, own, |w.found|) by {
        assert found1[|w.found|..|w.found| + |own|] == own;
      }
      if w.curDepth < depth {
        var next := ChildrenOf(db[idBtr], transToModel);
        var w2 := Walk(w.curDepth + 1, w.attempted + {idBtr}, found1, w.expanded + {idBtr});
        VisitDescends(db, depth, idBtr, transToModel, w);
        var r := VisitAll(db, depth, next, w2);
        if r.Ok? {
          assert |found1| <= |r.value.found| && r.value.found[..|found1|] == found1 by {
            VisitAllAdvances(db, depth, next, w2);
          }
          OccursAtExtends(found1, r.value.found, own, |w.found|);
        }
      } else {
        VisitStops(db, depth, idBtr, transToModel, w);
      }
    }
  }

  /** The children are visited in the enumeration order of idsBtrNext: if
      the i-th child was not analysed by the calls on the children before
      it, its records come right after everything those calls appended.
      So a definition inserted by two siblings is reported with the
      transform of the first of them. */
  lemma VisitAllSiblingOrder<K>(db: Database<K>, depth: int, next: seq<(ObjectId, Matrix3d)>, i: nat, w: Walk<K>)
    requires w.expanded <= w.attempted && i < |next|
    ensures VisitAll(db, depth, next, w).Ok? ==>
              && VisitAll(db, depth, next[..i], w).Ok?
              && (next[i].0 !in VisitAll(db, depth, next[..i], w).value.attempted ==>
                    OccursAt(VisitAll(db, depth, next, w).value.found, Reported(db, next[i].0, next[i].1),
                             |VisitAll(db, depth, next[..i], w).value.found|))
  {
    assert next == next[..i] + next[i..];
    VisitAllAppend(db, depth, next[..i], next[i..], w);
    var ra := VisitAll(db, depth, next[..i], w);
    if ra.Ok? {
      var v := ra.value;
      assert v.expanded <= v.attempted by {
        VisitAllAdvances(db, depth, next[..i], w);
        assert v.expanded <= w.expanded + (v.expanded - w.expanded);
      }
      assert next[i..][0] == next[i] && next[i..][1..] == next[i + 1..];
      var r0 := Visit(db, depth, next[i].0, next[i].1, v);
      if r0.Ok? {
        var v0 := r0.value;
        assert v0.expanded <= v0.attempted by {
          VisitAdvances(db, depth, next[i].0, next[i].1, v);
          assert v0.expanded <= v.expanded + (v0.expanded - v.expanded);
        }
        VisitOwnRecordsFirst(db, depth, next[i].0, next[i].1, v);
        var r := VisitAll(db, depth, next[i + 1..], v0);
        if r.Ok? && next[i].0 !in v.attempted {
          VisitAllAdvances(db, depth, next[i + 1..], v0);
          OccursAtExtends(v0.found, r.value.found, Reported(db, next[i].0, next[i].1), |v.found|);
        }
      }
    }
  }

  // ---------------------------------------------------------------------
  // The static state and the methods that change it

  class DuplicateBlocksChecker<K(==)> {
    /** DEPTH (public static, default 5). */
    var depth: int
    var curDepth: int
    var attemptedBlocks: set<ObjectId>
    var allDuplicates: seq<DuplicateRecord<K>>
    /** The definitions whose children were descended into. */
    ghost var expanded: set<ObjectId>

    constructor ()
      ensures depth == DefaultDepth && curDepth == 0
      ensures attemptedBlocks == {} && allDuplicates == [] && expanded == {}
    {
      depth := DefaultDepth;
      curDepth := 0;
      attemptedBlocks := {};
      allDuplicates := [];
      expanded := {};
    }

    ghost function State(): Walk<K>
      reads this
    {
      Walk(curDepth, attemptedBlocks, allDuplicates, expanded)
    }

    /** Check without the review dialog: a fresh run from model space; on
        success one error per duplicate, in order; on an exception no error
        at all (Inspector.Clear ran before the walk). */
    method Check(db: Database<K>, modelSpace: ObjectId, inspector: Inspector, message: DuplicateRecord<K> -> string)
      modifies this`curDepth, this`attemptedBlocks, this`allDuplicates, this`expanded, inspector
      ensures Run(db, depth, modelSpace).Throws? ==> inspector.errors == []
      ensures Run(db, depth, modelSpace).Ok? ==>
                && State() == Run(db, depth, modelSpace).value
                && inspector.errors == DuplicateErrors(allDuplicates, message)
    {
      curDepth := 0;
      inspector.Clear();
      attemptedBlocks := {};
      allDuplicates := [];
      expanded := {};
      assert State() == Fresh();
      var ok := GetDuplicateBlocks(db, modelSpace, Identity());
      if !ok {
        return;
      }
      ghost var found := allDuplicates;
      for i := 0 to |allDuplicates|
        modifies inspector
        invariant inspector.errors == DuplicateErrors(found[..i], message)
      {
        var d := allDuplicates[i];
        inspector.AddTransformedIdError(message(d), d.info.idBlRef, d.transformToModel, Some(ErrorIcon));
        DuplicateErrorsAppend(found[..i], d, message);
        assert found[..i + 1] == found[..i] + [d];
      }
      assert found[..|found|] == found;
    }

    /** GetDublicateBlocks: analyses `idBtr` unless it was analysed before,
        then descends while curDepth < DEPTH. Returns false where the source
        throws. */
    method GetDuplicateBlocks(db: Database<K>, idBtr: ObjectId, transToModel: Matrix3d) returns (ok: bool)
      modifies this`curDepth, this`attemptedBlocks, this`allDuplicates, this`expanded
      ensures old(attemptedBlocks) <= attemptedBlocks
      ensures ok == Visit(db, depth, idBtr, transToModel, old(State())).Ok?
      ensures ok ==> State() == Visit(db, depth, idBtr, transToModel, old(State())).value
      decreases |db.Keys - attemptedBlocks|
    {
      ghost var w0 := State();
      if idBtr in attemptedBlocks {
        AnalysedAtMostOnce(db, depth, idBtr, transToModel, w0);
        return true;
      }
      attemptedBlocks := attemptedBlocks + {idBtr};
      if idBtr !in db {
        assert Visit(db, depth, idBtr, transToModel, w0) == Throws(OpenFailed);
        return false;
      }
      var blrefInfos, idsBtrNext := CollectBlockReferences(db[idBtr], transToModel);
      var dublicBlRefInfos := Duplicates(blrefInfos);
      AddTransformedToModel(transToModel, dublicBlRefInfos);
      assert State() == Walk(w0.curDepth, w0.attempted + {idBtr}, w0.found + Reported(db, idBtr, transToModel), w0.expanded);
      if curDepth < depth {
        VisitDescends(db, depth, idBtr, transToModel, w0);
        curDepth := curDepth + 1;
        expanded := expanded + {idBtr};
        assert State() == Walk(w0.curDepth + 1, w0.attempted + {idBtr}, w0.found + Reported(db, idBtr, transToModel), w0.expanded + {idBtr});
        assert idsBtrNext[0..] == idsBtrNext;
        for j := 0 to |idsBtrNext|
          invariant w0.attempted + {idBtr} <= attemptedBlocks
          invariant Visit(db, depth, idBtr, transToModel, w0) == VisitAll(db, depth, idsBtrNext[j..], State())
        {
          SubsetDifferenceSmaller(db.Keys, w0.attempted, attemptedBlocks);
          ghost var before := State();
          assert idsBtrNext[j..][0] == idsBtrNext[j] && idsBtrNext[j..][1..] == idsBtrNext[j + 1..];
          ok := GetDuplicateBlocks(db, idsBtrNext[j].0, idsBtrNext[j].1);
          if !ok {
            assert VisitAll(db, depth, idsBtrNext[j..], before).Throws?;
            return false;
          }
          VisitAllStep(db, depth, idsBtrNext[j..], before);
        }
        assert idsBtrNext[|idsBtrNext|..] == [];
        assert Visit(db, depth, idBtr, transToModel, w0) == Ok(State());
      } else {
        VisitStops(db, depth, idBtr, transToModel, w0);
        assert Visit(db, depth, idBtr, transToModel, w0) == Ok(State());
      }
      return true;
    }

    /** The foreach over the definition's entities: the infos of its block
        references and the definitions they insert, with their transforms
        into model space, in enumeration order. */
    static method CollectBlockReferences(es: seq<Entity<K>>, transToModel: Matrix3d)
      returns (blrefInfos: seq<RefInfo<K>>, idsBtrNext: seq<(ObjectId, Matrix3d)>)
      ensures blrefInfos == InfosOf(es)
      ensures idsBtrNext == ChildrenOf(es, transToModel)
    {
      idsBtrNext := [];
      blrefInfos := [];
      for i := 0 to |es|
        invariant blrefInfos == InfosOf(es[..i])
        invariant idsBtrNext == ChildrenOf(es[..i], transToModel)
      {
        assert es[..i + 1][..i] == es[..i];
        match es[i]
        case BlockReference(target, blockTransform, info) =>
          blrefInfos := blrefInfos + [info];
          idsBtrNext := idsBtrNext + [(target, Mul(transToModel, blockTransform))];
        case OtherEntity =>
      }
      assert es[..|es|] == es;
    }

    /** AddTransformedToModelDublic: appends the groups' transformed
        copies to the result list. */
    method AddTransformedToModel(transToModel: Matrix3d, groups: seq<DuplicateGroup<K>>)
      modifies this`allDuplicates
      ensures allDuplicates == old(allDuplicates) + TransCopies(groups, transToModel)
    {
      allDuplicates := allDuplicates + TransCopies(groups, transToModel);
    }
  }
}

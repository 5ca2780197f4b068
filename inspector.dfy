/** The error list that checks report into (AcadLib/Errors/Inspector.cs).

    The source keeps the list in a static property; here it is the field
    `errors` of one Inspector object. Every AddError overload appends exactly
    one error at the end; Clear starts a new, empty list; GetCollapsedErrors
    reads the list without touching it; LogErrors sorts it in place. */
module Errors {
  import opened AcadTypes
  import opened Wrappers

  /** Where an error points: the overloads of AddError differ only here. */
  datatype Place =
    | Nowhere
    | OnEntity(entity: ObjectId)
    | OnEntityInExtents(entity: ObjectId, extents: Extents3d)
    | OnIdInExtents(extents: Extents3d, id: ObjectId)
    | OnId(id: ObjectId)
    | OnIdWithTransform(id: ObjectId, transform: Matrix3d)

  datatype Error = Error(message: string, place: Place, icon: Option<Icon>)

  /** `s` has no element twice. */
  ghost predicate NoDuplicates<T>(s: seq<T>)
  {
    forall i, j :: 0 <= i < j < |s| ==> s[i] != s[j]
  }

  /** The first occurrence of every element of `s`, in the order of those
      occurrences: what LINQ's Distinct enumerates. */
  function Distinct<T(==)>(s: seq<T>): (d: seq<T>)
    ensures |d| <= |s|
    ensures forall x :: x in d ==> x in s
    decreases |s|
  {
    if s == [] then []
    else
      var rest := Distinct(s[..|s| - 1]);
      if s[|s| - 1] in rest then rest else rest + [s[|s| - 1]]
  }

  /** Distinct keeps every element, adds none, and repeats none. */
  lemma {:induction false} DistinctElements<T>(s: seq<T>)
    ensures NoDuplicates(Distinct(s))
    ensures forall x :: x in Distinct(s) <==> x in s
    decreases |s|
  {
    if s != [] {
      var init := s[..|s| - 1];
      DistinctElements(init);
      assert s == init + [s[|s| - 1]];
    }
  }

  /** Distinct never grows the list, and keeps it whole when nothing repeats. */
  lemma {:induction false} DistinctOfDistinctFree<T>(s: seq<T>)
    ensures |Distinct(s)| <= |s|
    ensures NoDuplicates(s) ==> Distinct(s) == s
    decreases |s|
  {
    if s != [] {
      var init := s[..|s| - 1];
      DistinctOfDistinctFree(init);
      if NoDuplicates(s) {
        assert NoDuplicates(init);
        assert s[|s| - 1] !in init by {
          forall k | 0 <= k < |init| ensures init[k] != s[|s| - 1] {
            assert s[k] != s[|s| - 1];
          }
        }
        DistinctElements(init);
        assert s == init + [s[|s| - 1]];
      }
    }
  }

  /** `r` lists its elements in ascending rank. */
  ghost predicate SortedBy(r: seq<Error>, rank: Error -> int)
  {
    forall i, j :: 0 <= i < j < |r| ==> rank(r[i]) <= rank(r[j])
  }

  /** Inserts `x` into the sorted list `r` before the first element of
      higher rank. */
  function InsertByRank(r: seq<Error>, x: Error, rank: Error -> int): (t: seq<Error>)
    requires SortedBy(r, rank)
    ensures SortedBy(t, rank)
    ensures multiset(t) == multiset(r) + multiset{x}
    ensures forall k :: 0 <= k < |t| ==> t[k] == x || t[k] in r
    decreases |r|
  {
    if r == [] then [x]
    else if rank(x) <= rank(r[0]) then [x] + r
    else
      var tail := InsertByRank(r[1..], x, rank);
      InsertAfterHead(r, x, tail, rank);
      [r[0]] + tail
  }

  /** The recursive case of InsertByRank: the head stays in front of the
      tail with `x` inserted. */
  lemma InsertAfterHead(r: seq<Error>, x: Error, tail: seq<Error>, rank: Error -> int)
    requires r != [] && SortedBy(r, rank) && rank(r[0]) < rank(x)
    requires SortedBy(tail, rank) && multiset(tail) == multiset(r[1..]) + multiset{x}
    requires forall k :: 0 <= k < |tail| ==> tail[k] == x || tail[k] in r[1..]
    ensures SortedBy([r[0]] + tail, rank)
    ensures multiset([r[0]] + tail) == multiset(r) + multiset{x}
    ensures forall k :: 0 <= k < |tail| + 1 ==> ([r[0]] + tail)[k] == x || ([r[0]] + tail)[k] in r
  {
    assert r == [r[0]] + r[1..];
    forall k | 0 <= k < |tail| ensures rank(r[0]) <= rank(tail[k]) {
      if tail[k] != x {
        var j :| 0 <= j < |r[1..]| && r[1..][j] == tail[k];
        assert r[j + 1] == tail[k];
      }
    }
  }

  /** A sorted permutation of `s`: the effect of `List<Error>.Sort()` under
      an ordering of errors given by `rank`. */
  method SortErrors(s: seq<Error>, rank: Error -> int) returns (r: seq<Error>)
    ensures SortedBy(r, rank)
    ensures multiset(r) == multiset(s)
  {
    r := [];
    for i := 0 to |s|
      invariant SortedBy(r, rank)
      invariant multiset(r) == multiset(s[..i])
    {
      r := InsertByRank(r, s[i], rank);
      assert s[..i + 1] == s[..i] + [s[i]];
    }
    assert s[..|s|] == s;
  }

  class Inspector {
    var errors: seq<Error>

    /** The static constructor calls Clear. */
    constructor ()
      ensures errors == []
    {
      errors := [];
    }

    function HasErrors(): (b: bool)
      reads this
      ensures b <==> errors != []
    {
      |errors| > 0
    }

    /** The list-resetting part of Clear. */
    method Clear()
      modifies this
      ensures errors == []
    {
      errors := [];
    }

    /** The errors with repeats removed, first occurrences in order. */
    method GetCollapsedErrors() returns (r: seq<Error>)
      ensures r == Distinct(errors)
      ensures NoDuplicates(r)
      ensures forall e :: e in r <==> e in errors
    {
      var seen: set<Error> := {};
      r := [];
      var i := 0;
      while i < |errors|
        invariant 0 <= i <= |errors|
        invariant r == Distinct(errors[..i])
        invariant forall e :: e in seen <==> e in r
      {
        var e := errors[i];
        assert errors[..i + 1][..i] == errors[..i];
        if e !in seen {
          seen := seen + {e};
          r := r + [e];
        }
        i := i + 1;
      }
      assert errors[..|errors|] == errors;
      DistinctElements(errors);
    }

    /** AddError(msg, icon) and AddError(msg): a message alone. */
    method AddError(msg: string, icon: Option<Icon>)
      modifies this
      ensures errors == old(errors) + [Error(msg, Nowhere, icon)]
    {
      errors := errors + [Error(msg, Nowhere, icon)];
    }

    /** AddError(msg, params object[] args): the message is formatted with
        the arguments first. */
    method AddFormattedError(msg: string, args: seq<string>, format: (string, seq<string>) -> string)
      modifies this
      ensures errors == old(errors) + [Error(format(msg, args), Nowhere, None)]
    {
      errors := errors + [Error(format(msg, args), Nowhere, None)];
    }

    /** AddError(msg, ent, icon) and AddError(msg, ent). */
    method AddEntityError(msg: string, ent: ObjectId, icon: Option<Icon>)
      modifies this
      ensures errors == old(errors) + [Error(msg, OnEntity(ent), icon)]
    {
      errors := errors + [Error(msg, OnEntity(ent), icon)];
    }

    /** AddError(msg, ent, ext, icon) and AddError(msg, ent, ext). */
    method AddEntityExtentsError(msg: string, ent: ObjectId, ext: Extents3d, icon: Option<Icon>)
      modifies this
      ensures errors == old(errors) + [Error(msg, OnEntityInExtents(ent, ext), icon)]
    {
      errors := errors + [Error(msg, OnEntityInExtents(ent, ext), icon)];
    }

    /** AddError(msg, ext, idEnt, icon) and AddError(msg, ext, idEnt). */
    method AddExtentsIdError(msg: string, ext: Extents3d, idEnt: ObjectId, icon: Option<Icon>)
      modifies this
      ensures errors == old(errors) + [Error(msg, OnIdInExtents(ext, idEnt), icon)]
    {
      errors := errors + [Error(msg, OnIdInExtents(ext, idEnt), icon)];
    }

    /** AddError(msg, idEnt, icon) and AddError(msg, idEnt). */
    method AddIdError(msg: string, idEnt: ObjectId, icon: Option<Icon>)
      modifies this
      ensures errors == old(errors) + [Error(msg, OnId(idEnt), icon)]
    {
      errors := errors + [Error(msg, OnId(idEnt), icon)];
    }

    /** AddError(msg, idEnt, transform, icon), the overload the duplicate
        check calls. */
    method AddTransformedIdError(msg: string, idEnt: ObjectId, trans: Matrix3d, icon: Option<Icon>)
      modifies this
      ensures errors == old(errors) + [Error(msg, OnIdWithTransform(idEnt, trans), icon)]
    {
      errors := errors + [Error(msg, OnIdWithTransform(idEnt, trans), icon)];
    }

    /** The sort in LogErrors (writing the messages to the log is left out). */
    method LogErrors(rank: Error -> int)
      modifies this
      ensures SortedBy(errors, rank)
      ensures multiset(errors) == multiset(old(errors))
      ensures |errors| == |old(errors)|
    {
      errors := SortErrors(errors, rank);
      assert |multiset(errors)| == |multiset(old(errors))|;
    }
  }
}

/** The replacement table and how it is built from the caller's sources
    (`mergeReplacements` in gulp-tmpl-replace.js). */
module Replacements {

  /** A plain JavaScript object of replacements; `Object.entries` followed by
      `new Map` keeps exactly its key/value pairs, so an object is a map. */
  type Obj = map<string, string>

  /** The replacements the caller hands in: either a list of objects, which
      the merge reverses in place, or a single object. */
  datatype Source = Many(objs: array<Obj>) | Single(obj: Obj)

  function Reversed<T>(s: seq<T>): (r: seq<T>)
    ensures |r| == |s|
  {
    seq(|s|, k requires 0 <= k < |s| => s[|s| - 1 - k])
  }

  /** Folding left to right, each object overwriting what came before:
      the last object that defines a key decides its value. */
  function LastWins(objs: seq<Obj>): map<string, string>
  {
    if objs == [] then map[] else LastWins(objs[..|objs| - 1]) + objs[|objs| - 1]
  }

  /** The intended table: scanning the caller's list from the front, a key
      keeps the value of the first object that defines it. */
  function FirstWins(objs: seq<Obj>): map<string, string>
  {
    if objs == [] then map[] else FirstWins(objs[1..]) + objs[0]
  }

  /** A key is in the table exactly when some object defines it. */
  lemma {:induction false} FirstWinsKeys(objs: seq<Obj>, k: string)
    ensures k in FirstWins(objs) <==> exists i :: 0 <= i < |objs| && k in objs[i]
  {
    if objs != [] {
      FirstWinsKeys(objs[1..], k);
      if k in FirstWins(objs[1..]) {
        var i :| 0 <= i < |objs[1..]| && k in objs[1..][i];
        assert k in objs[i + 1];
      }
      forall i | 0 <= i < |objs| && k in objs[i] && i > 0
        ensures k in FirstWins(objs[1..])
      {
        assert k in objs[1..][i - 1];
      }
    }
  }

  /** Merge priority: the value of a key is that of the earliest object in
      the caller's list that defines it. */
  lemma {:induction false} FirstWinsPriority(objs: seq<Obj>, k: string, i: nat)
    requires i < |objs| && k in objs[i]
    requires forall j :: 0 <= j < i ==> k !in objs[j]
    ensures k in FirstWins(objs) && FirstWins(objs)[k] == objs[i][k]
  {
    if i > 0 {
      forall j | 0 <= j < i - 1 ensures k !in objs[1..][j] {
        assert objs[1..][j] == objs[j + 1];
      }
      FirstWinsPriority(objs[1..], k, i - 1);
    }
  }

  /** Folding the reversed list lets the last object of the reversed list,
      that is the first of the original one, win. */
  lemma {:induction false} LastWinsOfReversed(objs: seq<Obj>)
    ensures LastWins(Reversed(objs)) == FirstWins(objs)
  {
    if objs != [] {
      var r := Reversed(objs);
      assert r[..|r| - 1] == Reversed(objs[1..]);
      assert r[|r| - 1] == objs[0];
      LastWinsOfReversed(objs[1..]);
    }
  }

  lemma {:induction false} ReversedTwice<T>(s: seq<T>)
    ensures Reversed(Reversed(s)) == s
  {
    var r := Reversed(Reversed(s));
    assert |r| == |s|;
    forall k | 0 <= k < |s| ensures r[k] == s[k] {
      assert Reversed(s)[|s| - 1 - k] == s[k];
    }
  }

  /** `Array.prototype.reverse`: the array is reversed where it lies. */
  method ReverseInPlace<T>(a: array<T>)
    modifies a
    ensures a[..] == Reversed(old(a[..]))
  {
    var lo, hi := 0, a.Length;
    while lo + 1 < hi
      invariant 0 <= lo <= hi && lo + hi == a.Length
      invariant forall k :: 0 <= k < lo ==> a[k] == old(a[a.Length - 1 - k])
      invariant forall k :: hi <= k < a.Length ==> a[k] == old(a[a.Length - 1 - k])
      invariant forall k :: lo <= k < hi ==> a[k] == old(a[k])
    {
      a[lo], a[hi - 1] := a[hi - 1], a[lo];
      lo, hi := lo + 1, hi - 1;
    }
  }

  /** `mergeReplacements` for a list: reverse the caller's array in place,
      then fold the objects into one map, later entries overwriting earlier
      ones. The result gives every key the value of the first object of the
      caller's original list; the caller's array is left reversed. */
  method MergeList(objs: array<Obj>) returns (table: map<string, string>)
    modifies objs
    ensures objs[..] == Reversed(old(objs[..]))
    ensures table == FirstWins(old(objs[..]))
  {
    ReverseInPlace(objs);
    table := map[];
    var i := 0;
    while i < objs.Length
      invariant 0 <= i <= objs.Length
      invariant table == LastWins(objs[..i])
    {
      assert objs[..i + 1][..i] == objs[..i];
      table := table + objs[i];
      i := i + 1;
    }
    assert objs[..i] == objs[..];
    LastWinsOfReversed(old(objs[..]));
  }

  /** `mergeReplacements`: a list is merged first-value-wins (and reversed
      in place), a single object is taken as it is. */
  method Merge(src: Source) returns (table: map<string, string>)
    modifies if src.Many? then {src.objs} else {}
    ensures src.Single? ==> table == src.obj
    ensures src.Many? ==> table == FirstWins(old(src.objs[..]))
    ensures src.Many? ==> src.objs[..] == Reversed(old(src.objs[..]))
  {
    match src
    case Many(objs) =>
      table := MergeList(objs);
    case Single(obj) =>
      table := obj;
  }
}

/** The optional-value datatype used wherever the addon reads a value that
    may be missing: a regex capture that did not match, an `undefined`
    array element, a lookup that found nothing, an absent oEmbed record. */
module Wrappers {

  datatype Option<+T> = None | Some(value: T) {

    /** Returns the value held in Some, or `default` when None. */
    function GetOr(default: T): T {
      match this
      case Some(v) => v
      case None() => default
    }
  }

  /** The values of the `Some` elements of `xs`, in order. */
  function Present<T>(xs: seq<Option<T>>): (r: seq<T>)
    ensures |r| <= |xs|
  {
    if |xs| == 0 then []
    else if xs[0].Some? then [xs[0].value] + Present(xs[1..])
    else Present(xs[1..])
  }

  /** `ys` is the subsequence of `xs` at the positions `idx`, which
      increase strictly and include every `Some` position. */
  ghost predicate PicksPresent<T>(xs: seq<Option<T>>, ys: seq<T>, idx: seq<nat>) {
    && |idx| == |ys|
    && (forall k :: 0 <= k < |idx| ==> idx[k] < |xs|)
    && (forall k, l :: 0 <= k < l < |idx| ==> idx[k] < idx[l])
    && (forall k :: 0 <= k < |idx| ==> xs[idx[k]] == Some(ys[k]))
    && (forall j :: 0 <= j < |xs| && xs[j].Some? ==> j in idx)
  }

  /** `Present(xs)` keeps exactly the `Some` values of `xs`, in order. */
  lemma {:induction false} PresentSelects<T>(xs: seq<Option<T>>) returns (idx: seq<nat>)
    ensures PicksPresent(xs, Present(xs), idx)
    decreases |xs|
  {
    if |xs| == 0 {
      idx := [];
    } else {
      var rest := PresentSelects(xs[1..]);
      var shifted := ShiftPicks(xs, Present(xs[1..]), rest);
      if xs[0].Some? {
        idx := [0] + shifted;
        ConsPicks(xs, Present(xs[1..]), shifted);
      } else {
        idx := shifted;
      }
    }
  }

  /** A selection from `xs[1..]`, re-indexed into `xs`. */
  lemma ShiftPicks<T>(xs: seq<Option<T>>, ys: seq<T>, rest: seq<nat>) returns (shifted: seq<nat>)
    requires |xs| > 0 && PicksPresent(xs[1..], ys, rest)
    ensures |shifted| == |ys|
    ensures forall k :: 0 <= k < |shifted| ==> 1 <= shifted[k] < |xs|
    ensures forall k, l :: 0 <= k < l < |shifted| ==> shifted[k] < shifted[l]
    ensures forall k :: 0 <= k < |shifted| ==> xs[shifted[k]] == Some(ys[k])
    ensures forall j :: 1 <= j < |xs| && xs[j].Some? ==> j in shifted
  {
    var tail := xs[1..];
    shifted := seq(|rest|, k requires 0 <= k < |rest| => rest[k] + 1);
    forall k | 0 <= k < |shifted| ensures xs[shifted[k]] == Some(ys[k]) {
      assert xs[shifted[k]] == tail[rest[k]];
    }
    forall j | 1 <= j < |xs| && xs[j].Some? ensures j in shifted {
      assert tail[j - 1] == xs[j];
      var k :| 0 <= k < |rest| && rest[k] == j - 1;
      assert shifted[k] == j;
    }
  }

  /** Prepending position 0 for a leading `Some`. */
  lemma ConsPicks<T>(xs: seq<Option<T>>, ys: seq<T>, shifted: seq<nat>)
    requires |xs| > 0 && xs[0].Some?
    requires |shifted| == |ys|
    requires forall k :: 0 <= k < |shifted| ==> 1 <= shifted[k] < |xs|
    requires forall k, l :: 0 <= k < l < |shifted| ==> shifted[k] < shifted[l]
    requires forall k :: 0 <= k < |shifted| ==> xs[shifted[k]] == Some(ys[k])
    requires forall j :: 1 <= j < |xs| && xs[j].Some? ==> j in shifted
    ensures PicksPresent(xs, [xs[0].value] + ys, [0] + shifted)
  {
    var idx := [0] + shifted;
    var zs := [xs[0].value] + ys;
    forall k | 1 <= k < |idx| ensures xs[idx[k]] == Some(zs[k]) {
      assert idx[k] == shifted[k - 1] && zs[k] == ys[k - 1];
    }
    forall j | 0 <= j < |xs| && xs[j].Some? ensures j in idx {
      if j > 0 {
        assert j in shifted;
      }
    }
  }
}

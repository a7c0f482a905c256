/** Reading a list once and keeping, in order, what `pick` makes of some of its elements. */
module Selection {
  import opened Schema

  /** outs holds what pick makes of every element of srcs that it does not refuse, each once
      and in order; from[k] is the position outs[k] comes from. */
  ghost predicate SelectsFrom<S, T>(pick: S -> Option<T>, srcs: seq<S>, outs: seq<T>, from: seq<nat>) {
    && |from| == |outs|
    && (forall k :: 0 <= k < |from| ==> from[k] < |srcs| && pick(srcs[from[k]]) == Some(outs[k]))
    && (forall j, k :: 0 <= j < k < |from| ==> from[j] < from[k])
    && (forall i :: 0 <= i < |srcs| && pick(srcs[i]).Some? ==> i in from)
  }

  ghost predicate Selects<S, T>(pick: S -> Option<T>, srcs: seq<S>, outs: seq<T>) {
    exists from :: SelectsFrom(pick, srcs, outs, from)
  }

  lemma SelectsNothing<S, T>(pick: S -> Option<T>)
    ensures Selects(pick, [], [])
  {
    assert SelectsFrom(pick, [], [], []);
  }

  lemma SelectsSkipping<S, T>(pick: S -> Option<T>, srcs: seq<S>, outs: seq<T>, from: seq<nat>, src: S)
    requires SelectsFrom(pick, srcs, outs, from) && pick(src).None?
    ensures SelectsFrom(pick, srcs + [src], outs, from)
  {
    var all := srcs + [src];
    assert all[|srcs|] == src && forall i :: 0 <= i < |srcs| ==> all[i] == srcs[i];
  }

  lemma SelectsTaking<S, T>(pick: S -> Option<T>, srcs: seq<S>, outs: seq<T>, from: seq<nat>, src: S, out: T)
    requires SelectsFrom(pick, srcs, outs, from) && pick(src) == Some(out)
    ensures SelectsFrom(pick, srcs + [src], outs + [out], from + [|srcs|])
  {
    var all, from' := srcs + [src], from + [|srcs|];
    assert all[|srcs|] == src && forall i :: 0 <= i < |srcs| ==> all[i] == srcs[i];
    assert from'[|from|] == |srcs| && forall k :: 0 <= k < |from| ==> from'[k] == from[k];
    forall i | 0 <= i < |all| && pick(all[i]).Some?
      ensures i in from'
    {
      if i < |srcs| {
        assert i in from;
      }
    }
  }

  lemma SelectsOneMore<S, T>(pick: S -> Option<T>, srcs: seq<S>, outs: seq<T>, src: S)
    requires Selects(pick, srcs, outs)
    ensures pick(src).None? ==> Selects(pick, srcs + [src], outs)
    ensures pick(src).Some? ==> Selects(pick, srcs + [src], outs + [pick(src).value])
  {
    var from :| SelectsFrom(pick, srcs, outs, from);
    if pick(src).None? {
      SelectsSkipping(pick, srcs, outs, from, src);
    } else {
      SelectsTaking(pick, srcs, outs, from, src, pick(src).value);
    }
  }

  /** The selection as a function of the list. */
  function Select<S, T>(pick: S -> Option<T>, srcs: seq<S>): seq<T> {
    if srcs == [] then []
    else
      var n := |srcs| - 1;
      Select(pick, srcs[..n]) + if pick(srcs[n]).Some? then [pick(srcs[n]).value] else []
  }

  lemma SelectNext<S, T>(pick: S -> Option<T>, srcs: seq<S>)
    requires srcs != []
    ensures pick(srcs[|srcs| - 1]).None? ==> Select(pick, srcs) == Select(pick, srcs[..|srcs| - 1])
    ensures pick(srcs[|srcs| - 1]).Some? ==>
            Select(pick, srcs) == Select(pick, srcs[..|srcs| - 1]) + [pick(srcs[|srcs| - 1]).value]
  {
  }

  lemma LastTaken<S, T>(pick: S -> Option<T>, srcs: seq<S>, outs: seq<T>, from: seq<nat>)
    requires SelectsFrom(pick, srcs, outs, from) && srcs != [] && pick(srcs[|srcs| - 1]).Some?
    ensures outs != [] && outs[|outs| - 1] == pick(srcs[|srcs| - 1]).value
    ensures SelectsFrom(pick, srcs[..|srcs| - 1], outs[..|outs| - 1], from[..|outs| - 1])
  {
    var n, m := |srcs| - 1, |outs| - 1;
    assert n in from;
    var k :| 0 <= k < |from| && from[k] == n;
    assert from[k] <= from[m] < |srcs|;
    assert k == m;
    forall i | 0 <= i < n && pick(srcs[i]).Some?
      ensures i in from[..m]
    {
      assert i in from;
      var j :| 0 <= j < |from| && from[j] == i;
      assert from[..m][j] == i;
    }
  }

  lemma LastRefused<S, T>(pick: S -> Option<T>, srcs: seq<S>, outs: seq<T>, from: seq<nat>)
    requires SelectsFrom(pick, srcs, outs, from) && srcs != [] && pick(srcs[|srcs| - 1]).None?
    ensures SelectsFrom(pick, srcs[..|srcs| - 1], outs, from)
  {
    forall k | 0 <= k < |from|
      ensures from[k] < |srcs| - 1
    {
      assert pick(srcs[from[k]]).Some?;
    }
  }

  lemma {:induction false} SelectsFromIs<S, T>(pick: S -> Option<T>, srcs: seq<S>, outs: seq<T>, from: seq<nat>)
    requires SelectsFrom(pick, srcs, outs, from)
    ensures outs == Select(pick, srcs)
    decreases |srcs|
  {
    if srcs == [] {
    } else {
      var n, m := |srcs| - 1, |outs| - 1;
      if pick(srcs[n]).Some? {
        LastTaken(pick, srcs, outs, from);
        SelectsFromIs(pick, srcs[..n], outs[..m], from[..m]);
        assert outs == outs[..m] + [outs[m]];
        SelectNext(pick, srcs);
      } else {
        LastRefused(pick, srcs, outs, from);
        SelectsFromIs(pick, srcs[..n], outs, from);
        SelectNext(pick, srcs);
      }
    }
  }

  /** The list determines what is selected from it. */
  lemma SelectionIsUnique<S, T>(pick: S -> Option<T>, srcs: seq<S>, a: seq<T>, b: seq<T>)
    requires Selects(pick, srcs, a) && Selects(pick, srcs, b)
    ensures a == b
  {
    var f :| SelectsFrom(pick, srcs, a, f);
    var g :| SelectsFrom(pick, srcs, b, g);
    SelectsFromIs(pick, srcs, a, f);
    SelectsFromIs(pick, srcs, b, g);
  }
}

/** Parts of a sequence picked out in order. */
module Selections {

  ghost predicate Increasing(ix: seq<nat>) {
    forall i, j :: 0 <= i < j < |ix| ==> ix[i] < ix[j]
  }

  /** ix lists the positions of the elements to keep, all of them and in order. */
  ghost predicate Selects<T>(xs: seq<T>, keep: T -> bool, ix: seq<nat>) {
    && Increasing(ix)
    && (forall j :: 0 <= j < |ix| ==> ix[j] < |xs| && keep(xs[ix[j]]))
    && (forall i :: 0 <= i < |xs| && keep(xs[i]) ==> i in ix)
  }

  lemma IncreasingOneMore(ix: seq<nat>, n: nat)
    requires Increasing(ix) && forall j :: 0 <= j < |ix| ==> ix[j] < n
    ensures Increasing(ix + [n])
  {
  }

  lemma SelectsOneMore<T>(xs: seq<T>, last: T, keep: T -> bool, ix: seq<nat>) returns (more: seq<nat>)
    requires Selects(xs, keep, ix)
    ensures more == if keep(last) then ix + [|xs|] else ix
    ensures Selects(xs + [last], keep, more)
  {
    var all := xs + [last];
    more := if keep(last) then ix + [|xs|] else ix;
    IncreasingOneMore(ix, |xs|);
    forall j | 0 <= j < |more| ensures more[j] < |all| && keep(all[more[j]]) {
      if j < |ix| {
        assert more[j] == ix[j] && all[ix[j]] == xs[ix[j]];
      }
    }
    forall i | 0 <= i < |all| && keep(all[i]) ensures i in more {
      if i < |xs| {
        assert all[i] == xs[i] && i in ix;
        var j :| 0 <= j < |ix| && ix[j] == i;
        assert more[j] == i;
      } else {
        assert more[|ix|] == i;
      }
    }
  }
}

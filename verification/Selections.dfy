/** What filtering a list in a loop leaves: the items that satisfy a condition, each as often as before and in order. */
module Selections {

  /** The kept items are those at the given indices, which are exactly the indices of the items to keep. */
  ghost predicate SelectedBy<T(!new)>(kept: seq<T>, all: seq<T>, keeps: T -> bool, at: seq<nat>) {
    && |at| == |kept| && (forall a, b :: 0 <= a < b < |at| ==> at[a] < at[b])
    && (forall a :: 0 <= a < |at| ==> at[a] < |all| && kept[a] == all[at[a]])
    && (forall i :: 0 <= i < |all| ==> (keeps(all[i]) <==> i in at))
  }

  ghost predicate IsSelection<T(!new)>(kept: seq<T>, all: seq<T>, keeps: T -> bool) {
    exists at: seq<nat> :: SelectedBy(kept, all, keeps, at)
  }

  lemma TakeOneMore<T(!new)>(kept: seq<T>, all: seq<T>, keeps: T -> bool, x: T, at: seq<nat>)
    requires SelectedBy(kept, all, keeps, at) && keeps(x)
    ensures SelectedBy(kept + [x], all + [x], keeps, at + [|all|])
  {
    var more, grown := at + [|all|], all + [x];
    forall a | 0 <= a < |more| ensures more[a] < |grown| && (kept + [x])[a] == grown[more[a]] {
      if a < |at| {
        assert more[a] == at[a] && kept[a] == all[at[a]];
      }
    }
    forall i | 0 <= i < |grown| ensures keeps(grown[i]) <==> i in more {
      if i < |all| {
        assert grown[i] == all[i] && (i in more <==> i in at);
      }
    }
  }

  lemma LeaveOneMore<T(!new)>(kept: seq<T>, all: seq<T>, keeps: T -> bool, x: T, at: seq<nat>)
    requires SelectedBy(kept, all, keeps, at) && !keeps(x)
    ensures SelectedBy(kept, all + [x], keeps, at)
  {
    var grown := all + [x];
    forall i | 0 <= i < |grown| ensures keeps(grown[i]) <==> i in at {
      if i < |all| {
        assert grown[i] == all[i];
      } else {
        assert forall a :: 0 <= a < |at| ==> at[a] < |all|;
      }
    }
  }

  /** The loop that keeps them. */
  function Select<T>(all: seq<T>, keeps: T -> bool): seq<T> {
    if all == [] then []
    else
      var rest, x := Select(all[..|all| - 1], keeps), all[|all| - 1];
      if keeps(x) then rest + [x] else rest
  }

  lemma SelectIsSelection<T(!new)>(all: seq<T>, keeps: T -> bool)
    ensures IsSelection(Select(all, keeps), all, keeps)
  {
    var at := SelectedAt(all, keeps);
  }

  lemma {:induction false} SelectedAt<T(!new)>(all: seq<T>, keeps: T -> bool) returns (at: seq<nat>)
    ensures SelectedBy(Select(all, keeps), all, keeps, at)
  {
    at := [];
    if all != [] {
      var init, x := all[..|all| - 1], all[|all| - 1];
      assert all == init + [x];
      var rest := SelectedAt(init, keeps);
      at := SelectedOneMore(Select(init, keeps), init, keeps, x, rest);
    }
  }

  lemma SelectedOneMore<T(!new)>(kept: seq<T>, all: seq<T>, keeps: T -> bool, x: T, at: seq<nat>)
      returns (more: seq<nat>)
    requires SelectedBy(kept, all, keeps, at)
    ensures SelectedBy(if keeps(x) then kept + [x] else kept, all + [x], keeps, more)
  {
    if keeps(x) {
      TakeOneMore(kept, all, keeps, x, at);
      more := at + [|all|];
    } else {
      LeaveOneMore(kept, all, keeps, x, at);
      more := at;
    }
  }

  lemma SelectionMembers<T(!new)>(kept: seq<T>, all: seq<T>, keeps: T -> bool)
    requires IsSelection(kept, all, keeps)
    ensures |kept| <= |all| && forall x :: x in kept <==> x in all && keeps(x)
  {
    var at: seq<nat> :| SelectedBy(kept, all, keeps, at);
    forall x | x in all && keeps(x) ensures x in kept {
      var i :| 0 <= i < |all| && all[i] == x;
      var a :| 0 <= a < |at| && at[a] == i;
      assert kept[a] == x;
    }
    forall x | x in kept ensures x in all && keeps(x) {
      var a :| 0 <= a < |kept| && kept[a] == x;
      assert at[a] in at && all[at[a]] == x;
    }
    IncreasingFits(at, |all|);
  }

  lemma {:induction false} IncreasingFits(at: seq<nat>, n: nat)
    requires (forall a, b :: 0 <= a < b < |at| ==> at[a] < at[b]) && forall a :: 0 <= a < |at| ==> at[a] < n
    ensures |at| <= n
  {
    if at != [] {
      var last := |at| - 1;
      IncreasingFits(at[..last], at[last]);
    }
  }

  /** There is only one such list. */
  lemma SelectionUnique<T(!new)>(xs: seq<T>, ys: seq<T>, all: seq<T>, keeps: T -> bool)
    requires IsSelection(xs, all, keeps) && IsSelection(ys, all, keeps)
    ensures xs == ys
  {
    var a: seq<nat> :| SelectedBy(xs, all, keeps, a);
    var b: seq<nat> :| SelectedBy(ys, all, keeps, b);
    forall i ensures i in a <==> i in b {
      if i in a {
        assert i < |all| && keeps(all[i]);
      }
      if i in b {
        assert i < |all| && keeps(all[i]);
      }
    }
    SameIncreasing(a, b);
  }

  lemma {:induction false} SameIncreasing(a: seq<nat>, b: seq<nat>)
    requires (forall i, j :: 0 <= i < j < |a| ==> a[i] < a[j]) && (forall i, j :: 0 <= i < j < |b| ==> b[i] < b[j])
    requires forall x :: x in a <==> x in b
    ensures a == b
  {
    if a != [] {
      assert a[0] in a && a[0] in b;
    }
    if b != [] {
      assert b[0] in b && b[0] in a;
    }
    if a != [] {
      var m, n := |a| - 1, |b| - 1;
      assert a[m] in b && b[n] in a;
      forall x ensures x in a[..m] <==> x in b[..n] {
        if x in a[..m] {
          assert x in a && x != a[m];
        }
        if x in b[..n] {
          assert x in b && x != b[n];
        }
      }
      SameIncreasing(a[..m], b[..n]);
    }
  }
}

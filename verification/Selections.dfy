/** Selections: some items of a sequence, in their order. */
module Selections {
  /** `kept` are some of the items of `all`, in the same order. */
  ghost predicate Selection<T>(kept: seq<T>, all: seq<T>)
    decreases |all|
  {
    if all == [] then kept == []
    else
      var front, last := all[..|all| - 1], all[|all| - 1];
      || Selection(kept, front)
      || (kept != [] && kept[|kept| - 1] == last && Selection(kept[..|kept| - 1], front))
  }

  lemma PassOver<T>(kept: seq<T>, all: seq<T>, x: T)
    requires Selection(kept, all)
    ensures Selection(kept, all + [x])
  {
    assert (all + [x])[..|all|] == all;
  }

  lemma TakeOne<T>(kept: seq<T>, all: seq<T>, x: T)
    requires Selection(kept, all)
    ensures Selection(kept + [x], all + [x])
  {
    assert (all + [x])[..|all|] == all && (kept + [x])[..|kept|] == kept;
  }

  lemma {:induction false} TakeAll<T>(kept: seq<T>, all: seq<T>, more: seq<T>)
    requires Selection(kept, all)
    ensures Selection(kept + more, all + more)
    decreases |more|
  {
    if more == [] {
      assert kept + more == kept && all + more == all;
    } else {
      TakeOne(kept, all, more[0]);
      TakeAll(kept + [more[0]], all + [more[0]], more[1..]);
      Regroup(kept, more);
      Regroup(all, more);
    }
  }

  lemma Regroup<T>(a: seq<T>, more: seq<T>)
    requires more != []
    ensures (a + [more[0]]) + more[1..] == a + more
  {
  }

  lemma {:induction false} NothingIsSelection<T>(all: seq<T>)
    ensures Selection([], all)
  {
    if all != [] { NothingIsSelection(all[..|all| - 1]); }
  }

  lemma {:induction false} PrefixIsSelection<T>(kept: seq<T>, all: seq<T>)
    requires kept <= all
    ensures Selection(kept, all)
  {
    if all != [] {
      var front, last := all[..|all| - 1], all[|all| - 1];
      assert all == front + [last];
      if kept == all {
        PrefixIsSelection(front, front);
        TakeOne(front, front, last);
      } else {
        PrefixIsSelection(kept, front);
      }
    }
  }

  lemma {:induction false} SelectionOfSelection<T>(a: seq<T>, b: seq<T>, c: seq<T>)
    requires Selection(a, b) && Selection(b, c)
    ensures Selection(a, c)
    decreases |c|
  {
    if c != [] {
      var front := c[..|c| - 1];
      if Selection(b, front) {
        SelectionOfSelection(a, b, front);
      } else if Selection(a, b[..|b| - 1]) {
        SelectionOfSelection(a, b[..|b| - 1], front);
      } else {
        SelectionOfSelection(a[..|a| - 1], b[..|b| - 1], front);
      }
    }
  }

  lemma {:induction false} SelectionIsShorter<T>(kept: seq<T>, all: seq<T>)
    requires Selection(kept, all)
    ensures |kept| <= |all|
    decreases |all|
  {
    if all != [] {
      var front := all[..|all| - 1];
      if Selection(kept, front) {
        SelectionIsShorter(kept, front);
      } else {
        SelectionIsShorter(kept[..|kept| - 1], front);
      }
    }
  }

  /** A selection that leaves nothing out is everything. */
  lemma {:induction false} WholeSelection<T>(kept: seq<T>, all: seq<T>)
    requires Selection(kept, all) && |kept| == |all|
    ensures kept == all
    decreases |all|
  {
    if all != [] {
      var front, last := all[..|all| - 1], all[|all| - 1];
      if Selection(kept, front) { SelectionIsShorter(kept, front); }
      WholeSelection(kept[..|kept| - 1], front);
      assert kept == kept[..|kept| - 1] + [last] && all == front + [last];
    }
  }

  lemma PrefixThroughSelections<T>(a: seq<T>, b: seq<T>, c: seq<T>, d: seq<T>)
    requires a <= b && Selection(b, c) && Selection(c, d)
    ensures Selection(a, d)
  {
    PrefixIsSelection(a, b);
    SelectionOfSelection(a, b, c);
    SelectionOfSelection(a, c, d);
  }

  lemma {:induction false} SelectedAreAmong<T>(kept: seq<T>, all: seq<T>, k: nat)
    requires Selection(kept, all) && k < |kept|
    ensures kept[k] in all
    decreases |all|
  {
    var front := all[..|all| - 1];
    if Selection(kept, front) {
      SelectedAreAmong(kept, front, k);
    } else if k < |kept| - 1 {
      SelectedAreAmong(kept[..|kept| - 1], front, k);
    }
  }

  /** Any two are at least `d` apart, in order. */
  ghost predicate Spaced(times: seq<int>, d: int) {
    forall i, j :: 0 <= i < j < |times| ==> times[j] - times[i] >= d
  }

  lemma {:induction false} SelectionIsSpaced(kept: seq<int>, all: seq<int>, d: int)
    requires Selection(kept, all) && Spaced(all, d)
    ensures Spaced(kept, d)
    decreases |all|
  {
    if all != [] {
      var front, last := all[..|all| - 1], all[|all| - 1];
      if Selection(kept, front) {
        SelectionIsSpaced(kept, front, d);
      } else {
        var before := kept[..|kept| - 1];
        SelectionIsSpaced(before, front, d);
        forall i | 0 <= i < |before| ensures last - before[i] >= d {
          SelectedAreAmong(before, front, i);
        }
        assert kept == before + [last];
      }
    }
  }
}

/**
 * Order-preserving selection from a sequence: the shape of every
 * `for file in files: ... listeners.append(file)` loop of the listener loaders.
 */
module Filter {

  /** The elements of `s` that satisfy `p`, in their original order. */
  function Keep<T>(s: seq<T>, p: T -> bool): (r: seq<T>)
    ensures |r| <= |s|
    ensures forall x :: x in r ==> x in s && p(x)
    decreases |s|
  {
    if |s| == 0 then []
    else Keep(s[..|s| - 1], p) + (if p(s[|s| - 1]) then [s[|s| - 1]] else [])
  }

  /** The positions of `s` whose element satisfies `p`, ascending. */
  function Selected<T>(s: seq<T>, p: T -> bool): seq<nat>
    decreases |s|
  {
    if |s| == 0 then []
    else Selected(s[..|s| - 1], p) + (if p(s[|s| - 1]) then [|s| - 1] else [])
  }

  ghost predicate StrictlyIncreasing(idx: seq<nat>) {
    forall a, b :: 0 <= a < b < |idx| ==> idx[a] < idx[b]
  }

  /** Every position `Selected` lists lies in `s`, ascending. */
  lemma {:induction false} SelectedBounds<T>(s: seq<T>, p: T -> bool)
    ensures forall k :: 0 <= k < |Selected(s, p)| ==> Selected(s, p)[k] < |s|
    ensures StrictlyIncreasing(Selected(s, p))
    decreases |s|
  {
    if |s| > 0 {
      SelectedBounds(s[..|s| - 1], p);
    }
  }

  /** `Selected` lists a position exactly when its element satisfies `p`. */
  lemma {:induction false} SelectedExactly<T>(s: seq<T>, p: T -> bool)
    ensures forall i :: 0 <= i < |s| ==> (p(s[i]) <==> i in Selected(s, p))
    decreases |s|
  {
    if |s| > 0 {
      var init := s[..|s| - 1];
      SelectedExactly(init, p);
      SelectedBounds(init, p);
      forall i | 0 <= i < |s| - 1 ensures s[i] == init[i] { }
    }
  }

  /** `Keep` picks exactly the elements at the positions `Selected` lists. */
  lemma {:induction false} KeepAtSelected<T>(s: seq<T>, p: T -> bool)
    ensures |Selected(s, p)| == |Keep(s, p)|
    ensures forall k :: 0 <= k < |Keep(s, p)| ==> Selected(s, p)[k] < |s| && Keep(s, p)[k] == s[Selected(s, p)[k]]
    decreases |s|
  {
    SelectedBounds(s, p);
    if |s| > 0 {
      var init := s[..|s| - 1];
      KeepAtSelected(init, p);
      SelectedBounds(init, p);
      forall k | 0 <= k < |Selected(init, p)| ensures s[Selected(init, p)[k]] == init[Selected(init, p)[k]] { }
    }
  }

  /**
   * `Keep` is exactly the restriction of `s` to the positions that satisfy
   * `p`, taken in increasing order: nothing rejected appears, every accepted
   * position appears once, and the original order is kept.
   */
  lemma {:induction false} KeepIsSelection<T>(s: seq<T>, p: T -> bool)
    ensures |Selected(s, p)| == |Keep(s, p)|
    ensures forall k :: 0 <= k < |Keep(s, p)| ==> Selected(s, p)[k] < |s| && Keep(s, p)[k] == s[Selected(s, p)[k]]
    ensures StrictlyIncreasing(Selected(s, p))
    ensures forall i :: 0 <= i < |s| ==> (p(s[i]) <==> i in Selected(s, p))
  {
    KeepAtSelected(s, p);
    SelectedBounds(s, p);
    SelectedExactly(s, p);
  }
}

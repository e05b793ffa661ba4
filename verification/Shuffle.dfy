/** The Fisher-Yates shuffle, and that it is exact. */
module Shuffle {
  import opened Sequences

  /** One draw for each position; position `i` is exchanged with a position at or below it. */
  ghost predicate Choices(js: seq<nat>) { forall i :: 0 <= i < |js| ==> js[i] <= i }

  /** The loop `for i := len-1; i > 0; i--` that swaps positions `i` and `js[i]`. */
  function Shuffled<T>(s: seq<T>, js: seq<nat>): (r: seq<T>)
    requires |js| == |s| && Choices(js)
    ensures |r| == |s|
    decreases |s|
  {
    if s == [] then [] else
      var i := |s| - 1;
      var t := Swap(s, i, js[i]);
      Shuffled(t[..i], js[..i]) + [t[i]]
  }

  lemma AppendSame<T>(a: seq<T>, b: seq<T>, x: T)
    requires multiset(a) == multiset(b)
    ensures multiset(a + [x]) == multiset(b + [x])
  {
  }

  lemma LastSplit<T>(s: seq<T>)
    requires s != []
    ensures s[..|s| - 1] + [s[|s| - 1]] == s
  {
  }

  lemma {:induction false} ShuffledMultiset<T>(s: seq<T>, js: seq<nat>)
    requires |js| == |s| && Choices(js)
    ensures multiset(Shuffled(s, js)) == multiset(s)
    decreases |s|
  {
    if s != [] {
      var i := |s| - 1;
      var t := Swap(s, i, js[i]);
      SwapMultiset(s, i, js[i]);
      ShuffledMultiset(t[..i], js[..i]);
      AppendSame(Shuffled(t[..i], js[..i]), t[..i], t[i]);
      LastSplit(t);
    }
  }

  lemma SwapDistinct<T(!new)>(s: seq<T>, i: nat, j: nat)
    requires Distinct(s) && i < |s| && j < |s|
    ensures Distinct(Swap(s, i, j)[..i])
  {
  }

  /** The last position is final after the first swap; the others are shuffled further. */
  lemma ShuffledParts<T>(s: seq<T>, js: seq<nat>, i: nat)
    requires |js| == |s| == i + 1 && Choices(js)
    ensures Shuffled(s, js)[i] == s[js[i]] && Shuffled(s, js)[..i] == Shuffled(Swap(s, i, js[i])[..i], js[..i])
  {
  }

  /** Different choices give different arrangements of distinct elements. */
  lemma {:induction false} Injective<T(!new)>(s: seq<T>, js: seq<nat>, ks: seq<nat>)
    requires Distinct(s) && |js| == |s| == |ks| && Choices(js) && Choices(ks)
    requires Shuffled(s, js) == Shuffled(s, ks)
    ensures js == ks
    decreases |s|
  {
    hide Shuffled, Swap;
    if s != [] {
      var i := |s| - 1;
      ShuffledParts(s, js, i);
      ShuffledParts(s, ks, i);
      assert js[i] == ks[i];
      SwapDistinct(s, i, js[i]);
      Injective(Swap(s, i, js[i])[..i], js[..i], ks[..i]);
      LastSplit(js);
      LastSplit(ks);
    }
  }

  lemma WithoutLast<T>(s: seq<T>)
    requires s != []
    ensures multiset(s[..|s| - 1]) == multiset(s) - multiset{s[|s| - 1]}
  {
    LastSplit(s);
  }

  lemma DropSame<T>(a: seq<T>, b: seq<T>, n: nat)
    requires |a| == n + 1 == |b| && multiset(a) == multiset(b) && a[n] == b[n]
    ensures multiset(a[..n]) == multiset(b[..n])
  {
    WithoutLast(a);
    WithoutLast(b);
  }

  /** The last draw that brings the last element of `target` into place, and what remains to be arranged. */
  lemma LastDraw<T(!new)>(s: seq<T>, target: seq<T>) returns (j: nat)
    requires s != [] && multiset(target) == multiset(s) && |target| == |s|
    ensures j < |s| && s[j] == target[|s| - 1]
    ensures multiset(target[..|s| - 1]) == multiset(Swap(s, |s| - 1, j)[..|s| - 1])
  {
    var i := |s| - 1;
    assert target[i] in multiset(s);
    j :| 0 <= j < |s| && s[j] == target[i];
    SwapMultiset(s, i, j);
    DropSame(target, Swap(s, i, j), i);
  }

  lemma OneDrawMore<T(!new)>(s: seq<T>, target: seq<T>, j: nat, rest: seq<nat>)
    requires s != [] && |target| == |s| && j < |s| && s[j] == target[|s| - 1]
    requires |rest| == |s| - 1 && Choices(rest) && Shuffled(Swap(s, |s| - 1, j)[..|s| - 1], rest) == target[..|s| - 1]
    ensures Choices(rest + [j]) && Shuffled(s, rest + [j]) == target
  {
    hide Shuffled, Swap;
    var i, js := |s| - 1, rest + [j];
    assert js[..i] == rest;
    ShuffledParts(s, js, i);
    LastSplit(target);
    LastSplit(Shuffled(s, js));
  }

  /** Every arrangement is reached by some choice sequence, which is returned. */
  lemma {:induction false} Onto<T(!new)>(s: seq<T>, target: seq<T>) returns (js: seq<nat>)
    requires multiset(target) == multiset(s)
    ensures |js| == |s| && Choices(js) && Shuffled(s, js) == target
    decreases |s|
  {
    SameLength(s, target);
    js := [];
    if s != [] {
      hide Shuffled, Swap;
      var i := |s| - 1;
      var j := LastDraw(s, target);
      var rest := Onto(Swap(s, i, j)[..i], target[..i]);
      js := rest + [j];
      OneDrawMore(s, target, j, rest);
    }
  }

  lemma SameLength<T>(s: seq<T>, t: seq<T>)
    requires multiset(s) == multiset(t)
    ensures |s| == |t|
  {
    assert |multiset(s)| == |s| && |multiset(t)| == |t|;
  }

  ghost predicate Produces<T>(s: seq<T>, target: seq<T>, js: seq<nat>) {
    |js| == |s| && Choices(js) && Shuffled(s, js) == target
  }

  /**
   * Exactness: each arrangement of distinct elements comes from exactly one choice sequence, and nothing else does.
   */
  lemma ExactlyOneChoice<T(!new)>(s: seq<T>, target: seq<T>)
    requires Distinct(s)
    ensures multiset(target) == multiset(s) <==> exists js :: Produces(s, target, js)
    ensures forall js, ks :: Produces(s, target, js) && Produces(s, target, ks) ==> js == ks
  {
    if multiset(target) == multiset(s) {
      var js := Onto(s, target);
      assert Produces(s, target, js);
    }
    forall js | Produces(s, target, js) ensures multiset(target) == multiset(s) {
      ShuffledMultiset(s, js);
    }
    forall js, ks | Produces(s, target, js) && Produces(s, target, ks) ensures js == ks {
      Injective(s, js, ks);
    }
  }

  /** The source's draws: number `k` of the oracle reduced to the bound asked for. */
  type Oracle = nat -> nat

  function Draws(rnd: Oracle, start: nat, n: nat): (js: seq<nat>)
    ensures |js| == n && Choices(js)
  {
    seq(n, i requires 0 <= i < n => rnd(start + i) % (i + 1))
  }

  /** Loop position `i`: everything above `i` is final, the rest still has to be shuffled. */
  ghost function Remaining<T>(s: seq<T>, js: seq<nat>, i: nat): seq<T>
    requires i < |s| == |js| && Choices(js)
  {
    Shuffled(s[..i + 1], js[..i + 1]) + s[i + 1..]
  }

  lemma SwapStep<T>(s: seq<T>, js: seq<nat>, i: nat)
    requires 0 < i < |s| == |js| && Choices(js)
    ensures Remaining(Swap(s, i, js[i]), js, i - 1) == Remaining(s, js, i)
  {
    var t := Swap(s, i, js[i]);
    var head := Swap(s[..i + 1], i, js[i]);
    assert t[..i] == head[..i] && js[..i + 1][..i] == js[..i];
    assert t[i..] == [head[i]] + s[i + 1..];
  }

  /** Before the loop everything remains to be shuffled, after it nothing. */
  lemma RemainingEnds<T>(s: seq<T>, js: seq<nat>)
    requires s != [] && |js| == |s| && Choices(js)
    ensures Remaining(s, js, |s| - 1) == Shuffled(s, js) && Remaining(s, js, 0) == s
  {
    assert s[..|s|] == s && js[..|s|] == js && s[|s|..] == [];
    hide Shuffled;
    OneElement(s[..1], js[..1]);
  }

  lemma OneElement<T>(s: seq<T>, js: seq<nat>)
    requires |s| == 1 == |js| && Choices(js)
    ensures Shuffled(s, js) == s
  {
    assert Shuffled(s[..0], js[..0]) == [];
  }

  lemma NothingToShuffle<T>(s: seq<T>, js: seq<nat>)
    requires |s| == 0 == |js|
    ensures Shuffled(s, js) == s
  {
  }

  method ShuffleInPlace(b: array<char>, rnd: Oracle, start: nat)
    modifies b
    ensures b[..] == Shuffled(old(b[..]), Draws(rnd, start, b.Length))
  {
    hide Shuffled, Remaining;
    if b.Length == 0 {
      NothingToShuffle(b[..], Draws(rnd, start, 0));
      return;
    }
    ghost var was, js := b[..], Draws(rnd, start, b.Length);
    RemainingEnds(was, js);
    var i := b.Length - 1;
    while i > 0
      invariant 0 <= i < b.Length
      invariant Remaining(b[..], js, i) == Shuffled(was, js)
    {
      var j := rnd(start + i) % (i + 1);
      SwapStep(b[..], js, i);
      ghost var next := Swap(b[..], i, j);
      b[i], b[j] := b[j], b[i];
      assert b[..] == next;
      i := i - 1;
    }
    RemainingEnds(b[..], js);
  }
}

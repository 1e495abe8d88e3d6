/**
 * The matching blocks that `difflib.SequenceMatcher(a=x, b=y).get_matching_blocks()`
 * reports for two token lists, for the case where no token is junk (no
 * `isjunk` function, and the popularity heuristic not triggered).
 *
 * `find_longest_match` picks, inside a window, a longest common run, the
 * earliest one in `x` and then in `y`; `get_matching_blocks` recurses on the
 * parts of the window left and right of it, sorts the blocks, merges adjacent
 * ones and appends the sentinel `(len(x), len(y), 0)`.
 */
module Matcher {

  /** A matching block `(a, b, size)`: `x[a:a+size] == y[b:b+size]`. */
  datatype Block = Block(a: nat, b: nat, size: nat)

  /** The part `x[alo:ahi]`, `y[blo:bhi]` a search is restricted to. */
  datatype Window = Window(alo: nat, ahi: nat, blo: nat, bhi: nat)

  function EndA(m: Block): nat { m.a + m.size }
  function EndB(m: Block): nat { m.b + m.size }

  predicate WindowIn<T>(x: seq<T>, y: seq<T>, w: Window) {
    w.alo <= w.ahi <= |x| && w.blo <= w.bhi <= |y|
  }

  predicate InWindow(m: Block, w: Window) {
    w.alo <= m.a && EndA(m) <= w.ahi && w.blo <= m.b && EndB(m) <= w.bhi
  }

  /** The block names equal runs of the two lists. */
  predicate IsRun<T(==)>(x: seq<T>, y: seq<T>, m: Block) {
    EndA(m) <= |x| && EndB(m) <= |y| && x[m.a..EndA(m)] == y[m.b..EndB(m)]
  }

  /** Every block ends, in both lists, before the next block starts. */
  predicate Increasing(ms: seq<Block>) {
    forall i, j | 0 <= i < |ms| && 0 <= j < |ms| && j == i + 1 :: EndA(ms[i]) <= ms[j].a && EndB(ms[i]) <= ms[j].b
  }

  /** What `get_matching_blocks` promises its callers: equal runs, in
      increasing order in both lists, closed by the sentinel `(len(x), len(y), 0)`. */
  predicate ValidBlocks<T(==)>(x: seq<T>, y: seq<T>, ms: seq<Block>) {
    && |ms| > 0
    && ms[|ms| - 1] == Block(|x|, |y|, 0)
    && (forall k | 0 <= k < |ms| :: IsRun(x, y, ms[k]))
    && Increasing(ms)
  }

  // ------------------------------------------------------------ find_longest_match

  /** Length of the longest common run of `x` and `y` starting at `(i, j)` and
      staying inside `x[..ahi]` and `y[..bhi]`. */
  function RunLen<T(==)>(x: seq<T>, y: seq<T>, i: nat, j: nat, ahi: nat, bhi: nat): (n: nat)
    requires i <= ahi <= |x| && j <= bhi <= |y|
    ensures i + n <= ahi && j + n <= bhi
    decreases ahi - i
  {
    if i < ahi && j < bhi && x[i] == y[j] then 1 + RunLen(x, y, i + 1, j + 1, ahi, bhi) else 0
  }

  /** `RunLen` measures a common run, and one that cannot be extended inside the bounds. */
  lemma {:induction false} RunLenIsRun<T>(x: seq<T>, y: seq<T>, i: nat, j: nat, ahi: nat, bhi: nat)
    requires i <= ahi <= |x| && j <= bhi <= |y|
    ensures var n := RunLen(x, y, i, j, ahi, bhi);
      && x[i..i + n] == y[j..j + n]
      && (i + n < ahi && j + n < bhi ==> x[i + n] != y[j + n])
    decreases ahi - i
  {
    if i < ahi && j < bhi && x[i] == y[j] {
      RunLenIsRun(x, y, i + 1, j + 1, ahi, bhi);
      var n := RunLen(x, y, i, j, ahi, bhi);
      assert x[i..i + n] == [x[i]] + x[i + 1..i + n];
      assert y[j..j + n] == [y[j]] + y[j + 1..j + n];
    }
  }

  /** Every common run starting at `(i, j)` inside the bounds is at most `RunLen` long. */
  lemma {:induction false} RunLenMaximal<T>(x: seq<T>, y: seq<T>, i: nat, j: nat, ahi: nat, bhi: nat, len: nat)
    requires i <= ahi <= |x| && j <= bhi <= |y|
    requires i + len <= ahi && j + len <= bhi
    requires x[i..i + len] == y[j..j + len]
    ensures len <= RunLen(x, y, i, j, ahi, bhi)
    decreases len
  {
    if len > 0 {
      assert x[i] == x[i..i + len][0] == y[j..j + len][0] == y[j];
      assert x[i + 1..i + len] == x[i..i + len][1..];
      assert y[j + 1..j + len] == y[j..j + len][1..];
      RunLenMaximal(x, y, i + 1, j + 1, ahi, bhi, len - 1);
    }
  }

  /** `(i', j')` comes before `(i, j)` in the search order: rows of `x`, then `y`. */
  predicate Before(i': nat, j': nat, i: nat, j: nat) {
    i' < i || (i' == i && j' < j)
  }

  /** The block `find_longest_match` must return for window `w`: a common run
      inside the window that no run in the window is longer than, and that every
      run starting earlier is shorter than; `(alo, blo, 0)` when there is none. */
  predicate IsLongest<T(==)>(x: seq<T>, y: seq<T>, w: Window, m: Block)
    requires WindowIn(x, y, w)
  {
    && InWindow(m, w)
    && x[m.a..EndA(m)] == y[m.b..EndB(m)]
    && (m.size == 0 ==> m.a == w.alo && m.b == w.blo)
    && (forall i, j | w.alo <= i < w.ahi && w.blo <= j < w.bhi ::
          RunLen(x, y, i, j, w.ahi, w.bhi) <= m.size)
    && (forall i, j | w.alo <= i < w.ahi && w.blo <= j < w.bhi && Before(i, j, m.a, m.b) ::
          RunLen(x, y, i, j, w.ahi, w.bhi) < m.size)
  }

  /** The state of the search after visiting every position before `(i, j)`. */
  predicate BestSoFar<T(==)>(x: seq<T>, y: seq<T>, w: Window, i: nat, j: nat, best: Block)
    requires WindowIn(x, y, w)
  {
    && InWindow(best, w)
    && x[best.a..EndA(best)] == y[best.b..EndB(best)]
    && (best.size == 0 ==> best.a == w.alo && best.b == w.blo)
    && (forall i', j' | w.alo <= i' < w.ahi && w.blo <= j' < w.bhi && Before(i', j', i, j) ::
          RunLen(x, y, i', j', w.ahi, w.bhi) <= best.size)
    && (forall i', j' | w.alo <= i' < w.ahi && w.blo <= j' < w.bhi && Before(i', j', best.a, best.b) ::
          RunLen(x, y, i', j', w.ahi, w.bhi) < best.size)
  }

  /** Visiting `(i, j)` and keeping the run there only if it is strictly longer. */
  lemma ScanVisit<T>(x: seq<T>, y: seq<T>, w: Window, i: nat, j: nat, best: Block)
    requires WindowIn(x, y, w)
    requires w.alo <= i < w.ahi && w.blo <= j < w.bhi
    requires BestSoFar(x, y, w, i, j, best)
    ensures var k := RunLen(x, y, i, j, w.ahi, w.bhi);
      BestSoFar(x, y, w, i, j + 1, if k > best.size then Block(i, j, k) else best)
  {
    if RunLen(x, y, i, j, w.ahi, w.bhi) > best.size {
      ScanTake(x, y, w, i, j, best);
    } else {
      ScanKeep(x, y, w, i, j, best);
    }
  }

  /** A run at `(i, j)` no longer than the best so far leaves the best unchanged. */
  lemma ScanKeep<T>(x: seq<T>, y: seq<T>, w: Window, i: nat, j: nat, best: Block)
    requires WindowIn(x, y, w)
    requires w.alo <= i < w.ahi && w.blo <= j < w.bhi
    requires BestSoFar(x, y, w, i, j, best)
    requires RunLen(x, y, i, j, w.ahi, w.bhi) <= best.size
    ensures BestSoFar(x, y, w, i, j + 1, best)
  {
    forall i', j' | w.alo <= i' < w.ahi && w.blo <= j' < w.bhi && Before(i', j', i, j + 1)
      ensures RunLen(x, y, i', j', w.ahi, w.bhi) <= best.size
    {
      if Before(i', j', i, j) {
        assert RunLen(x, y, i', j', w.ahi, w.bhi) <= best.size;
      }
    }
  }

  /** A run at `(i, j)` strictly longer than the best so far becomes the best. */
  lemma ScanTake<T>(x: seq<T>, y: seq<T>, w: Window, i: nat, j: nat, best: Block)
    requires WindowIn(x, y, w)
    requires w.alo <= i < w.ahi && w.blo <= j < w.bhi
    requires BestSoFar(x, y, w, i, j, best)
    requires RunLen(x, y, i, j, w.ahi, w.bhi) > best.size
    ensures BestSoFar(x, y, w, i, j + 1, Block(i, j, RunLen(x, y, i, j, w.ahi, w.bhi)))
  {
    var k := RunLen(x, y, i, j, w.ahi, w.bhi);
    RunLenIsRun(x, y, i, j, w.ahi, w.bhi);
    forall i', j' | w.alo <= i' < w.ahi && w.blo <= j' < w.bhi && Before(i', j', i, j + 1)
      ensures RunLen(x, y, i', j', w.ahi, w.bhi) <= k
    {
      if Before(i', j', i, j) {
        assert RunLen(x, y, i', j', w.ahi, w.bhi) <= best.size;
      }
    }
    forall i', j' | w.alo <= i' < w.ahi && w.blo <= j' < w.bhi && Before(i', j', i, j)
      ensures RunLen(x, y, i', j', w.ahi, w.bhi) < k
    {
      assert RunLen(x, y, i', j', w.ahi, w.bhi) <= best.size;
    }
  }

  /** Finishing a row of the search. */
  lemma ScanRowEnd<T>(x: seq<T>, y: seq<T>, w: Window, i: nat, best: Block)
    requires WindowIn(x, y, w)
    requires w.alo <= i < w.ahi
    requires BestSoFar(x, y, w, i, w.bhi, best)
    ensures BestSoFar(x, y, w, i + 1, w.blo, best)
  {
  }

  /** The search of `find_longest_match`: visit the positions in order and keep
      a run only when it is strictly longer than the best so far. */
  function Scan<T(==)>(x: seq<T>, y: seq<T>, w: Window, i: nat, j: nat, best: Block): (m: Block)
    requires WindowIn(x, y, w)
    requires w.alo <= i <= w.ahi && w.blo <= j <= w.bhi
    requires BestSoFar(x, y, w, i, j, best)
    ensures IsLongest(x, y, w, m)
    decreases w.ahi - i, w.bhi - j
  {
    if i == w.ahi then best
    else if j == w.bhi then
      ScanRowEnd(x, y, w, i, best);
      Scan(x, y, w, i + 1, w.blo, best)
    else
      var k := RunLen(x, y, i, j, w.ahi, w.bhi);
      ScanVisit(x, y, w, i, j, best);
      Scan(x, y, w, i, j + 1, if k > best.size then Block(i, j, k) else best)
  }

  /** `find_longest_match(alo, ahi, blo, bhi)`. */
  function Longest<T(==)>(x: seq<T>, y: seq<T>, w: Window): (m: Block)
    requires WindowIn(x, y, w)
    ensures IsLongest(x, y, w, m)
  {
    Scan(x, y, w, w.alo, w.blo, Block(w.alo, w.blo, 0))
  }

  // ------------------------------------------------------------ get_matching_blocks

  /** Positive-size runs lying inside window `w`. */
  predicate RunsIn<T(==)>(x: seq<T>, y: seq<T>, ms: seq<Block>, w: Window) {
    forall k | 0 <= k < |ms| :: InWindow(ms[k], w) && ms[k].size > 0 && IsRun(x, y, ms[k])
  }

  /** The blocks of the part before `m` and of the part after it, put around `m`,
      are runs inside the whole window, in increasing order. */
  lemma BlocksAround<T>(x: seq<T>, y: seq<T>, w: Window, left: seq<Block>, m: Block, right: seq<Block>)
    requires InWindow(m, w) && m.size > 0 && IsRun(x, y, m)
    requires RunsIn(x, y, left, Window(w.alo, m.a, w.blo, m.b)) && Increasing(left)
    requires RunsIn(x, y, right, Window(EndA(m), w.ahi, EndB(m), w.bhi)) && Increasing(right)
    ensures RunsIn(x, y, left + [m] + right, w) && Increasing(left + [m] + right)
  {
    var ms := left + [m] + right;
    forall k | 0 <= k < |ms| ensures InWindow(ms[k], w) && ms[k].size > 0 && IsRun(x, y, ms[k]) {
      if k < |left| {
        assert ms[k] == left[k];
      } else if k > |left| {
        assert ms[k] == right[k - |left| - 1];
      }
    }
    forall k | 0 <= k < |ms| - 1 ensures EndA(ms[k]) <= ms[k + 1].a && EndB(ms[k]) <= ms[k + 1].b {
      if k + 1 < |left| {
        assert ms[k] == left[k] && ms[k + 1] == left[k + 1];
      } else if k + 1 == |left| {
        assert ms[k] == left[k] && ms[k + 1] == m;
      } else if k == |left| {
        assert ms[k + 1] == right[0];
      } else {
        assert ms[k] == right[k - |left| - 1] && ms[k + 1] == right[k - |left|];
      }
    }
  }

  /** The blocks found in window `w`, in increasing order: the longest match,
      with the blocks of the part before it and of the part after it around it. */
  function Blocks<T(==)>(x: seq<T>, y: seq<T>, w: Window): (ms: seq<Block>)
    requires WindowIn(x, y, w)
    ensures RunsIn(x, y, ms, w)
    ensures Increasing(ms)
    decreases w.ahi - w.alo
  {
    var m := Longest(x, y, w);
    if m.size == 0 then []
    else
      var left := if w.alo < m.a && w.blo < m.b then Blocks(x, y, Window(w.alo, m.a, w.blo, m.b)) else [];
      var right := if EndA(m) < w.ahi && EndB(m) < w.bhi then Blocks(x, y, Window(EndA(m), w.ahi, EndB(m), w.bhi)) else [];
      BlocksAround(x, y, w, left, m, right);
      left + [m] + right
  }

  predicate Adjacent(m: Block, n: Block) {
    EndA(m) == n.a && EndB(m) == n.b
  }

  /** The final pass of `get_matching_blocks`: blocks that touch in both lists
      are merged into one. */
  function Merge(ms: seq<Block>): seq<Block>
    decreases |ms|
  {
    if |ms| <= 1 then ms
    else if Adjacent(ms[0], ms[1]) then Merge([Block(ms[0].a, ms[0].b, ms[0].size + ms[1].size)] + ms[2..])
    else [ms[0]] + Merge(ms[1..])
  }

  /** Two touching runs make one run. */
  lemma RunsJoin<T>(x: seq<T>, y: seq<T>, m: Block, n: Block)
    requires IsRun(x, y, m) && IsRun(x, y, n) && Adjacent(m, n)
    ensures IsRun(x, y, Block(m.a, m.b, m.size + n.size))
  {
    var j := Block(m.a, m.b, m.size + n.size);
    assert x[j.a..EndA(j)] == x[m.a..EndA(m)] + x[n.a..EndA(n)];
    assert y[j.b..EndB(j)] == y[m.b..EndB(m)] + y[n.b..EndB(n)];
  }

  /** Positive-size runs of `x` and `y`. */
  predicate Runs<T(==)>(x: seq<T>, y: seq<T>, ms: seq<Block>) {
    forall k | 0 <= k < |ms| :: ms[k].size > 0 && IsRun(x, y, ms[k])
  }

  /** Merging the first two blocks keeps positive-size runs in increasing order. */
  lemma MergeFirstTwo<T>(x: seq<T>, y: seq<T>, ms: seq<Block>)
    requires Runs(x, y, ms) && Increasing(ms)
    requires |ms| > 1 && Adjacent(ms[0], ms[1])
    ensures var ns := [Block(ms[0].a, ms[0].b, ms[0].size + ms[1].size)] + ms[2..];
      Runs(x, y, ns) && Increasing(ns)
  {
    RunsJoin(x, y, ms[0], ms[1]);
    var ns := [Block(ms[0].a, ms[0].b, ms[0].size + ms[1].size)] + ms[2..];
    forall k | 0 <= k < |ns| ensures ns[k].size > 0 && IsRun(x, y, ns[k]) {
      if k > 0 {
        assert ns[k] == ms[k + 1];
      }
    }
    forall k | 0 <= k < |ns| - 1 ensures EndA(ns[k]) <= ns[k + 1].a && EndB(ns[k]) <= ns[k + 1].b {
      assert ns[k + 1] == ms[k + 2];
      if k > 0 {
        assert ns[k] == ms[k + 1];
      }
    }
  }

  /** A positive-size run ending before the first block can be put in front. */
  lemma RunsCons<T>(x: seq<T>, y: seq<T>, m: Block, r: seq<Block>)
    requires m.size > 0 && IsRun(x, y, m)
    requires Runs(x, y, r) && Increasing(r)
    requires |r| > 0 ==> EndA(m) <= r[0].a && EndB(m) <= r[0].b
    ensures Runs(x, y, [m] + r) && Increasing([m] + r)
  {
    assert forall k | 1 <= k < |[m] + r| :: ([m] + r)[k] == r[k - 1];
  }

  /** Merging keeps positive-size runs in increasing order, and does not move
      the first block's start. */
  lemma {:induction false} MergeKeeps<T>(x: seq<T>, y: seq<T>, ms: seq<Block>)
    requires Runs(x, y, ms) && Increasing(ms)
    ensures Runs(x, y, Merge(ms)) && Increasing(Merge(ms))
    ensures |ms| > 0 ==> |Merge(ms)| > 0 && Merge(ms)[0].a == ms[0].a && Merge(ms)[0].b == ms[0].b
    decreases |ms|
  {
    if |ms| > 1 {
      if Adjacent(ms[0], ms[1]) {
        MergeFirstTwo(x, y, ms);
        MergeKeeps(x, y, [Block(ms[0].a, ms[0].b, ms[0].size + ms[1].size)] + ms[2..]);
      } else {
        MergeKeeps(x, y, ms[1..]);
        RunsCons(x, y, ms[0], Merge(ms[1..]));
      }
    }
  }

  /** `get_matching_blocks()`. */
  function MatchingBlocks<T(==)>(x: seq<T>, y: seq<T>): seq<Block> {
    Merge(Blocks(x, y, Window(0, |x|, 0, |y|))) + [Block(|x|, |y|, 0)]
  }

  /** Closing positive-size runs in increasing order with the sentinel gives
      valid blocks. */
  lemma WithSentinel<T>(x: seq<T>, y: seq<T>, r: seq<Block>)
    requires Runs(x, y, r) && Increasing(r)
    ensures ValidBlocks(x, y, r + [Block(|x|, |y|, 0)])
  {
    var ms := r + [Block(|x|, |y|, 0)];
    assert x[|x|..|x|] == y[|y|..|y|];
    forall k | 0 <= k < |ms| ensures IsRun(x, y, ms[k]) {
      if k < |r| {
        assert ms[k] == r[k];
      }
    }
    forall k | 0 <= k < |ms| - 1 ensures EndA(ms[k]) <= ms[k + 1].a && EndB(ms[k]) <= ms[k + 1].b {
      assert ms[k] == r[k];
      if k + 1 < |r| {
        assert ms[k + 1] == r[k + 1];
      }
    }
  }

  /** The reported blocks are equal runs in increasing order, each but the
      sentinel non-empty, closed by the sentinel. */
  lemma MatchingBlocksValid<T>(x: seq<T>, y: seq<T>)
    ensures ValidBlocks(x, y, MatchingBlocks(x, y))
    ensures forall k | 0 <= k < |MatchingBlocks(x, y)| - 1 :: MatchingBlocks(x, y)[k].size > 0
  {
    var bs := Blocks(x, y, Window(0, |x|, 0, |y|));
    assert Runs(x, y, bs);
    MergeKeeps(x, y, bs);
    var r := Merge(bs);
    WithSentinel(x, y, r);
    assert forall k | 0 <= k < |r| :: MatchingBlocks(x, y)[k] == r[k];
  }

  /** In a list compared with itself, the longest match is the whole list. */
  lemma LongestSelf<T>(x: seq<T>)
    requires |x| > 0
    ensures Longest(x, x, Window(0, |x|, 0, |x|)) == Block(0, 0, |x|)
  {
    var m := Longest(x, x, Window(0, |x|, 0, |x|));
    RunLenMaximal(x, x, 0, 0, |x|, |x|, |x|);
    assert RunLen(x, x, 0, 0, |x|, |x|) <= m.size;
  }

  /** A longest match covering the whole window is the only block found there. */
  lemma BlocksWhole<T>(x: seq<T>, y: seq<T>, w: Window)
    requires WindowIn(x, y, w) && w.alo < w.ahi
    requires Longest(x, y, w) == Block(w.alo, w.blo, w.ahi - w.alo) && w.ahi - w.alo == w.bhi - w.blo
    ensures Blocks(x, y, w) == [Longest(x, y, w)]
  {
  }

  /** A list compared with itself is one block covering it, then the sentinel. */
  lemma MatchingBlocksSelf<T>(x: seq<T>)
    ensures MatchingBlocks(x, x) == if |x| == 0 then [Block(0, 0, 0)] else [Block(0, 0, |x|), Block(|x|, |x|, 0)]
  {
    var w := Window(0, |x|, 0, |x|);
    var bs := Blocks(x, x, w);
    if |x| > 0 {
      LongestSelf(x);
      BlocksWhole(x, x, w);
      assert bs == [Block(0, 0, |x|)];
    } else {
      assert bs == [];
    }
    assert Merge(bs) == bs;
  }
}

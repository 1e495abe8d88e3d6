/**
 * `tokenize`, `untokenize` and `equalize`: two texts are split into tokens,
 * their matching blocks are found, and each side's unmatched tokens are set
 * against a run of underscores as long as the token, so that the two results
 * line up character for character.
 */
module Alignment {
  import opened Text
  import opened Matcher

  /** Length of the run of whitespace at the start of `s`. */
  function SpaceRun(s: string): (n: nat)
    ensures n <= |s|
    ensures s != [] && IsSpace(s[0]) ==> n > 0
  {
    if s != [] && IsSpace(s[0]) then 1 + SpaceRun(s[1..]) else 0
  }

  /** `tokenize`: `re.split(r"\s+", text)`, the pieces between runs of
      whitespace; whitespace at either end gives an empty first or last piece. */
  function Tokenize(s: string): (ts: seq<string>)
    ensures |ts| > 0
    ensures forall k | 0 <= k < |ts| :: NoSpace(ts[k])
    decreases |s|
  {
    var n := WordEnd(s);
    if n == |s| then
      assert s[..n] == s;
      [s]
    else
      [s[..n]] + Tokenize(s[n + SpaceRun(s[n..])..])
  }

  /** `untokenize`. */
  function Untokenize(ts: seq<string>): string {
    Join(ts, " ")
  }

  /** Single-spaced words come back out of `tokenize` unchanged. */
  lemma {:induction false} TokenizeJoin(ws: seq<string>)
    requires |ws| > 0
    requires forall k | 0 <= k < |ws| :: IsWord(ws[k])
    ensures Tokenize(Untokenize(ws)) == ws
  {
    var w := ws[0];
    if |ws| == 1 {
      WordEndOfWord(w, "");
      assert w + "" == w;
    } else {
      var rest := Join(ws[1..], " ");
      JoinTrimmed(ws[1..]);
      assert Join(ws, " ") == w + (" " + rest);
      WordEndOfWord(w, " " + rest);
      assert (" " + rest)[1..] == rest;
      assert SpaceRun(" " + rest) == 1;
      assert (w + (" " + rest))[..|w|] == w;
      assert (w + (" " + rest))[|w| + 1..] == rest;
      TokenizeJoin(ws[1..]);
    }
  }

  // ------------------------------------------------------------ columns

  /** One position of the aligned output: a matched token on both sides, or a
      token of one side only, set against underscores on the other. */
  datatype Column = Both(left: string, right: string) | OnlyLeft(left: string) | OnlyRight(right: string)

  /** `"_" * n`. */
  function Underscores(n: nat): (u: string)
    ensures |u| == n && NoSpace(u)
  {
    seq(n, _ => '_')
  }

  function LeftText(c: Column): string {
    match c
    case Both(l, _) => l
    case OnlyLeft(l) => l
    case OnlyRight(r) => Underscores(|r|)
  }

  function RightText(c: Column): string {
    match c
    case Both(_, r) => r
    case OnlyLeft(l) => Underscores(|l|)
    case OnlyRight(r) => r
  }

  function Lefts(cs: seq<Column>): (ts: seq<string>)
    ensures |ts| == |cs|
  {
    seq(|cs|, k requires 0 <= k < |cs| => LeftText(cs[k]))
  }

  function Rights(cs: seq<Column>): (ts: seq<string>)
    ensures |ts| == |cs|
  {
    seq(|cs|, k requires 0 <= k < |cs| => RightText(cs[k]))
  }

  /** The tokens a side contributes itself, in order (its underscore runs left out). */
  function LeftTokens(cs: seq<Column>): seq<string> {
    if cs == [] then [] else (if cs[0].OnlyRight? then [] else [cs[0].left]) + LeftTokens(cs[1..])
  }

  function RightTokens(cs: seq<Column>): seq<string> {
    if cs == [] then [] else (if cs[0].OnlyLeft? then [] else [cs[0].right]) + RightTokens(cs[1..])
  }

  function LeftOnly(ts: seq<string>): seq<Column> {
    seq(|ts|, k requires 0 <= k < |ts| => OnlyLeft(ts[k]))
  }

  function RightOnly(ts: seq<string>): seq<Column> {
    seq(|ts|, k requires 0 <= k < |ts| => OnlyRight(ts[k]))
  }

  function Paired(xs: seq<string>, ys: seq<string>): seq<Column>
    requires |xs| == |ys|
  {
    seq(|xs|, k requires 0 <= k < |xs| => Both(xs[k], ys[k]))
  }

  /** The block before block `k`; `difflib.Match(0, 0, 0)` before the first. */
  function Prev(ms: seq<Block>, k: nat): Block
    requires k <= |ms|
  {
    if k == 0 then Block(0, 0, 0) else ms[k - 1]
  }

  /** What one pass of `equalize`'s loop contributes for block `m` after block
      `p`: the unmatched tokens of the first list, then those of the second,
      then the matched run. */
  function BlockColumns(l1: seq<string>, l2: seq<string>, p: Block, m: Block): seq<Column>
    requires EndA(p) <= m.a && EndA(m) <= |l1| && EndB(p) <= m.b && EndB(m) <= |l2|
  {
    LeftOnly(l1[EndA(p)..m.a]) + RightOnly(l2[EndB(p)..m.b]) + Paired(l1[m.a..EndA(m)], l2[m.b..EndB(m)])
  }

  /** The part of `ValidBlocks` the column layout depends on: every block fits
      in both lists and starts where or after the one before it ends. */
  predicate Chained(n1: nat, n2: nat, ms: seq<Block>) {
    && (forall k | 0 <= k < |ms| :: EndA(ms[k]) <= n1 && EndB(ms[k]) <= n2)
    && Increasing(ms)
  }

  lemma ValidChained<T>(x: seq<T>, y: seq<T>, ms: seq<Block>)
    requires ValidBlocks(x, y, ms)
    ensures Chained(|x|, |y|, ms)
  {
    forall k | 0 <= k < |ms| ensures EndA(ms[k]) <= |x| && EndB(ms[k]) <= |y| {
      assert IsRun(x, y, ms[k]);
    }
  }

  lemma PrevBefore(n1: nat, n2: nat, ms: seq<Block>, k: nat)
    requires Chained(n1, n2, ms) && k < |ms|
    ensures EndA(Prev(ms, k)) <= ms[k].a && EndA(ms[k]) <= n1
    ensures EndB(Prev(ms, k)) <= ms[k].b && EndB(ms[k]) <= n2
  {
    if k > 0 {
      assert EndA(ms[k - 1]) <= ms[k - 1 + 1].a;
    }
  }

  /** The columns produced by the first `n` blocks. */
  function ColumnsUpTo(l1: seq<string>, l2: seq<string>, ms: seq<Block>, n: nat): seq<Column>
    requires Chained(|l1|, |l2|, ms) && n <= |ms|
  {
    if n == 0 then []
    else
      PrevBefore(|l1|, |l2|, ms, n - 1);
      ColumnsUpTo(l1, l2, ms, n - 1) + BlockColumns(l1, l2, Prev(ms, n - 1), ms[n - 1])
  }

  function Columns(l1: seq<string>, l2: seq<string>, ms: seq<Block>): seq<Column>
    requires Chained(|l1|, |l2|, ms)
  {
    ColumnsUpTo(l1, l2, ms, |ms|)
  }

  /** What `equalize(s1, s2)` returns. */
  function Equalized(s1: string, s2: string): (string, string) {
    var l1, l2 := Tokenize(s1), Tokenize(s2);
    MatchingBlocksValid(l1, l2);
    ValidChained(l1, l2, MatchingBlocks(l1, l2));
    var cs := Columns(l1, l2, MatchingBlocks(l1, l2));
    (Untokenize(Lefts(cs)), Untokenize(Rights(cs)))
  }

  // ------------------------------------------------------------ equalize

  /** `[ "_" * len(t) for t in ts ]`. */
  function Underscored(ts: seq<string>): (us: seq<string>)
    ensures |us| == |ts|
  {
    seq(|ts|, k requires 0 <= k < |ts| => Underscores(|ts[k]|))
  }

  lemma BlockTexts(l1: seq<string>, l2: seq<string>, p: Block, m: Block)
    requires EndA(p) <= m.a && EndA(m) <= |l1| && EndB(p) <= m.b && EndB(m) <= |l2|
    ensures Lefts(BlockColumns(l1, l2, p, m)) ==
      l1[EndA(p)..m.a] + Underscored(l2[EndB(p)..m.b]) + l1[m.a..EndA(m)]
    ensures Rights(BlockColumns(l1, l2, p, m)) ==
      Underscored(l1[EndA(p)..m.a]) + l2[EndB(p)..m.b] + l2[m.b..EndB(m)]
  {
  }

  lemma TextsAppend(a: seq<Column>, b: seq<Column>)
    ensures Lefts(a + b) == Lefts(a) + Lefts(b)
    ensures Rights(a + b) == Rights(a) + Rights(b)
  {
  }

  /** One of `equalize`'s inner loops: an underscore run for each token of
      `ts`, appended to `acc`. */
  method AppendUnderscores(acc: seq<string>, ts: seq<string>) returns (r: seq<string>)
    ensures r == acc + Underscored(ts)
  {
    r := acc;
    for i := 0 to |ts|
      invariant r == acc + Underscored(ts[..i])
    {
      assert ts[..i + 1] == ts[..i] + [ts[i]];
      r := r + [Underscores(|ts[i]|)];
    }
    assert ts[..|ts|] == ts;
  }

  lemma AppendNothing<T>(a: seq<T>, b: seq<T>)
    requires b == []
    ensures a + b == a
  {
  }

  lemma AppendThree<T>(a: seq<T>, b: seq<T>, c: seq<T>, d: seq<T>)
    ensures a + b + c + d == a + (b + c + d)
  {
  }

  /** The body of `equalize`'s loop for block `m` after block `prev`. */
  method AppendBlock(l1: seq<string>, l2: seq<string>, prev: Block, m: Block, res1: seq<string>, res2: seq<string>)
    returns (out1: seq<string>, out2: seq<string>)
    requires EndA(prev) <= m.a && EndA(m) <= |l1| && EndB(prev) <= m.b && EndB(m) <= |l2|
    ensures out1 == res1 + Lefts(BlockColumns(l1, l2, prev, m))
    ensures out2 == res2 + Rights(BlockColumns(l1, l2, prev, m))
  {
    ghost var gapA, gapB := l1[EndA(prev)..m.a], l2[EndB(prev)..m.b];
    out1, out2 := res1, res2;
    if EndA(prev) != m.a {
      out2 := AppendUnderscores(out2, l1[EndA(prev)..m.a]);
      out1 := out1 + l1[EndA(prev)..m.a];
    } else {
      AppendNothing(res1, gapA);
      AppendNothing(res2, Underscored(gapA));
    }
    ghost var mid1, mid2 := out1, out2;
    if EndB(prev) != m.b {
      out1 := AppendUnderscores(out1, l2[EndB(prev)..m.b]);
      out2 := out2 + l2[EndB(prev)..m.b];
    } else {
      AppendNothing(mid1, Underscored(gapB));
      AppendNothing(mid2, gapB);
    }
    out1 := out1 + l1[m.a..EndA(m)];
    out2 := out2 + l2[m.b..EndB(m)];
    BlockTexts(l1, l2, prev, m);
    AppendThree(res1, gapA, Underscored(gapB), l1[m.a..EndA(m)]);
    AppendThree(res2, Underscored(gapA), gapB, l2[m.b..EndB(m)]);
  }

  /** `equalize`'s loop over the matching blocks `ms` of the token lists. */
  method EqualizeTokens(l1: seq<string>, l2: seq<string>, ms: seq<Block>) returns (res1: seq<string>, res2: seq<string>)
    requires Chained(|l1|, |l2|, ms)
    ensures res1 == Lefts(Columns(l1, l2, ms))
    ensures res2 == Rights(Columns(l1, l2, ms))
  {
    res1, res2 := [], [];
    var prev := Block(0, 0, 0);
    for k := 0 to |ms|
      invariant prev == Prev(ms, k)
      invariant res1 == Lefts(ColumnsUpTo(l1, l2, ms, k))
      invariant res2 == Rights(ColumnsUpTo(l1, l2, ms, k))
    {
      PrevBefore(|l1|, |l2|, ms, k);
      TextsAppend(ColumnsUpTo(l1, l2, ms, k), BlockColumns(l1, l2, prev, ms[k]));
      res1, res2 := AppendBlock(l1, l2, prev, ms[k], res1, res2);
      prev := ms[k];
    }
  }

  /** `equalize`. */
  method Equalize(s1: string, s2: string) returns (r1: string, r2: string)
    ensures (r1, r2) == Equalized(s1, s2)
  {
    var l1 := Tokenize(s1);
    var l2 := Tokenize(s2);
    MatchingBlocksValid(l1, l2);
    var res1, res2 := EqualizeTokens(l1, l2, MatchingBlocks(l1, l2));
    r1 := Untokenize(res1);
    r2 := Untokenize(res2);
  }

  // ------------------------------------------------------------ properties

  lemma {:induction false} LeftTokensAppend(a: seq<Column>, b: seq<Column>)
    ensures LeftTokens(a + b) == LeftTokens(a) + LeftTokens(b)
    ensures RightTokens(a + b) == RightTokens(a) + RightTokens(b)
  {
    if a != [] {
      assert (a + b)[0] == a[0];
      assert (a + b)[1..] == a[1..] + b;
      LeftTokensAppend(a[1..], b);
    } else {
      assert a + b == b;
    }
  }

  lemma {:induction false} OwnTokensOfParts(xs: seq<string>, ys: seq<string>)
    requires |xs| == |ys|
    ensures LeftTokens(LeftOnly(xs)) == xs && RightTokens(LeftOnly(xs)) == []
    ensures LeftTokens(RightOnly(xs)) == [] && RightTokens(RightOnly(xs)) == xs
    ensures LeftTokens(Paired(xs, ys)) == xs && RightTokens(Paired(xs, ys)) == ys
  {
    if xs != [] {
      OwnTokensOfParts(xs[1..], ys[1..]);
      assert LeftOnly(xs)[1..] == LeftOnly(xs[1..]);
      assert RightOnly(xs)[1..] == RightOnly(xs[1..]);
      assert Paired(xs, ys)[1..] == Paired(xs[1..], ys[1..]);
    }
  }

  lemma BlockOwnTokens(l1: seq<string>, l2: seq<string>, p: Block, m: Block)
    requires EndA(p) <= m.a && EndA(m) <= |l1| && EndB(p) <= m.b && EndB(m) <= |l2|
    requires m.size == EndB(m) - m.b
    ensures LeftTokens(BlockColumns(l1, l2, p, m)) == l1[EndA(p)..EndA(m)]
    ensures RightTokens(BlockColumns(l1, l2, p, m)) == l2[EndB(p)..EndB(m)]
  {
    var gapA, gapB := l1[EndA(p)..m.a], l2[EndB(p)..m.b];
    var run1, run2 := l1[m.a..EndA(m)], l2[m.b..EndB(m)];
    var front, back := LeftOnly(gapA) + RightOnly(gapB), Paired(run1, run2);
    GapTokens(gapA, gapB);
    OwnTokensOfParts(run1, run2);
    LeftTokensAppend(front, back);
    SliceSplit(l1, EndA(p), m.a, EndA(m));
    SliceSplit(l2, EndB(p), m.b, EndB(m));
  }

  /** The unmatched columns before a block hold the two gaps as their own tokens. */
  lemma GapTokens(gapA: seq<string>, gapB: seq<string>)
    ensures LeftTokens(LeftOnly(gapA) + RightOnly(gapB)) == gapA
    ensures RightTokens(LeftOnly(gapA) + RightOnly(gapB)) == gapB
  {
    OwnTokensOfParts(gapA, gapA);
    OwnTokensOfParts(gapB, gapB);
    LeftTokensAppend(LeftOnly(gapA), RightOnly(gapB));
    AppendNothing(gapA, LeftTokens(RightOnly(gapB)));
    PrependNothing(RightTokens(LeftOnly(gapA)), gapB);
  }

  lemma PrependNothing<T>(a: seq<T>, b: seq<T>)
    requires a == []
    ensures a + b == b
  {
  }

  lemma SliceSplit<T>(s: seq<T>, i: nat, j: nat, k: nat)
    requires i <= j <= k <= |s|
    ensures s[i..k] == s[i..j] + s[j..k]
  {
  }

  lemma PrefixSplit<T>(s: seq<T>, j: nat, k: nat)
    requires j <= k <= |s|
    ensures s[..k] == s[..j] + s[j..k]
  {
  }

  /** Appending the columns whose own tokens are the next slice of `l` extends the prefix. */
  lemma TokensStep(a: seq<Column>, b: seq<Column>, l1: seq<string>, l2: seq<string>, i1: nat, j1: nat, i2: nat, j2: nat)
    requires i1 <= j1 <= |l1| && i2 <= j2 <= |l2|
    requires LeftTokens(a) == l1[..i1] && LeftTokens(b) == l1[i1..j1]
    requires RightTokens(a) == l2[..i2] && RightTokens(b) == l2[i2..j2]
    ensures LeftTokens(a + b) == l1[..j1] && RightTokens(a + b) == l2[..j2]
  {
    LeftTokensAppend(a, b);
    PrefixSplit(l1, i1, j1);
    PrefixSplit(l2, i2, j2);
  }

  /** The own tokens of the first `n` blocks' columns are the prefixes their last block ends. */
  predicate OwnsPrefixes(l1: seq<string>, l2: seq<string>, ms: seq<Block>, n: nat)
    requires Chained(|l1|, |l2|, ms) && n <= |ms|
  {
    && EndA(Prev(ms, n)) <= |l1| && EndB(Prev(ms, n)) <= |l2|
    && LeftTokens(ColumnsUpTo(l1, l2, ms, n)) == l1[..EndA(Prev(ms, n))]
    && RightTokens(ColumnsUpTo(l1, l2, ms, n)) == l2[..EndB(Prev(ms, n))]
  }

  lemma OwnTokensNext(l1: seq<string>, l2: seq<string>, ms: seq<Block>, n: nat)
    requires Chained(|l1|, |l2|, ms) && 0 < n <= |ms|
    ensures OwnsPrefixes(l1, l2, ms, n - 1) ==> OwnsPrefixes(l1, l2, ms, n)
  {
    if OwnsPrefixes(l1, l2, ms, n - 1) {
      PrevBefore(|l1|, |l2|, ms, n - 1);
      var p, m := Prev(ms, n - 1), ms[n - 1];
      var a, b := ColumnsUpTo(l1, l2, ms, n - 1), BlockColumns(l1, l2, p, m);
      BlockOwnTokens(l1, l2, p, m);
      TokensStep(a, b, l1, l2, EndA(p), EndA(m), EndB(p), EndB(m));
      assert ColumnsUpTo(l1, l2, ms, n) == a + b;
    }
  }

  lemma {:induction false} OwnTokensUpTo(l1: seq<string>, l2: seq<string>, ms: seq<Block>, n: nat)
    requires Chained(|l1|, |l2|, ms) && n <= |ms|
    ensures OwnsPrefixes(l1, l2, ms, n)
  {
    if n == 0 {
      OwnTokensNone(l1, l2, ms);
    } else {
      OwnTokensUpTo(l1, l2, ms, n - 1);
      OwnTokensNext(l1, l2, ms, n);
    }
  }

  lemma OwnTokensNone(l1: seq<string>, l2: seq<string>, ms: seq<Block>)
    requires Chained(|l1|, |l2|, ms)
    ensures OwnsPrefixes(l1, l2, ms, 0)
  {
    NoBlocksNoTokens(l1, l2, ms);
  }

  /** Before the first block nothing is laid out: the block before it is
      `Match(0, 0, 0)` and no columns hold any token. */
  lemma NoBlocksNoTokens(l1: seq<string>, l2: seq<string>, ms: seq<Block>)
    requires Chained(|l1|, |l2|, ms)
    ensures Prev(ms, 0) == Block(0, 0, 0)
    ensures EndA(Prev(ms, 0)) <= |l1| && EndB(Prev(ms, 0)) <= |l2|
    ensures LeftTokens(ColumnsUpTo(l1, l2, ms, 0)) == l1[..EndA(Prev(ms, 0))]
    ensures RightTokens(ColumnsUpTo(l1, l2, ms, 0)) == l2[..EndB(Prev(ms, 0))]
  {
    ColumnsUpToZero(l1, l2, ms);
    NoColumnsNoTokens();
  }

  lemma ColumnsUpToZero(l1: seq<string>, l2: seq<string>, ms: seq<Block>)
    requires Chained(|l1|, |l2|, ms)
    ensures ColumnsUpTo(l1, l2, ms, 0) == []
  {
  }

  lemma NoColumnsNoTokens()
    ensures LeftTokens([]) == [] && RightTokens([]) == []
  {
  }

  predicate GoodColumn(c: Column) {
    && (c.Both? ==> c.left == c.right)
    && NoSpace(LeftText(c)) && NoSpace(RightText(c))
  }

  predicate AllGood(cs: seq<Column>) {
    forall k | 0 <= k < |cs| :: GoodColumn(cs[k])
  }

  lemma GoodColumnWidth(c: Column)
    requires GoodColumn(c)
    ensures |LeftText(c)| == |RightText(c)|
  {
  }

  lemma GoodBlockColumns(l1: seq<string>, l2: seq<string>, p: Block, m: Block)
    requires EndA(p) <= m.a && EndA(m) <= |l1| && EndB(p) <= m.b && EndB(m) <= |l2|
    requires IsRun(l1, l2, m)
    requires forall k | 0 <= k < |l1| :: NoSpace(l1[k])
    requires forall k | 0 <= k < |l2| :: NoSpace(l2[k])
    ensures AllGood(BlockColumns(l1, l2, p, m))
  {
    var gapA, gapB := l1[EndA(p)..m.a], l2[EndB(p)..m.b];
    var run1, run2 := l1[m.a..EndA(m)], l2[m.b..EndB(m)];
    var cs := BlockColumns(l1, l2, p, m);
    forall k | 0 <= k < |cs| ensures GoodColumn(cs[k]) {
      if k < |gapA| {
        assert cs[k] == OnlyLeft(gapA[k]) && gapA[k] == l1[EndA(p) + k];
      } else if k < |gapA| + |gapB| {
        assert cs[k] == OnlyRight(gapB[k - |gapA|]) && gapB[k - |gapA|] == l2[EndB(p) + k - |gapA|];
      } else {
        var t := k - |gapA| - |gapB|;
        assert cs[k] == Both(run1[t], run2[t]) && run1[t] == l1[m.a + t];
      }
    }
  }

  lemma {:induction false} GoodUpTo(l1: seq<string>, l2: seq<string>, ms: seq<Block>, n: nat)
    requires Chained(|l1|, |l2|, ms) && n <= |ms|
    requires forall k | 0 <= k < |ms| :: IsRun(l1, l2, ms[k])
    requires forall k | 0 <= k < |l1| :: NoSpace(l1[k])
    requires forall k | 0 <= k < |l2| :: NoSpace(l2[k])
    ensures AllGood(ColumnsUpTo(l1, l2, ms, n))
  {
    if n > 0 {
      GoodUpTo(l1, l2, ms, n - 1);
      PrevBefore(|l1|, |l2|, ms, n - 1);
      GoodBlockColumns(l1, l2, Prev(ms, n - 1), ms[n - 1]);
      GoodStep(l1, l2, ms, n);
    }
  }

  /** Good columns up to block `n - 1` and good columns for block `n - 1`
      make good columns up to block `n`. */
  lemma GoodStep(l1: seq<string>, l2: seq<string>, ms: seq<Block>, n: nat)
    requires Chained(|l1|, |l2|, ms) && 0 < n <= |ms|
    requires EndA(Prev(ms, n - 1)) <= ms[n - 1].a && EndB(Prev(ms, n - 1)) <= ms[n - 1].b
    requires AllGood(ColumnsUpTo(l1, l2, ms, n - 1))
    requires AllGood(BlockColumns(l1, l2, Prev(ms, n - 1), ms[n - 1]))
    ensures AllGood(ColumnsUpTo(l1, l2, ms, n))
  {
    AllGoodAppend(ColumnsUpTo(l1, l2, ms, n - 1), BlockColumns(l1, l2, Prev(ms, n - 1), ms[n - 1]));
  }

  lemma AllGoodAppend(a: seq<Column>, b: seq<Column>)
    requires AllGood(a) && AllGood(b)
    ensures AllGood(a + b)
  {
    forall k | 0 <= k < |a + b| ensures GoodColumn((a + b)[k]) {
      if k >= |a| { assert (a + b)[k] == b[k - |a|]; }
    }
  }

  /** For any valid matching blocks, the columns hold each list's own tokens in
      order, every matched column the same token on both sides, and, when the
      tokens hold no whitespace, no column text holds any either. */
  lemma ColumnsFaithful(l1: seq<string>, l2: seq<string>, ms: seq<Block>)
    requires ValidBlocks(l1, l2, ms)
    ensures LeftTokens(Columns(l1, l2, ms)) == l1
    ensures RightTokens(Columns(l1, l2, ms)) == l2
    ensures (forall k | 0 <= k < |l1| :: NoSpace(l1[k])) && (forall k | 0 <= k < |l2| :: NoSpace(l2[k])) ==>
      forall k | 0 <= k < |Columns(l1, l2, ms)| :: GoodColumn(Columns(l1, l2, ms)[k])
  {
    OwnTokensUpTo(l1, l2, ms, |ms|);
    assert l1[..|l1|] == l1 && l2[..|l2|] == l2;
    if (forall k | 0 <= k < |l1| :: NoSpace(l1[k])) && (forall k | 0 <= k < |l2| :: NoSpace(l2[k])) {
      ValidChained(l1, l2, ms);
      GoodUpTo(l1, l2, ms, |ms|);
    }
  }

  /** Joining two lists of whitespace-free texts of pairwise equal lengths gives
      strings of equal length with spaces at the same indices. */
  lemma {:induction false} JoinAligned(xs: seq<string>, ys: seq<string>)
    requires |xs| == |ys|
    requires forall k | 0 <= k < |xs| :: |xs[k]| == |ys[k]| && NoSpace(xs[k]) && NoSpace(ys[k])
    ensures |Join(xs, " ")| == |Join(ys, " ")|
    ensures forall i | 0 <= i < |Join(xs, " ")| :: Join(xs, " ")[i] == ' ' <==> Join(ys, " ")[i] == ' '
  {
    if |xs| == 1 {
      assert !IsSpace(' ') ==> false;
    } else if |xs| > 1 {
      JoinAligned(xs[1..], ys[1..]);
      var jx, jy := Join(xs[1..], " "), Join(ys[1..], " ");
      var n := |xs[0]|;
      forall i | 0 <= i < |Join(xs, " ")| ensures Join(xs, " ")[i] == ' ' <==> Join(ys, " ")[i] == ' ' {
        if i < n {
          assert Join(xs, " ")[i] == xs[0][i] && Join(ys, " ")[i] == ys[0][i];
        } else if i > n {
          assert Join(xs, " ")[i] == jx[i - n - 1] && Join(ys, " ")[i] == jy[i - n - 1];
        }
      }
    }
  }

  /** Laid out by any valid matching blocks, whitespace-free token lists give
      two joined texts of the same length with spaces at the same indices. */
  lemma ColumnsAligned(l1: seq<string>, l2: seq<string>, ms: seq<Block>)
    requires ValidBlocks(l1, l2, ms)
    requires forall k | 0 <= k < |l1| :: NoSpace(l1[k])
    requires forall k | 0 <= k < |l2| :: NoSpace(l2[k])
    ensures Chained(|l1|, |l2|, ms)
    ensures var r1, r2 := Untokenize(Lefts(Columns(l1, l2, ms))), Untokenize(Rights(Columns(l1, l2, ms)));
      |r1| == |r2| && forall i | 0 <= i < |r1| :: r1[i] == ' ' <==> r2[i] == ' '
  {
    ValidChained(l1, l2, ms);
    ColumnsFaithful(l1, l2, ms);
    var cs := Columns(l1, l2, ms);
    forall k | 0 <= k < |cs| ensures |Lefts(cs)[k]| == |Rights(cs)[k]| && NoSpace(Lefts(cs)[k]) && NoSpace(Rights(cs)[k]) {
      GoodColumnWidth(cs[k]);
    }
    JoinAligned(Lefts(cs), Rights(cs));
  }

  /** `equalize` returns two strings of the same length, with spaces at
      exactly the same indices. */
  lemma EqualizedAligned(s1: string, s2: string)
    ensures |Equalized(s1, s2).0| == |Equalized(s1, s2).1|
    ensures forall i | 0 <= i < |Equalized(s1, s2).0| :: Equalized(s1, s2).0[i] == ' ' <==> Equalized(s1, s2).1[i] == ' '
  {
    var l1, l2 := Tokenize(s1), Tokenize(s2);
    MatchingBlocksValid(l1, l2);
    ColumnsAligned(l1, l2, MatchingBlocks(l1, l2));
  }

  /** A list matched against itself is laid out as one matched run. */
  lemma ColumnsSelf(l: seq<string>)
    requires |l| > 0
    ensures Chained(|l|, |l|, [Block(0, 0, |l|), Block(|l|, |l|, 0)])
    ensures Columns(l, l, [Block(0, 0, |l|), Block(|l|, |l|, 0)]) == Paired(l, l)
  {
    var n := |l|;
    var ms := [Block(0, 0, n), Block(n, n, 0)];
    assert Chained(n, n, ms);
    assert l[0..n] == l;
    assert l[n..n] == [] && l[0..0] == [];
    var first := BlockColumns(l, l, Block(0, 0, 0), ms[0]);
    assert first == Paired(l, l);
    assert BlockColumns(l, l, ms[0], ms[1]) == [];
    assert ColumnsUpTo(l, l, ms, 1) == first;
  }

  /** `equalize` of a text with itself gives the text with every whitespace run
      made one space, twice. */
  lemma EqualizedSelf(s: string)
    ensures Equalized(s, s) == (Untokenize(Tokenize(s)), Untokenize(Tokenize(s)))
  {
    var l := Tokenize(s);
    MatchingBlocksSelf(l);
    var ms := MatchingBlocks(l, l);
    assert ms == [Block(0, 0, |l|), Block(|l|, |l|, 0)];
    ColumnsSelf(l);
    var cs := Columns(l, l, ms);
    assert cs == Paired(l, l);
    TextsPaired(l, l);
  }

  /** The texts of matched columns are the two lists themselves. */
  lemma TextsPaired(xs: seq<string>, ys: seq<string>)
    requires |xs| == |ys|
    ensures Lefts(Paired(xs, ys)) == xs && Rights(Paired(xs, ys)) == ys
  {
    var cs := Paired(xs, ys);
    forall k | 0 <= k < |xs| ensures Lefts(cs)[k] == xs[k] && Rights(cs)[k] == ys[k] {
      assert cs[k] == Both(xs[k], ys[k]);
    }
  }

  /** In particular, a text whose words are separated by single spaces comes
      back unchanged on both sides. */
  lemma EqualizedSingleSpaced(ws: seq<string>)
    requires |ws| > 0
    requires forall k | 0 <= k < |ws| :: IsWord(ws[k])
    ensures Equalized(Untokenize(ws), Untokenize(ws)) == (Untokenize(ws), Untokenize(ws))
  {
    TokenizeJoin(ws);
    EqualizedSelf(Untokenize(ws));
  }
}

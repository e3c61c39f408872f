/**
 * The token separator splitter (Core/Chunk/Separator.py): cut a token list at
 * separator sub-sequences, greedily merge the pieces up to `chunkSize`, re-window
 * a single oversized chunk, and prepend overlap from the previous chunk.
 * Tokens are integers; the length function is `len`.
 */
module Separator {
  import opened Wrappers

  /** What happens to a matched separator: `True` and "end" append it to the split it
      closes, "start" puts it at the head of the next split; `False` (and any other
      value) drops it. */
  datatype KeepSeparator = KeepEnd | KeepStart | Drop

  /** The splitter's configuration, fixed at construction. */
  datatype SeparatorSplitter = SeparatorSplitter(
    separators: seq<seq<int>>,
    keepSeparator: KeepSeparator,
    chunkSize: int,
    chunkOverlap: int)
  {
    /** Separators must be non-empty (an empty one matches without advancing, so the
        scan never ends), and the window step `chunkSize - chunkOverlap` must be
        positive (a zero step makes `range` raise). */
    predicate Valid() {
      NonEmptySeparators(separators) && 0 <= chunkOverlap < chunkSize
    }
  }

  predicate NonEmptySeparators(seps: seq<seq<int>>) {
    forall k :: 0 <= k < |seps| ==> |seps[k]| > 0
  }

  // ---------------------------------------------------------------------------
  // Sequence helpers
  // ---------------------------------------------------------------------------

  function Min(a: int, b: int): int { if a <= b then a else b }

  /** Python's `s[lo:hi]` for non-negative bounds: both ends are clamped to `|s|`. */
  function Slice(s: seq<int>, lo: nat, hi: nat): (r: seq<int>)
    ensures |r| <= |s|
    ensures lo <= hi <= |s| ==> r == s[lo..hi]
  {
    var a := Min(lo, |s|);
    var b := Min(hi, |s|);
    if a <= b then s[a..b] else []
  }

  /** Python's `s[-k:]` for `k >= 0`: the last `k` elements, all of `s` when it is
      shorter, and (since `-0 == 0`) all of `s` when `k == 0`. */
  function Tail(s: seq<int>, k: nat): (r: seq<int>)
    ensures k > 0 ==> r == s[|s| - Min(k, |s|)..]
    ensures k == 0 ==> r == s
  {
    if k == 0 || k >= |s| then s else s[|s| - k..]
  }

  function Concat(ss: seq<seq<int>>): seq<int> {
    if ss == [] then [] else ss[0] + Concat(ss[1..])
  }

  lemma {:induction false} ConcatAppend(ss: seq<seq<int>>, s: seq<int>)
    ensures Concat(ss + [s]) == Concat(ss) + s
  {
    if ss == [] {
      assert ss + [s] == [s];
    } else {
      assert (ss + [s])[1..] == ss[1..] + [s];
      ConcatAppend(ss[1..], s);
    }
  }

  /** `[s for s in splits if s]` */
  function DropEmpty(ss: seq<seq<int>>): (r: seq<seq<int>>)
    ensures forall k :: 0 <= k < |r| ==> r[k] != []
    ensures Concat(r) == Concat(ss)
  {
    if ss == [] then []
    else if ss[0] == [] then DropEmpty(ss[1..])
    else [ss[0]] + DropEmpty(ss[1..])
  }

  lemma {:induction false} DropEmptyKeepsNonEmpty(ss: seq<seq<int>>)
    requires forall k :: 0 <= k < |ss| ==> ss[k] != []
    ensures DropEmpty(ss) == ss
  {
    if ss != [] {
      DropEmptyKeepsNonEmpty(ss[1..]);
    }
  }

  // ---------------------------------------------------------------------------
  // _split_tokens_with_separators
  // ---------------------------------------------------------------------------

  /** The index of the first separator, in list order from `from`, that is a prefix
      of `t`; `None` when none is. */
  function FirstMatch(t: seq<int>, seps: seq<seq<int>>, from: nat): (r: Option<nat>)
    requires from <= |seps|
    ensures r.Some? ==> from <= r.value < |seps| && seps[r.value] <= t
    decreases |seps| - from
  {
    if from == |seps| then None
    else if seps[from] <= t then Some(from)
    else FirstMatch(t, seps, from + 1)
  }

  /** The match is the first in list order: no separator before it, and none at all
      when there is no match, is a prefix of `t`. */
  lemma {:induction false} FirstMatchIsFirst(t: seq<int>, seps: seq<seq<int>>, from: nat)
    requires from <= |seps|
    ensures var r := FirstMatch(t, seps, from);
      && (r.Some? ==> forall j :: from <= j < r.value ==> !(seps[j] <= t))
      && (r.None? ==> forall j :: from <= j < |seps| ==> !(seps[j] <= t))
    decreases |seps| - from
  {
    if from < |seps| && !(seps[from] <= t) {
      FirstMatchIsFirst(t, seps, from + 1);
    }
  }

  /** The scan of `_split_tokens_with_separators` on the remaining tokens `t`, with the
      split under construction `cur` and the finished splits `acc`. */
  function SplitFrom(t: seq<int>, seps: seq<seq<int>>, keep: KeepSeparator,
                     cur: seq<int>, acc: seq<seq<int>>): seq<seq<int>>
    requires NonEmptySeparators(seps)
    decreases |t|
  {
    if t == [] then
      if cur != [] then acc + [cur] else acc
    else
      match FirstMatch(t, seps, 0)
      case None => SplitFrom(t[1..], seps, keep, cur + [t[0]], acc)
      case Some(k) =>
        var sep := seps[k];
        var closed := if keep == KeepEnd then cur + sep else cur;
        var acc' := if closed != [] then acc + [closed] else acc;
        var cur' := if keep == KeepStart then sep else [];
        SplitFrom(t[|sep|..], seps, keep, cur', acc')
  }

  /** The splits `_split_tokens_with_separators` returns. */
  function Splits(tokens: seq<int>, seps: seq<seq<int>>, keep: KeepSeparator): seq<seq<int>>
    requires NonEmptySeparators(seps)
  {
    DropEmpty(SplitFrom(tokens, seps, keep, [], []))
  }

  /** The input with every matched separator removed: the reference for the
      drop mode. */
  function Stripped(t: seq<int>, seps: seq<seq<int>>): seq<int>
    requires NonEmptySeparators(seps)
    decreases |t|
  {
    if t == [] then []
    else
      match FirstMatch(t, seps, 0)
      case None => [t[0]] + Stripped(t[1..], seps)
      case Some(k) => Stripped(t[|seps[k]|..], seps)
  }

  lemma {:induction false} SliceMatchIsPrefix(tokens: seq<int>, i: nat, sep: seq<int>)
    requires i <= |tokens|
    ensures (Slice(tokens, i, i + |sep|) == sep) == (sep <= tokens[i..])
  {
    if i + |sep| <= |tokens| {
      assert Slice(tokens, i, i + |sep|) == tokens[i..][..|sep|];
    } else {
      assert |Slice(tokens, i, i + |sep|)| < |sep|;
    }
  }

  /** One step of the scan at position `i` where separator `k` is the first to match. */
  lemma ScanSeparator(tokens: seq<int>, i: nat, seps: seq<seq<int>>, keep: KeepSeparator,
                      cur: seq<int>, acc: seq<seq<int>>, k: nat)
    requires NonEmptySeparators(seps) && i < |tokens| && k < |seps|
    requires FirstMatch(tokens[i..], seps, 0) == Some(k)
    ensures var sep := seps[k];
      var closed := if keep == KeepEnd then cur + sep else cur;
      && i + |sep| <= |tokens|
      && SplitFrom(tokens[i..], seps, keep, cur, acc)
         == SplitFrom(tokens[i + |sep|..], seps, keep,
                      if keep == KeepStart then sep else [],
                      if closed != [] then acc + [closed] else acc)
  {
    assert tokens[i..][|seps[k]|..] == tokens[i + |seps[k]|..];
  }

  /** One step of the scan at position `i` where no separator matches. */
  lemma ScanPlain(tokens: seq<int>, i: nat, seps: seq<seq<int>>, keep: KeepSeparator,
                  cur: seq<int>, acc: seq<seq<int>>)
    requires NonEmptySeparators(seps) && i < |tokens|
    requires FirstMatch(tokens[i..], seps, 0) == None
    ensures SplitFrom(tokens[i..], seps, keep, cur, acc) == SplitFrom(tokens[i + 1..], seps, keep, cur + [tokens[i]], acc)
  {
    assert tokens[i..][1..] == tokens[i + 1..];
  }

  /** The inner `for separator in self._separators` loop: the index of the first
      separator whose slice at `i` equals it, `|seps|` when none does. */
  method FindSeparator(tokens: seq<int>, i: nat, seps: seq<seq<int>>) returns (k: nat)
    requires i <= |tokens|
    ensures k <= |seps|
    ensures FirstMatch(tokens[i..], seps, 0) == if k < |seps| then Some(k) else None
  {
    k := 0;
    while k < |seps| && Slice(tokens, i, i + |seps[k]|) != seps[k]
      invariant 0 <= k <= |seps|
      invariant FirstMatch(tokens[i..], seps, k) == FirstMatch(tokens[i..], seps, 0)
    {
      SliceMatchIsPrefix(tokens, i, seps[k]);
      k := k + 1;
    }
    if k < |seps| {
      SliceMatchIsPrefix(tokens, i, seps[k]);
    }
  }

  /** The body of the scan at a matched separator `sep`: with the separator kept at
      the end it closes the current split, a non-empty current split is finished,
      and with the separator kept at the start it opens the next one. */
  method CloseAtSeparator(cur: seq<int>, acc: seq<seq<int>>, sep: seq<int>, keep: KeepSeparator)
    returns (cur': seq<int>, acc': seq<seq<int>>)
    ensures var closed := if keep == KeepEnd then cur + sep else cur;
      acc' == if closed != [] then acc + [closed] else acc
    ensures cur' == if keep == KeepStart then sep else []
  {
    cur', acc' := cur, acc;
    if keep == KeepEnd {
      cur' := cur' + sep;
    }
    if cur' != [] {
      acc' := acc' + [cur'];
      cur' := [];
    }
    if keep == KeepStart {
      cur' := cur' + sep;
    }
  }

  /** One pass of the `while i < len(tokens)` loop body. */
  method ScanAt(tokens: seq<int>, i: nat, seps: seq<seq<int>>, keep: KeepSeparator,
                cur: seq<int>, acc: seq<seq<int>>)
    returns (i': nat, cur': seq<int>, acc': seq<seq<int>>)
    requires NonEmptySeparators(seps) && i < |tokens|
    ensures i < i' <= |tokens|
    ensures SplitFrom(tokens[i'..], seps, keep, cur', acc') == SplitFrom(tokens[i..], seps, keep, cur, acc)
  {
    var k := FindSeparator(tokens, i, seps);
    if k < |seps| {
      var sep := seps[k];
      ScanSeparator(tokens, i, seps, keep, cur, acc, k);
      cur', acc' := CloseAtSeparator(cur, acc, sep, keep);
      i' := i + |sep|;
    } else {
      ScanPlain(tokens, i, seps, keep, cur, acc);
      cur', acc' := cur + [tokens[i]], acc;
      i' := i + 1;
    }
  }

  method SplitTokensWithSeparators(tokens: seq<int>, seps: seq<seq<int>>, keep: KeepSeparator)
    returns (splits: seq<seq<int>>)
    requires NonEmptySeparators(seps)
    ensures splits == Splits(tokens, seps, keep)
  {
    var acc: seq<seq<int>> := [];
    var cur: seq<int> := [];
    var i := 0;
    while i < |tokens|
      invariant 0 <= i <= |tokens|
      invariant SplitFrom(tokens[i..], seps, keep, cur, acc) == SplitFrom(tokens, seps, keep, [], [])
      decreases |tokens| - i
    {
      i, cur, acc := ScanAt(tokens, i, seps, keep, cur, acc);
    }
    if cur != [] {
      acc := acc + [cur];
    }
    splits := DropEmpty(acc);
  }

  /** With the separator kept (at the end or at the start of a split), the splits
      concatenate back to the input. */
  lemma {:induction false} SplitFromKeepsTokens(t: seq<int>, seps: seq<seq<int>>, keep: KeepSeparator,
                                               cur: seq<int>, acc: seq<seq<int>>)
    requires NonEmptySeparators(seps) && keep != Drop
    ensures Concat(SplitFrom(t, seps, keep, cur, acc)) == Concat(acc) + cur + t
    decreases |t|
  {
    if t == [] {
      if cur != [] { ConcatAppend(acc, cur); }
    } else {
      match FirstMatch(t, seps, 0)
      case None =>
        SplitFromKeepsTokens(t[1..], seps, keep, cur + [t[0]], acc);
        KeepsPlainStep(t, seps, keep, cur, acc);
      case Some(k) =>
        var sep := seps[k];
        if keep == KeepEnd {
          SplitFromKeepsTokens(t[|sep|..], seps, keep, [], acc + [cur + sep]);
          KeepsEndStep(t, seps, cur, acc, k);
        } else {
          SplitFromKeepsTokens(t[|sep|..], seps, keep, sep, if cur != [] then acc + [cur] else acc);
          KeepsStartStep(t, seps, cur, acc, k);
        }
    }
  }

  /** The steps of `SplitFromKeepsTokens`: a plain token, a separator closing the
      split, a separator opening the next one. */
  lemma KeepsPlainStep(t: seq<int>, seps: seq<seq<int>>, keep: KeepSeparator, cur: seq<int>, acc: seq<seq<int>>)
    requires NonEmptySeparators(seps) && t != [] && FirstMatch(t, seps, 0) == None
    requires Concat(SplitFrom(t[1..], seps, keep, cur + [t[0]], acc)) == Concat(acc) + (cur + [t[0]]) + t[1..]
    ensures Concat(SplitFrom(t, seps, keep, cur, acc)) == Concat(acc) + cur + t
  {
    assert [t[0]] + t[1..] == t;
  }

  lemma KeepsEndStep(t: seq<int>, seps: seq<seq<int>>, cur: seq<int>, acc: seq<seq<int>>, k: nat)
    requires NonEmptySeparators(seps) && t != [] && FirstMatch(t, seps, 0) == Some(k)
    requires Concat(SplitFrom(t[|seps[k]|..], seps, KeepEnd, [], acc + [cur + seps[k]]))
      == Concat(acc + [cur + seps[k]]) + [] + t[|seps[k]|..]
    ensures Concat(SplitFrom(t, seps, KeepEnd, cur, acc)) == Concat(acc) + cur + t
  {
    SeparatorCloses(t, seps, cur, acc, k);
    ClosedConcat(acc, cur, seps[k], t[|seps[k]|..]);
  }

  lemma SeparatorCloses(t: seq<int>, seps: seq<seq<int>>, cur: seq<int>, acc: seq<seq<int>>, k: nat)
    requires NonEmptySeparators(seps) && t != [] && FirstMatch(t, seps, 0) == Some(k)
    ensures SplitFrom(t, seps, KeepEnd, cur, acc) == SplitFrom(t[|seps[k]|..], seps, KeepEnd, [], acc + [cur + seps[k]])
  {
    assert cur + seps[k] != [];
  }

  lemma ClosedConcat(acc: seq<seq<int>>, cur: seq<int>, sep: seq<int>, rest: seq<int>)
    ensures Concat(acc + [cur + sep]) + [] + rest == Concat(acc) + cur + (sep + rest)
  {
    ConcatAppend(acc, cur + sep);
  }

  lemma KeepsStartStep(t: seq<int>, seps: seq<seq<int>>, cur: seq<int>, acc: seq<seq<int>>, k: nat)
    requires NonEmptySeparators(seps) && t != [] && FirstMatch(t, seps, 0) == Some(k)
    requires var acc' := if cur != [] then acc + [cur] else acc;
      Concat(SplitFrom(t[|seps[k]|..], seps, KeepStart, seps[k], acc')) == Concat(acc') + seps[k] + t[|seps[k]|..]
    ensures Concat(SplitFrom(t, seps, KeepStart, cur, acc)) == Concat(acc) + cur + t
  {
    OpenedConcat(acc, cur, seps[k], t[|seps[k]|..]);
  }

  lemma OpenedConcat(acc: seq<seq<int>>, cur: seq<int>, sep: seq<int>, rest: seq<int>)
    ensures var acc' := if cur != [] then acc + [cur] else acc;
      Concat(acc') + sep + rest == Concat(acc) + cur + (sep + rest)
  {
    if cur != [] { ConcatAppend(acc, cur); }
  }

  /** With the separator dropped, the splits concatenate to the input with every
      matched separator removed. */
  lemma {:induction false} SplitFromDropsSeparators(t: seq<int>, seps: seq<seq<int>>,
                                                   cur: seq<int>, acc: seq<seq<int>>)
    requires NonEmptySeparators(seps)
    ensures Concat(SplitFrom(t, seps, Drop, cur, acc)) == Concat(acc) + cur + Stripped(t, seps)
    decreases |t|
  {
    if t == [] {
      if cur != [] { ConcatAppend(acc, cur); }
    } else {
      match FirstMatch(t, seps, 0)
      case None =>
        SplitFromDropsSeparators(t[1..], seps, cur + [t[0]], acc);
      case Some(k) =>
        SplitFromDropsSeparators(t[|seps[k]|..], seps, [], if cur != [] then acc + [cur] else acc);
        if cur != [] { ConcatAppend(acc, cur); }
    }
  }

  /** The scan never produces an empty split, so the final filter removes nothing. */
  lemma {:induction false} SplitFromNonEmpty(t: seq<int>, seps: seq<seq<int>>, keep: KeepSeparator,
                                            cur: seq<int>, acc: seq<seq<int>>)
    requires NonEmptySeparators(seps)
    requires forall k :: 0 <= k < |acc| ==> acc[k] != []
    ensures forall k :: 0 <= k < |SplitFrom(t, seps, keep, cur, acc)| ==> SplitFrom(t, seps, keep, cur, acc)[k] != []
    decreases |t|
  {
    if t != [] {
      match FirstMatch(t, seps, 0)
      case None =>
        SplitFromNonEmpty(t[1..], seps, keep, cur + [t[0]], acc);
      case Some(k) =>
        var sep := seps[k];
        var closed := if keep == KeepEnd then cur + sep else cur;
        var acc' := if closed != [] then acc + [closed] else acc;
        SplitFromNonEmpty(t[|sep|..], seps, keep, if keep == KeepStart then sep else [], acc');
    }
  }

  /** Round trip of `_split_tokens_with_separators`: keeping separators, the splits
      concatenate to the input; dropping them, to the input minus the separators.
      No split is empty, and the filter at the end of the scan removes nothing. */
  lemma SplitsRoundTrip(tokens: seq<int>, seps: seq<seq<int>>, keep: KeepSeparator)
    requires NonEmptySeparators(seps)
    ensures keep != Drop ==> Concat(Splits(tokens, seps, keep)) == tokens
    ensures keep == Drop ==> Concat(Splits(tokens, seps, keep)) == Stripped(tokens, seps)
    ensures Splits(tokens, seps, keep) == SplitFrom(tokens, seps, keep, [], [])
  {
    SplitFromNonEmpty(tokens, seps, keep, [], []);
    DropEmptyKeepsNonEmpty(SplitFrom(tokens, seps, keep, [], []));
    if keep == Drop {
      SplitFromDropsSeparators(tokens, seps, [], []);
    } else {
      SplitFromKeepsTokens(tokens, seps, keep, [], []);
    }
  }

  // ---------------------------------------------------------------------------
  // _merge_splits: the greedy pass
  // ---------------------------------------------------------------------------

  /** The greedy loop of `_merge_splits` on the remaining splits `rest`, with the
      chunk under construction `cur` and the finished chunks `merged`. */
  function GreedyFrom(rest: seq<seq<int>>, size: int, cur: seq<int>, merged: seq<seq<int>>): seq<seq<int>>
    decreases |rest|
  {
    if rest == [] then
      if cur != [] then merged + [cur] else merged
    else if cur == [] then GreedyFrom(rest[1..], size, rest[0], merged)
    else if |cur| + |rest[0]| <= size then GreedyFrom(rest[1..], size, cur + rest[0], merged)
    else GreedyFrom(rest[1..], size, rest[0], merged + [cur])
  }

  function Greedy(splits: seq<seq<int>>, size: int): seq<seq<int>> {
    GreedyFrom(splits, size, [], [])
  }

  lemma {:induction false} GreedyFromKeepsOrder(rest: seq<seq<int>>, size: int, cur: seq<int>, merged: seq<seq<int>>)
    ensures Concat(GreedyFrom(rest, size, cur, merged)) == Concat(merged) + cur + Concat(rest)
    decreases |rest|
  {
    if rest == [] {
      if cur != [] { ConcatAppend(merged, cur); }
    } else if cur == [] {
      GreedyFromKeepsOrder(rest[1..], size, rest[0], merged);
      GreedyStartStep(rest, size, merged);
    } else if |cur| + |rest[0]| <= size {
      GreedyFromKeepsOrder(rest[1..], size, cur + rest[0], merged);
      GreedyJoinStep(rest, size, cur, merged);
    } else {
      GreedyFromKeepsOrder(rest[1..], size, rest[0], merged + [cur]);
      GreedyCloseStep(rest, size, cur, merged);
    }
  }

  /** The steps of `GreedyFromKeepsOrder`: the first split starts a chunk, a split
      joins the current chunk, a split closes it and starts the next. */
  lemma GreedyStartStep(rest: seq<seq<int>>, size: int, merged: seq<seq<int>>)
    requires rest != []
    requires Concat(GreedyFrom(rest[1..], size, rest[0], merged)) == Concat(merged) + rest[0] + Concat(rest[1..])
    ensures Concat(GreedyFrom(rest, size, [], merged)) == Concat(merged) + [] + Concat(rest)
  {
    ConcatCons(rest);
  }

  lemma GreedyJoinStep(rest: seq<seq<int>>, size: int, cur: seq<int>, merged: seq<seq<int>>)
    requires rest != [] && cur != [] && |cur| + |rest[0]| <= size
    requires Concat(GreedyFrom(rest[1..], size, cur + rest[0], merged)) == Concat(merged) + (cur + rest[0]) + Concat(rest[1..])
    ensures Concat(GreedyFrom(rest, size, cur, merged)) == Concat(merged) + cur + Concat(rest)
  {
    ConcatCons(rest);
  }

  lemma GreedyCloseStep(rest: seq<seq<int>>, size: int, cur: seq<int>, merged: seq<seq<int>>)
    requires rest != [] && cur != [] && |cur| + |rest[0]| > size
    requires Concat(GreedyFrom(rest[1..], size, rest[0], merged + [cur])) == Concat(merged + [cur]) + rest[0] + Concat(rest[1..])
    ensures Concat(GreedyFrom(rest, size, cur, merged)) == Concat(merged) + cur + Concat(rest)
  {
    ConcatCons(rest);
    ConcatAppend(merged, cur);
  }

  lemma ConcatCons(ss: seq<seq<int>>)
    requires ss != []
    ensures Concat(ss) == ss[0] + Concat(ss[1..])
  {
  }

  lemma {:induction false} GreedyFromNonEmpty(rest: seq<seq<int>>, size: int, cur: seq<int>, merged: seq<seq<int>>)
    requires forall k :: 0 <= k < |merged| ==> merged[k] != []
    ensures forall k :: 0 <= k < |GreedyFrom(rest, size, cur, merged)| ==> GreedyFrom(rest, size, cur, merged)[k] != []
    decreases |rest|
  {
    if rest == [] {
    } else if cur == [] {
      GreedyFromNonEmpty(rest[1..], size, rest[0], merged);
    } else if |cur| + |rest[0]| <= size {
      GreedyFromNonEmpty(rest[1..], size, cur + rest[0], merged);
    } else {
      GreedyFromNonEmpty(rest[1..], size, rest[0], merged + [cur]);
    }
  }

  /** A chunk longer than `size` was never extended: it is one of the splits. */
  lemma {:induction false} GreedyFromBound(rest: seq<seq<int>>, size: int, cur: seq<int>, merged: seq<seq<int>>,
                                          splits: seq<seq<int>>)
    requires forall x :: x in rest ==> x in splits
    requires |cur| <= size || cur in splits
    requires forall m :: m in merged ==> |m| <= size || m in splits
    ensures forall c :: c in GreedyFrom(rest, size, cur, merged) ==> |c| <= size || c in splits
    decreases |rest|
  {
    if rest == [] {
    } else {
      assert rest[0] in splits;
      assert forall x :: x in rest[1..] ==> x in rest;
      if cur == [] {
        GreedyFromBound(rest[1..], size, rest[0], merged, splits);
      } else if |cur| + |rest[0]| <= size {
        GreedyFromBound(rest[1..], size, cur + rest[0], merged, splits);
      } else {
        GreedyFromBound(rest[1..], size, rest[0], merged + [cur], splits);
      }
    }
  }

  lemma {:induction false} GreedyFromExtends(rest: seq<seq<int>>, size: int, cur: seq<int>, merged: seq<seq<int>>)
    ensures merged <= GreedyFrom(rest, size, cur, merged)
    decreases |rest|
  {
    if rest == [] {
    } else if cur == [] {
      GreedyFromExtends(rest[1..], size, rest[0], merged);
    } else if |cur| + |rest[0]| <= size {
      GreedyFromExtends(rest[1..], size, cur + rest[0], merged);
    } else {
      GreedyFromExtends(rest[1..], size, rest[0], merged + [cur]);
    }
  }

  /** A split longer than `size` is kept whole as a chunk of its own. */
  lemma {:induction false} GreedyFromKeepsOversized(rest: seq<seq<int>>, size: int, cur: seq<int>, merged: seq<seq<int>>)
    requires size >= 0
    ensures |cur| > size ==> cur in GreedyFrom(rest, size, cur, merged)
    ensures forall x :: x in rest && |x| > size ==> x in GreedyFrom(rest, size, cur, merged)
    decreases |rest|
  {
    if rest == [] {
    } else {
      var r := GreedyFrom(rest, size, cur, merged);
      GreedyFromKeepsOversized(rest[1..], size, rest[0], merged);
      GreedyFromKeepsOversized(rest[1..], size, cur + rest[0], merged);
      GreedyFromKeepsOversized(rest[1..], size, rest[0], merged + [cur]);
      assert forall x :: x in rest ==> x == rest[0] || x in rest[1..];
      if cur != [] && |cur| + |rest[0]| > size {
        GreedyFromExtends(rest[1..], size, rest[0], merged + [cur]);
        assert cur in merged + [cur];
      }
    }
  }

  /** `_merge_splits` before re-windowing or overlap: the chunks concatenate to the
      concatenated splits, none is empty, a chunk longer than `size` is one of the
      splits unchanged (so every chunk built from several splits fits), and every
      split longer than `size` is a chunk of its own. */
  lemma GreedyProperties(splits: seq<seq<int>>, size: int)
    requires size >= 0
    ensures Concat(Greedy(splits, size)) == Concat(splits)
    ensures forall k :: 0 <= k < |Greedy(splits, size)| ==> Greedy(splits, size)[k] != []
    ensures forall c :: c in Greedy(splits, size) ==> |c| <= size || c in splits
    ensures forall s :: s in splits && |s| > size ==> s in Greedy(splits, size)
    ensures splits == [] ==> Greedy(splits, size) == []
  {
    GreedyFromKeepsOrder(splits, size, [], []);
    GreedyFromNonEmpty(splits, size, [], []);
    GreedyFromBound(splits, size, [], [], splits);
    GreedyFromKeepsOversized(splits, size, [], []);
  }

  // ---------------------------------------------------------------------------
  // _split_chunk
  // ---------------------------------------------------------------------------

  /** The window of at most `size` tokens starting at `start`. */
  function Window(chunk: seq<int>, start: nat, size: int): seq<int>
    requires start <= |chunk| && 0 <= size
  {
    chunk[start .. Min(start + size, |chunk|)]
  }

  /** The windows `chunk[i:i+size]` for `i` from `from` in steps of
      `size - overlap`, keeping those longer than `overlap`. */
  function WindowsFrom(chunk: seq<int>, size: int, overlap: int, from: nat): seq<seq<int>>
    requires 0 <= overlap < size
    decreases |chunk| - from
  {
    if from >= |chunk| then []
    else
      var w := Window(chunk, from, size);
      (if |w| > overlap then [w] else []) + WindowsFrom(chunk, size, overlap, from + (size - overlap))
  }

  function Windows(chunk: seq<int>, size: int, overlap: int): seq<seq<int>>
    requires 0 <= overlap < size
  {
    WindowsFrom(chunk, size, overlap, 0)
  }

  lemma {:induction false} WindowsFromPastEnd(chunk: seq<int>, size: int, overlap: int, from: nat)
    requires 0 <= overlap < size
    requires from + overlap >= |chunk|
    ensures WindowsFrom(chunk, size, overlap, from) == []
    decreases |chunk| - from
  {
    if from < |chunk| {
      WindowsFromPastEnd(chunk, size, overlap, from + (size - overlap));
    }
  }

  /** The offset of window `j`: `j` steps of `step` tokens. */
  function Offset(j: nat, step: nat): nat {
    j * step
  }

  lemma OffsetNext(j: nat, step: nat)
    ensures Offset(j + 1, step) == Offset(j, step) + step
  {
  }

  /** Kept window `j` from `from` is the window at `start`, which lies
      `j * (size - overlap)` tokens after `from`. */
  lemma {:induction false} WindowsFromAt(chunk: seq<int>, size: int, overlap: int, from: nat, j: nat, start: nat)
    requires 0 <= overlap < size
    requires j < |WindowsFrom(chunk, size, overlap, from)|
    requires start == from + Offset(j, size - overlap)
    ensures start + overlap < |chunk|
    ensures WindowsFrom(chunk, size, overlap, from)[j] == Window(chunk, start, size)
    decreases j
  {
    var step := size - overlap;
    if from + overlap >= |chunk| {
      WindowsFromPastEnd(chunk, size, overlap, from);
      assert false;
    }
    WindowsFromHead(chunk, size, overlap, from);
    var rest := WindowsFrom(chunk, size, overlap, from + step);
    assert WindowsFrom(chunk, size, overlap, from) == [Window(chunk, from, size)] + rest;
    if j > 0 {
      OffsetNext(j - 1, step);
      WindowsFromAt(chunk, size, overlap, from + step, j - 1, start);
      assert WindowsFrom(chunk, size, overlap, from)[j] == rest[j - 1];
    }
  }

  /** A start that leaves more than `overlap` tokens keeps its window. */
  lemma WindowsFromHead(chunk: seq<int>, size: int, overlap: int, from: nat)
    requires 0 <= overlap < size && from + overlap < |chunk|
    ensures WindowsFrom(chunk, size, overlap, from)
      == [Window(chunk, from, size)] + WindowsFrom(chunk, size, overlap, from + (size - overlap))
  {
  }

  /** The kept windows stop where the next start leaves `overlap` tokens or fewer. */
  lemma {:induction false} WindowsFromCount(chunk: seq<int>, size: int, overlap: int, from: nat)
    requires 0 <= overlap < size
    ensures from + Offset(|WindowsFrom(chunk, size, overlap, from)|, size - overlap) + overlap >= |chunk|
    decreases |chunk| - from
  {
    var step := size - overlap;
    var r := WindowsFrom(chunk, size, overlap, from);
    if from + overlap >= |chunk| {
      WindowsFromPastEnd(chunk, size, overlap, from);
    } else {
      var rest := WindowsFrom(chunk, size, overlap, from + step);
      assert |r| == |rest| + 1;
      WindowsFromCount(chunk, size, overlap, from + step);
      OffsetNext(|rest|, step);
    }
  }

  /** Window `j` of `_split_chunk` is the slice at `Offset(j, size - overlap)`, with
      more than `overlap` and at most `size` tokens. */
  lemma WindowShape(chunk: seq<int>, size: int, overlap: int, j: nat)
    requires 0 <= overlap < size && j < |Windows(chunk, size, overlap)|
    ensures var w := Windows(chunk, size, overlap)[j];
      && overlap < |w| <= size
      && Offset(j, size - overlap) + overlap < |chunk|
      && w == chunk[Offset(j, size - overlap) .. Min(Offset(j, size - overlap) + size, |chunk|)]
  {
    WindowsFromAt(chunk, size, overlap, 0, j, Offset(j, size - overlap));
  }

  /** Re-windowing of `_split_chunk`: window `j` is the contiguous slice starting at
      `Offset(j, size - overlap) = j * (size - overlap)`, of length at most `size` and
      more than `overlap`; the windows stop exactly where the next one would hold
      `overlap` tokens or fewer. */
  lemma WindowsShape(chunk: seq<int>, size: int, overlap: int)
    requires 0 <= overlap < size
    ensures var r := Windows(chunk, size, overlap);
      && (forall j :: 0 <= j < |r| ==>
            && overlap < |r[j]| <= size
            && Offset(j, size - overlap) + overlap < |chunk|
            && r[j] == chunk[Offset(j, size - overlap) .. Min(Offset(j, size - overlap) + size, |chunk|)])
      && Offset(|r|, size - overlap) + overlap >= |chunk|
      && (|chunk| > overlap ==> |r| > 0 && r[0] == chunk[..Min(size, |chunk|)])
  {
    var r := Windows(chunk, size, overlap);
    WindowsFromCount(chunk, size, overlap, 0);
    forall j | 0 <= j < |r|
      ensures overlap < |r[j]| <= size
      ensures Offset(j, size - overlap) + overlap < |chunk|
      ensures r[j] == chunk[Offset(j, size - overlap) .. Min(Offset(j, size - overlap) + size, |chunk|)]
    {
      WindowShape(chunk, size, overlap, j);
    }
    if |chunk| > overlap {
      assert |r| > 0;
      WindowsFromAt(chunk, size, overlap, 0, 0, 0);
    }
  }

  lemma {:induction false} WindowsFromPartition(chunk: seq<int>, size: int, from: nat)
    requires 0 < size && from <= |chunk|
    ensures Concat(WindowsFrom(chunk, size, 0, from)) == chunk[from..]
    decreases |chunk| - from
  {
    if from < |chunk| {
      if from + size >= |chunk| {
        PartitionLast(chunk, size, from);
      } else {
        WindowsFromPartition(chunk, size, from + size);
        PartitionNext(chunk, size, from);
      }
    }
  }

  /** The last window of a chunk without overlap is the whole remainder. */
  lemma PartitionLast(chunk: seq<int>, size: int, from: nat)
    requires 0 < size && from < |chunk| <= from + size
    ensures Concat(WindowsFrom(chunk, size, 0, from)) == chunk[from..]
  {
    WindowsFromHead(chunk, size, 0, from);
    WindowsFromPastEnd(chunk, size, 0, from + size);
    PartitionStep(Window(chunk, from, size), [], [], chunk[from..]);
  }

  /** A full window followed by a partition of what comes after it. */
  lemma PartitionNext(chunk: seq<int>, size: int, from: nat)
    requires 0 < size && from + size < |chunk|
    requires Concat(WindowsFrom(chunk, size, 0, from + size)) == chunk[from + size..]
    ensures Concat(WindowsFrom(chunk, size, 0, from)) == chunk[from..]
  {
    WindowsFromHead(chunk, size, 0, from);
    assert chunk[from..] == chunk[from..from + size] + chunk[from + size..];
    PartitionStep(Window(chunk, from, size), WindowsFrom(chunk, size, 0, from + size),
                  chunk[from + size..], chunk[from..]);
  }

  /** A leading window followed by a partition of the rest partitions the whole. */
  lemma PartitionStep(w: seq<int>, rest: seq<seq<int>>, after: seq<int>, whole: seq<int>)
    requires Concat(rest) == after && whole == w + after
    ensures Concat([w] + rest) == whole
  {
    assert ([w] + rest)[1..] == rest;
  }

  /** One window of the re-windowing, cut at `from` with `Slice`. */
  lemma WindowsFromStep(chunk: seq<int>, size: int, overlap: int, from: nat)
    requires 0 <= overlap < size && from < |chunk|
    ensures var w := Slice(chunk, from, from + size);
      WindowsFrom(chunk, size, overlap, from)
        == (if |w| > overlap then [w] else []) + WindowsFrom(chunk, size, overlap, from + (size - overlap))
  {
    assert Slice(chunk, from, from + size) == chunk[from..Min(from + size, |chunk|)];
  }

  method SplitChunk(chunk: seq<int>, size: int, overlap: int) returns (result: seq<seq<int>>)
    requires 0 <= overlap < size
    ensures result == Windows(chunk, size, overlap)
  {
    result := [];
    var i: nat := 0;
    while i < |chunk|
      invariant result + WindowsFrom(chunk, size, overlap, i) == WindowsFrom(chunk, size, overlap, 0)
      decreases |chunk| - i
    {
      var newChunk := Slice(chunk, i, i + size);
      WindowsFromStep(chunk, size, overlap, i);
      ghost var rest := WindowsFrom(chunk, size, overlap, i + (size - overlap));
      if |newChunk| > overlap {
        assert result + ([newChunk] + rest) == (result + [newChunk]) + rest;
        result := result + [newChunk];
      } else {
        assert [] + rest == rest;
      }
      i := i + (size - overlap);
    }
    WindowsFromPastEnd(chunk, size, overlap, i);
    assert result + [] == result;
  }

  // ---------------------------------------------------------------------------
  // _enforce_overlap
  // ---------------------------------------------------------------------------

  /** The last `overlap` tokens of `prev` in front of `cur`, cut to `size`. */
  function Joined(prev: seq<int>, cur: seq<int>, size: nat, overlap: nat): seq<int> {
    var joined := Tail(prev, overlap) + cur;
    if |joined| > size then joined[..size] else joined
  }

  /** Chunk `i > 0` gets the last `overlap` tokens of input chunk `i - 1` in front,
      cut to `size`; the first chunk is unchanged. */
  function Overlapped(chunks: seq<seq<int>>, size: nat, overlap: nat): seq<seq<int>> {
    seq(|chunks|, i requires 0 <= i < |chunks| =>
      if i == 0 then chunks[0] else Joined(chunks[i - 1], chunks[i], size, overlap))
  }

  /** One joined chunk is the tail of `prev` followed by `cur`, cut to its first
      `size` tokens: a prefix of that concatenation of length `min(size, |tail| + |cur|)`.
      So it starts with the tail and is the whole concatenation when that fits. */
  lemma JoinedProperties(prev: seq<int>, cur: seq<int>, size: nat, overlap: nat)
    requires 0 < overlap < size
    ensures var tail := prev[|prev| - Min(overlap, |prev|)..];
      var c := Joined(prev, cur, size, overlap);
      && c <= tail + cur
      && |c| == Min(size, |tail| + |cur|)
      && |c| <= size
      && tail <= c
      && (|tail| + |cur| <= size ==> c == tail + cur)
  {
    var tail := prev[|prev| - Min(overlap, |prev|)..];
    assert Tail(prev, overlap) == tail;
    var joined := tail + cur;
    if |joined| > size {
      assert |tail| <= overlap < size;
      assert joined[..size][..|tail|] == tail;
    }
  }

  /** Chunk `i > 0` of the overlap is the joined chunk of input chunks `i - 1` and `i`. */
  lemma OverlappedAt(chunks: seq<seq<int>>, size: nat, overlap: nat, i: nat)
    requires 0 < overlap < size && 0 < i < |chunks|
    ensures var c := Overlapped(chunks, size, overlap)[i];
      var prev := chunks[i - 1];
      var tail := prev[|prev| - Min(overlap, |prev|)..];
      && c <= tail + chunks[i]
      && |c| == Min(size, |tail| + |chunks[i]|)
      && |c| <= size
      && tail <= c
      && (|tail| + |chunks[i]| <= size ==> c == tail + chunks[i])
  {
    assert Overlapped(chunks, size, overlap)[i] == Joined(chunks[i - 1], chunks[i], size, overlap);
    JoinedProperties(chunks[i - 1], chunks[i], size, overlap);
  }

  /** Each chunk after the first is the last `overlap` tokens of the input chunk
      before it (all of it when shorter) followed by its own input chunk, cut to its
      first `size` tokens; the first chunk is unchanged. */
  lemma OverlappedProperties(chunks: seq<seq<int>>, size: nat, overlap: nat)
    requires 0 < overlap < size
    ensures var r := Overlapped(chunks, size, overlap);
      && |r| == |chunks|
      && (|chunks| > 0 ==> r[0] == chunks[0])
      && forall i :: 0 < i < |r| ==>
           && |r[i]| <= size
           && var prev := chunks[i - 1];
              var tail := prev[|prev| - Min(overlap, |prev|)..];
              && r[i] <= tail + chunks[i]
              && |r[i]| == Min(size, |tail| + |chunks[i]|)
              && tail <= r[i]
              && (|tail| + |chunks[i]| <= size ==> r[i] == tail + chunks[i])
  {
    var r := Overlapped(chunks, size, overlap);
    forall i | 0 < i < |r|
      ensures |r[i]| <= size
      ensures var prev := chunks[i - 1];
        var tail := prev[|prev| - Min(overlap, |prev|)..];
        && r[i] <= tail + chunks[i]
        && |r[i]| == Min(size, |tail| + |chunks[i]|)
        && tail <= r[i]
        && (|tail| + |chunks[i]| <= size ==> r[i] == tail + chunks[i])
    {
      OverlappedAt(chunks, size, overlap, i);
    }
  }

  /** One step of `_enforce_overlap`: the tail of the previous chunk joined to the next. */
  method JoinChunk(prev: seq<int>, cur: seq<int>, size: nat, overlap: nat) returns (newChunk: seq<int>)
    ensures newChunk == Joined(prev, cur, size, overlap)
  {
    var overlapTokens := Tail(prev, overlap);
    newChunk := overlapTokens + cur;
    if |newChunk| > size {
      newChunk := newChunk[..size];
    }
  }

  method EnforceOverlap(chunks: seq<seq<int>>, size: nat, overlap: nat) returns (result: seq<seq<int>>)
    ensures result == Overlapped(chunks, size, overlap)
  {
    ghost var spec := Overlapped(chunks, size, overlap);
    result := [];
    for i := 0 to |chunks|
      invariant result == spec[..i]
    {
      var newChunk := chunks[i];
      if i > 0 {
        newChunk := JoinChunk(chunks[i - 1], chunks[i], size, overlap);
      }
      assert newChunk == spec[i];
      PrefixExtend(spec, i);
      result := result + [newChunk];
    }
    assert spec[..|chunks|] == spec;
  }

  /** The next prefix of a sequence is the current prefix and one more element. */
  lemma PrefixExtend<T>(s: seq<T>, i: nat)
    requires i < |s|
    ensures s[..i + 1] == s[..i] + [s[i]]
  {
  }

  // ---------------------------------------------------------------------------
  // _merge_splits and split_tokens
  // ---------------------------------------------------------------------------

  function Merge(splits: seq<seq<int>>, size: int, overlap: int): seq<seq<int>>
    requires 0 <= overlap < size
  {
    if splits == [] then []
    else
      var merged := Greedy(splits, size);
      if |merged| == 1 && |merged[0]| > size then Windows(merged[0], size, overlap)
      else if overlap > 0 then Overlapped(merged, size, overlap)
      else merged
  }

  method MergeSplits(splits: seq<seq<int>>, size: int, overlap: int) returns (chunks: seq<seq<int>>)
    requires 0 <= overlap < size
    ensures chunks == Merge(splits, size, overlap)
  {
    if splits == [] {
      return [];
    }
    var merged: seq<seq<int>> := [];
    var current: seq<int> := [];
    for j := 0 to |splits|
      invariant GreedyFrom(splits[j..], size, current, merged) == Greedy(splits, size)
    {
      var split := splits[j];
      assert splits[j..][1..] == splits[j + 1..];
      if current == [] {
        current := split;
      } else if |current| + |split| <= size {
        current := current + split;
      } else {
        merged := merged + [current];
        current := split;
      }
    }
    if current != [] {
      merged := merged + [current];
    }
    if |merged| == 1 && |merged[0]| > size {
      chunks := SplitChunk(merged[0], size, overlap);
      return;
    }
    if overlap > 0 {
      chunks := EnforceOverlap(merged, size, overlap);
      return;
    }
    chunks := merged;
  }

  /** What `split_tokens` returns. */
  function SplitTokensSpec(s: SeparatorSplitter, tokens: seq<int>): seq<seq<int>>
    requires s.Valid()
  {
    Merge(Splits(tokens, s.separators, s.keepSeparator), s.chunkSize, s.chunkOverlap)
  }

  method SplitTokens(s: SeparatorSplitter, tokens: seq<int>) returns (chunks: seq<seq<int>>)
    requires s.Valid()
    ensures chunks == SplitTokensSpec(s, tokens)
  {
    var splits := SplitTokensWithSeparators(tokens, s.separators, s.keepSeparator);
    chunks := MergeSplits(splits, s.chunkSize, s.chunkOverlap);
  }

  /** Without overlap and with separators kept, the chunks of `split_tokens` are a
      partition of the input: they concatenate back to it, whether or not the single
      oversized chunk was re-windowed. */
  lemma SplitTokensPartition(s: SeparatorSplitter, tokens: seq<int>)
    requires s.Valid() && s.keepSeparator != Drop && s.chunkOverlap == 0
    ensures Concat(SplitTokensSpec(s, tokens)) == tokens
  {
    var splits := Splits(tokens, s.separators, s.keepSeparator);
    SplitsRoundTrip(tokens, s.separators, s.keepSeparator);
    if splits != [] {
      var merged := Greedy(splits, s.chunkSize);
      GreedyProperties(splits, s.chunkSize);
      if |merged| == 1 && |merged[0]| > s.chunkSize {
        WindowsFromPartition(merged[0], s.chunkSize, 0);
        assert Concat(merged) == merged[0] + Concat([]);
      }
    }
  }

  // ---------------------------------------------------------------------------
  // chunking_by_seperators
  // ---------------------------------------------------------------------------

  /** One record of the chunk table; `content` holds the chunk's tokens (decoding them
      back to text is the tokenizer's business). */
  datatype ChunkRecord = ChunkRecord(tokens: nat, content: seq<int>, chunkOrderIndex: nat, docId: string)

  function DocRecords(chunks: seq<seq<int>>, key: string): seq<ChunkRecord> {
    seq(|chunks|, i requires 0 <= i < |chunks| => ChunkRecord(|chunks[i]|, chunks[i], i, key))
  }

  /** The chunks of every document, in document order. */
  function DocChunks(s: SeparatorSplitter, docs: seq<seq<int>>): (r: seq<seq<seq<int>>>)
    requires s.Valid()
    ensures |r| == |docs| && forall d :: 0 <= d < |docs| ==> r[d] == SplitTokensSpec(s, docs[d])
  {
    seq(|docs|, d requires 0 <= d < |docs| => SplitTokensSpec(s, docs[d]))
  }

  /** The records of the chunk lists of the first `|chunked|` documents, in document
      order; document `d` has key `keys[d]`. */
  function Records(chunked: seq<seq<seq<int>>>, keys: seq<string>): seq<ChunkRecord>
    requires |keys| >= |chunked|
  {
    if chunked == [] then []
    else
      var d := |chunked| - 1;
      Records(chunked[..d], keys) + DocRecords(chunked[d], keys[d])
  }

  /** The splitter `chunking_by_seperators` builds: the default separators encoded,
      separators kept at the end. */
  function ChunkingSplitter(separators: seq<seq<int>>, overlapTokenSize: int, maxTokenSize: int): SeparatorSplitter {
    SeparatorSplitter(separators, KeepEnd, maxTokenSize, overlapTokenSize)
  }

  /** The inner loop of `chunking_by_seperators`: one record per chunk of a document. */
  method AppendDocRecords(results: seq<ChunkRecord>, chunkTokens: seq<seq<int>>, key: string)
    returns (r: seq<ChunkRecord>)
    ensures r == results + DocRecords(chunkTokens, key)
  {
    var lengths := seq(|chunkTokens|, c requires 0 <= c < |chunkTokens| => |chunkTokens[c]|);
    r := results;
    for i := 0 to |chunkTokens|
      invariant r == results + DocRecords(chunkTokens[..i], key)
    {
      r := r + [ChunkRecord(lengths[i], chunkTokens[i], i, key)];
      assert DocRecords(chunkTokens[..i + 1], key) == DocRecords(chunkTokens[..i], key) + [ChunkRecord(lengths[i], chunkTokens[i], i, key)];
    }
    assert chunkTokens[..|chunkTokens|] == chunkTokens;
  }

  method ChunkingBySeparators(docs: seq<seq<int>>, keys: seq<string>, separators: seq<seq<int>>,
                              overlapTokenSize: int, maxTokenSize: int)
    returns (results: seq<ChunkRecord>)
    requires ChunkingSplitter(separators, overlapTokenSize, maxTokenSize).Valid()
    requires |keys| >= |docs|
    ensures results == Records(DocChunks(ChunkingSplitter(separators, overlapTokenSize, maxTokenSize), docs), keys)
  {
    var splitter := ChunkingSplitter(separators, overlapTokenSize, maxTokenSize);
    ghost var chunked := DocChunks(splitter, docs);
    results := [];
    for index := 0 to |docs|
      invariant results == Records(chunked[..index], keys)
    {
      var chunkTokens := SplitTokens(splitter, docs[index]);
      results := AppendDocRecords(results, chunkTokens, keys[index]);
      assert chunked[..index + 1][..index] == chunked[..index];
    }
    assert chunked[..|docs|] == chunked;
  }

  /** Document `d`'s records form one block, right after those of the documents
      before it: record `i` of the block is chunk `i` of that document, with
      `chunkOrderIndex == i`, its token count and the document's key. */
  lemma RecordsBlocks(chunked: seq<seq<seq<int>>>, keys: seq<string>, d: nat)
    requires |keys| >= |chunked| && d < |chunked|
    ensures var before := |Records(chunked[..d], keys)|;
      var chunks := chunked[d];
      var all := Records(chunked, keys);
      && before + |chunks| <= |all|
      && forall i :: 0 <= i < |chunks| ==>
           all[before + i] == ChunkRecord(|chunks[i]|, chunks[i], i, keys[d])
  {
    RecordsPrefix(chunked, keys, d + 1);
    assert chunked[..d + 1][..d] == chunked[..d];
  }

  /** The records of the first `n` documents start the records of them all. */
  lemma {:induction false} RecordsPrefix(chunked: seq<seq<seq<int>>>, keys: seq<string>, n: nat)
    requires |keys| >= |chunked| && n <= |chunked|
    ensures Records(chunked[..n], keys) <= Records(chunked, keys)
    decreases |chunked|
  {
    if n < |chunked| {
      var last := |chunked| - 1;
      assert chunked[..last][..n] == chunked[..n];
      RecordsPrefix(chunked[..last], keys, n);
    } else {
      assert chunked[..n] == chunked;
    }
  }
}

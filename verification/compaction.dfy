/**
 * The compaction pass run over a queried slice of the action log: a single
 * left-to-right walk that folds back-to-back inserts and same-position deletes
 * into the entry before them and leaves every other action as it is.
 */
module Compaction {
  import opened Wrappers
  import opened Actions

  /** Whether the pass folds `a` into the output entry `prev` that precedes it. */
  predicate Mergeable(prev: Action, a: Action) {
    || (prev.Insert? && a.Insert? && a.pos == prev.pos + |prev.content|)
    || (prev.Delete? && a.Delete? && a.pos == prev.pos)
  }

  /** No two neighbours of `xs` could be folded together. */
  predicate Normal(xs: seq<Action>) {
    forall i, j :: 0 <= i < |xs| && 0 <= j < |xs| && j == i + 1 ==> !Mergeable(xs[i], xs[j])
  }

  /** Each entry ends at the version the next one starts from. */
  predicate Chain(xs: seq<Action>) {
    forall i, j :: 0 <= i < |xs| && 0 <= j < |xs| && j == i + 1 ==> xs[i].toVersion == xs[j].fromVersion
  }

  /** Each entry moves the version forward. */
  predicate Forward(xs: seq<Action>) {
    forall i :: 0 <= i < |xs| ==> xs[i].fromVersion < xs[i].toVersion
  }

  /** The Replace entries of `xs`, in order. */
  function Replaces(xs: seq<Action>): seq<Action>
    decreases |xs|
  {
    if |xs| == 0 then []
    else Replaces(xs[..|xs| - 1]) + (if xs[|xs| - 1].Replace? then [xs[|xs| - 1]] else [])
  }

  /** The replay of `out` followed by `a`, unfolded one step. */
  lemma ReplaySnoc(out: seq<Action>, a: Action, t: string)
    ensures Replay(out + [a], t) == Then(Replay(out, t), a)
  {
    assert (out + [a])[..|out|] == out;
  }

  /** One insert step: the folded insert does what the two inserts do in turn. */
  lemma InsertFoldStep(prev: Action, a: Action, r: Result<string, Error>)
    requires prev.Insert? && a.Insert? && a.pos == prev.pos + |prev.content|
    ensures Then(r, Insert(prev.pos, prev.content + a.content, prev.fromVersion, a.toVersion))
         == Then(Then(r, prev), a)
  {
    if r.Ok? {
      InsertMergeSound(prev.pos, prev.content, a.content, r.value);
    }
  }

  /** One delete step: the folded delete does what the two deletes do in turn. */
  lemma DeleteFoldStep(prev: Action, a: Action, r: Result<string, Error>)
    requires prev.Delete? && a.Delete? && a.pos == prev.pos
    ensures Then(r, Delete(a.pos, prev.length + a.length, prev.fromVersion, a.toVersion))
         == Then(Then(r, prev), a)
  {
    if r.Ok? {
      DeleteMergeSound(a.pos, prev.length, a.length, r.value);
    }
  }

  /** Folding a back-to-back insert into a preceding insert leaves the replay on `t` unchanged. */
  lemma InsertFoldAt(out: seq<Action>, a: Action, t: string)
    requires |out| > 0 && out[|out| - 1].Insert? && a.Insert?
    requires a.pos == out[|out| - 1].pos + |out[|out| - 1].content|
    ensures var prev := out[|out| - 1];
      Replay(out[..|out| - 1] + [Insert(prev.pos, prev.content + a.content, prev.fromVersion, a.toVersion)], t)
      == Replay(out + [a], t)
  {
    var prev := out[|out| - 1];
    var init := out[..|out| - 1];
    ReplaySnoc(init, Insert(prev.pos, prev.content + a.content, prev.fromVersion, a.toVersion), t);
    ReplaySnoc(out, a, t);
    assert init + [prev] == out;
    ReplaySnoc(init, prev, t);
    InsertFoldStep(prev, a, Replay(init, t));
  }

  /** Folding a delete into a preceding delete at the same position leaves the replay on `t` unchanged. */
  lemma DeleteFoldAt(out: seq<Action>, a: Action, t: string)
    requires |out| > 0 && out[|out| - 1].Delete? && a.Delete?
    requires a.pos == out[|out| - 1].pos
    ensures var prev := out[|out| - 1];
      Replay(out[..|out| - 1] + [Delete(a.pos, prev.length + a.length, prev.fromVersion, a.toVersion)], t)
      == Replay(out + [a], t)
  {
    var prev := out[|out| - 1];
    var init := out[..|out| - 1];
    ReplaySnoc(init, Delete(a.pos, prev.length + a.length, prev.fromVersion, a.toVersion), t);
    ReplaySnoc(out, a, t);
    assert init + [prev] == out;
    ReplaySnoc(init, prev, t);
    DeleteFoldStep(prev, a, Replay(init, t));
  }

  /**
   * Folds insert `a` into the last output entry when `a` starts right where
   * that entry's text ends; otherwise appends `a`. Both entries carry content,
   * which is all the fold reads of them.
   */
  function TryMergeInsert(out: seq<Action>, a: Action): (r: seq<Action>)
    requires |out| > 0
    requires !out[|out| - 1].Delete? && !a.Delete?
    ensures |out| <= |r| <= |out| + 1
    ensures r[..|out| - 1] == out[..|out| - 1]
    ensures var prev := out[|out| - 1];
      if a.pos == prev.pos + |prev.content| then
        && |r| == |out|
        && r[|r| - 1].Insert?
        && r[|r| - 1].pos == prev.pos
        && r[|r| - 1].content == prev.content + a.content
        && r[|r| - 1].fromVersion == prev.fromVersion
        && r[|r| - 1].toVersion == a.toVersion
      else r == out + [a]
    ensures out[|out| - 1].Insert? && a.Insert? ==>
      forall t :: Replay(r, t) == Replay(out + [a], t)
  {
    var prev := out[|out| - 1];
    if a.pos == prev.pos + |prev.content| then
      var merged := Insert(prev.pos, prev.content + a.content, prev.fromVersion, a.toVersion);
      var r := out[..|out| - 1] + [merged];
      assert prev.Insert? && a.Insert? ==> forall t :: Replay(r, t) == Replay(out + [a], t) by {
        if prev.Insert? && a.Insert? {
          forall t ensures Replay(r, t) == Replay(out + [a], t) {
            InsertFoldAt(out, a, t);
          }
        }
      }
      r
    else
      out + [a]
  }

  /** Folds delete `a` into the last output entry when both start at the same position; otherwise appends `a`. */
  function TryMergeDelete(out: seq<Action>, a: Action): (r: seq<Action>)
    requires |out| > 0
    requires out[|out| - 1].Delete? && a.Delete?
    ensures |out| <= |r| <= |out| + 1
    ensures r[..|out| - 1] == out[..|out| - 1]
    ensures var prev := out[|out| - 1];
      if a.pos == prev.pos then
        && |r| == |out|
        && r[|r| - 1].Delete?
        && r[|r| - 1].pos == prev.pos
        && r[|r| - 1].length == prev.length + a.length
        && r[|r| - 1].fromVersion == prev.fromVersion
        && r[|r| - 1].toVersion == a.toVersion
      else r == out + [a]
    ensures forall t :: Replay(r, t) == Replay(out + [a], t)
  {
    var prev := out[|out| - 1];
    if prev.pos == a.pos then
      var merged := Delete(a.pos, prev.length + a.length, prev.fromVersion, a.toVersion);
      var r := out[..|out| - 1] + [merged];
      assert forall t :: Replay(r, t) == Replay(out + [a], t) by {
        forall t ensures Replay(r, t) == Replay(out + [a], t) {
          DeleteFoldAt(out, a, t);
        }
      }
      r
    else
      out + [a]
  }
  /**
   * One iteration of the compaction loop: the first action starts the output;
   * an action of the same kind as the last output entry is offered to the
   * insert or delete fold (a Replace is never folded); any other is appended.
   */
  function OptimizeStep(out: seq<Action>, a: Action): (r: seq<Action>)
    ensures |r| == (if |out| > 0 && Mergeable(out[|out| - 1], a) then |out| else |out| + 1)
    ensures |out| > 0 ==> r[..|out| - 1] == out[..|out| - 1]
    ensures !(|out| > 0 && Mergeable(out[|out| - 1], a)) ==> r == out + [a]
    ensures |out| > 0 && Mergeable(out[|out| - 1], a) ==>
      && r[|r| - 1].fromVersion == out[|out| - 1].fromVersion
      && r[|r| - 1].toVersion == a.toVersion
      && r[|r| - 1].pos == out[|out| - 1].pos
      && r[|r| - 1].Insert? == a.Insert?
      && r[|r| - 1].Delete? == a.Delete?
      && (a.Insert? ==> r[|r| - 1].content == out[|out| - 1].content + a.content)
      && (a.Delete? ==> r[|r| - 1].length == out[|out| - 1].length + a.length)
    ensures Normal(out) ==> Normal(r)
  {
    if |out| == 0 then [a]
    else
      match (out[|out| - 1], a)
      case (Insert(_, _, _, _), Insert(_, _, _, _)) => TryMergeInsert(out, a)
      case (Delete(_, _, _, _), Delete(_, _, _, _)) => TryMergeDelete(out, a)
      case _ => out + [a]
  }

  /**
   * The compacted form of `xs`: the loop of `Optimize` run over the whole
   * list, written as a fold from the left.
   */
  function Compact(xs: seq<Action>): (r: seq<Action>)
    ensures |r| <= |xs|
    ensures |r| == 0 <==> |xs| == 0
    ensures Normal(r)
    decreases |xs|
  {
    if |xs| == 0 then []
    else OptimizeStep(Compact(xs[..|xs| - 1]), xs[|xs| - 1])
  }

  /** One compaction step replays as the old output followed by the action. */
  lemma StepReplays(out: seq<Action>, a: Action, t: string)
    ensures Replay(OptimizeStep(out, a), t) == Replay(out + [a], t)
  {
    if |out| > 0 {
      var prev := out[|out| - 1];
      if prev.Insert? && a.Insert? {
        assert OptimizeStep(out, a) == TryMergeInsert(out, a);
      } else if prev.Delete? && a.Delete? {
        assert OptimizeStep(out, a) == TryMergeDelete(out, a);
      }
    }
  }

  /**
   * Compaction preserves meaning: on every text the compacted list succeeds
   * exactly when the original list does, and then yields the same text.
   */
  lemma {:induction false} CompactReplays(xs: seq<Action>, t: string)
    ensures Replay(Compact(xs), t) == Replay(xs, t)
    decreases |xs|
  {
    if |xs| > 0 {
      var init := xs[..|xs| - 1];
      var a := xs[|xs| - 1];
      CompactReplays(init, t);
      StepReplays(Compact(init), a, t);
      ReplaySnoc(Compact(init), a, t);
      assert init + [a] == xs;
      ReplaySnoc(init, a, t);
    }
  }

  /** The compaction pass as `optimize` in text_history.py runs it: one left-to-right loop over the list. */
  method Optimize(actions: seq<Action>) returns (out: seq<Action>)
    ensures out == Compact(actions)
    ensures |out| <= |actions|
    ensures Normal(out)
  {
    out := [];
    for i := 0 to |actions|
      invariant out == Compact(actions[..i])
    {
      assert actions[..i + 1][..i] == actions[..i];
      out := OptimizeStep(out, actions[i]);
    }
    assert actions[..|actions|] == actions;
  }

  /** A list with no foldable neighbours passes through compaction unchanged. */
  lemma {:induction false} CompactNormalFixed(ys: seq<Action>)
    requires Normal(ys)
    ensures Compact(ys) == ys
    decreases |ys|
  {
    if |ys| > 0 {
      var init := ys[..|ys| - 1];
      assert Normal(init) by {
        forall i | 0 <= i < |init| - 1 ensures !Mergeable(init[i], init[i + 1]) {
          assert init[i] == ys[i] && init[i + 1] == ys[i + 1];
        }
      }
      CompactNormalFixed(init);
      assert init + [ys[|ys| - 1]] == ys;
      if |init| > 0 {
        assert !Mergeable(ys[|ys| - 2], ys[|ys| - 1]);
      }
    }
  }

  /** Compaction is a single pass that leaves nothing for a second pass to do. */
  lemma CompactIdempotent(xs: seq<Action>)
    ensures Compact(Compact(xs)) == Compact(xs)
  {
    CompactNormalFixed(Compact(xs));
  }

  /** One compaction step keeps a chain of forward steps a chain of forward steps. */
  lemma StepChain(c: seq<Action>, a: Action)
    requires Chain(c) && Forward(c) && a.fromVersion < a.toVersion
    requires |c| > 0 ==> c[|c| - 1].toVersion == a.fromVersion
    ensures var r := OptimizeStep(c, a);
      && Chain(r) && Forward(r)
      && r[0].fromVersion == (if |c| > 0 then c[0].fromVersion else a.fromVersion)
      && r[|r| - 1].toVersion == a.toVersion
  {
    var r := OptimizeStep(c, a);
    if |c| > 0 && Mergeable(c[|c| - 1], a) {
      assert r[..|c| - 1] == c[..|c| - 1];
      forall i | 0 <= i < |r| - 1 ensures r[i].toVersion == r[i + 1].fromVersion {
        assert r[i] == c[i];
        if i + 1 < |c| - 1 {
          assert r[i + 1] == c[i + 1];
        }
      }
      forall i | 0 <= i < |r| ensures r[i].fromVersion < r[i].toVersion {
        if i < |c| - 1 {
          assert r[i] == c[i];
        }
      }
    } else {
      assert r == c + [a];
      forall i | 0 <= i < |r| - 1 ensures r[i].toVersion == r[i + 1].fromVersion {
        assert r[i] == c[i];
      }
      forall i | 0 <= i < |r| ensures r[i].fromVersion < r[i].toVersion {
        if i < |c| {
          assert r[i] == c[i];
        }
      }
    }
  }

  /** Dropping the last entry of a chain of forward steps leaves one. */
  lemma ChainPrefix(xs: seq<Action>)
    requires |xs| > 0 && Chain(xs) && Forward(xs)
    ensures Chain(xs[..|xs| - 1]) && Forward(xs[..|xs| - 1])
    ensures xs[|xs| - 1].fromVersion < xs[|xs| - 1].toVersion
    ensures |xs| > 1 ==> xs[|xs| - 2].toVersion == xs[|xs| - 1].fromVersion
  {
  }

  /**
   * On a chain of forward steps, compaction yields a chain of forward steps
   * spanning the same versions: each folded entry runs from the first folded
   * action's start to the last one's end, and the output keeps input order.
   */
  lemma {:induction false} CompactChain(xs: seq<Action>)
    requires Chain(xs) && Forward(xs)
    ensures Chain(Compact(xs)) && Forward(Compact(xs))
    ensures |xs| > 0 ==>
      && Compact(xs)[0].fromVersion == xs[0].fromVersion
      && Compact(xs)[|Compact(xs)| - 1].toVersion == xs[|xs| - 1].toVersion
    decreases |xs|
  {
    if |xs| > 0 {
      var init := xs[..|xs| - 1];
      var a := xs[|xs| - 1];
      ChainPrefix(xs);
      CompactChain(init);
      var c := Compact(init);
      assert Compact(xs) == OptimizeStep(c, a);
      StepChain(c, a);
    }
  }

  /** Replace actions are never folded: compaction keeps every one of them, in order. */
  lemma {:induction false} CompactKeepsReplaces(xs: seq<Action>)
    ensures Replaces(Compact(xs)) == Replaces(xs)
    decreases |xs|
  {
    if |xs| > 0 {
      var init := xs[..|xs| - 1];
      var a := xs[|xs| - 1];
      var c := Compact(init);
      var r := Compact(xs);
      CompactKeepsReplaces(init);
      if |c| > 0 && Mergeable(c[|c| - 1], a) {
        var m := r[|r| - 1];
        assert r == c[..|c| - 1] + [m];
        assert c == c[..|c| - 1] + [c[|c| - 1]];
        assert (c[..|c| - 1] + [m])[..|c| - 1] == c[..|c| - 1];
        assert Replaces(r) == Replaces(c[..|c| - 1]);
        assert Replaces(c) == Replaces(c[..|c| - 1]);
      } else {
        assert r == c + [a];
        assert (c + [a])[..|c|] == c;
      }
    }
  }
}

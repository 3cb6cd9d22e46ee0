/**
 * The text history itself: the current text, the version counter and the
 * append-only log of applied actions, the three mutating entry points that
 * funnel through one guarded commit, and the range query that returns a
 * compacted slice of the log.
 */
module TextHistory {
  import opened Wrappers
  import opened Actions
  import opened Compaction

  /** The state of a text history. */
  datatype History = History(text: string, version: int, log: seq<Action>)

  /** What a mutating call leaves behind: the history after it, and the version it returned or the error it raised. */
  datatype Outcome = Outcome(after: History, result: Result<int, Error>)

  /** Log entry `i` moves the text from version `i` to version `i + 1`. */
  predicate Indexed(log: seq<Action>) {
    forall i :: 0 <= i < |log| ==> log[i].fromVersion == i && log[i].toVersion == i + 1
  }

  /**
   * The invariant the mutating entry points keep: one log entry per version,
   * each spanning its own version step, and replaying the log from the empty
   * text reproduces the current text.
   */
  predicate Valid(h: History) {
    && h.version == |h.log|
    && Indexed(h.log)
    && Replay(h.log, "") == Ok(h.text)
  }

  /** A new history: empty text, version 0, nothing logged. */
  function Empty(): (h: History)
    ensures Valid(h)
    ensures h.text == "" && h.version == 0
  {
    History("", 0, [])
  }

  /**
   * Commits `a`: refused when it was built against another version, refused
   * when it does not fit the text; otherwise the text becomes the result of
   * applying it, the version becomes its end version and the log gains it.
   * A refused action changes nothing.
   */
  function ApplyAction(h: History, a: Action): (r: Outcome)
    ensures r.result.Ok? <==> a.fromVersion == h.version && Apply(a, h.text).Ok?
    ensures a.fromVersion != h.version ==> r.result == Err(VersionMismatch)
    ensures a.fromVersion == h.version && Apply(a, h.text).Err? ==> r.result == Err(InvalidPosition)
    ensures r.result.Err? ==> r.after == h
    ensures r.result.Ok? ==>
      && r.after.text == Apply(a, h.text).value
      && r.after.version == a.toVersion == r.result.value
      && r.after.log == h.log + [a]
    ensures Valid(h) && a.toVersion == a.fromVersion + 1 ==> Valid(r.after)
  {
    if h.version != a.fromVersion then Outcome(h, Err(VersionMismatch))
    else
      match Apply(a, h.text)
      case Err(e) => Outcome(h, Err(e))
      case Ok(t) =>
        var after := History(t, a.toVersion, h.log + [a]);
        ReplaySnoc(h.log, a, "");
        Outcome(after, Ok(a.toVersion))
  }

  /** The position a mutator uses: the one given, or the end of the text when it is omitted. */
  function ResolvePos(h: History, pos: Option<int>): int {
    pos.GetOr(|h.text|)
  }

  /** Inserts `content` at `pos` (by default at the end of the text) as the next version. */
  function InsertText(h: History, content: string, pos: Option<int>): (r: Outcome)
    ensures var p := ResolvePos(h, pos);
      r.result.Ok? <==> 0 <= p <= |h.text|
    ensures r.result.Err? ==> r.after == h && r.result.error == InvalidPosition
    ensures r.result.Ok? ==>
      && r.result.value == r.after.version == h.version + 1
      && r.after.text == ApplyInsert(ResolvePos(h, pos), content, h.text).value
      && r.after.log == h.log + [Action.Insert(ResolvePos(h, pos), content, h.version, h.version + 1)]
    ensures pos.None? ==> r.result.Ok? && r.after.text == h.text + content
    ensures Valid(h) ==> Valid(r.after)
  {
    var p := ResolvePos(h, pos);
    ReplaceAtEndAppends(content, h.text);
    ApplyAction(h, Action.Insert(p, content, h.version, h.version + 1))
  }

  /** Overwrites from `pos` (by default the end of the text) with `content` as the next version. */
  function ReplaceText(h: History, content: string, pos: Option<int>): (r: Outcome)
    ensures var p := ResolvePos(h, pos);
      r.result.Ok? <==> 0 <= p <= |h.text|
    ensures r.result.Err? ==> r.after == h && r.result.error == InvalidPosition
    ensures r.result.Ok? ==>
      && r.result.value == r.after.version == h.version + 1
      && r.after.text == ApplyReplace(ResolvePos(h, pos), content, h.text).value
      && r.after.log == h.log + [Action.Replace(ResolvePos(h, pos), content, h.version, h.version + 1)]
    ensures pos.None? ==> r.result.Ok? && r.after.text == h.text + content
    ensures Valid(h) ==> Valid(r.after)
  {
    var p := ResolvePos(h, pos);
    ReplaceAtEndAppends(content, h.text);
    ApplyAction(h, Action.Replace(p, content, h.version, h.version + 1))
  }

  /** A fitting insert on any history commits exactly one step. */
  lemma InsertCommits(h: History, content: string, p: int)
    requires 0 <= p <= |h.text|
    ensures InsertText(h, content, Some(p)) == Outcome(
      History(h.text[..p] + content + h.text[p..], h.version + 1,
              h.log + [Action.Insert(p, content, h.version, h.version + 1)]),
      Ok(h.version + 1))
  {
  }

  /** Deletes `length` characters from `pos` as the next version. */
  function DeleteText(h: History, pos: int, length: nat): (r: Outcome)
    ensures r.result.Ok? <==> 0 <= pos && pos + length <= |h.text|
    ensures r.result.Err? ==> r.after == h && r.result.error == InvalidPosition
    ensures r.result.Ok? ==>
      && r.result.value == r.after.version == h.version + 1
      && r.after.text == ApplyDelete(pos, length, h.text).value
      && r.after.log == h.log + [Action.Delete(pos, length, h.version, h.version + 1)]
    ensures Valid(h) ==> Valid(r.after)
  {
    ApplyAction(h, Action.Delete(pos, length, h.version, h.version + 1))
  }

  /** The log entries whose start version lies in `[lo, hi)`, in log order. */
  function Select(log: seq<Action>, lo: int, hi: int): (r: seq<Action>)
    ensures |r| <= |log|
    ensures forall i :: 0 <= i < |r| ==> lo <= r[i].fromVersion < hi
    decreases |log|
  {
    if |log| == 0 then []
    else
      var a := log[|log| - 1];
      Select(log[..|log| - 1], lo, hi) + (if lo <= a.fromVersion < hi then [a] else [])
  }

  /**
   * The compacted actions of the version window `[from, to)`; `from` defaults
   * to 0 and `to` to the current version. A window reaching past the current
   * version, reversed, or negative is refused.
   */
  function GetActions(h: History, from: Option<int>, to: Option<int>): (r: Result<seq<Action>, Error>)
    ensures var lo := from.GetOr(0); var hi := to.GetOr(h.version);
      r.Err? <==> lo < 0 || hi < 0 || lo > hi || lo > h.version || hi > h.version
    ensures r.Err? ==> r.error == InvalidRange
    ensures r.Ok? ==>
      && r.value == Compact(Select(h.log, from.GetOr(0), to.GetOr(h.version)))
      && Normal(r.value)
  {
    var lo := from.GetOr(0);
    var hi := to.GetOr(h.version);
    if lo > h.version || hi > h.version then Err(InvalidRange)
    else if lo > hi then Err(InvalidRange)
    else if lo < 0 || hi < 0 then Err(InvalidRange)
    else Ok(Compact(Select(h.log, lo, hi)))
  }

  // ----- Properties of the range query -----

  /** Selection distributes over concatenation, so it keeps log order and repeats whatever the versions. */
  lemma {:induction false} SelectAppend(xs: seq<Action>, ys: seq<Action>, lo: int, hi: int)
    ensures Select(xs + ys, lo, hi) == Select(xs, lo, hi) + Select(ys, lo, hi)
    decreases |ys|
  {
    if |ys| == 0 {
      assert xs + ys == xs;
    } else {
      var init := ys[..|ys| - 1];
      assert (xs + ys)[..|xs + ys| - 1] == xs + init;
      SelectAppend(xs, init, lo, hi);
    }
  }

  /** A single entry is kept exactly when its start version lies in the window. */
  lemma SelectSingle(a: Action, lo: int, hi: int)
    ensures Select([a], lo, hi) == (if lo <= a.fromVersion < hi then [a] else [])
  {
  }

  /** Selection keeps exactly the entries whose start version lies in the window. */
  lemma {:induction false} SelectMembers(log: seq<Action>, lo: int, hi: int)
    ensures forall a :: a in Select(log, lo, hi) <==> a in log && lo <= a.fromVersion < hi
    decreases |log|
  {
    if |log| > 0 {
      var init := log[..|log| - 1];
      SelectMembers(init, lo, hi);
      assert log == init + [log[|log| - 1]];
    }
  }

  /** A slice `[lo, hi)` of an indexed log runs step by step from version `lo` to version `hi`. */
  lemma IndexedSlice(log: seq<Action>, lo: int, hi: int)
    requires Indexed(log) && 0 <= lo <= hi <= |log|
    ensures forall i :: 0 <= i < hi - lo ==> log[lo..hi][i].fromVersion == lo + i && log[lo..hi][i].toVersion == lo + i + 1
    ensures Chain(log[lo..hi]) && Forward(log[lo..hi])
    ensures lo == 0 ==> Indexed(log[lo..hi])
  {
  }

  /** The induction step of `SelectIndexed`: the last entry, starting at version `|log| - 1`, extends the slice or not. */
  lemma SelectIndexedStep(log: seq<Action>, lo: int, hi: int)
    requires |log| > 0 && 0 <= lo <= hi
    requires log[|log| - 1].fromVersion == |log| - 1
    requires Select(log[..|log| - 1], lo, hi) == log[..|log| - 1][Min(lo, |log| - 1)..Min(hi, |log| - 1)]
    ensures Select(log, lo, hi) == log[Min(lo, |log|)..Min(hi, |log|)]
  {
    var n := |log|;
    var a := log[n - 1];
    var rest := log[..n - 1][Min(lo, n - 1)..Min(hi, n - 1)];
    assert Select(log, lo, hi) == rest + (if lo <= n - 1 < hi then [a] else []);
    SliceStep(log, lo, hi);
  }

  /** Growing a log by one entry grows its slice between the clamped bounds by that entry exactly when `lo <= |log| - 1 < hi`. */
  lemma SliceStep(log: seq<Action>, lo: int, hi: int)
    requires |log| > 0 && 0 <= lo <= hi
    ensures var n := |log|;
      log[..n - 1][Min(lo, n - 1)..Min(hi, n - 1)] + (if lo <= n - 1 < hi then [log[n - 1]] else [])
      == log[Min(lo, n)..Min(hi, n)]
  {
    var n := |log|;
    if lo <= n - 1 < hi {
      assert log[lo..n] == log[..n - 1][lo..n - 1] + [log[n - 1]];
    } else if n - 1 < lo {
    } else {
      assert log[..n - 1][lo..hi] + [] == log[lo..hi];
    }
  }

  /** On a log whose entry `i` starts at version `i`, selecting `[lo, hi)` is slicing the log. */
  lemma {:induction false} SelectIndexed(log: seq<Action>, lo: int, hi: int)
    requires Indexed(log)
    requires 0 <= lo <= hi
    ensures Select(log, lo, hi) == log[Min(lo, |log|)..Min(hi, |log|)]
    decreases |log|
  {
    if |log| > 0 {
      IndexedSlice(log, 0, |log| - 1);
      assert log[0..|log| - 1] == log[..|log| - 1];
      SelectIndexed(log[..|log| - 1], lo, hi);
      SelectIndexedStep(log, lo, hi);
    }
  }

  /** A window of zero width holds no actions. */
  lemma EmptyWindow(h: History, v: int)
    requires 0 <= v <= h.version
    ensures GetActions(h, Some(v), Some(v)) == Ok([])
  {
  }

  /** On a valid history, the window query compacts exactly the log slice `[lo, hi)`. */
  lemma WindowIsSlice(h: History, lo: int, hi: int)
    requires Valid(h)
    requires GetActions(h, Some(lo), Some(hi)).Ok?
    ensures 0 <= lo <= hi <= |h.log|
    ensures GetActions(h, Some(lo), Some(hi)).value == Compact(h.log[lo..hi])
  {
    SelectIndexed(h.log, lo, hi);
  }

  /**
   * Replaying the compaction of the slice `[lo, hi)` of a replayable log on
   * the result of its first `lo` entries gives the result of its first `hi`.
   */
  lemma SliceReplays(log: seq<Action>, lo: int, hi: int, t: string)
    requires 0 <= lo <= hi <= |log|
    requires Replay(log, t).Ok?
    ensures Replay(log[..lo], t).Ok?
    ensures Replay(Compact(log[lo..hi]), Replay(log[..lo], t).value) == Replay(log[..hi], t)
  {
    ReplayPrefix(log, lo, t);
    assert log[..hi] == log[..lo] + log[lo..hi];
    ReplayAppend(log[..lo], log[lo..hi], t);
    CompactReplays(log[lo..hi], Replay(log[..lo], t).value);
  }

  /**
   * Replaying the answer to a window query on the text of the window's start
   * version yields the text of its end version.
   */
  lemma WindowReplays(h: History, lo: int, hi: int)
    requires Valid(h)
    requires GetActions(h, Some(lo), Some(hi)).Ok?
    ensures var acts := GetActions(h, Some(lo), Some(hi)).value;
      && Replay(h.log[..lo], "").Ok?
      && Replay(acts, Replay(h.log[..lo], "").value) == Replay(h.log[..hi], "")
  {
    WindowIsSlice(h, lo, hi);
    SliceReplays(h.log, lo, hi, "");
  }

  /** The compaction of a slice `[lo, hi)` of an indexed log is a chain of forward steps from `lo` to `hi`. */
  lemma SliceShape(log: seq<Action>, lo: int, hi: int)
    requires Indexed(log) && 0 <= lo <= hi <= |log|
    ensures var acts := Compact(log[lo..hi]);
      && |acts| <= hi - lo
      && Chain(acts) && Forward(acts)
      && (lo < hi ==> |acts| > 0 && acts[0].fromVersion == lo && acts[|acts| - 1].toVersion == hi)
  {
    IndexedSlice(log, lo, hi);
    CompactChain(log[lo..hi]);
  }

  /**
   * The answer to a window query is a chain of forward steps running from
   * `lo` to `hi`, with at most one entry per version in the window.
   */
  lemma WindowShape(h: History, lo: int, hi: int)
    requires Valid(h)
    requires GetActions(h, Some(lo), Some(hi)).Ok?
    ensures var acts := GetActions(h, Some(lo), Some(hi)).value;
      && |acts| <= hi - lo
      && Chain(acts) && Forward(acts)
      && (lo < hi ==> |acts| > 0 && acts[0].fromVersion == lo && acts[|acts| - 1].toVersion == hi)
  {
    WindowIsSlice(h, lo, hi);
    SliceShape(h.log, lo, hi);
  }

  /** The default query returns a compacted log that rebuilds the current text from the empty one. */
  lemma WholeLogReplays(h: History)
    requires Valid(h)
    ensures GetActions(h, None, None).Ok?
    ensures Replay(GetActions(h, None, None).value, "") == Ok(h.text)
  {
    SelectIndexed(h.log, 0, h.version);
    assert h.log[0..|h.log|] == h.log;
    CompactReplays(h.log, "");
  }

  // ----- Sessions of mutating calls -----

  /** A call of one of the mutating entry points, with its arguments. */
  datatype Command =
    | InsertCmd(content: string, pos: Option<int>)
    | ReplaceCmd(content: string, pos: Option<int>)
    | DeleteCmd(at: int, length: nat)

  function Perform(h: History, c: Command): Outcome {
    match c
    case InsertCmd(content, pos) => InsertText(h, content, pos)
    case ReplaceCmd(content, pos) => ReplaceText(h, content, pos)
    case DeleteCmd(pos, length) => DeleteText(h, pos, length)
  }

  /** The history after issuing `cmds` in order, and how many of them succeeded; a failed call is simply skipped. */
  datatype Session = Session(history: History, successes: nat)

  function Run(h: History, cmds: seq<Command>): Session
    decreases |cmds|
  {
    if |cmds| == 0 then Session(h, 0)
    else
      var o := Perform(h, cmds[0]);
      var rest := Run(o.after, cmds[1..]);
      Session(rest.history, rest.successes + (if o.result.Ok? then 1 else 0))
  }

  /** Every mutating call keeps the invariant and advances the version by one exactly when it succeeds. */
  lemma {:induction false} RunKeepsValid(h: History, cmds: seq<Command>)
    requires Valid(h)
    ensures Valid(Run(h, cmds).history)
    ensures Run(h, cmds).history.version == h.version + Run(h, cmds).successes
    decreases |cmds|
  {
    if |cmds| > 0 {
      var o := Perform(h, cmds[0]);
      assert Valid(o.after);
      assert o.after.version == h.version + (if o.result.Ok? then 1 else 0);
      RunKeepsValid(o.after, cmds[1..]);
    }
  }

  /**
   * After any sequence of calls on a new history, with n of them successful:
   * the version and the log length are both n, entry i spans [i, i + 1), and
   * replaying the log from the empty text reproduces the text.
   */
  lemma SessionInvariant(cmds: seq<Command>)
    ensures var s := Run(Empty(), cmds);
      && s.history.version == s.successes == |s.history.log|
      && Indexed(s.history.log)
      && Replay(s.history.log, "") == Ok(s.history.text)
  {
    RunKeepsValid(Empty(), cmds);
  }
}

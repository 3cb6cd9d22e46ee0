/**
 * The three edit actions of the text history (insert, replace, delete), each
 * tagged with the version interval it moves the text across, and what it means
 * to apply one of them, or a whole list of them, to a text.
 */
module Actions {
  import opened Wrappers

  /** The failure kinds of the text history; text_history.py raises all three as a value error. */
  datatype Error =
    | InvalidPosition   // an action's position or length does not fit the text
    | VersionMismatch   // an action was built against a version other than the current one
    | InvalidRange      // a version window that is negative, reversed or beyond the current version

  /** One edit, spanning the versions `fromVersion` to `toVersion`. */
  datatype Action =
    | Insert(pos: int, content: string, fromVersion: int, toVersion: int)
    | Replace(pos: int, content: string, fromVersion: int, toVersion: int)
    | Delete(pos: int, length: nat, fromVersion: int, toVersion: int)

  function Min(a: int, b: int): int { if a <= b then a else b }

  function Max(a: int, b: int): int { if a >= b then a else b }

  /** Inserts `content` before index `pos` of `t`. */
  function ApplyInsert(pos: int, content: string, t: string): (r: Result<string, Error>)
    ensures r.Err? <==> pos < 0 || pos > |t|
    ensures r.Err? ==> r.error == InvalidPosition
    ensures r.Ok? ==>
      && |r.value| == |t| + |content|
      && r.value[..pos] == t[..pos]
      && r.value[pos..pos + |content|] == content
      && r.value[pos + |content|..] == t[pos..]
  {
    if pos > |t| || pos < 0 then Err(InvalidPosition)
    else Ok(t[..pos] + content + t[pos..])
  }

  /**
   * Overwrites `t` from `pos` on with `content`. When the content reaches or
   * passes the end of `t` the old tail is dropped; otherwise the characters
   * after the overwritten window are kept.
   */
  function ApplyReplace(pos: int, content: string, t: string): (r: Result<string, Error>)
    ensures r.Err? <==> pos < 0 || pos > |t|
    ensures r.Err? ==> r.error == InvalidPosition
    ensures r.Ok? ==>
      && |r.value| == Max(|t|, pos + |content|)
      && r.value[..pos] == t[..pos]
      && r.value[pos..pos + |content|] == content
      && r.value[pos + |content|..] == t[Min(pos + |content|, |t|)..]
  {
    if pos > |t| || pos < 0 then Err(InvalidPosition)
    else
      var endIdx := pos + |content|;
      if endIdx >= |t| then Ok(t[..pos] + content)
      else Ok(t[..pos] + content + t[endIdx..])
  }

  /** Removes the `length` characters of `t` starting at `pos`. */
  function ApplyDelete(pos: int, length: nat, t: string): (r: Result<string, Error>)
    ensures r.Err? <==> pos < 0 || pos + length > |t|
    ensures r.Err? ==> r.error == InvalidPosition
    ensures r.Ok? ==>
      && |r.value| == |t| - length
      && r.value[..pos] == t[..pos]
      && r.value[pos..] == t[pos + length..]
  {
    if pos + length > |t| || pos < 0 then Err(InvalidPosition)
    else Ok(t[..pos] + t[pos + length..])
  }

  /** Applies one action to `t`, dispatching on its kind. */
  function Apply(a: Action, t: string): (r: Result<string, Error>)
    ensures r.Err? ==> r.error == InvalidPosition
    ensures r.Ok? <==> 0 <= a.pos && (if a.Delete? then a.pos + a.length <= |t| else a.pos <= |t|)
  {
    match a
    case Insert(pos, content, _, _) => ApplyInsert(pos, content, t)
    case Replace(pos, content, _, _) => ApplyReplace(pos, content, t)
    case Delete(pos, length, _, _) => ApplyDelete(pos, length, t)
  }

  /** Applies `a` to the text held by `r`, or passes `r`'s failure on. */
  function Then(r: Result<string, Error>, a: Action): Result<string, Error> {
    match r
    case Err(e) => Err(e)
    case Ok(s) => Apply(a, s)
  }

  /** Applies `log` to `t` in order; the first failing action decides the failure. */
  function Replay(log: seq<Action>, t: string): Result<string, Error>
    decreases |log|
  {
    if |log| == 0 then Ok(t)
    else Then(Replay(log[..|log| - 1], t), log[|log| - 1])
  }

  // ----- Properties of single actions -----

  /** Replace's two branches are one rule: keep the prefix, write the content, keep whatever of the old text lies past it. */
  lemma ReplaceIsSplice(pos: int, content: string, t: string)
    requires 0 <= pos <= |t|
    ensures ApplyReplace(pos, content, t) == Ok(t[..pos] + content + t[Min(pos + |content|, |t|)..])
  {
    var prefix := t[..pos] + content;
    if pos + |content| >= |t| {
      assert t[Min(pos + |content|, |t|)..] == [];
      assert prefix + [] == prefix;
    }
  }

  /** When the content ends exactly at the end of the text, truncating and splicing give the same string. */
  lemma ReplaceExactFit(pos: int, content: string, t: string)
    requires 0 <= pos && pos + |content| == |t|
    ensures ApplyReplace(pos, content, t) == Ok(t[..pos] + content + t[pos + |content|..])
    ensures ApplyReplace(pos, content, t) == Ok(t[..pos] + content)
  {
    var prefix := t[..pos] + content;
    assert t[pos + |content|..] == [];
    assert prefix + [] == prefix;
  }

  /** Replacing at the end of the text appends, exactly as inserting there does. */
  lemma ReplaceAtEndAppends(content: string, t: string)
    ensures ApplyReplace(|t|, content, t) == Ok(t + content)
    ensures ApplyInsert(|t|, content, t) == Ok(t + content)
  {
    assert t[..|t|] == t;
    assert t[|t|..] == [];
    assert t + content + [] == t + content;
  }

  /** Deleting nothing leaves any text unchanged, wherever the position lies inside it. */
  lemma DeleteNothing(pos: int, t: string)
    requires 0 <= pos <= |t|
    ensures ApplyDelete(pos, 0, t) == Ok(t)
  {
    assert t[..pos] + t[pos..] == t;
  }

  /** Deleting what was just inserted restores the original text. */
  lemma InsertThenDelete(pos: int, content: string, t: string)
    requires ApplyInsert(pos, content, t).Ok?
    ensures ApplyDelete(pos, |content|, ApplyInsert(pos, content, t).value) == Ok(t)
  {
    var s := ApplyInsert(pos, content, t).value;
    assert s[..pos] + s[pos + |content|..] == t[..pos] + t[pos..];
    assert t[..pos] + t[pos..] == t;
  }

  /** Writing back the characters a fitting replace overwrote restores the original text. */
  lemma ReplaceThenRestore(pos: int, content: string, t: string)
    requires 0 <= pos && pos + |content| <= |t|
    ensures ApplyReplace(pos, t[pos..pos + |content|], ApplyReplace(pos, content, t).value) == Ok(t)
  {
    var s := ApplyReplace(pos, content, t).value;
    var orig := t[pos..pos + |content|];
    ReplaceIsSplice(pos, orig, s);
    assert s[..pos] == t[..pos];
    assert s[Min(pos + |orig|, |s|)..] == t[pos + |content|..];
    assert t[..pos] + orig + t[pos + |content|..] == t;
  }

  /** Two back-to-back inserts act as one insert of the joined content at the first position. */
  lemma InsertMergeSound(pos: int, c1: string, c2: string, t: string)
    ensures ApplyInsert(pos, c1 + c2, t) ==
      (match ApplyInsert(pos, c1, t)
       case Err(e) => Err(e)
       case Ok(s) => ApplyInsert(pos + |c1|, c2, s))
  {
    if 0 <= pos <= |t| {
      var s := ApplyInsert(pos, c1, t).value;
      var u := ApplyInsert(pos + |c1|, c2, s).value;
      assert u[..pos] == s[..pos];
      assert u == t[..pos] + (c1 + c2) + t[pos..] by {
        assert u[..pos + |c1|] == s[..pos + |c1|] == t[..pos] + c1;
        assert u[pos + |c1| + |c2|..] == s[pos + |c1|..] == t[pos..];
        assert u == u[..pos + |c1|] + u[pos + |c1|..pos + |c1| + |c2|] + u[pos + |c1| + |c2|..];
      }
    }
  }

  /** Two deletes at the same position act as one delete of the summed length. */
  lemma DeleteMergeSound(pos: int, l1: nat, l2: nat, t: string)
    ensures ApplyDelete(pos, l1 + l2, t) ==
      (match ApplyDelete(pos, l1, t)
       case Err(e) => Err(e)
       case Ok(s) => ApplyDelete(pos, l2, s))
  {
    if 0 <= pos && pos + l1 + l2 <= |t| {
      var s := ApplyDelete(pos, l1, t).value;
      var u := ApplyDelete(pos, l2, s).value;
      assert u == t[..pos] + t[pos + l1 + l2..] by {
        assert u[..pos] == s[..pos] == t[..pos];
        assert u[pos..] == s[pos + l2..] == t[pos + l1 + l2..];
        assert u == u[..pos] + u[pos..];
      }
    }
  }

  // ----- Properties of replaying a list -----

  /** Replaying a concatenation replays the first part, then the second part on its result. */
  lemma {:induction false} ReplayAppend(xs: seq<Action>, ys: seq<Action>, t: string)
    ensures Replay(xs + ys, t) ==
      (match Replay(xs, t)
       case Err(e) => Err(e)
       case Ok(s) => Replay(ys, s))
    decreases |ys|
  {
    if |ys| == 0 {
      assert xs + ys == xs;
    } else {
      var init := ys[..|ys| - 1];
      assert (xs + ys)[..|xs + ys| - 1] == xs + init;
      ReplayAppend(xs, init, t);
    }
  }

  /** If a whole log replays, so does each of its prefixes. */
  lemma ReplayPrefix(xs: seq<Action>, i: nat, t: string)
    requires i <= |xs|
    requires Replay(xs, t).Ok?
    ensures Replay(xs[..i], t).Ok?
  {
    assert xs == xs[..i] + xs[i..];
    ReplayAppend(xs[..i], xs[i..], t);
  }
}

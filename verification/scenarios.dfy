/** Concrete sessions that pin down the documented behaviour of the text history. */
module Scenarios {
  import opened Wrappers
  import opened Actions
  import opened Compaction
  import opened TextHistory

  /** Replace truncates when the content reaches the end, and splices when it fits inside. */
  lemma ReplaceOnHello()
    ensures ApplyReplace(4, "XY", "hello") == Ok("hellXY")
    ensures ApplyReplace(2, "Z", "hello") == Ok("heZlo")
  {
    assert "hello"[..4] + "XY" == "hellXY";
    assert "hello"[..2] + "Z" + "hello"[3..] == "heZlo";
  }

  /** A delete running past the end of the text is refused and leaves the history as it was. */
  lemma DeletePastEnd(h: History)
    requires |h.text| == 5
    ensures DeleteText(h, 3, 10) == Outcome(h, Err(InvalidPosition))
  {
  }

  /** An action built against a stale version is refused. */
  lemma StaleVersionRefused(h: History, a: Action)
    requires a.fromVersion != h.version
    ensures ApplyAction(h, a) == Outcome(h, Err(VersionMismatch))
  {
  }

  /** Typing "a", "b", "c" at a moving cursor logs three one-character inserts, one version each. */
  lemma TypingSession()
    ensures InsertText(Empty(), "a", Some(0)).after
         == History("a", 1, [Action.Insert(0, "a", 0, 1)])
    ensures InsertText(History("a", 1, [Action.Insert(0, "a", 0, 1)]), "b", Some(1)).after
         == History("ab", 2, [Action.Insert(0, "a", 0, 1), Action.Insert(1, "b", 1, 2)])
    ensures InsertText(History("ab", 2, [Action.Insert(0, "a", 0, 1), Action.Insert(1, "b", 1, 2)]), "c", Some(2)).after
         == History("abc", 3, [Action.Insert(0, "a", 0, 1), Action.Insert(1, "b", 1, 2), Action.Insert(2, "c", 2, 3)])
  {
    var i0 := Action.Insert(0, "a", 0, 1);
    var i1 := Action.Insert(1, "b", 1, 2);
    var i2 := Action.Insert(2, "c", 2, 3);
    assert InsertText(Empty(), "a", Some(0)).after == History("a", 1, [i0]) by {
      InsertCommits(Empty(), "a", 0);
      assert ""[..0] + "a" + ""[0..] == "a";
    }
    assert InsertText(History("a", 1, [i0]), "b", Some(1)).after == History("ab", 2, [i0, i1]) by {
      InsertCommits(History("a", 1, [i0]), "b", 1);
      assert "a"[..1] + "b" + "a"[1..] == "ab";
      assert [i0] + [i1] == [i0, i1];
    }
    assert InsertText(History("ab", 2, [i0, i1]), "c", Some(2)).after == History("abc", 3, [i0, i1, i2]) by {
      InsertCommits(History("ab", 2, [i0, i1]), "c", 2);
      assert "ab"[..2] + "c" + "ab"[2..] == "abc";
      assert [i0, i1] + [i2] == [i0, i1, i2];
    }
  }

  /** The typing session's log compacts into one insert of "abc" at 0 spanning versions 0 to 3. */
  lemma TypingCompacts()
    ensures Compact([Action.Insert(0, "a", 0, 1), Action.Insert(1, "b", 1, 2), Action.Insert(2, "c", 2, 3)])
         == [Action.Insert(0, "abc", 0, 3)]
  {
    var xs := [Action.Insert(0, "a", 0, 1), Action.Insert(1, "b", 1, 2), Action.Insert(2, "c", 2, 3)];
    assert xs[..2][..1] == xs[..1] == [xs[0]];
    assert Compact(xs[..1]) == [xs[0]];
    assert Compact(xs[..2]) == OptimizeStep([xs[0]], xs[1]);
    assert "a" + "b" == "ab" && "ab" + "c" == "abc";
    assert Compact(xs[..2]) == [Action.Insert(0, "ab", 0, 2)];
    assert Compact(xs) == OptimizeStep([Action.Insert(0, "ab", 0, 2)], xs[2]);
  }

  /** Two deletes at the same position compact into one delete of the summed length. */
  lemma RepeatedDeleteCompacts()
    ensures Compact([Action.Delete(0, 1, 1, 2), Action.Delete(0, 1, 2, 3)]) == [Action.Delete(0, 2, 1, 3)]
  {
    var xs := [Action.Delete(0, 1, 1, 2), Action.Delete(0, 1, 2, 3)];
    assert xs[..1] == [xs[0]];
    assert Compact(xs[..1]) == [xs[0]];
    assert Compact(xs) == OptimizeStep([xs[0]], xs[1]);
  }

  /** Inserts that are not back to back stay separate. */
  lemma SeparateInsertsStay()
    ensures Compact([Action.Insert(0, "a", 0, 1), Action.Insert(0, "b", 1, 2)])
         == [Action.Insert(0, "a", 0, 1), Action.Insert(0, "b", 1, 2)]
  {
    var xs := [Action.Insert(0, "a", 0, 1), Action.Insert(0, "b", 1, 2)];
    assert xs[..1] == [xs[0]];
    assert Compact(xs[..1]) == [xs[0]];
    assert !Mergeable(xs[0], xs[1]);
    assert Compact(xs) == OptimizeStep([xs[0]], xs[1]);
  }

  /** Replaces are never folded, even when the second starts where the first one's content ends. */
  lemma ReplacesStay()
    ensures Compact([Action.Replace(0, "a", 0, 1), Action.Replace(1, "b", 1, 2)])
         == [Action.Replace(0, "a", 0, 1), Action.Replace(1, "b", 1, 2)]
  {
    var xs := [Action.Replace(0, "a", 0, 1), Action.Replace(1, "b", 1, 2)];
    assert xs[..1] == [xs[0]];
    assert Compact(xs[..1]) == [xs[0]];
    assert Compact(xs) == OptimizeStep([xs[0]], xs[1]);
  }

  /** A reversed window and a window beyond the current version are both refused. */
  lemma BadWindowsRefused(h: History)
    requires h.version <= 3
    ensures GetActions(h, Some(5), Some(2)) == Err(InvalidRange)
    ensures GetActions(h, None, Some(1000)) == Err(InvalidRange)
  {
  }
}

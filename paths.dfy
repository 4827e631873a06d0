/**
 * Node ids are paths: the short ids of a node's ancestors and of the node
 * itself, each preceded by the separator, so the root's id is "" and a child
 * of the root with short id "3" has id "/3". This module models the string
 * operations the store uses on them: JavaScript's `split` and `join` on the
 * separator, and the short id and parent id derived from them.
 */
module Paths {

  /** `TreeData.PATH_SEPARATOR`. */
  const Separator: char := '/'

  /** A short id that can stand as one segment of a path. */
  predicate IsSegment(k: string) {
    |k| > 0 && Separator !in k
  }

  /** `s.split("/")`: the pieces between separators; n separators give n + 1 pieces. */
  function Split(s: string): (r: seq<string>)
    ensures |r| >= 1
    decreases |s|
  {
    if |s| == 0 then [""]
    else
      var init := Split(s[..|s| - 1]);
      var c := s[|s| - 1];
      if c == Separator then init + [""]
      else init[..|init| - 1] + [init[|init| - 1] + [c]]
  }

  /** No piece of a split holds a separator. */
  lemma {:induction false} SplitPieces(s: string)
    ensures forall i :: 0 <= i < |Split(s)| ==> Separator !in Split(s)[i]
    decreases |s|
  {
    if |s| > 0 {
      var init := Split(s[..|s| - 1]);
      SplitPieces(s[..|s| - 1]);
      var r := Split(s);
      if s[|s| - 1] != Separator {
        forall i | 0 <= i < |r| ensures Separator !in r[i] {
          if i < |init| - 1 {
            assert r[i] == init[i];
          }
        }
      }
    }
  }

  /** `segs.join("/")`: the pieces in order, with a separator between each two. */
  function Join(segs: seq<string>): (r: string)
    ensures |segs| >= 1 ==> |segs[0]| <= |r| && r[..|segs[0]|] == segs[0]
    ensures |segs| >= 2 ==> Separator in r
    decreases |segs|
  {
    if |segs| == 0 then ""
    else if |segs| == 1 then segs[0]
    else Join(segs[..|segs| - 1]) + [Separator] + segs[|segs| - 1]
  }

  /** `getShortId`: the last piece of the id, which holds no separator. */
  function ShortId(id: string): (r: string)
    ensures Separator !in r
  {
    var segs := Split(id);
    SplitPieces(id);
    segs[|segs| - 1]
  }

  /** `getNodeParentId`: every piece but the last, joined again; "" for an id without separator. */
  function ParentId(id: string): (r: string)
    ensures Separator !in id ==> r == ""
  {
    var segs := Split(id);
    assert Separator !in id ==> segs == [id] by {
      if Separator !in id {
        SplitNoSeparator(id);
      }
    }
    Join(segs[..|segs| - 1])
  }

  /** Joining one more piece puts a separator in front of it. */
  lemma JoinAppend(segs: seq<string>, k: string)
    requires |segs| >= 1
    ensures Join(segs + [k]) == Join(segs) + [Separator] + k
  {
    assert (segs + [k])[..|segs|] == segs;
  }

  /** Extending the last piece extends the joined string. */
  lemma JoinExtendLast(front: seq<string>, last: string, c: char)
    ensures Join(front + [last + [c]]) == Join(front + [last]) + [c]
  {
    if |front| == 0 {
      assert front + [last + [c]] == [last + [c]];
      assert front + [last] == [last];
    } else {
      JoinAppend(front, last + [c]);
      JoinAppend(front, last);
    }
  }

  /** One more character keeps `Join` undoing `Split`. */
  lemma JoinSplitSnoc(t: string, c: char)
    requires Join(Split(t)) == t
    ensures Join(Split(t + [c])) == t + [c]
  {
    var init := Split(t);
    assert (t + [c])[..|t|] == t;
    if c == Separator {
      JoinAppend(init, "");
      assert t + [Separator] + "" == t + [c];
    } else {
      var front := init[..|init| - 1];
      assert front + [init[|init| - 1]] == init;
      JoinExtendLast(front, init[|init| - 1], c);
    }
  }

  /** A non-empty string is its front and its last character. */
  lemma Snoc(s: string)
    requires |s| > 0
    ensures s == s[..|s| - 1] + [s[|s| - 1]]
  {
  }

  /** Joining the pieces of a string gives the string back. */
  lemma {:induction false} JoinSplit(s: string)
    ensures Join(Split(s)) == s
    decreases |s|
  {
    if |s| > 0 {
      JoinSplit(s[..|s| - 1]);
      JoinSplitSnoc(s[..|s| - 1], s[|s| - 1]);
      Snoc(s);
    }
  }

  /** A string without separator is a single piece. */
  lemma {:induction false} SplitNoSeparator(s: string)
    requires Separator !in s
    ensures Split(s) == [s]
    decreases |s|
  {
    if |s| > 0 {
      assert Separator !in s[..|s| - 1];
      SplitNoSeparator(s[..|s| - 1]);
      assert s[..|s| - 1] + [s[|s| - 1]] == s;
    }
  }

  /** A string with a separator has at least two pieces. */
  lemma {:induction false} SplitWithSeparator(s: string)
    requires Separator in s
    ensures |Split(s)| >= 2
    decreases |s|
  {
    if s[|s| - 1] != Separator {
      assert Separator in s[..|s| - 1] by {
        var i :| 0 <= i < |s| && s[i] == Separator;
        assert s[..|s| - 1][i] == Separator;
      }
      SplitWithSeparator(s[..|s| - 1]);
    }
  }

  /** Appending a separator and a separator-free piece appends one piece. */
  lemma {:induction false} SplitAppend(s: string, k: string)
    requires Separator !in k
    ensures Split(s + [Separator] + k) == Split(s) + [k]
    decreases |k|
  {
    var full := s + [Separator] + k;
    if |k| == 0 {
      assert full[..|full| - 1] == s;
    } else {
      var k' := k[..|k| - 1];
      assert full[..|full| - 1] == s + [Separator] + k';
      assert Separator !in k';
      SplitAppend(s, k');
      assert k' + [k[|k| - 1]] == k;
    }
  }

  /** Splitting a join gives the pieces back (the converse of JoinSplit). */
  lemma {:induction false} SplitJoin(segs: seq<string>)
    requires |segs| >= 1
    requires forall i :: 0 <= i < |segs| ==> Separator !in segs[i]
    ensures Split(Join(segs)) == segs
    decreases |segs|
  {
    if |segs| == 1 {
      SplitNoSeparator(segs[0]);
    } else {
      var init := segs[..|segs| - 1];
      SplitJoin(init);
      SplitAppend(Join(init), segs[|segs| - 1]);
      assert init + [segs[|segs| - 1]] == segs;
    }
  }

  /** For the id of a child, the short id is the child's key and the parent id is the parent's id. */
  lemma ChildIdParts(parent: string, k: string)
    requires Separator !in k
    ensures ShortId(parent + [Separator] + k) == k
    ensures ParentId(parent + [Separator] + k) == parent
  {
    SplitAppend(parent, k);
    var segs := Split(parent + [Separator] + k);
    assert segs[..|segs| - 1] == Split(parent);
    JoinSplit(parent);
  }

  /**
   * The short id is the separator-free tail of the id; an id with a separator
   * is its parent id, the separator and its short id, and an id without one
   * has the parent id "" (the root's id, whose short id is "" as well).
   */
  lemma ShortIdIsLastSegment(id: string)
    ensures Separator !in ShortId(id)
    ensures |ShortId(id)| <= |id| && id[|id| - |ShortId(id)|..] == ShortId(id)
    ensures Separator in id ==> ParentId(id) + [Separator] + ShortId(id) == id
    ensures Separator !in id ==> ShortId(id) == id && ParentId(id) == ""
  {
    var segs := Split(id);
    SplitPieces(id);
    if Separator in id {
      SplitWithSeparator(id);
      JoinSplit(id);
      assert segs[..|segs| - 2] == segs[..|segs| - 1][..|segs| - 2];
      assert Join(segs) == Join(segs[..|segs| - 1]) + [Separator] + segs[|segs| - 1];
    } else {
      SplitNoSeparator(id);
    }
  }

}

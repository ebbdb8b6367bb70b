/** `buildIndex` in content.js: classify every row in document order and
    give each comment the id of its top-level ancestor, found with a cursor
    rather than parent links (the page exposes only indentation). */
module ThreadIndex {
  import opened Wrappers
  import opened Classify

  /** Position `j` holds the nearest top-level comment at or before `i`. */
  ghost predicate TopAncestor(cs: seq<Comment>, i: int, j: int)
  {
    && 0 <= j <= i < |cs|
    && IsTopLevel(cs[j])
    && forall k :: j < k <= i ==> !IsTopLevel(cs[k])
  }

  /** The comment at `i` carries the id of its nearest preceding-or-self
      top-level comment, and null when there is none. */
  ghost predicate TopIdOk(cs: seq<Comment>, i: int)
    requires 0 <= i < |cs|
  {
    match cs[i].topId
    case None => forall j :: 0 <= j <= i ==> !IsTopLevel(cs[j])
    case Some(t) => exists j :: TopAncestor(cs, i, j) && cs[j].id == t
  }

  /** Every comment of the thread carries its correct top-level id. */
  ghost predicate Indexed(cs: seq<Comment>)
  {
    forall i :: 0 <= i < |cs| ==> TopIdOk(cs, i)
  }

  /** Appending a comment does not change what earlier comments' ids mean. */
  lemma TopIdOkExtend(cs: seq<Comment>, c: Comment)
    requires forall k :: 0 <= k < |cs| ==> TopIdOk(cs, k)
    ensures forall k :: 0 <= k < |cs| ==> TopIdOk(cs + [c], k)
  {
    var cs' := cs + [c];
    assert forall j :: 0 <= j < |cs| ==> cs'[j] == cs[j];
    forall k | 0 <= k < |cs| ensures TopIdOk(cs', k) {
      assert cs'[k] == cs[k];
      assert TopIdOk(cs, k);
      match cs[k].topId
      case None =>
      case Some(t) =>
        var j :| TopAncestor(cs, k, j) && cs[j].id == t;
        assert TopAncestor(cs', k, j);
    }
  }

  /** The state of the cursor after the first `|cs|` comments: `last` is
      the position of the latest top-level comment so far, -1 if none. */
  ghost predicate CursorOk(cs: seq<Comment>, cursor: Option<string>, last: int)
  {
    && -1 <= last < |cs|
    && (last == -1 <==> cursor.None?)
    && (last == -1 ==> forall k :: 0 <= k < |cs| ==> !IsTopLevel(cs[k]))
    && (last >= 0 ==> IsTopLevel(cs[last]) && cursor == Some(cs[last].id))
    && (last >= 0 ==> forall k :: last < k < |cs| ==> !IsTopLevel(cs[k]))
  }

  /** One turn of the cursor loop keeps every stamped id correct. */
  lemma StampStep(cs: seq<Comment>, cursor: Option<string>, last: int, c: Comment)
    requires forall k :: 0 <= k < |cs| ==> TopIdOk(cs, k)
    requires CursorOk(cs, cursor, last)
    ensures var cursor' := if IsTopLevel(c) then Some(c.id) else cursor;
            var last' := if IsTopLevel(c) then |cs| else last;
            var cs' := cs + [c.(topId := cursor')];
            && (forall k :: 0 <= k < |cs'| ==> TopIdOk(cs', k))
            && CursorOk(cs', cursor', last')
  {
    var cursor' := if IsTopLevel(c) then Some(c.id) else cursor;
    var last' := if IsTopLevel(c) then |cs| else last;
    var c' := c.(topId := cursor');
    var cs' := cs + [c'];
    TopIdOkExtend(cs, c');
    assert forall j :: 0 <= j < |cs| ==> cs'[j] == cs[j];
    assert TopIdOk(cs', |cs|) by {
      if last' >= 0 {
        assert TopAncestor(cs', |cs|, last');
      }
    }
  }

  /** The loop of `buildIndex`: each comment, otherwise unchanged, is
      stamped with the current top-level cursor after the cursor has moved
      onto it if it is itself top-level. */
  method AssignTopIds(comments: seq<Comment>) returns (cs: seq<Comment>)
    ensures |cs| == |comments|
    ensures forall i :: 0 <= i < |cs| ==> cs[i] == comments[i].(topId := cs[i].topId)
    ensures Indexed(cs)
    ensures forall i :: 0 <= i < |cs| && IsTopLevel(cs[i]) ==> cs[i].topId == Some(cs[i].id)
  {
    cs := [];
    var cursor: Option<string> := None;
    ghost var last := -1;
    for i := 0 to |comments|
      invariant |cs| == i
      invariant forall k :: 0 <= k < i ==> cs[k] == comments[k].(topId := cs[k].topId)
      invariant forall k :: 0 <= k < i ==> TopIdOk(cs, k)
      invariant forall k :: 0 <= k < i && IsTopLevel(cs[k]) ==> cs[k].topId == Some(cs[k].id)
      invariant CursorOk(cs, cursor, last)
    {
      var c := comments[i];
      StampStep(cs, cursor, last, c);
      if IsTopLevel(c) {
        cursor := Some(c.id);
        last := i;
      }
      cs := cs + [c.(topId := cursor)];
    }
  }

  /** `buildIndex`: classify every row (`commentObj`), then stamp top-level ids. */
  method BuildIndex(rows: seq<Row>, m: Matcher) returns (cs: seq<Comment>)
    ensures |cs| == |rows|
    ensures forall i :: 0 <= i < |rows| ==> cs[i].(topId := None) == CommentObj(rows[i], m)
    ensures Indexed(cs)
  {
    var classified := seq(|rows|, i requires 0 <= i < |rows| => CommentObj(rows[i], m));
    cs := AssignTopIds(classified);
  }
}

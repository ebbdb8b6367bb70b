/** The visibility pass of `applyFilters` in content.js (ancestor-gated
    replies) and its `matched/total` counter. */
module Visibility {
  import opened Classify
  import opened Filter
  import opened ThreadIndex
  import opened Seqs

  /** Some top-level comment with id `x` passes the filter. */
  ghost predicate PassingTopId(cs: seq<Comment>, p: Prefs, x: string)
  {
    exists j :: 0 <= j < |cs| && IsTopLevel(cs[j]) && MatchTopLevel(cs[j], p) && cs[j].id == x
  }

  /** Per position: is the comment top-level and does it pass? */
  function Verdicts(cs: seq<Comment>, p: Prefs): seq<bool>
  {
    seq(|cs|, i requires 0 <= i < |cs| => IsTopLevel(cs[i]) && MatchTopLevel(cs[i], p))
  }

  /** Per position: is the comment top-level? */
  function Tops(cs: seq<Comment>): seq<bool>
  {
    seq(|cs|, i requires 0 <= i < |cs| => IsTopLevel(cs[i]))
  }

  /** The ids at the marked positions. */
  function IdsWhere(cs: seq<Comment>, ok: seq<bool>): (ids: set<string>)
    requires |ok| == |cs|
    ensures forall x :: x in ids <==> exists j :: 0 <= j < |cs| && ok[j] && cs[j].id == x
  {
    if |cs| == 0 then {}
    else
      var n := |cs| - 1;
      var ids := IdsWhere(cs[..n], ok[..n]) + (if ok[n] then {cs[n].id} else {});
      assert forall j :: 0 <= j < n ==> cs[..n][j] == cs[j] && ok[..n][j] == ok[j];
      ids
  }

  /** Taking one more position adds its id and its count when marked. */
  lemma Extend(cs: seq<Comment>, ok: seq<bool>, i: int)
    requires |ok| == |cs| && 0 <= i < |cs|
    ensures IdsWhere(cs[..i + 1], ok[..i + 1]) == IdsWhere(cs[..i], ok[..i]) + (if ok[i] then {cs[i].id} else {})
    ensures CountTrue(ok[..i + 1]) == CountTrue(ok[..i]) + (if ok[i] then 1 else 0)
  {
    assert cs[..i + 1][..i] == cs[..i];
    assert ok[..i + 1][..i] == ok[..i];
  }

  /** The counter's denominator: how many top-level comments there are. */
  function CountTop(cs: seq<Comment>): nat
  {
    CountTrue(Tops(cs))
  }

  /** How many top-level comments pass the filter. */
  function CountMatching(cs: seq<Comment>, p: Prefs): nat
  {
    CountTrue(Verdicts(cs, p))
  }

  /** `visibleTop`: the ids of the top-level comments that pass. */
  function VisibleTop(cs: seq<Comment>, p: Prefs): (ids: set<string>)
    ensures forall x :: x in ids <==> PassingTopId(cs, p, x)
  {
    IdsWhere(cs, Verdicts(cs, p))
  }

  /** The show/hide decision for one comment given `visibleTop`: a
      top-level comment by its own id, a reply by its top-level ancestor's
      id and only while top-level-only is off. */
  function Shown(c: Comment, visibleTop: set<string>, topOnly: bool): (r: bool)
    ensures topOnly ==> (r <==> IsTopLevel(c) && c.id in visibleTop)
    ensures r && !IsTopLevel(c) ==> c.topId.Some? && c.topId.value in visibleTop
    ensures visibleTop == {} ==> !r
  {
    if IsTopLevel(c) then c.id in visibleTop
    else
      var parentVisible := c.topId.Some? && c.topId.value in visibleTop;
      parentVisible && !topOnly
  }

  /** The first pass of `applyFilters`: collect the ids of the passing
      top-level comments and count the top-level ones. */
  method CollectVisibleTop(cs: seq<Comment>, p: Prefs) returns (visibleTop: set<string>, total: nat)
    ensures visibleTop == VisibleTop(cs, p) && total == CountTop(cs)
  {
    ghost var ok := Verdicts(cs, p);
    ghost var top := Tops(cs);
    visibleTop := {};
    total := 0;
    for i := 0 to |cs|
      invariant visibleTop == IdsWhere(cs[..i], ok[..i])
      invariant total == CountTrue(top[..i])
    {
      Extend(cs, ok, i);
      Extend(cs, top, i);
      var c := cs[i];
      if IsTopLevel(c) {
        total := total + 1;
        if MatchTopLevel(c, p) {
          visibleTop := visibleTop + {c.id};
        }
      }
    }
    assert cs[..|cs|] == cs && ok[..|cs|] == ok && top[..|cs|] == top;
  }

  /** The second pass of `applyFilters`: decide every comment. */
  method DecideAll(cs: seq<Comment>, visibleTop: set<string>, topOnly: bool) returns (show: seq<bool>)
    ensures |show| == |cs|
    ensures forall i :: 0 <= i < |cs| && IsTopLevel(cs[i]) ==> (show[i] <==> cs[i].id in visibleTop)
    ensures forall i :: 0 <= i < |cs| && !IsTopLevel(cs[i]) ==>
              (show[i] <==> !topOnly && cs[i].topId.Some? && cs[i].topId.value in visibleTop)
  {
    show := [];
    for i := 0 to |cs|
      invariant |show| == i
      invariant forall k :: 0 <= k < i ==> show[k] == Shown(cs[k], visibleTop, topOnly)
    {
      var c := cs[i];
      var s: bool;
      if IsTopLevel(c) {
        s := c.id in visibleTop;
      } else {
        var parentVisible := c.topId.Some? && c.topId.value in visibleTop;
        s := parentVisible && !topOnly;
      }
      show := show + [s];
    }
  }

  /** `applyFilters` without the page. A top-level comment is shown iff a
      passing top-level comment has its id; a reply iff top-level-only is
      off and a passing top-level comment has its `topId`. The counter
      reads `matched/total`: distinct passing ids over top-level comments. */
  method ApplyFilters(cs: seq<Comment>, p: Prefs) returns (show: seq<bool>, matched: nat, total: nat)
    ensures |show| == |cs|
    ensures forall i :: 0 <= i < |cs| && IsTopLevel(cs[i]) ==>
              (show[i] <==> PassingTopId(cs, p, cs[i].id))
    ensures forall i :: 0 <= i < |cs| && !IsTopLevel(cs[i]) ==>
              (show[i] <==> !p.topLevelOnly && cs[i].topId.Some? && PassingTopId(cs, p, cs[i].topId.value))
    ensures forall i :: 0 <= i < |cs| ==> show[i] == Shown(cs[i], VisibleTop(cs, p), p.topLevelOnly)
    ensures matched == |VisibleTop(cs, p)| && total == CountTop(cs)
    ensures matched <= total
  {
    var visibleTop;
    visibleTop, total := CollectVisibleTop(cs, p);
    show := DecideAll(cs, visibleTop, p.topLevelOnly);
    matched := |visibleTop|;
    CounterBounds(cs, p);
  }

  /** Fewer marks, fewer distinct ids; and a marking implied pointwise by
      another counts no more. */
  lemma {:induction false} CountBounds(cs: seq<Comment>, ok: seq<bool>, top: seq<bool>)
    requires |ok| == |cs| == |top|
    requires forall i :: 0 <= i < |cs| && ok[i] ==> top[i]
    ensures |IdsWhere(cs, ok)| <= CountTrue(ok) <= CountTrue(top)
  {
    if |cs| > 0 {
      var n := |cs| - 1;
      CountBounds(cs[..n], ok[..n], top[..n]);
    }
  }

  /** The counter never claims more matches than there are top-level
      comments: distinct passing ids <= passing comments <= top-level
      comments. */
  lemma CounterBounds(cs: seq<Comment>, p: Prefs)
    ensures |VisibleTop(cs, p)| <= CountMatching(cs, p) <= CountTop(cs)
  {
    CountBounds(cs, Verdicts(cs, p), Tops(cs));
  }

  /** No two top-level comments share an id. */
  ghost predicate DistinctTopIds(cs: seq<Comment>)
  {
    forall i, j :: 0 <= i < j < |cs| && IsTopLevel(cs[i]) && IsTopLevel(cs[j]) ==> cs[i].id != cs[j].id
  }

  lemma {:induction false} CountExact(cs: seq<Comment>, ok: seq<bool>)
    requires |ok| == |cs|
    requires forall i, j :: 0 <= i < j < |cs| && ok[i] && ok[j] ==> cs[i].id != cs[j].id
    ensures |IdsWhere(cs, ok)| == CountTrue(ok)
  {
    if |cs| > 0 {
      var n := |cs| - 1;
      assert forall j :: 0 <= j < n ==> cs[..n][j] == cs[j] && ok[..n][j] == ok[j];
      CountExact(cs[..n], ok[..n]);
      if ok[n] {
        assert cs[n].id !in IdsWhere(cs[..n], ok[..n]);
      }
    }
  }

  /** With distinct top-level ids the numerator is exactly the number of
      passing top-level comments. */
  lemma CounterExact(cs: seq<Comment>, p: Prefs)
    requires DistinctTopIds(cs)
    ensures |VisibleTop(cs, p)| == CountMatching(cs, p)
  {
    CountExact(cs, Verdicts(cs, p));
  }

  /** With distinct top-level ids a top-level comment is shown exactly when
      it passes the filter itself. */
  lemma TopShownIffMatches(cs: seq<Comment>, p: Prefs, i: int)
    requires DistinctTopIds(cs)
    requires 0 <= i < |cs| && IsTopLevel(cs[i])
    ensures Shown(cs[i], VisibleTop(cs, p), p.topLevelOnly) <==> MatchTopLevel(cs[i], p)
  {
    if cs[i].id in VisibleTop(cs, p) {
      var j :| 0 <= j < |cs| && IsTopLevel(cs[j]) && MatchTopLevel(cs[j], p) && cs[j].id == cs[i].id;
      assert j == i;
    }
  }

  /** Ancestor gating on an indexed thread: a reply is shown exactly when
      its top-level ancestor is shown and top-level-only is off, and so,
      when top-level ids are distinct, exactly when that ancestor passes
      the filter. A reply with no top-level comment before it is never
      shown. */
  lemma ReplyGated(cs: seq<Comment>, p: Prefs, i: int)
    requires Indexed(cs)
    requires 0 <= i < |cs| && !IsTopLevel(cs[i])
    ensures forall j :: TopAncestor(cs, i, j) ==>
              (Shown(cs[i], VisibleTop(cs, p), p.topLevelOnly) <==>
               Shown(cs[j], VisibleTop(cs, p), p.topLevelOnly) && !p.topLevelOnly)
    ensures DistinctTopIds(cs) ==>
              forall j :: TopAncestor(cs, i, j) ==>
                (Shown(cs[i], VisibleTop(cs, p), p.topLevelOnly) <==> MatchTopLevel(cs[j], p) && !p.topLevelOnly)
    ensures (forall j :: 0 <= j <= i ==> !IsTopLevel(cs[j])) ==>
              !Shown(cs[i], VisibleTop(cs, p), p.topLevelOnly)
  {
    assert TopIdOk(cs, i);
    forall j | TopAncestor(cs, i, j)
      ensures Shown(cs[i], VisibleTop(cs, p), p.topLevelOnly) <==>
              Shown(cs[j], VisibleTop(cs, p), p.topLevelOnly) && !p.topLevelOnly
    {
      var j' :| TopAncestor(cs, i, j') && cs[j'].id == cs[i].topId.value;
      assert j' == j;
    }
    if DistinctTopIds(cs) {
      forall j | TopAncestor(cs, i, j)
        ensures Shown(cs[j], VisibleTop(cs, p), p.topLevelOnly) <==> MatchTopLevel(cs[j], p)
      {
        TopShownIffMatches(cs, p, j);
      }
    }
  }

  /** With the vacuous filter and top-level-only off, every top-level
      comment and every reply that follows some top-level comment is
      shown. */
  lemma VacuousShowsAll(cs: seq<Comment>, p: Prefs, i: int)
    requires Indexed(cs)
    requires !p.remote && !p.onsite && !p.salary && !p.hideUSOnly && !p.topLevelOnly
    requires forall f: Facet :: p.Selected(f) == []
    requires BlankQuery(p.qInclude) && BlankQuery(p.qExclude)
    requires 0 <= i < |cs|
    requires exists j :: 0 <= j <= i && IsTopLevel(cs[j])
    ensures Shown(cs[i], VisibleTop(cs, p), p.topLevelOnly)
  {
    assert TopIdOk(cs, i);
    if IsTopLevel(cs[i]) {
      VacuousFilterPasses(cs[i], p);
      assert PassingTopId(cs, p, cs[i].id);
    } else {
      var j :| TopAncestor(cs, i, j) && cs[j].id == cs[i].topId.value;
      VacuousFilterPasses(cs[j], p);
      assert PassingTopId(cs, p, cs[j].id);
    }
  }
}

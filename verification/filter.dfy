/** The top-level predicate of the content script (`parseList` and
    `matchTopLevel` in content.js), with the filter settings passed in as
    an explicit value instead of read from the page's controls. */
module Filter {
  import opened Text
  import opened Seqs
  import opened Classify

  /** The filter settings (`prefs`): the raw include/exclude query strings,
      the binary toggles and the checked values of each facet. */
  datatype Prefs = Prefs(
    qInclude: string, qExclude: string,
    remote: bool, onsite: bool, salary: bool,
    topLevelOnly: bool, hideUSOnly: bool,
    stacks: seq<string>, employmentTypes: seq<string>,
    seniorities: seq<string>, roleTypes: seq<string>)
  {
    function Selected(f: Facet): seq<string>
    {
      match f
      case Stacks => stacks
      case EmploymentTypes => employmentTypes
      case Seniorities => seniorities
      case RoleTypes => roleTypes
    }
  }

  /** Every piece trimmed. */
  function TrimEach(pieces: seq<string>): (r: seq<string>)
    ensures |r| == |pieces|
    ensures forall i :: 0 <= i < |r| ==> r[i] == Trim(pieces[i])
  {
    seq(|pieces|, i requires 0 <= i < |pieces| => Trim(pieces[i]))
  }

  /** Per piece: is it non-empty once trimmed? */
  function Kept(pieces: seq<string>): (k: seq<bool>)
    ensures |k| == |pieces|
    ensures forall i :: 0 <= i < |k| ==> k[i] == (Trim(pieces[i]) != "")
  {
    seq(|pieces|, i requires 0 <= i < |pieces| => Trim(pieces[i]) != "")
  }

  /** Trims each piece and keeps the non-empty results, in order: exactly
      the non-empty trimmed pieces survive, none of them empty or padded. */
  function Compact(pieces: seq<string>): (r: seq<string>)
    ensures forall i :: 0 <= i < |r| ==> r[i] != "" && Trimmed(r[i])
    ensures forall t :: t in r <==> t != "" && exists p :: p in pieces && Trim(p) == t
    ensures SubsequenceOf(r, TrimEach(pieces))
    ensures |r| == CountTrue(Kept(pieces))
  {
    CompactedFacts(pieces);
    Compacted(pieces)
  }

  /** The recursion behind Compact, kept free of its contract so that
      proofs by induction over it carry only the facts they use. */
  function Compacted(pieces: seq<string>): seq<string>
  {
    if |pieces| == 0 then []
    else
      var t := Trim(pieces[0]);
      if t != "" then [t] + Compacted(pieces[1..]) else Compacted(pieces[1..])
  }

  lemma {:induction false} CompactedFacts(pieces: seq<string>)
    ensures var r := Compacted(pieces);
            && (forall i :: 0 <= i < |r| ==> r[i] != "" && Trimmed(r[i]))
            && (forall t :: t in r <==> t != "" && exists p :: p in pieces && Trim(p) == t)
            && SubsequenceOf(r, TrimEach(pieces))
            && |r| == CountTrue(Kept(pieces))
    decreases |pieces|
  {
    if |pieces| > 0 {
      CompactedFacts(pieces[1..]);
      var rest := Compacted(pieces[1..]);
      var t := Trim(pieces[0]);
      CompactClean(t, rest);
      CompactMembers(pieces, rest);
      CompactOrder(pieces, rest);
      CompactLength(pieces, rest);
    }
  }

  lemma CompactClean(t: string, rest: seq<string>)
    requires Trimmed(t)
    requires forall i :: 0 <= i < |rest| ==> rest[i] != "" && Trimmed(rest[i])
    ensures var r := if t != "" then [t] + rest else rest;
            forall i :: 0 <= i < |r| ==> r[i] != "" && Trimmed(r[i])
  {
  }

  lemma CompactMembers(pieces: seq<string>, rest: seq<string>)
    requires |pieces| > 0
    requires forall t :: t in rest <==> t != "" && exists p :: p in pieces[1..] && Trim(p) == t
    ensures var t := Trim(pieces[0]);
            var r := if t != "" then [t] + rest else rest;
            forall u :: u in r <==> u != "" && exists p :: p in pieces && Trim(p) == u
  {
    assert forall p :: p in pieces <==> p == pieces[0] || p in pieces[1..];
  }

  lemma CompactOrder(pieces: seq<string>, rest: seq<string>)
    requires |pieces| > 0
    requires SubsequenceOf(rest, TrimEach(pieces[1..]))
    requires forall i :: 0 <= i < |rest| ==> rest[i] != ""
    ensures var t := Trim(pieces[0]);
            var r := if t != "" then [t] + rest else rest;
            SubsequenceOf(r, TrimEach(pieces))
  {
    var t := Trim(pieces[0]);
    var all, tail := TrimEach(pieces), TrimEach(pieces[1..]);
    assert all[0] == t && all[1..] == tail;
    if t != "" {
      var r := [t] + rest;
      assert r[0] == t && r[1..] == rest;
    } else if |rest| > 0 {
      assert rest[0] != all[0];
    }
  }

  lemma CompactLength(pieces: seq<string>, rest: seq<string>)
    requires |pieces| > 0 && |rest| == CountTrue(Kept(pieces[1..]))
    ensures var t := Trim(pieces[0]);
            |if t != "" then [t] + rest else rest| == CountTrue(Kept(pieces))
  {
    var k := Kept(pieces);
    assert k[1..] == Kept(pieces[1..]);
    assert k == [k[0]] + k[1..];
    CountTrueCons(k[0], k[1..]);
  }

  /** Compact keeps every non-empty trimmed piece, repeats included: the
      piece at position i lands at index "non-empty pieces before i". */
  lemma CompactPicks(pieces: seq<string>)
    ensures Picks(Compact(pieces), TrimEach(pieces), Kept(pieces))
  {
    CompactedPicks(pieces);
  }

  lemma {:induction false} CompactedPicks(pieces: seq<string>)
    ensures Picks(Compacted(pieces), TrimEach(pieces), Kept(pieces))
    decreases |pieces|
  {
    if |pieces| > 0 {
      CompactedPicks(pieces[1..]);
      var rest := Compacted(pieces[1..]);
      var all, kept := TrimEach(pieces), Kept(pieces);
      assert all[1..] == TrimEach(pieces[1..]);
      assert kept[1..] == Kept(pieces[1..]);
      PicksCons(all, kept, rest);
    }
  }

  /** `parseList`: the comma-separated terms of `s`, trimmed, empties dropped. */
  function ParseList(s: string): (r: seq<string>)
    ensures forall i :: 0 <= i < |r| ==> r[i] != "" && Trimmed(r[i])
    ensures forall t :: t in r <==> t != "" && exists p :: p in Split(s, ',') && Trim(p) == t
    ensures SubsequenceOf(r, TrimEach(Split(s, ',')))
    ensures |r| == CountTrue(Kept(Split(s, ',')))
  {
    Compact(Split(s, ','))
  }

  /** Every character of a part occurs in the joined text. */
  lemma {:induction false} JoinHoldsParts(parts: seq<string>, sep: char, i: int, ch: char)
    requires 0 <= i < |parts| && ch in parts[i]
    ensures ch in Join(parts, sep)
    decreases |parts|
  {
    if |parts| > 1 && i > 0 {
      JoinHoldsParts(parts[1..], sep, i - 1, ch);
    }
  }

  /** A parsed term is the trim of one of the comma-separated pieces. */
  lemma TermPiece(s: string, t: string) returns (i: nat)
    requires t in ParseList(s)
    ensures i < |Split(s, ',')| && Trim(Split(s, ',')[i]) == t
  {
    var pieces := Split(s, ',');
    var p :| p in pieces && Trim(p) == t;
    i :| 0 <= i < |pieces| && pieces[i] == p;
  }

  /** A parsed term is made of characters of the input and holds no comma. */
  lemma TermCharacters(s: string, t: string, ch: char)
    requires t in ParseList(s) && ch in t
    ensures ch in s && ch != ','
  {
    var pieces := Split(s, ',');
    var i := TermPiece(s, t);
    TrimHolds(pieces[i], ch);
    JoinHoldsParts(pieces, ',', i, ch);
  }

  /** A query made only of commas and whitespace gives no terms. */
  lemma BlankParsesEmpty(s: string)
    requires forall i :: 0 <= i < |s| ==> s[i] == ',' || IsWhitespace(s[i])
    ensures ParseList(s) == []
  {
    if ParseList(s) != [] {
      var t := ParseList(s)[0];
      TermCharacters(s, t, t[0]);
      assert false;
    }
  }

  /** Compact leaves a list of non-empty, unpadded terms as it is. */
  lemma CompactKeeps(terms: seq<string>)
    requires forall i :: 0 <= i < |terms| ==> terms[i] != "" && Trimmed(terms[i])
    ensures Compact(terms) == terms
  {
    CompactedKeeps(terms);
  }

  lemma {:induction false} CompactedKeeps(terms: seq<string>)
    requires forall i :: 0 <= i < |terms| ==> terms[i] != "" && Trimmed(terms[i])
    ensures Compacted(terms) == terms
    decreases |terms|
  {
    if |terms| > 0 {
      var tail := terms[1..];
      assert forall i :: 0 <= i < |tail| ==> tail[i] == terms[i + 1];
      TrimOfTrimmed(terms[0]);
      CompactedKeeps(tail);
      assert [terms[0]] + tail == terms;
    }
  }

  /** Parsing undoes writing the terms out comma-separated: a list of
      non-empty, unpadded, comma-free terms comes back unchanged. */
  lemma ParseJoin(terms: seq<string>)
    requires forall i :: 0 <= i < |terms| ==> terms[i] != "" && Trimmed(terms[i]) && ',' !in terms[i]
    ensures ParseList(Join(terms, ',')) == terms
  {
    if |terms| == 0 {
      assert Split("", ',') == [""];
      assert Trim("") == "";
    } else {
      SplitJoin(terms, ',');
      CompactKeeps(terms);
    }
  }

  /** The include terms: the query lower-cased, then parsed. */
  function IncludeTerms(p: Prefs): seq<string>
  {
    ParseList(Lower(p.qInclude))
  }

  /** The exclude terms: the query lower-cased, then parsed. */
  function ExcludeTerms(p: Prefs): seq<string>
  {
    ParseList(Lower(p.qExclude))
  }

  /** `selected.some(x => tags.includes(x))`. */
  function AnySelected(selected: seq<string>, tags: seq<string>): (b: bool)
    ensures b <==> exists x :: x in selected && x in tags
  {
    if |selected| == 0 then false
    else
      assert forall x :: x in selected <==> x == selected[0] || x in selected[1..];
      selected[0] in tags || AnySelected(selected[1..], tags)
  }

  /** `terms.every(k => text.includes(k))`. */
  function AllIncluded(terms: seq<string>, text: string): (b: bool)
    ensures b <==> forall k :: k in terms ==> IsInfix(k, text)
  {
    if |terms| == 0 then true
    else
      assert forall x :: x in terms <==> x == terms[0] || x in terms[1..];
      Includes(text, terms[0]) && AllIncluded(terms[1..], text)
  }

  /** `terms.some(k => text.includes(k))`. */
  function AnyIncluded(terms: seq<string>, text: string): (b: bool)
    ensures b <==> exists k :: k in terms && IsInfix(k, text)
  {
    if |terms| == 0 then false
    else
      assert forall x :: x in terms <==> x == terms[0] || x in terms[1..];
      Includes(text, terms[0]) || AnyIncluded(terms[1..], text)
  }

  /** A facet selection is ignored when empty and otherwise needs at least
      one selected value among the comment's tags. */
  ghost predicate FacetPasses(selected: seq<string>, tags: seq<string>)
  {
    |selected| == 0 || exists x :: x in selected && x in tags
  }

  /** `matchTopLevel`, in matchTopLevel's order of early rejections. A
      passing comment agrees with every switched-on toggle. */
  function MatchTopLevel(c: Comment, p: Prefs): (ok: bool)
    ensures ok ==> (p.remote ==> c.flags.remote) && (p.onsite ==> c.flags.onsite)
    ensures ok ==> (p.salary ==> c.flags.salary) && (p.hideUSOnly ==> !c.flags.usOnly)
  {
    var inc := IncludeTerms(p);
    var exc := ExcludeTerms(p);
    if p.remote && !c.flags.remote then false
    else if p.onsite && !c.flags.onsite then false
    else if p.salary && !c.flags.salary then false
    else if p.hideUSOnly && c.flags.usOnly then false
    else if |p.stacks| > 0 && !AnySelected(p.stacks, c.flags.stacks) then false
    else if |p.employmentTypes| > 0 && !AnySelected(p.employmentTypes, c.flags.employmentTypes) then false
    else if |p.seniorities| > 0 && !AnySelected(p.seniorities, c.flags.seniorities) then false
    else if |p.roleTypes| > 0 && !AnySelected(p.roleTypes, c.flags.roleTypes) then false
    else if |inc| > 0 && !AllIncluded(inc, c.text) then false
    else if |exc| > 0 && AnyIncluded(exc, c.text) then false
    else true
  }

  /** What the top-level predicate means: a comment passes iff every
      switched-on toggle agrees with its flags (Hide US-only inverted), every
      non-empty facet selection meets its tags, every include term occurs in
      its lower-cased text (AND) and no exclude term does (OR). */
  lemma MatchTopLevelMeaning(c: Comment, p: Prefs)
    ensures MatchTopLevel(c, p) <==>
      && (p.remote ==> c.flags.remote)
      && (p.onsite ==> c.flags.onsite)
      && (p.salary ==> c.flags.salary)
      && (p.hideUSOnly ==> !c.flags.usOnly)
      && (forall f: Facet :: FacetPasses(p.Selected(f), c.flags.Tags(f)))
      && (forall k :: k in IncludeTerms(p) ==> IsInfix(k, c.text))
      && (forall k :: k in ExcludeTerms(p) ==> !IsInfix(k, c.text))
  {
    FacetsCases(c, p);
  }

  lemma FacetsCases(c: Comment, p: Prefs)
    ensures (forall f: Facet :: FacetPasses(p.Selected(f), c.flags.Tags(f))) <==>
      && FacetPasses(p.stacks, c.flags.stacks)
      && FacetPasses(p.employmentTypes, c.flags.employmentTypes)
      && FacetPasses(p.seniorities, c.flags.seniorities)
      && FacetPasses(p.roleTypes, c.flags.roleTypes)
  {
    assert p.Selected(Stacks) == p.stacks && c.flags.Tags(Stacks) == c.flags.stacks;
    assert p.Selected(EmploymentTypes) == p.employmentTypes;
    assert p.Selected(Seniorities) == p.seniorities;
    assert p.Selected(RoleTypes) == p.roleTypes;
    assert c.flags.Tags(EmploymentTypes) == c.flags.employmentTypes;
    assert c.flags.Tags(Seniorities) == c.flags.seniorities;
    assert c.flags.Tags(RoleTypes) == c.flags.roleTypes;
    if && FacetPasses(p.stacks, c.flags.stacks)
       && FacetPasses(p.employmentTypes, c.flags.employmentTypes)
       && FacetPasses(p.seniorities, c.flags.seniorities)
       && FacetPasses(p.roleTypes, c.flags.roleTypes) {
      forall f: Facet ensures FacetPasses(p.Selected(f), c.flags.Tags(f)) {
        match f
        case Stacks =>
        case EmploymentTypes =>
        case Seniorities =>
        case RoleTypes =>
      }
    }
  }

  /** A query made of nothing but commas and whitespace, in either field. */
  predicate BlankQuery(q: string)
  {
    forall i :: 0 <= i < |q| ==> q[i] == ',' || IsWhitespace(q[i])
  }

  /** The vacuous filter: with every toggle off, every facet selection empty
      and blank include/exclude queries, every comment passes. */
  lemma BlankLowerParsesEmpty(q: string)
    requires BlankQuery(q)
    ensures ParseList(Lower(q)) == []
  {
    var l := Lower(q);
    forall i | 0 <= i < |l| ensures l[i] == ',' || IsWhitespace(l[i]) {
      assert !('A' <= q[i] <= 'Z') by {
        assert q[i] == ',' || IsWhitespace(q[i]);
      }
      assert l[i] == q[i];
    }
    BlankParsesEmpty(l);
  }

  lemma VacuousFilterPasses(c: Comment, p: Prefs)
    requires !p.remote && !p.onsite && !p.salary && !p.hideUSOnly
    requires forall f: Facet :: p.Selected(f) == []
    requires BlankQuery(p.qInclude) && BlankQuery(p.qExclude)
    ensures MatchTopLevel(c, p)
  {
    BlankLowerParsesEmpty(p.qInclude);
    BlankLowerParsesEmpty(p.qExclude);
    assert p.Selected(Stacks) == [] && p.Selected(EmploymentTypes) == [];
    assert p.Selected(Seniorities) == [] && p.Selected(RoleTypes) == [];
  }

  lemma LowerFixed(raw: string, ch: char)
    requires ch in Lower(raw)
    ensures LowerChar(ch) == ch
  {
    var j :| 0 <= j < |raw| && Lower(raw)[j] == ch;
  }

  /** A term parsed from a lower-cased query is itself lower-case. */
  lemma ParsedLowerCase(raw: string, k: string)
    requires k in ParseList(Lower(raw))
    ensures Lower(k) == k
  {
    forall i | 0 <= i < |k| ensures Lower(k)[i] == k[i] {
      TermCharacters(Lower(raw), k, k[i]);
      LowerFixed(raw, k[i]);
    }
  }

  /** Both term lists are lower-case, so together with the lower-cased
      comment text the term filters ignore letter case. */
  lemma TermsAreLowerCase(p: Prefs, k: string)
    requires k in IncludeTerms(p) || k in ExcludeTerms(p)
    ensures Lower(k) == k
  {
    if k in IncludeTerms(p) {
      ParsedLowerCase(p.qInclude, k);
    } else {
      ParsedLowerCase(p.qExclude, k);
    }
  }

  /** `p1` is at least as strict as `p2`: each toggle on in `p2` is on in
      `p1`, each non-empty selection of `p2` contains a non-empty selection
      of `p1`, and the terms of `p2` are among those of `p1`. */
  ghost predicate AtLeastAsStrict(p1: Prefs, p2: Prefs)
  {
    && (p2.remote ==> p1.remote) && (p2.onsite ==> p1.onsite)
    && (p2.salary ==> p1.salary) && (p2.hideUSOnly ==> p1.hideUSOnly)
    && (forall f: Facet :: |p2.Selected(f)| == 0 ||
          (|p1.Selected(f)| > 0 && forall x :: x in p1.Selected(f) ==> x in p2.Selected(f)))
    && (forall k :: k in IncludeTerms(p2) ==> k in IncludeTerms(p1))
    && (forall k :: k in ExcludeTerms(p2) ==> k in ExcludeTerms(p1))
  }

  /** Loosening the filter never hides a comment: switching a toggle off,
      widening or clearing a facet selection, or dropping a term keeps every
      passing comment passing. */
  lemma LooserFilterKeeps(c: Comment, p1: Prefs, p2: Prefs)
    requires AtLeastAsStrict(p1, p2)
    requires MatchTopLevel(c, p1)
    ensures MatchTopLevel(c, p2)
  {
    MatchTopLevelMeaning(c, p1);
    MatchTopLevelMeaning(c, p2);
    forall f: Facet ensures FacetPasses(p2.Selected(f), c.flags.Tags(f)) {
      assert FacetPasses(p1.Selected(f), c.flags.Tags(f));
    }
  }
}

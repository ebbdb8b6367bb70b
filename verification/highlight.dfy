/** The escaping step of `highlightMatches` in content.js: each include
    term is turned into a regular-expression source that matches the term
    literally. The HTML rewriting around it is not modelled. */
module Highlight {
  import opened Wrappers
  import Filter

  /** The characters the escaper prefixes with a backslash: `.*+?^${}()|[]\`. */
  predicate IsRegexSpecial(c: char)
  {
    c in ".*+?^${}()|[]\\"
  }

  /** Number of special characters in `s`. */
  function SpecialCount(s: string): nat
  {
    if |s| == 0 then 0 else (if IsRegexSpecial(s[0]) then 1 else 0) + SpecialCount(s[1..])
  }

  /** `term.replace(/[.*+?^${}()|[\]\\]/g, '\\$&')`: each special character
      gets a backslash in front of it, so the result grows by one character
      per special character. */
  function EscapeRegex(term: string): (r: string)
    ensures |r| == |term| + SpecialCount(term)
  {
    if |term| == 0 then ""
    else (if IsRegexSpecial(term[0]) then ['\\', term[0]] else [term[0]]) + EscapeRegex(term[1..])
  }

  /** The text a regular-expression source matches, when it is a plain
      literal: ordinary characters stand for themselves and a backslash
      followed by a special character stands for that character. Any other
      construct (an unescaped special character, any other escape) is not a
      literal and gives None. */
  function LiteralOf(src: string): Option<string>
  {
    if |src| == 0 then Some("")
    else if src[0] == '\\' then
      if |src| >= 2 && IsRegexSpecial(src[1]) then
        match LiteralOf(src[2..])
        case Some(rest) => Some([src[1]] + rest)
        case None => None
      else None
    else if IsRegexSpecial(src[0]) then None
    else
      match LiteralOf(src[1..])
      case Some(rest) => Some([src[0]] + rest)
      case None => None
  }

  /** Whatever the user typed, the escaped term is a literal pattern for
      exactly that term. */
  lemma {:induction false} EscapeIsLiteral(term: string)
    ensures LiteralOf(EscapeRegex(term)) == Some(term)
    decreases |term|
  {
    if |term| > 0 {
      EscapeIsLiteral(term[1..]);
      var tail := EscapeRegex(term[1..]);
      assert [term[0]] + term[1..] == term;
      if IsRegexSpecial(term[0]) {
        assert (['\\', term[0]] + tail)[2..] == tail;
      } else {
        assert ([term[0]] + tail)[1..] == tail;
      }
    }
  }

  /** The patterns `highlightMatches` applies: one per include term, parsed
      from the raw query (the `i` flag makes them case-insensitive), each a
      literal for its term. Empty when the query has no terms, in which
      case earlier highlights are only removed. The capturing group that
      wraps each source does not change what it matches and is left out. */
  function HighlightPatterns(qInclude: string): (r: seq<string>)
    ensures |r| == |Filter.ParseList(qInclude)|
    ensures forall i :: 0 <= i < |r| ==> LiteralOf(r[i]) == Some(Filter.ParseList(qInclude)[i])
  {
    var terms := Filter.ParseList(qInclude);
    var r := seq(|terms|, i requires 0 <= i < |terms| => EscapeRegex(terms[i]));
    forall i | 0 <= i < |r| ensures LiteralOf(r[i]) == Some(terms[i]) {
      EscapeIsLiteral(terms[i]);
    }
    r
  }
}

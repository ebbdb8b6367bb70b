/** The pattern catalogue and the per-comment tag record of the content
    script (`RE` and `commentObj` in content.js). The regular expressions
    themselves are not modelled: a `Matcher` says, for each catalogue entry,
    whether it fires on a comment body. */
module Classify {
  import opened Wrappers
  import Text
  import opened Seqs

  /** One entry of the pattern catalogue. */
  datatype Key =
    | Remote | Onsite | Salary | UsOnly
    | FacetValue(facet: Facet, name: string)

  /** The multi-valued categories; a comment may carry several values of each. */
  datatype Facet = Stacks | EmploymentTypes | Seniorities | RoleTypes

  /** A deterministic, case-insensitive test of one catalogue entry against a body. */
  type Matcher = (Key, string) -> bool

  /** The facet values in the catalogue's own order, which is the order the
      tag lists keep. */
  function Names(f: Facet): seq<string>
  {
    match f
    case Stacks =>
      ["go", "rust", "java", "kotlin", "python", "typescript",
       "react", "aws", "gcp", "kubernetes", "postgres", "kafka"]
    case EmploymentTypes => ["fulltime", "parttime", "contract", "intern"]
    case Seniorities => ["senior", "staff", "mid", "junior"]
    case RoleTypes => ["backend", "frontend", "fullstack", "devops", "mobile", "data", "security"]
  }

  lemma NamesDistinct(f: Facet)
    ensures NoDup(Names(f))
  {
  }

  /** The tag record of one comment. */
  datatype Flags = Flags(
    remote: bool, onsite: bool, salary: bool, usOnly: bool,
    stacks: seq<string>, employmentTypes: seq<string>,
    seniorities: seq<string>, roleTypes: seq<string>)
  {
    function Tags(f: Facet): seq<string>
    {
      match f
      case Stacks => stacks
      case EmploymentTypes => employmentTypes
      case Seniorities => seniorities
      case RoleTypes => roleTypes
    }
  }

  /** A comment row as the page supplies it. `indentAttr` is the parsed
      `indent` attribute of its indentation cell: None when the cell or the
      attribute is missing, does not parse as a number, or parses to a
      value that is not finite (`Number.isFinite` fails), all of which
      `getIndent` turns into 0. */
  datatype Row = Row(id: string, author: string, age: string, body: string, indentAttr: Option<int>)

  /** A classified comment. `text` is the lower-cased body the term filters
      search; `topId` is filled in by the thread index. */
  datatype Comment = Comment(
    id: string, author: string, age: string, body: string, text: string,
    indent: int, flags: Flags, topId: Option<string>)

  /** The indentation level, 0 when there is none to read. */
  function GetIndent(attr: Option<int>): (r: int)
    ensures r == 0 <==> attr.None? || attr.value == 0
    ensures r != 0 ==> attr == Some(r)
  {
    attr.GetOr(0)
  }

  predicate IsTopLevel(c: Comment)
  {
    c.indent == 0
  }

  /** The values of facet `f`, kept in catalogue order, whose matcher fires on `body`. */
  function FacetTags(f: Facet, names: seq<string>, m: Matcher, body: string): (r: seq<string>)
    ensures forall x :: x in r <==> x in names && m(FacetValue(f, x), body)
    ensures SubsequenceOf(r, names)
  {
    if |names| == 0 then []
    else
      var rest := FacetTags(f, names[1..], m, body);
      assert forall x :: x in names <==> x == names[0] || x in names[1..];
      if m(FacetValue(f, names[0]), body) then [names[0]] + rest else rest
  }

  /** The tags of facet `f` as the tag record lists them. */
  function FacetOf(f: Facet, m: Matcher, body: string): (r: seq<string>)
    ensures forall x :: x in r <==> x in Names(f) && m(FacetValue(f, x), body)
    ensures SubsequenceOf(r, Names(f)) && NoDup(r)
  {
    var r := FacetTags(f, Names(f), m, body);
    NamesDistinct(f);
    SubsequenceNoDup(r, Names(f));
    r
  }

  /** The tag record of `body`: each binary flag is its matcher's verdict,
      and each facet lists, in catalogue order and without repeats, exactly
      the values whose matcher fires. */
  function ClassifyBody(m: Matcher, body: string): (flags: Flags)
    ensures flags.remote == m(Remote, body) && flags.onsite == m(Onsite, body)
    ensures flags.salary == m(Salary, body) && flags.usOnly == m(UsOnly, body)
    ensures forall f: Facet, x :: x in flags.Tags(f) <==> x in Names(f) && m(FacetValue(f, x), body)
    ensures forall f: Facet :: SubsequenceOf(flags.Tags(f), Names(f)) && NoDup(flags.Tags(f))
  {
    var flags := Flags(
      m(Remote, body), m(Onsite, body), m(Salary, body), m(UsOnly, body),
      FacetOf(Stacks, m, body), FacetOf(EmploymentTypes, m, body),
      FacetOf(Seniorities, m, body), FacetOf(RoleTypes, m, body));
    TagsAreFacets(flags, m, body);
    flags
  }

  lemma TagsAreFacets(flags: Flags, m: Matcher, body: string)
    requires flags.stacks == FacetOf(Stacks, m, body)
    requires flags.employmentTypes == FacetOf(EmploymentTypes, m, body)
    requires flags.seniorities == FacetOf(Seniorities, m, body)
    requires flags.roleTypes == FacetOf(RoleTypes, m, body)
    ensures forall f: Facet :: flags.Tags(f) == FacetOf(f, m, body)
  {
    forall f: Facet ensures flags.Tags(f) == FacetOf(f, m, body) {
      match f
      case Stacks =>
      case EmploymentTypes =>
      case Seniorities =>
      case RoleTypes =>
    }
  }

  /** `commentObj`: the row's fields, its lower-cased search text, its
      indentation (0 when unreadable) and its tag record. */
  function CommentObj(row: Row, m: Matcher): (c: Comment)
    ensures c.id == row.id && c.author == row.author && c.age == row.age && c.body == row.body
    ensures c.text == Text.Lower(row.body)
    ensures IsTopLevel(c) <==> row.indentAttr.None? || row.indentAttr.value == 0
    ensures c.flags == ClassifyBody(m, row.body)
    ensures c.topId.None?
  {
    Comment(row.id, row.author, row.age, row.body, Text.Lower(row.body),
            GetIndent(row.indentAttr), ClassifyBody(m, row.body), None)
  }

  /** Classification is a function of the body alone: two rows with the
      same body get the same tag record and the same search text. */
  lemma ClassifyDeterministic(r1: Row, r2: Row, m: Matcher)
    requires r1.body == r2.body
    ensures CommentObj(r1, m).flags == CommentObj(r2, m).flags
    ensures CommentObj(r1, m).text == CommentObj(r2, m).text
  {
  }
}

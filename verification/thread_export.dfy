/** The two exporters of the content script over the comments left
    visible: the CSV table of `exportCSV` and the de-duplicated address
    list of `copyEmails`. Address extraction (a regular expression) is a
    parameter; the clipboard and the file download are not modelled. */
module ThreadExport {
  import opened Wrappers
  import opened Seqs
  import Text
  import Csv
  import opened Classify

  /** The comments whose row is not hidden, in document order: one per
      shown position, the k-th shown comment at index k. */
  function VisibleComments(cs: seq<Comment>, show: seq<bool>): (r: seq<Comment>)
    requires |show| == |cs|
    ensures SubsequenceOf(r, cs)
    ensures Picks(r, cs, show)
    ensures forall i :: 0 <= i < |cs| && show[i] ==> cs[i] in r
    ensures forall c :: c in r ==> exists i :: 0 <= i < |cs| && show[i] && cs[i] == c
    ensures r == [] <==> forall i :: 0 <= i < |cs| ==> !show[i]
  {
    if |cs| == 0 then []
    else
      var rest := VisibleComments(cs[1..], show[1..]);
      var r := if show[0] then [cs[0]] + rest else rest;
      PicksCons(cs, show, rest);
      VisibleMembers(cs, show, rest);
      VisibleOrder(cs, show, rest);
      r
  }

  lemma VisibleMembers(cs: seq<Comment>, show: seq<bool>, rest: seq<Comment>)
    requires |show| == |cs| > 0
    requires forall c :: c in rest ==> exists i :: 0 <= i < |cs| - 1 && show[1..][i] && cs[1..][i] == c
    ensures var r := if show[0] then [cs[0]] + rest else rest;
            forall c :: c in r ==> exists i :: 0 <= i < |cs| && show[i] && cs[i] == c
  {
    var r := if show[0] then [cs[0]] + rest else rest;
    forall c | c in r ensures exists i :: 0 <= i < |cs| && show[i] && cs[i] == c {
      if !(show[0] && c == cs[0]) {
        assert c in rest;
        var i :| 0 <= i < |cs| - 1 && show[1..][i] && cs[1..][i] == c;
        assert show[i + 1] && cs[i + 1] == c;
      }
    }
  }

  lemma VisibleOrder(cs: seq<Comment>, show: seq<bool>, rest: seq<Comment>)
    requires |show| == |cs| > 0
    requires SubsequenceOf(rest, cs[1..])
    ensures SubsequenceOf(if show[0] then [cs[0]] + rest else rest, cs)
  {
    if show[0] {
      var r := [cs[0]] + rest;
      assert r[0] == cs[0] && r[1..] == rest;
    } else {
      SubsequenceSkip(rest, cs);
    }
  }

  const ThreadHeader: seq<string> :=
    ["ID", "Author", "Age", "Remote", "Onsite", "Salary", "US-Only",
     "Employment", "Seniority", "Role", "Stacks", "Comment"]

  /** The catalogue values are non-empty and can be written bare. */
  lemma CatalogueCellsSafe(f: Facet, x: string)
    requires x in Names(f)
    ensures x != [] && Csv.BareSafe(x)
  {
    match f
    case Stacks => StacksSafe(x);
    case EmploymentTypes => EmploymentTypesSafe(x);
    case Seniorities => SenioritiesSafe(x);
    case RoleTypes => RoleTypesSafe(x);
  }

  lemma StacksSafe(x: string)
    requires x in Names(Stacks)
    ensures x != [] && ',' !in x && x[0] != '"'
  {
  }

  lemma EmploymentTypesSafe(x: string)
    requires x in Names(EmploymentTypes)
    ensures x != [] && ',' !in x && x[0] != '"'
  {
  }

  lemma SenioritiesSafe(x: string)
    requires x in Names(Seniorities)
    ensures x != [] && ',' !in x && x[0] != '"'
  {
  }

  lemma RoleTypesSafe(x: string)
    requires x in Names(RoleTypes)
    ensures x != [] && ',' !in x && x[0] != '"'
  {
  }

  /** A `;`-joined list of catalogue values can be written bare. */
  lemma TagCellSafe(f: Facet, tags: seq<string>)
    requires forall x :: x in tags ==> x in Names(f)
    ensures Csv.BareSafe(Text.Join(tags, ';'))
  {
    var cell := Text.Join(tags, ';');
    if ',' in cell {
      Text.JoinChars(tags, ';', ',');
      var i :| 0 <= i < |tags| && ',' in tags[i];
      CatalogueCellsSafe(f, tags[i]);
      assert false;
    }
    if |tags| > 0 {
      CatalogueCellsSafe(f, tags[0]);
      Text.JoinHead(tags, ';');
    }
  }

  /** The cells of a thread row as written: everything bare except the
      comment, which is quoted. */
  function ThreadCells(c: Comment): seq<Csv.Cell>
  {
    [Csv.Bare(c.id), Csv.Bare(c.author), Csv.Bare(c.age),
     Csv.Bare(Csv.YesNo(c.flags.remote)), Csv.Bare(Csv.YesNo(c.flags.onsite)),
     Csv.Bare(Csv.YesNo(c.flags.salary)), Csv.Bare(Csv.YesNo(c.flags.usOnly)),
     Csv.Bare(Text.Join(c.flags.employmentTypes, ';')), Csv.Bare(Text.Join(c.flags.seniorities, ';')),
     Csv.Bare(Text.Join(c.flags.roleTypes, ';')), Csv.Bare(Text.Join(c.flags.stacks, ';')),
     Csv.Quoted(c.body)]
  }

  lemma ThreadCellsAt(c: Comment)
    ensures |ThreadCells(c)| == 12
    ensures ThreadCells(c)[0] == Csv.Bare(c.id) && ThreadCells(c)[1] == Csv.Bare(c.author)
    ensures ThreadCells(c)[2] == Csv.Bare(c.age)
    ensures ThreadCells(c)[3] == Csv.Bare(Csv.YesNo(c.flags.remote))
    ensures ThreadCells(c)[4] == Csv.Bare(Csv.YesNo(c.flags.onsite))
    ensures ThreadCells(c)[5] == Csv.Bare(Csv.YesNo(c.flags.salary))
    ensures ThreadCells(c)[6] == Csv.Bare(Csv.YesNo(c.flags.usOnly))
    ensures ThreadCells(c)[7] == Csv.Bare(Text.Join(c.flags.employmentTypes, ';'))
    ensures ThreadCells(c)[8] == Csv.Bare(Text.Join(c.flags.seniorities, ';'))
    ensures ThreadCells(c)[9] == Csv.Bare(Text.Join(c.flags.roleTypes, ';'))
    ensures ThreadCells(c)[10] == Csv.Bare(Text.Join(c.flags.stacks, ';'))
    ensures ThreadCells(c)[11] == Csv.Quoted(c.body)
  {
  }

  /** One row of the filtered-view table: the comment's id, author and
      age, its four flags as Yes/No, its facet tags joined by `;` and its
      body as a quoted cell that reads back as the body. */
  function ThreadRow(c: Comment): (row: seq<string>)
    ensures |row| == |ThreadHeader|
    ensures row[0] == c.id && row[1] == c.author && row[2] == c.age
    ensures (row[3] == "Yes" <==> c.flags.remote) && (row[4] == "Yes" <==> c.flags.onsite)
    ensures (row[5] == "Yes" <==> c.flags.salary) && (row[6] == "Yes" <==> c.flags.usOnly)
    ensures Csv.ReadQuoted(row[11]) == Some((c.body, ""))
  {
    ThreadCellsAt(c);
    Csv.QuotedReadsBack(c.body);
    Csv.Encodings(ThreadCells(c))
  }

  /** The cells of a thread row in full: each flag as "Yes" or "No" and
      each facet's tags joined by `;`. */
  lemma ThreadRowCells(c: Comment)
    ensures ThreadRow(c)[3] == Csv.YesNo(c.flags.remote) && ThreadRow(c)[4] == Csv.YesNo(c.flags.onsite)
    ensures ThreadRow(c)[5] == Csv.YesNo(c.flags.salary) && ThreadRow(c)[6] == Csv.YesNo(c.flags.usOnly)
    ensures ThreadRow(c)[7] == Text.Join(c.flags.employmentTypes, ';')
    ensures ThreadRow(c)[8] == Text.Join(c.flags.seniorities, ';')
    ensures ThreadRow(c)[9] == Text.Join(c.flags.roleTypes, ';')
    ensures ThreadRow(c)[10] == Text.Join(c.flags.stacks, ';')
  {
    ThreadCellsAt(c);
    assert ThreadRow(c) == Csv.Encodings(ThreadCells(c));
  }

  lemma ThreadCellsWritable(c: Comment)
    requires Csv.BareSafe(c.id) && Csv.BareSafe(c.author) && Csv.BareSafe(c.age)
    requires forall f: Facet, x :: x in c.flags.Tags(f) ==> x in Names(f)
    ensures forall i :: 0 <= i < |ThreadCells(c)| ==> Csv.Writable(ThreadCells(c)[i])
  {
    TagCellsSafe(c.flags);
    ThreadCellsAt(c);
    forall i | 0 <= i < 12 ensures Csv.Writable(ThreadCells(c)[i]) {
      ThreadCellWritable(c, i);
    }
  }

  /** One cell of a thread row, once the free-text cells are known safe. */
  lemma ThreadCellWritable(c: Comment, i: nat)
    requires i < 12
    requires Csv.BareSafe(c.id) && Csv.BareSafe(c.author) && Csv.BareSafe(c.age)
    requires Csv.BareSafe(Text.Join(c.flags.employmentTypes, ';'))
    requires Csv.BareSafe(Text.Join(c.flags.seniorities, ';'))
    requires Csv.BareSafe(Text.Join(c.flags.roleTypes, ';'))
    requires Csv.BareSafe(Text.Join(c.flags.stacks, ';'))
    ensures Csv.Writable(ThreadCells(c)[i])
  {
    ThreadCellsAt(c);
    if 3 <= i <= 6 {
      YesNoSafe(c.flags.remote);
      YesNoSafe(c.flags.onsite);
      YesNoSafe(c.flags.salary);
      YesNoSafe(c.flags.usOnly);
    }
  }

  /** The four tag cells of a comment whose tags come from the catalogue. */
  lemma TagCellsSafe(flags: Flags)
    requires forall f: Facet, x :: x in flags.Tags(f) ==> x in Names(f)
    ensures Csv.BareSafe(Text.Join(flags.employmentTypes, ';'))
    ensures Csv.BareSafe(Text.Join(flags.seniorities, ';'))
    ensures Csv.BareSafe(Text.Join(flags.roleTypes, ';'))
    ensures Csv.BareSafe(Text.Join(flags.stacks, ';'))
  {
    assert flags.Tags(EmploymentTypes) == flags.employmentTypes;
    assert flags.Tags(Seniorities) == flags.seniorities;
    assert flags.Tags(RoleTypes) == flags.roleTypes;
    assert flags.Tags(Stacks) == flags.stacks;
    TagCellSafe(EmploymentTypes, flags.employmentTypes);
    TagCellSafe(Seniorities, flags.seniorities);
    TagCellSafe(RoleTypes, flags.roleTypes);
    TagCellSafe(Stacks, flags.stacks);
  }

  lemma YesNoSafe(b: bool)
    ensures Csv.BareSafe(Csv.YesNo(b))
  {
    assert Csv.YesNo(b)[0] != '"';
  }

  /** The texts of a thread row's cells are the twelve intended values. */
  lemma ThreadCellTexts(c: Comment)
    ensures Csv.Texts(ThreadCells(c)) ==
      [c.id, c.author, c.age,
       Csv.YesNo(c.flags.remote), Csv.YesNo(c.flags.onsite),
       Csv.YesNo(c.flags.salary), Csv.YesNo(c.flags.usOnly),
       Text.Join(c.flags.employmentTypes, ';'), Text.Join(c.flags.seniorities, ';'),
       Text.Join(c.flags.roleTypes, ';'), Text.Join(c.flags.stacks, ';'),
       c.body]
  {
    var cells := ThreadCells(c);
    var texts := Csv.Texts(cells);
    assert texts[0] == cells[0].text && texts[11] == cells[11].text;
  }

  /** A thread row read back as a line of cells gives exactly the twelve
      intended values: id, author, age, the four Yes/No flags, the four
      `;`-joined tag lists and the body, whatever the body contains. It
      needs only that id, author and age hold no comma and
      that the tags come from the catalogue, as every classified comment's
      do. */
  lemma ThreadRowReadsBack(c: Comment)
    requires Csv.BareSafe(c.id) && Csv.BareSafe(c.author) && Csv.BareSafe(c.age)
    requires forall f: Facet, x :: x in c.flags.Tags(f) ==> x in Names(f)
    ensures Csv.ReadCells(Text.Join(ThreadRow(c), ',')) == Some(
      [c.id, c.author, c.age,
       Csv.YesNo(c.flags.remote), Csv.YesNo(c.flags.onsite),
       Csv.YesNo(c.flags.salary), Csv.YesNo(c.flags.usOnly),
       Text.Join(c.flags.employmentTypes, ';'), Text.Join(c.flags.seniorities, ';'),
       Text.Join(c.flags.roleTypes, ';'), Text.Join(c.flags.stacks, ';'),
       c.body])
  {
    ThreadCellsWritable(c);
    Csv.RowRoundTrip(ThreadCells(c));
    ThreadCellTexts(c);
  }

  /** The per-field promises of ThreadRow, for a row known to be one. */
  predicate RowFields(row: seq<string>, c: Comment)
  {
    && |row| == |ThreadHeader|
    && row[0] == c.id && row[1] == c.author && row[2] == c.age
    && (row[3] == "Yes" <==> c.flags.remote) && (row[4] == "Yes" <==> c.flags.onsite)
    && (row[5] == "Yes" <==> c.flags.salary) && (row[6] == "Yes" <==> c.flags.usOnly)
    && Csv.ReadQuoted(row[11]) == Some((c.body, ""))
  }

  /** Rows built by ThreadRow carry its per-field promises. */
  lemma ThreadRowsFields(vis: seq<Comment>, rows: seq<seq<string>>)
    requires |rows| == |vis| + 1
    requires forall i :: 0 <= i < |vis| ==> rows[i + 1] == ThreadRow(vis[i])
    ensures forall i :: 0 <= i < |vis| ==> RowFields(rows[i + 1], vis[i])
  {
    forall i | 0 <= i < |vis| ensures RowFields(rows[i + 1], vis[i]) {
      var row := ThreadRow(vis[i]);
      assert rows[i + 1] == row;
    }
  }

  /** One ThreadRow per comment, in order. */
  function ThreadRows(vis: seq<Comment>): (rows: seq<seq<string>>)
    ensures |rows| == |vis|
    ensures forall i :: 0 <= i < |vis| ==> rows[i] == ThreadRow(vis[i])
  {
    seq(|vis|, i requires 0 <= i < |vis| => ThreadRow(vis[i]))
  }

  /** The table of `exportCSV`: the header, then one twelve-cell row per
      visible comment in order, its flags as Yes/No and its body as a
      quoted cell that reads back as the body. */
  function ThreadTable(vis: seq<Comment>): (rows: seq<seq<string>>)
    ensures |rows| == |vis| + 1 && rows[0] == ThreadHeader
    ensures forall i :: 0 <= i < |vis| ==> RowFields(rows[i + 1], vis[i])
    ensures forall i :: 0 <= i < |vis| ==> rows[i + 1] == ThreadRow(vis[i])
  {
    var rows := Cons(ThreadHeader, ThreadRows(vis));
    ThreadRowsFields(vis, rows);
    rows
  }

  /** `exportCSV`: None (the "nothing to export" notice) when no comment is
      visible, otherwise the serialized table of the visible comments, whose
      first line is the header. */
  function ExportCsv(cs: seq<Comment>, show: seq<bool>): (r: Option<string>)
    requires |show| == |cs|
    ensures r.None? <==> forall i :: 0 <= i < |cs| ==> !show[i]
    ensures r.Some? ==> Text.Split(r.value, '\n')[0] == Text.Join(ThreadHeader, ',')
  {
    var vis := VisibleComments(cs, show);
    if |vis| == 0 then None
    else
      HeaderOneLine();
      Some(Csv.Serialize(ThreadTable(vis)))
  }

  lemma HeaderOneLine()
    ensures '\n' !in Text.Join(ThreadHeader, ',')
  {
    Csv.OneLineJoin(ThreadHeader);
  }

  /** No field of the comment, nor any of its tags, holds a line feed. */
  predicate OneLine(c: Comment)
  {
    && '\n' !in c.id && '\n' !in c.author && '\n' !in c.age && '\n' !in c.body
    && forall f: Facet, x :: x in c.flags.Tags(f) ==> '\n' !in x
  }

  /** Tags free of line feeds give a `;`-joined cell free of them. */
  lemma TagsOneLine(tags: seq<string>)
    requires forall x :: x in tags ==> '\n' !in x
    ensures '\n' !in Text.Join(tags, ';')
  {
    if '\n' in Text.Join(tags, ';') {
      Text.JoinChars(tags, ';', '\n');
    }
  }

  /** A one-line comment gives a one-line row. */
  lemma RowOneLine(c: Comment)
    requires OneLine(c)
    ensures '\n' !in Text.Join(ThreadRow(c), ',')
  {
    assert c.flags.Tags(EmploymentTypes) == c.flags.employmentTypes;
    assert c.flags.Tags(Seniorities) == c.flags.seniorities;
    assert c.flags.Tags(RoleTypes) == c.flags.roleTypes;
    assert c.flags.Tags(Stacks) == c.flags.stacks;
    TagsOneLine(c.flags.employmentTypes);
    TagsOneLine(c.flags.seniorities);
    TagsOneLine(c.flags.roleTypes);
    TagsOneLine(c.flags.stacks);
    var cells := ThreadCells(c);
    ThreadCellsAt(c);
    forall i | 0 <= i < |cells| ensures '\n' !in cells[i].text {
      if 3 <= i <= 6 {
        Csv.YesNoOneLine(cells[i].text);
      }
    }
    Csv.EncodingsOneLine(cells);
  }

  /** Every row of the table of one-line comments is one line long. */
  lemma TableOneLine(vis: seq<Comment>)
    requires forall i :: 0 <= i < |vis| ==> OneLine(vis[i])
    ensures forall i :: 0 <= i < |vis| + 1 ==> '\n' !in Text.Join(ThreadTable(vis)[i], ',')
  {
    var rows := ThreadTable(vis);
    forall i | 0 <= i < |vis| + 1 ensures '\n' !in Text.Join(rows[i], ',') {
      if i == 0 {
        HeaderOneLine();
      } else {
        RowOneLine(vis[i - 1]);
      }
    }
  }

  /** Serialising the table of one-line comments and splitting on line
      feeds gives the header line, then one line per comment. */
  lemma TableLines(vis: seq<Comment>)
    requires forall i :: 0 <= i < |vis| ==> OneLine(vis[i])
    ensures var lines := Text.Split(Csv.Serialize(ThreadTable(vis)), '\n');
            && |lines| == |vis| + 1
            && forall i :: 0 <= i < |vis| ==> lines[i + 1] == Text.Join(ThreadRow(vis[i]), ',')
  {
    TableOneLine(vis);
    var rows := ThreadTable(vis);
    assert Text.Split(Csv.Serialize(rows), '\n') == Csv.Lines(rows);
  }

  /** Line by line: when some comment is shown (so the export is produced)
      and no shown comment holds a line feed, the export has
      one line per shown comment after the header, and the shown comment at
      position i, the k-th shown one, is on line k + 1 as its row. */
  lemma ExportCsvLines(cs: seq<Comment>, show: seq<bool>)
    requires |show| == |cs|
    requires ExportCsv(cs, show).Some?
    requires forall i :: 0 <= i < |cs| && show[i] ==> OneLine(cs[i])
    ensures var lines := Text.Split(ExportCsv(cs, show).value, '\n');
            && |lines| == CountTrue(show) + 1
            && forall i :: 0 <= i < |cs| && show[i] ==>
                 lines[CountTrue(show[..i]) + 1] == Text.Join(ThreadRow(cs[i]), ',')
  {
    var vis := VisibleComments(cs, show);
    var text := Csv.Serialize(ThreadTable(vis));
    assert ExportCsv(cs, show) == Some(text);
    VisibleOneLine(cs, show);
    TableLines(vis);
    var line := (c: Comment) => Text.Join(ThreadRow(c), ',');
    PickedImages(vis, cs, show, Text.Split(text, '\n'), line);
  }

  /** The shown comments of a thread whose shown comments are one-line. */
  lemma VisibleOneLine(cs: seq<Comment>, show: seq<bool>)
    requires |show| == |cs|
    requires forall i :: 0 <= i < |cs| && show[i] ==> OneLine(cs[i])
    ensures forall k :: 0 <= k < |VisibleComments(cs, show)| ==> OneLine(VisibleComments(cs, show)[k])
  {
    var vis := VisibleComments(cs, show);
    forall k | 0 <= k < |vis| ensures OneLine(vis[k]) {
      assert vis[k] in vis;
      var i :| 0 <= i < |cs| && show[i] && cs[i] == vis[k];
    }
  }

  /** All addresses found in the visible comments, in document order,
      repeats included. */
  function AllMatches(vis: seq<Comment>, extract: string -> seq<string>): (r: seq<string>)
    ensures forall x :: x in r <==> exists i :: 0 <= i < |vis| && x in extract(vis[i].body)
  {
    if |vis| == 0 then []
    else
      var rest := AllMatches(vis[1..], extract);
      assert forall i :: 1 <= i < |vis| ==> vis[i] == vis[1..][i - 1];
      extract(vis[0].body) + rest
  }

  /** Position of the first occurrence of `x` in `xs`. */
  function FirstIndex(xs: seq<string>, x: string): (k: nat)
    requires x in xs
    ensures k < |xs| && xs[k] == x && x !in xs[..k]
  {
    if xs[0] == x then 0 else 1 + FirstIndex(xs[1..], x)
  }

  /** The insertion-ordered set of `copyEmails`: each address once, in the
      order of its first occurrence, and every address found is listed. */
  method Unique(xs: seq<string>) returns (r: seq<string>)
    ensures NoDup(r)
    ensures forall x :: x in r <==> x in xs
    ensures forall i, j :: 0 <= i < j < |r| ==> FirstIndex(xs, r[i]) < FirstIndex(xs, r[j])
  {
    r := [];
    var seen: set<string> := {};
    for k := 0 to |xs|
      invariant seen == set x | x in r
      invariant NoDup(r)
      invariant forall x :: x in r <==> x in xs[..k]
      invariant forall i :: 0 <= i < |r| ==> r[i] in xs && FirstIndex(xs, r[i]) < k
      invariant forall i, j :: 0 <= i < j < |r| ==> FirstIndex(xs, r[i]) < FirstIndex(xs, r[j])
    {
      var x := xs[k];
      assert xs[..k + 1] == xs[..k] + [x];
      if x !in seen {
        assert FirstIndex(xs, x) == k;
        r := r + [x];
        seen := seen + {x};
      }
    }
    assert xs[..|xs|] == xs;
  }

  /** `copyEmails`: the distinct addresses of the visible comments, in
      first-seen order; None (the "no emails" notice) when there are none,
      otherwise the addresses joined by line feeds. */
  method CopyEmails(cs: seq<Comment>, show: seq<bool>, extract: string -> seq<string>)
    returns (r: Option<string>, emails: seq<string>)
    requires |show| == |cs|
    ensures NoDup(emails)
    ensures forall x :: x in emails <==>
              exists i :: 0 <= i < |cs| && show[i] && x in extract(cs[i].body)
    ensures r.None? <==> emails == []
    ensures r.Some? ==> r.value == Text.Join(emails, '\n')
    ensures r.Some? && (forall i :: 0 <= i < |emails| ==> '\n' !in emails[i]) ==>
              Text.Split(r.value, '\n') == emails
  {
    var vis := VisibleComments(cs, show);
    var all := AllMatches(vis, extract);
    emails := Unique(all);
    forall x | x in emails ensures exists i :: 0 <= i < |cs| && show[i] && x in extract(cs[i].body) {
      var j :| 0 <= j < |vis| && x in extract(vis[j].body);
      assert vis[j] in vis;
      var i :| 0 <= i < |cs| && show[i] && cs[i] == vis[j];
    }
    forall x | exists i :: 0 <= i < |cs| && show[i] && x in extract(cs[i].body) ensures x in emails {
      var i :| 0 <= i < |cs| && show[i] && x in extract(cs[i].body);
      var j :| 0 <= j < |vis| && vis[j] == cs[i];
    }
    if |emails| == 0 {
      r := None;
    } else {
      r := Some(Text.Join(emails, '\n'));
      if forall i :: 0 <= i < |emails| ==> '\n' !in emails[i] {
        Text.SplitJoin(emails, '\n');
      }
    }
  }
}

/** The saved-jobs store of the side panel (sidepanel.js): a map from
    comment id to a saved record, the updates the panel makes to it, its
    count, the two newest-first lists it renders and its CSV export.
    Persistence, change notification and the HTML rendering are not
    modelled. */
module SavedJobs {
  import opened Wrappers
  import opened Seqs
  import Csv
  import Text

  /** A saved record; `savedAt` is the save time as a number. */
  datatype Job = Job(
    id: string, author: string, age: string, body: string, url: string,
    savedAt: int, applied: bool)

  type Store = map<string, Job>

  /** `updateCount`: how many jobs are saved; 0 exactly when none is. */
  function Count(s: Store): (n: nat)
    ensures n == 0 <==> forall k :: k !in s
  {
    assert s.Keys == {} <==> forall k :: k !in s;
    |s.Keys|
  }

  /** `delete savedJobs[id]`: exactly that key disappears and every other
      entry is untouched. */
  function Remove(s: Store, id: string): (r: Store)
    ensures r.Keys == s.Keys - {id}
    ensures forall k :: k in r ==> r[k] == s[k]
  {
    s - {id}
  }

  /** The Applied checkbox handler: on a saved id only the `applied` field
      of that record changes; an absent id leaves the store as it is. */
  function SetApplied(s: Store, id: string, applied: bool): (r: Store)
    ensures r.Keys == s.Keys
    ensures forall k :: k in s && k != id ==> r[k] == s[k]
    ensures id in s ==> r[id].applied == applied && r[id].(applied := s[id].applied) == s[id]
    ensures id !in s ==> r == s
  {
    if id in s then s[id := s[id].(applied := applied)] else s
  }

  /** `clearAll`, after the confirmation dialog answered `confirmed`: a
      confirmed clear leaves no job and a count of 0, a declined one leaves
      the store as it is. */
  function ClearAll(s: Store, confirmed: bool): (r: Store)
    ensures confirmed ==> Count(r) == 0 && forall id :: id !in r
    ensures !confirmed ==> r == s
  {
    if confirmed then map[] else s
  }

  /** Removing a saved id lowers the count by one; removing an absent id
      changes nothing. */
  lemma CountAfterRemove(s: Store, id: string)
    ensures Count(Remove(s, id)) == if id in s then Count(s) - 1 else Count(s)
    ensures id !in s ==> Remove(s, id) == s
  {
    if id !in s {
      assert Remove(s, id).Keys == s.Keys;
    }
  }

  /** Marking applied never changes the count, the last mark wins, and
      putting the old mark back restores the store exactly. */
  lemma SetAppliedLaws(s: Store, id: string, a: bool, b: bool)
    ensures Count(SetApplied(s, id, a)) == Count(s)
    ensures SetApplied(SetApplied(s, id, a), id, b) == SetApplied(s, id, b)
    ensures id in s ==> SetApplied(SetApplied(s, id, a), id, s[id].applied) == s
  {
  }

  /** `truncate`: text within the limit comes back unchanged; longer text
      is cut to its first `maxLen` characters (none when `maxLen` is
      negative, as `substring` clamps) followed by `...`. */
  function Truncate(text: string, maxLen: int): (r: string)
    ensures |text| <= maxLen ==> r == text
    ensures |text| > maxLen ==> |r| == (if maxLen < 0 then 0 else maxLen) + 3
    ensures |text| > maxLen ==> r[..|r| - 3] == text[..|r| - 3] && r[|r| - 3..] == "..."
  {
    if |text| <= maxLen then text
    else
      var n := if maxLen < 0 then 0 else maxLen;
      var r := text[..n] + "...";
      assert r[..|r| - 3] == text[..n];
      r
  }

  /** Newest first: `savedAt` never increases along the list. */
  ghost predicate NewestFirst(js: seq<Job>)
  {
    forall i, j :: 0 <= i < j < |js| ==> js[i].savedAt >= js[j].savedAt
  }

  /** The jobs saved at time `t`, in list order. */
  function SavedAtTime(js: seq<Job>, t: int): seq<Job>
  {
    if |js| == 0 then []
    else (if js[0].savedAt == t then [js[0]] else []) + SavedAtTime(js[1..], t)
  }

  lemma NewestTail(ys: seq<Job>)
    requires NewestFirst(ys) && |ys| > 0
    ensures NewestFirst(ys[1..])
  {
    forall i, j | 0 <= i < j < |ys| - 1 ensures ys[1..][i].savedAt >= ys[1..][j].savedAt {
      assert ys[1..][i] == ys[i + 1] && ys[1..][j] == ys[j + 1];
    }
  }

  /** A job no older than everything in a newest-first list can lead it. */
  lemma PrependNewest(h: Job, rest: seq<Job>)
    requires NewestFirst(rest)
    requires forall z :: z in rest ==> z.savedAt <= h.savedAt
    ensures NewestFirst([h] + rest)
  {
    forall i, j | 0 <= i < j < |[h] + rest| ensures ([h] + rest)[i].savedAt >= ([h] + rest)[j].savedAt {
      assert ([h] + rest)[j] == rest[j - 1];
      if i > 0 {
        assert ([h] + rest)[i] == rest[i - 1];
      } else {
        assert rest[j - 1] in rest;
      }
    }
  }

  /** Inserts `x` into a newest-first list ahead of every job saved at the
      same time or earlier. */
  function Insert(x: Job, ys: seq<Job>): (r: seq<Job>)
    requires NewestFirst(ys)
    ensures NewestFirst(r)
    ensures forall z :: z in r <==> z == x || z in ys
    ensures multiset(r) == multiset(ys) + multiset{x}
  {
    if |ys| == 0 || x.savedAt >= ys[0].savedAt then
      PrependNewest(x, ys);
      [x] + ys
    else
      NewestTail(ys);
      var rest := Insert(x, ys[1..]);
      InsertAfterHead(x, ys, rest);
      [ys[0]] + rest
  }

  /** Keeping a newer head in front of the insertion into the tail. */
  lemma InsertAfterHead(x: Job, ys: seq<Job>, rest: seq<Job>)
    requires NewestFirst(ys) && |ys| > 0 && x.savedAt < ys[0].savedAt
    requires NewestFirst(rest)
    requires forall z :: z in rest <==> z == x || z in ys[1..]
    requires multiset(rest) == multiset(ys[1..]) + multiset{x}
    ensures NewestFirst([ys[0]] + rest)
    ensures forall z :: z in [ys[0]] + rest <==> z == x || z in ys
    ensures multiset([ys[0]] + rest) == multiset(ys) + multiset{x}
  {
    assert ys == [ys[0]] + ys[1..];
    assert forall z :: z in ys[1..] ==> z.savedAt <= ys[0].savedAt;
    PrependNewest(ys[0], rest);
  }

  /** The sort of `renderList`: newest first, stable (a stable sort with
      the comparator `b.savedAt - a.savedAt`), a permutation of its input. */
  function SortNewestFirst(js: seq<Job>): (r: seq<Job>)
    ensures NewestFirst(r)
    ensures multiset(r) == multiset(js)
  {
    if |js| == 0 then []
    else
      var r := Insert(js[0], SortNewestFirst(js[1..]));
      assert js == [js[0]] + js[1..];
      r
  }

  lemma SavedAtTimeCons(h: Job, rest: seq<Job>, t: int)
    ensures SavedAtTime([h] + rest, t) == (if h.savedAt == t then [h] else []) + SavedAtTime(rest, t)
  {
    assert ([h] + rest)[0] == h && ([h] + rest)[1..] == rest;
  }

  /** Past a newer head, the insertion happens in the tail. */
  lemma InsertBehind(x: Job, ys: seq<Job>)
    requires NewestFirst(ys) && |ys| > 0 && x.savedAt < ys[0].savedAt
    ensures NewestFirst(ys[1..])
    ensures Insert(x, ys) == [ys[0]] + Insert(x, ys[1..])
  {
    NewestTail(ys);
  }

  lemma {:induction false} InsertKeepsTies(x: Job, ys: seq<Job>, t: int)
    requires NewestFirst(ys)
    ensures SavedAtTime(Insert(x, ys), t) == (if x.savedAt == t then [x] else []) + SavedAtTime(ys, t)
    decreases |ys|
  {
    if |ys| == 0 || x.savedAt >= ys[0].savedAt {
      SavedAtTimeCons(x, ys, t);
    } else {
      InsertBehind(x, ys);
      InsertKeepsTies(x, ys[1..], t);
      SavedAtTimeCons(ys[0], Insert(x, ys[1..]), t);
      assert ys == [ys[0]] + ys[1..];
      SavedAtTimeCons(ys[0], ys[1..], t);
      SwapEmpty(if ys[0].savedAt == t then [ys[0]] else [], if x.savedAt == t then [x] else [], SavedAtTime(ys[1..], t));
    }
  }

  /** The sort is stable: the jobs saved at any one time keep their input
      order. */
  lemma {:induction false} SortIsStable(js: seq<Job>, t: int)
    ensures SavedAtTime(SortNewestFirst(js), t) == SavedAtTime(js, t)
    decreases |js|
  {
    if |js| > 0 {
      SortIsStable(js[1..], t);
      InsertKeepsTies(js[0], SortNewestFirst(js[1..]), t);
    }
  }

  /** The jobs whose `applied` is `want`, in list order. */
  function WithApplied(js: seq<Job>, want: bool): (r: seq<Job>)
    ensures forall j :: j in r <==> j in js && j.applied == want
    ensures NewestFirst(js) ==> NewestFirst(r)
    ensures SubsequenceOf(r, js)
  {
    if |js| == 0 then []
    else
      var rest := WithApplied(js[1..], want);
      assert forall j :: j in js <==> j == js[0] || j in js[1..];
      if js[0].applied == want then
        SubsequenceKeep(rest, js);
        KeepNewest(js, rest);
        [js[0]] + rest
      else
        SubsequenceSkip(rest, js);
        rest
  }

  /** Keeping the head of a newest-first list in front of jobs drawn from
      its tail keeps the result newest first. */
  lemma KeepNewest(js: seq<Job>, rest: seq<Job>)
    requires |js| > 0
    requires forall j :: j in rest ==> j in js[1..]
    requires NewestFirst(js[1..]) ==> NewestFirst(rest)
    ensures NewestFirst(js) ==> NewestFirst([js[0]] + rest)
  {
    if NewestFirst(js) {
      NewestTail(js);
      forall z | z in rest ensures z.savedAt <= js[0].savedAt {
        var k :| 0 <= k < |js[1..]| && js[1..][k] == z;
        assert js[k + 1] == z;
      }
      PrependNewest(js[0], rest);
    }
  }

  /** Sending the head to one side or the other keeps the pair of sides
      a split of the whole. */
  lemma SplitStep(js: seq<Job>, no: seq<Job>, yes: seq<Job>)
    requires |js| > 0 && multiset(no) + multiset(yes) == multiset(js[1..])
    ensures multiset((if js[0].applied == false then [js[0]] else []) + no) +
            multiset((if js[0].applied == true then [js[0]] else []) + yes) == multiset(js)
  {
    assert js == [js[0]] + js[1..];
    assert multiset(js) == multiset{js[0]} + multiset(js[1..]);
    if js[0].applied {
      assert multiset([js[0]] + yes) == multiset{js[0]} + multiset(yes);
    } else {
      assert multiset([js[0]] + no) == multiset{js[0]} + multiset(no);
    }
  }

  lemma {:induction false} SplitByApplied(js: seq<Job>)
    ensures multiset(WithApplied(js, false)) + multiset(WithApplied(js, true)) == multiset(js)
    decreases |js|
  {
    if |js| > 0 {
      SplitByApplied(js[1..]);
      SplitStep(js, WithApplied(js[1..], false), WithApplied(js[1..], true));
    }
  }

  /** `order` lists each key of the store once: the property enumeration
      order of `Object.values`, which the engine supplies. */
  ghost predicate Enumerates(order: seq<string>, s: Store)
  {
    NoDup(order) && forall k :: k in order <==> k in s
  }

  /** `Object.values(savedJobs)` in the enumeration order `order`. */
  function Values(s: Store, order: seq<string>): (r: seq<Job>)
    requires Enumerates(order, s)
    ensures |r| == |order|
    ensures forall i :: 0 <= i < |order| ==> r[i] == s[order[i]]
    ensures forall k :: k in s ==> s[k] in r
    ensures forall j :: j in r ==> exists k :: k in s && s[k] == j
  {
    var r := seq(|order|, i requires 0 <= i < |order| => s[order[i]]);
    forall k | k in s ensures s[k] in r {
      var i :| 0 <= i < |order| && order[i] == k;
      assert r[i] == s[k];
    }
    r
  }

  /** `renderList`: the saved jobs sorted newest first and split into the
      not-applied and applied lists. Every saved job lands in exactly one
      list, by its `applied` mark, nothing else appears, and both lists
      stay newest first. */
  function RenderLists(s: Store, order: seq<string>): (lists: (seq<Job>, seq<Job>))
    requires Enumerates(order, s)
    ensures NewestFirst(lists.0) && NewestFirst(lists.1)
    ensures forall j :: j in lists.0 ==> !j.applied
    ensures forall j :: j in lists.1 ==> j.applied
    ensures forall k :: k in s ==> (s[k] in lists.0 <==> !s[k].applied) && (s[k] in lists.1 <==> s[k].applied)
    ensures multiset(lists.0) + multiset(lists.1) == multiset(Values(s, order))
    ensures SubsequenceOf(lists.0, SortNewestFirst(Values(s, order)))
    ensures SubsequenceOf(lists.1, SortNewestFirst(Values(s, order)))
  {
    var all := SortNewestFirst(Values(s, order));
    assert forall j :: j in all <==> j in Values(s, order) by {
      assert forall j :: j in all <==> j in multiset(all);
    }
    SplitByApplied(all);
    (WithApplied(all, false), WithApplied(all, true))
  }

  const SavedHeader: seq<string> := ["ID", "Author", "Age", "Applied", "Saved At", "URL", "Comment"]

  /** The cells in front of the date: id, author, age and Applied. */
  function SavedPre(job: Job): seq<Csv.Cell>
  {
    [Csv.Bare(job.id), Csv.Bare(job.author), Csv.Bare(job.age), Csv.Bare(Csv.YesNo(job.applied))]
  }

  /** The cells after the date: the URL, and the comment quoted. */
  function SavedPost(job: Job): seq<Csv.Cell>
  {
    [Csv.Bare(job.url), Csv.Quoted(job.body)]
  }

  /** The cells of a saved-jobs row around the given date cell. */
  function SavedCells(job: Job, date: Csv.Cell): seq<Csv.Cell>
  {
    SavedPre(job) + [date] + SavedPost(job)
  }

  lemma SavedCellsAt(job: Job, date: Csv.Cell)
    ensures |SavedCells(job, date)| == 7
    ensures SavedCells(job, date)[0] == Csv.Bare(job.id) && SavedCells(job, date)[1] == Csv.Bare(job.author)
    ensures SavedCells(job, date)[2] == Csv.Bare(job.age) && SavedCells(job, date)[3] == Csv.Bare(Csv.YesNo(job.applied))
    ensures SavedCells(job, date)[4] == date
    ensures SavedCells(job, date)[5] == Csv.Bare(job.url) && SavedCells(job, date)[6] == Csv.Quoted(job.body)
  {
  }

  /** Id, author, age and URL can be written bare. */
  predicate PlainFields(job: Job)
  {
    Csv.BareSafe(job.id) && Csv.BareSafe(job.author) && Csv.BareSafe(job.age) && Csv.BareSafe(job.url)
  }

  lemma SavedCellsWritable(job: Job, mid: seq<Csv.Cell>)
    requires PlainFields(job)
    requires forall i :: 0 <= i < |mid| ==> Csv.Writable(mid[i])
    ensures forall i :: 0 <= i < |SavedPre(job) + mid + SavedPost(job)| ==>
              Csv.Writable((SavedPre(job) + mid + SavedPost(job))[i])
  {
    var cells := SavedPre(job) + mid + SavedPost(job);
    forall i | 0 <= i < |cells| ensures Csv.Writable(cells[i]) {
      if i < 4 {
        assert cells[i] == SavedPre(job)[i];
      } else if i < 4 + |mid| {
        assert cells[i] == mid[i - 4];
      } else {
        assert cells[i] == SavedPost(job)[i - 4 - |mid|];
      }
    }
  }

  lemma SavedTexts(job: Job, mid: seq<string>)
    ensures Csv.Texts(SavedPre(job)) + mid + Csv.Texts(SavedPost(job)) ==
            [job.id, job.author, job.age, Csv.YesNo(job.applied)] + mid + [job.url, job.body]
  {
    assert Csv.Texts(SavedPre(job)) == [job.id, job.author, job.age, Csv.YesNo(job.applied)];
    assert Csv.Texts(SavedPost(job)) == [job.url, job.body];
  }

  /** One row of the saved-jobs table as the side panel writes it:
      `formatDate` renders `savedAt`, and that text goes in bare. */
  function SavedRow(job: Job, formatDate: int -> string): (row: seq<string>)
    ensures |row| == |SavedHeader|
    ensures row[0] == job.id && row[1] == job.author && row[2] == job.age && row[5] == job.url
    ensures row[3] == "Yes" <==> job.applied
    ensures row[3] == Csv.YesNo(job.applied)
    ensures row[4] == formatDate(job.savedAt)
    ensures Csv.ReadQuoted(row[6]) == Some((job.body, ""))
  {
    SavedCellsAt(job, Csv.Bare(formatDate(job.savedAt)));
    Csv.QuotedReadsBack(job.body);
    Csv.Encodings(SavedCells(job, Csv.Bare(formatDate(job.savedAt))))
  }

  /** As written, a date text with a comma in it (the en-US `toLocaleString`
      form "10/10/2026, 8:33:05 AM") reads back as two cells, so the row has
      eight cells under a seven-column header and URL and Comment slide one
      column to the right. */
  lemma DateCommaSplitsRow(job: Job, formatDate: int -> string, d1: string, d2: string)
    requires PlainFields(job) && Csv.BareSafe(d1) && Csv.BareSafe(d2)
    requires formatDate(job.savedAt) == d1 + [','] + d2
    ensures Csv.ReadCells(Text.Join(SavedRow(job, formatDate), ',')) ==
      Some([job.id, job.author, job.age, Csv.YesNo(job.applied)] + [d1, d2] + [job.url, job.body])
    ensures |[job.id, job.author, job.age, Csv.YesNo(job.applied)] + [d1, d2] + [job.url, job.body]| == |SavedHeader| + 1
  {
    Csv.SplitBareCell(SavedPre(job), d1, d2, SavedPost(job));
    SplitCellsRead(job, d1, d2);
  }

  lemma SplitCellsRead(job: Job, d1: string, d2: string)
    requires PlainFields(job) && Csv.BareSafe(d1) && Csv.BareSafe(d2)
    ensures Csv.ReadCells(Text.Join(Csv.Encodings(SavedPre(job) + [Csv.Bare(d1), Csv.Bare(d2)] + SavedPost(job)), ',')) ==
      Some([job.id, job.author, job.age, Csv.YesNo(job.applied)] + [d1, d2] + [job.url, job.body])
  {
    var pre, mid, post := SavedPre(job), [Csv.Bare(d1), Csv.Bare(d2)], SavedPost(job);
    var cells := pre + mid + post;
    SavedCellsWritable(job, mid);
    Csv.RowRoundTrip(cells);
    Csv.EncodingsAppend(pre + mid, post);
    Csv.EncodingsAppend(pre, mid);
    assert Csv.Texts(cells) == Csv.Texts(pre) + Csv.Texts(mid) + Csv.Texts(post);
    assert Csv.Texts(mid) == [d1, d2];
    SavedTexts(job, [d1, d2]);
  }

  /** A job saved from an item page, for the concrete instance below. */
  const SampleJob := Job("1", "pg", "1h", "Hi", "item?id=1", 0, false)

  lemma SampleJobPlain()
    ensures PlainFields(SampleJob)
  {
    assert ',' !in SampleJob.url && SampleJob.url[0] != '"';
  }

  lemma EnUsDatePartsPlain()
    ensures Csv.BareSafe("10/10/2026") && Csv.BareSafe(" 8:33:05 AM")
  {
  }

  /** A concrete instance: the sample job saved under the en-US date text
      "10/10/2026, 8:33:05 AM" reads back as eight cells. */
  lemma EnUsDateShiftsColumns()
    ensures var line := Text.Join(SavedRow(SampleJob, t => "10/10/2026" + "," + " 8:33:05 AM"), ',');
            Csv.ReadCells(line).Some? && |Csv.ReadCells(line).value| == 8 != |SavedHeader|
  {
    SampleJobPlain();
    EnUsDatePartsPlain();
    DateCommaSplitsRow(SampleJob, t => "10/10/2026" + "," + " 8:33:05 AM", "10/10/2026", " 8:33:05 AM");
  }

  /** The row with the date cell quoted like the comment cell: the
      corrected form of SavedRow that the export below uses. */
  function SavedRowQuoted(job: Job, formatDate: int -> string): (row: seq<string>)
    ensures |row| == |SavedHeader|
    ensures row[0] == job.id && row[1] == job.author && row[2] == job.age && row[5] == job.url
    ensures row[3] == "Yes" <==> job.applied
    ensures row[3] == Csv.YesNo(job.applied)
    ensures Csv.ReadQuoted(row[4]) == Some((formatDate(job.savedAt), ""))
    ensures Csv.ReadQuoted(row[6]) == Some((job.body, ""))
  {
    SavedCellsAt(job, Csv.Quoted(formatDate(job.savedAt)));
    Csv.QuotedReadsBack(job.body);
    Csv.QuotedReadsBack(formatDate(job.savedAt));
    Csv.Encodings(SavedCells(job, Csv.Quoted(formatDate(job.savedAt))))
  }

  /** With the date quoted, a row reads back as exactly its seven values
      under the seven-column header, whatever the date text and the body
      contain, as long as id, author, age and URL hold no comma. */
  lemma SavedRowReadsBack(job: Job, formatDate: int -> string)
    requires PlainFields(job)
    ensures Csv.ReadCells(Text.Join(SavedRowQuoted(job, formatDate), ',')) ==
      Some([job.id, job.author, job.age, Csv.YesNo(job.applied)] + [formatDate(job.savedAt)] + [job.url, job.body])
  {
    var mid := [Csv.Quoted(formatDate(job.savedAt))];
    SavedCellsWritable(job, mid);
    assert SavedCells(job, mid[0]) == SavedPre(job) + mid + SavedPost(job);
    Csv.RowRoundTrip(SavedCells(job, mid[0]));
    assert Csv.Texts(mid) == [formatDate(job.savedAt)];
    Csv.EncodingsAppend(SavedPre(job) + mid, SavedPost(job));
    Csv.EncodingsAppend(SavedPre(job), mid);
    SavedTexts(job, [formatDate(job.savedAt)]);
  }

  /** No field of the job, nor its formatted date, holds a line feed. */
  predicate OneLine(job: Job, formatDate: int -> string)
  {
    && '\n' !in job.id && '\n' !in job.author && '\n' !in job.age
    && '\n' !in formatDate(job.savedAt) && '\n' !in job.url && '\n' !in job.body
  }

  lemma HeaderOneLine()
    ensures '\n' !in Text.Join(SavedHeader, ',')
  {
    Csv.OneLineJoin(SavedHeader);
  }

  /** A job without line feeds gives a one-line row, as written and as
      corrected. */
  lemma RowsOneLine(job: Job, formatDate: int -> string)
    requires OneLine(job, formatDate)
    ensures '\n' !in Text.Join(SavedRow(job, formatDate), ',')
    ensures '\n' !in Text.Join(SavedRowQuoted(job, formatDate), ',')
  {
    Csv.QuoteOneLine(formatDate(job.savedAt));
    CellsOneLine(job, Csv.Bare(formatDate(job.savedAt)));
    CellsOneLine(job, Csv.Quoted(formatDate(job.savedAt)));
  }

  /** The row around a one-line date cell, when no field holds a line feed. */
  lemma CellsOneLine(job: Job, date: Csv.Cell)
    requires '\n' !in job.id && '\n' !in job.author && '\n' !in job.age
    requires '\n' !in job.url && '\n' !in job.body && '\n' !in Csv.Encode(date)
    ensures '\n' !in Text.Join(Csv.Encodings(SavedCells(job, date)), ',')
  {
    Csv.QuoteOneLine(job.body);
    SavedCellsAt(job, date);
    var row := Csv.Encodings(SavedCells(job, date));
    assert forall i :: 0 <= i < |row| ==> '\n' !in row[i];
    Csv.OneLineJoin(row);
  }

  /** One as-written row per job, in order. */
  function SavedRows(jobs: seq<Job>, formatDate: int -> string): (rows: seq<seq<string>>)
    ensures |rows| == |jobs|
    ensures forall i :: 0 <= i < |jobs| ==> rows[i] == SavedRow(jobs[i], formatDate)
  {
    seq(|jobs|, i requires 0 <= i < |jobs| => SavedRow(jobs[i], formatDate))
  }

  /** One corrected row per job, in order. */
  function SavedRowsQuoted(jobs: seq<Job>, formatDate: int -> string): (rows: seq<seq<string>>)
    ensures |rows| == |jobs|
    ensures forall i :: 0 <= i < |jobs| ==> rows[i] == SavedRowQuoted(jobs[i], formatDate)
  {
    seq(|jobs|, i requires 0 <= i < |jobs| => SavedRowQuoted(jobs[i], formatDate))
  }

  /** The saved-jobs table as `exportCSV` builds it: the header, then one
      row per saved job in enumeration order, with the date cell bare. */
  function SavedTable(jobs: seq<Job>, formatDate: int -> string): (rows: seq<seq<string>>)
    ensures |rows| == |jobs| + 1 && rows[0] == SavedHeader
    ensures forall i :: 0 <= i < |jobs| ==> rows[i + 1] == SavedRow(jobs[i], formatDate)
  {
    Cons(SavedHeader, SavedRows(jobs, formatDate))
  }

  /** The corrected table: as SavedTable, with the date cell quoted. */
  function SavedTableQuoted(jobs: seq<Job>, formatDate: int -> string): (rows: seq<seq<string>>)
    ensures |rows| == |jobs| + 1 && rows[0] == SavedHeader
    ensures forall i :: 0 <= i < |jobs| ==> rows[i + 1] == SavedRowQuoted(jobs[i], formatDate)
  {
    Cons(SavedHeader, SavedRowsQuoted(jobs, formatDate))
  }

  /** No saved job holds a line feed. */
  ghost predicate AllOneLine(s: Store, formatDate: int -> string)
  {
    forall k :: k in s ==> OneLine(s[k], formatDate)
  }

  /** Every row of both tables is one line long when no job holds a line
      feed. */
  lemma TablesOneLine(jobs: seq<Job>, formatDate: int -> string)
    requires forall i :: 0 <= i < |jobs| ==> OneLine(jobs[i], formatDate)
    ensures forall i :: 0 <= i < |jobs| + 1 ==> '\n' !in Text.Join(SavedTable(jobs, formatDate)[i], ',')
    ensures forall i :: 0 <= i < |jobs| + 1 ==> '\n' !in Text.Join(SavedTableQuoted(jobs, formatDate)[i], ',')
  {
    HeaderOneLine();
    forall i | 0 <= i < |jobs| {
      RowsOneLine(jobs[i], formatDate);
    }
  }

  /** Serialising the as-written table of one-line jobs and splitting on
      line feeds gives the header line, then one line per job. */
  lemma TableLines(jobs: seq<Job>, formatDate: int -> string)
    requires forall i :: 0 <= i < |jobs| ==> OneLine(jobs[i], formatDate)
    ensures var lines := Text.Split(Csv.Serialize(SavedTable(jobs, formatDate)), '\n');
            && |lines| == |jobs| + 1
            && forall i :: 0 <= i < |jobs| ==> lines[i + 1] == Text.Join(SavedRow(jobs[i], formatDate), ',')
  {
    TablesOneLine(jobs, formatDate);
    var rows := SavedTable(jobs, formatDate);
    assert Text.Split(Csv.Serialize(rows), '\n') == Csv.Lines(rows);
  }

  /** As TableLines, for the corrected table. */
  lemma QuotedTableLines(jobs: seq<Job>, formatDate: int -> string)
    requires forall i :: 0 <= i < |jobs| ==> OneLine(jobs[i], formatDate)
    ensures var lines := Text.Split(Csv.Serialize(SavedTableQuoted(jobs, formatDate)), '\n');
            && |lines| == |jobs| + 1
            && forall i :: 0 <= i < |jobs| ==> lines[i + 1] == Text.Join(SavedRowQuoted(jobs[i], formatDate), ',')
  {
    TablesOneLine(jobs, formatDate);
    var fixed := SavedTableQuoted(jobs, formatDate);
    assert Text.Split(Csv.Serialize(fixed), '\n') == Csv.Lines(fixed);
  }

  /** `exportCSV` of the side panel: None (the "no saved jobs" notice) for
      an empty store, otherwise text whose first line is the header. */
  function ExportSavedCsv(s: Store, order: seq<string>, formatDate: int -> string): (r: Option<string>)
    requires Enumerates(order, s)
    ensures r.None? <==> Count(s) == 0
    ensures r.Some? ==> Text.Split(r.value, '\n')[0] == Text.Join(SavedHeader, ',')
  {
    CountIsLength(s, order);
    if |order| == 0 then
      None
    else
      HeaderOneLine();
      Some(Csv.Serialize(SavedTable(Values(s, order), formatDate)))
  }

  /** The corrected export: as ExportSavedCsv, with the date cells quoted. */
  function ExportSavedCsvQuoted(s: Store, order: seq<string>, formatDate: int -> string): (r: Option<string>)
    requires Enumerates(order, s)
    ensures r.None? <==> Count(s) == 0
    ensures r.Some? ==> Text.Split(r.value, '\n')[0] == Text.Join(SavedHeader, ',')
  {
    CountIsLength(s, order);
    if |order| == 0 then
      None
    else
      HeaderOneLine();
      Some(Csv.Serialize(SavedTableQuoted(Values(s, order), formatDate)))
  }

  /** Line by line, as written: when no job holds a line feed, the export
      has one line per saved job after the header, line i + 1 being the
      row of the i-th job in enumeration order, date cell bare. */
  lemma ExportSavedLines(s: Store, order: seq<string>, formatDate: int -> string)
    requires Enumerates(order, s) && Count(s) > 0 && AllOneLine(s, formatDate)
    ensures var lines := Text.Split(ExportSavedCsv(s, order, formatDate).value, '\n');
            && |lines| == |order| + 1
            && forall i :: 0 <= i < |order| ==> lines[i + 1] == Text.Join(SavedRow(s[order[i]], formatDate), ',')
  {
    CountIsLength(s, order);
    var jobs := Values(s, order);
    forall i | 0 <= i < |jobs| ensures OneLine(jobs[i], formatDate) {
      assert order[i] in s;
    }
    TableLines(jobs, formatDate);
  }

  /** Line by line, corrected: as ExportSavedLines, with the date cell
      quoted. */
  lemma ExportSavedQuotedLines(s: Store, order: seq<string>, formatDate: int -> string)
    requires Enumerates(order, s) && Count(s) > 0 && AllOneLine(s, formatDate)
    ensures var lines := Text.Split(ExportSavedCsvQuoted(s, order, formatDate).value, '\n');
            && |lines| == |order| + 1
            && forall i :: 0 <= i < |order| ==> lines[i + 1] == Text.Join(SavedRowQuoted(s[order[i]], formatDate), ',')
  {
    CountIsLength(s, order);
    var jobs := Values(s, order);
    forall i | 0 <= i < |jobs| ensures OneLine(jobs[i], formatDate) {
      assert order[i] in s;
    }
    QuotedTableLines(jobs, formatDate);
  }

  /** The count the panel shows is the number of jobs `Object.values` lists. */
  lemma CountIsLength(s: Store, order: seq<string>)
    requires Enumerates(order, s)
    ensures Count(s) == |order|
  {
    NoDupCard(order);
    assert s.Keys == set x | x in order;
  }

  /** End to end, corrected: every line after the header of the corrected
      export reads back as exactly the seven values of its job, when no job
      holds a line feed and id, author, age and URL hold no comma. */
  lemma SavedExportReadsBack(s: Store, order: seq<string>, formatDate: int -> string)
    requires Enumerates(order, s) && Count(s) > 0
    requires AllOneLine(s, formatDate)
    requires forall k :: k in s ==> PlainFields(s[k])
    ensures var lines := Text.Split(ExportSavedCsvQuoted(s, order, formatDate).value, '\n');
            && |lines| == |order| + 1
            && forall i :: 0 <= i < |order| ==>
                 var job := s[order[i]];
                 Csv.ReadCells(lines[i + 1]) ==
                   Some([job.id, job.author, job.age, Csv.YesNo(job.applied)] + [formatDate(job.savedAt)] + [job.url, job.body])
  {
    ExportSavedQuotedLines(s, order, formatDate);
    forall i | 0 <= i < |order|
      ensures Csv.ReadCells(Text.Join(SavedRowQuoted(s[order[i]], formatDate), ',')) ==
                Some([s[order[i]].id, s[order[i]].author, s[order[i]].age, Csv.YesNo(s[order[i]].applied)] +
                     [formatDate(s[order[i]].savedAt)] + [s[order[i]].url, s[order[i]].body])
    {
      assert order[i] in s;
      SavedRowReadsBack(s[order[i]], formatDate);
    }
  }
}

/** The comma-separated-values conventions both exporters share: a quoted
    free-text field with embedded quotes doubled, `Yes`/`No` flag cells,
    cells joined by `,` and rows joined by a line feed. */
module Csv {
  import opened Wrappers
  import Text

  /** Number of occurrences of `c` in `s`. */
  function Occurrences(s: string, c: char): nat
  {
    if |s| == 0 then 0 else (if s[0] == c then 1 else 0) + Occurrences(s[1..], c)
  }

  /** `s.replace(/"/g, '""')`: every quote becomes two quotes and every
      other character is kept, so the result grows by one character per
      quote. */
  function DoubleQuotes(s: string): (r: string)
    ensures |r| == |s| + Occurrences(s, '"')
    ensures '"' !in s ==> r == s
  {
    if |s| == 0 then ""
    else (if s[0] == '"' then "\"\"" else [s[0]]) + DoubleQuotes(s[1..])
  }

  /** A free-text cell: wrapped in quotes, inner quotes doubled. */
  function Quote(s: string): (r: string)
    ensures |r| == |s| + Occurrences(s, '"') + 2
    ensures r[0] == '"' && r[|r| - 1] == '"'
  {
    "\"" + DoubleQuotes(s) + "\""
  }

  /** How a flag is written in a cell. */
  function YesNo(b: bool): string
  {
    if b then "Yes" else "No"
  }

  lemma YesNoOneLine(t: string)
    requires t == "Yes" || t == "No"
    ensures '\n' !in t
  {
  }

  /** The reader side of the quoting convention: after an opening quote,
      `""` stands for one quote and a lone `"` closes the cell. Returns the
      cell's text and whatever follows the closing quote, or None when the
      cell is never closed. */
  function ReadQuotedTail(t: string): (r: Option<(string, string)>)
    ensures r.Some? ==> |r.value.1| < |t|
  {
    if |t| == 0 then None
    else if t[0] == '"' then
      if |t| > 1 && t[1] == '"' then
        match ReadQuotedTail(t[2..])
        case Some((v, rest)) => Some(("\"" + v, rest))
        case None => None
      else Some(("", t[1..]))
    else
      match ReadQuotedTail(t[1..])
      case Some((v, rest)) => Some(([t[0]] + v, rest))
      case None => None
  }

  /** Reads one quoted cell from the front of `s`. */
  function ReadQuoted(s: string): (r: Option<(string, string)>)
    ensures r.Some? ==> |r.value.1| < |s|
  {
    if |s| > 0 && s[0] == '"' then ReadQuotedTail(s[1..]) else None
  }

  /** A doubled quote reads as one quote of the cell. */
  lemma ReadPair(tail: string, v: string, rest: string)
    requires ReadQuotedTail(tail) == Some((v, rest))
    ensures ReadQuotedTail("\"\"" + tail) == Some(("\"" + v, rest))
  {
    var t := "\"\"" + tail;
    assert t[0] == '"' && t[1] == '"' && t[2..] == tail;
  }

  /** Any other character reads as itself. */
  lemma ReadPlain(c: char, tail: string, v: string, rest: string)
    requires c != '"' && ReadQuotedTail(tail) == Some((v, rest))
    ensures ReadQuotedTail([c] + tail) == Some(([c] + v, rest))
  {
    var t := [c] + tail;
    assert t[0] == c && t[1..] == tail;
  }

  /** One more character in front of the cell text, doubled if a quote. */
  lemma DoubleQuotesCons(c: char, b: string)
    ensures DoubleQuotes([c] + b) == (if c == '"' then "\"\"" else [c]) + DoubleQuotes(b)
  {
    assert ([c] + b)[0] == c && ([c] + b)[1..] == b;
  }

  lemma ReadDoubledStep(c: char, b: string, rest: string)
    requires ReadQuotedTail(DoubleQuotes(b) + "\"" + rest) == Some((b, rest))
    ensures ReadQuotedTail(DoubleQuotes([c] + b) + "\"" + rest) == Some(([c] + b, rest))
  {
    DoubleQuotesCons(c, b);
    var tail := DoubleQuotes(b) + "\"" + rest;
    if c == '"' {
      ReadDoubledQuote(b, tail, rest);
    } else {
      ReadDoubledPlain(c, b, tail, rest);
    }
  }

  lemma ReadDoubledQuote(b: string, tail: string, rest: string)
    requires tail == DoubleQuotes(b) + "\"" + rest
    requires ReadQuotedTail(tail) == Some((b, rest))
    ensures ReadQuotedTail("\"\"" + DoubleQuotes(b) + "\"" + rest) == Some(("\"" + b, rest))
  {
    assert "\"\"" + DoubleQuotes(b) + "\"" + rest == "\"\"" + tail;
    ReadPair(tail, b, rest);
  }

  lemma ReadDoubledPlain(c: char, b: string, tail: string, rest: string)
    requires c != '"' && tail == DoubleQuotes(b) + "\"" + rest
    requires ReadQuotedTail(tail) == Some((b, rest))
    ensures ReadQuotedTail([c] + DoubleQuotes(b) + "\"" + rest) == Some(([c] + b, rest))
  {
    assert [c] + DoubleQuotes(b) + "\"" + rest == [c] + tail;
    ReadPlain(c, tail, b, rest);
  }

  lemma {:induction false} ReadDoubled(b: string, rest: string)
    requires rest == [] || rest[0] != '"'
    ensures ReadQuotedTail(DoubleQuotes(b) + "\"" + rest) == Some((b, rest))
    decreases |b|
  {
    if |b| == 0 {
      assert DoubleQuotes(b) + "\"" + rest == "\"" + rest;
      assert ("\"" + rest)[1..] == rest;
    } else {
      ReadDoubled(b[1..], rest);
      ReadDoubledStep(b[0], b[1..], rest);
      assert [b[0]] + b[1..] == b;
    }
  }

  /** A quoted cell reads back as exactly the original text, whatever it
      contains (quotes, commas, line breaks), provided what follows does not
      start with a quote: in a row it is followed by `,`, a line feed or
      the end of the text. */
  lemma QuoteRoundTrip(b: string, rest: string)
    requires rest == [] || rest[0] != '"'
    ensures ReadQuoted(Quote(b) + rest) == Some((b, rest))
  {
    ReadDoubled(b, rest);
    assert Quote(b) + rest == "\"" + (DoubleQuotes(b) + "\"" + rest);
  }

  /** A quoted field on its own reads back whole, with nothing left over. */
  lemma QuotedReadsBack(b: string)
    ensures ReadQuoted(Quote(b)) == Some((b, ""))
  {
    QuoteRoundTrip(b, "");
    assert Quote(b) + "" == Quote(b);
  }

  /** Length of the bare cell at the front of `s`: everything up to the
      first comma. */
  function BareLength(s: string): (n: nat)
    ensures n <= |s| && (n == |s| || s[n] == ',')
    ensures forall i :: 0 <= i < n ==> s[i] != ','
  {
    if |s| == 0 || s[0] == ',' then 0 else 1 + BareLength(s[1..])
  }

  /** How a spreadsheet reads one line of cells: a cell that starts with a
      quote is a quoted cell and must end at a comma or at the end of the
      line; any other cell is bare and runs to the next comma. None for a
      malformed quoted cell. */
  function ReadCells(line: string): Option<seq<string>>
    decreases |line|
  {
    if |line| > 0 && line[0] == '"' then
      match ReadQuoted(line)
      case None => None
      case Some((v, rest)) =>
        if |rest| == 0 then Some([v])
        else if rest[0] != ',' then None
        else
          match ReadCells(rest[1..])
          case None => None
          case Some(cells) => Some([v] + cells)
    else
      var n := BareLength(line);
      if n == |line| then Some([line])
      else
        match ReadCells(line[n + 1..])
        case None => None
        case Some(cells) => Some([line[..n]] + cells)
  }

  /** A cell as written: bare text, or text wrapped by `Quote`. */
  datatype Cell = Bare(text: string) | Quoted(text: string)

  function Encode(c: Cell): string
  {
    match c
    case Bare(t) => t
    case Quoted(t) => Quote(t)
  }

  /** Text that can be written bare: no comma, and no quote in front. */
  predicate BareSafe(t: string)
  {
    ',' !in t && (t == [] || t[0] != '"')
  }

  predicate Writable(c: Cell)
  {
    c.Quoted? || BareSafe(c.text)
  }

  function Encodings(cells: seq<Cell>): (parts: seq<string>)
    ensures |parts| == |cells|
    ensures forall i :: 0 <= i < |cells| ==> parts[i] == Encode(cells[i])
  {
    seq(|cells|, i requires 0 <= i < |cells| => Encode(cells[i]))
  }

  function Texts(cells: seq<Cell>): (texts: seq<string>)
    ensures |texts| == |cells|
    ensures forall i :: 0 <= i < |cells| ==> texts[i] == cells[i].text
  {
    seq(|cells|, i requires 0 <= i < |cells| => cells[i].text)
  }

  lemma {:induction false} BareLengthOf(t: string, rest: string)
    requires ',' !in t && (rest == [] || rest[0] == ',')
    ensures BareLength(t + rest) == |t|
    decreases |t|
  {
    if |t| > 0 {
      BareLengthOf(t[1..], rest);
      assert (t + rest)[1..] == t[1..] + rest;
    } else {
      assert t + rest == rest;
    }
  }

  /** What may follow a cell on a line: nothing, or a comma and a line
      that reads back as `cells`. */
  ghost predicate Follows(rest: string, cells: seq<string>)
  {
    (rest == [] && cells == []) || (|rest| > 0 && rest[0] == ',' && ReadCells(rest[1..]) == Some(cells))
  }

  lemma ReadQuotedCell(t: string, rest: string, cells: seq<string>)
    requires Follows(rest, cells)
    ensures ReadCells(Quote(t) + rest) == Some([t] + cells)
  {
    var line := Quote(t) + rest;
    QuoteRoundTrip(t, rest);
    assert line[0] == '"';
    assert ReadQuoted(line) == Some((t, rest));
    if rest == [] {
      assert [t] + cells == [t];
    }
  }

  lemma ReadBareCell(t: string, rest: string, cells: seq<string>)
    requires BareSafe(t) && Follows(rest, cells)
    ensures ReadCells(t + rest) == Some([t] + cells)
  {
    var line := t + rest;
    BareLengthOf(t, rest);
    assert |line| == 0 || line[0] != '"';
    if rest == [] {
      assert line == t;
      assert [t] + cells == [t];
    } else {
      assert line[..|t|] == t;
      assert line[|t| + 1..] == rest[1..];
    }
  }

  /** One cell in front of the rest of a line reads back as its text. */
  lemma ReadFirstCell(c: Cell, rest: string, cells: seq<string>)
    requires Writable(c) && Follows(rest, cells)
    ensures ReadCells(Encode(c) + rest) == Some([c.text] + cells)
  {
    match c
    case Quoted(t) => ReadQuotedCell(t, rest, cells);
    case Bare(t) => ReadBareCell(t, rest, cells);
  }

  lemma EncodingsCons(cells: seq<Cell>)
    requires |cells| >= 1
    ensures Encodings(cells) == [Encode(cells[0])] + Encodings(cells[1..])
    ensures Texts(cells) == [cells[0].text] + Texts(cells[1..])
  {
  }

  lemma EncodingsAppend(a: seq<Cell>, b: seq<Cell>)
    ensures Encodings(a + b) == Encodings(a) + Encodings(b)
    ensures Texts(a + b) == Texts(a) + Texts(b)
  {
  }

  /** A bare cell whose text holds a comma is written exactly like the two
      bare cells on either side of that comma. */
  lemma SplitBareCell(pre: seq<Cell>, d1: string, d2: string, post: seq<Cell>)
    ensures Text.Join(Encodings(pre + [Bare(d1 + [','] + d2)] + post), ',') ==
            Text.Join(Encodings(pre + [Bare(d1), Bare(d2)] + post), ',')
  {
    EncodingsAppend(pre + [Bare(d1 + [','] + d2)], post);
    EncodingsAppend(pre, [Bare(d1 + [','] + d2)]);
    EncodingsAppend(pre + [Bare(d1), Bare(d2)], post);
    EncodingsAppend(pre, [Bare(d1), Bare(d2)]);
    assert Encodings([Bare(d1 + [','] + d2)]) == [d1 + [','] + d2];
    assert Encodings([Bare(d1), Bare(d2)]) == [d1, d2];
    Text.JoinSplitPiece(Encodings(pre), d1, d2, Encodings(post), ',');
  }

  /** Writing a row of writable cells with commas and reading the line back
      gives exactly the cells' texts, whatever the quoted texts contain. */
  lemma {:induction false} RowRoundTrip(cells: seq<Cell>)
    requires |cells| >= 1
    requires forall i :: 0 <= i < |cells| ==> Writable(cells[i])
    ensures ReadCells(Text.Join(Encodings(cells), ',')) == Some(Texts(cells))
    decreases |cells|
  {
    if |cells| == 1 {
      RowRoundTripOne(cells);
    } else {
      var tail := cells[1..];
      assert forall i :: 0 <= i < |tail| ==> Writable(tail[i]) by {
        forall i | 0 <= i < |tail| ensures Writable(tail[i]) {
          assert tail[i] == cells[i + 1];
        }
      }
      RowRoundTrip(tail);
      RowRoundTripCons(cells);
    }
  }

  lemma RowRoundTripOne(cells: seq<Cell>)
    requires |cells| == 1 && Writable(cells[0])
    ensures ReadCells(Text.Join(Encodings(cells), ',')) == Some(Texts(cells))
  {
    var head := cells[0];
    EncodingsCons(cells);
    assert Encodings(cells) == [Encode(head)];
    assert Texts(cells) == [head.text];
    ReadFirstCell(head, [], []);
    assert Encode(head) + [] == Encode(head);
  }

  /** The step of RowRoundTrip: one more writable cell in front. */
  lemma RowRoundTripCons(cells: seq<Cell>)
    requires |cells| >= 2 && Writable(cells[0])
    requires ReadCells(Text.Join(Encodings(cells[1..]), ',')) == Some(Texts(cells[1..]))
    ensures ReadCells(Text.Join(Encodings(cells), ',')) == Some(Texts(cells))
  {
    var head, tail := cells[0], cells[1..];
    EncodingsCons(cells);
    var parts := Encodings(cells);
    assert parts[0] == Encode(head) && parts[1..] == Encodings(tail);
    var line := Text.Join(Encodings(tail), ',');
    var rest := [','] + line;
    assert rest[1..] == line;
    ReadFirstCell(head, rest, Texts(tail));
    assert Text.Join(parts, ',') == Encode(head) + rest;
  }

  /** The lines of a table: each row's cells joined with commas. */
  function Lines(rows: seq<seq<string>>): (lines: seq<string>)
    ensures |lines| == |rows|
    ensures forall i :: 0 <= i < |rows| ==> lines[i] == Text.Join(rows[i], ',')
  {
    seq(|rows|, i requires 0 <= i < |rows| => Text.Join(rows[i], ','))
  }

  /** `rows.map(row => row.join(',')).join('\n')`. Splitting the text on
      line feeds gives back the first line whenever that line holds no line
      feed, and gives back every line when none does. */
  function Serialize(rows: seq<seq<string>>): (r: string)
    ensures |rows| > 0 && '\n' !in Text.Join(rows[0], ',') ==>
              Text.Split(r, '\n')[0] == Text.Join(rows[0], ',')
    ensures |rows| > 0 && (forall i :: 0 <= i < |rows| ==> '\n' !in Text.Join(rows[i], ',')) ==>
              Text.Split(r, '\n') == Lines(rows)
  {
    var lines := Lines(rows);
    SplitLines(lines);
    Text.Join(lines, '\n')
  }

  lemma SplitLines(lines: seq<string>)
    ensures |lines| > 0 && '\n' !in lines[0] ==> Text.Split(Text.Join(lines, '\n'), '\n')[0] == lines[0]
    ensures |lines| > 0 && (forall i :: 0 <= i < |lines| ==> '\n' !in lines[i]) ==>
              Text.Split(Text.Join(lines, '\n'), '\n') == lines
  {
    if |lines| > 0 && '\n' !in lines[0] {
      Text.SplitFirst(lines, '\n');
      if forall i :: 0 <= i < |lines| ==> '\n' !in lines[i] {
        Text.SplitJoin(lines, '\n');
      }
    }
  }

  /** Cells free of line feeds join to a line free of line feeds. */
  lemma OneLineJoin(cells: seq<string>)
    requires forall i :: 0 <= i < |cells| ==> '\n' !in cells[i]
    ensures '\n' !in Text.Join(cells, ',')
  {
    if '\n' in Text.Join(cells, ',') {
      Text.JoinChars(cells, ',', '\n');
      assert false;
    }
  }

  /** Every character of a quoted cell is a quote or comes from the text. */
  lemma {:induction false} DoubleQuotesChars(t: string, ch: char)
    requires ch in DoubleQuotes(t)
    ensures ch == '"' || ch in t
    decreases |t|
  {
    if |t| > 0 {
      DoubleQuotesCons(t[0], t[1..]);
      assert [t[0]] + t[1..] == t;
      if ch !in (if t[0] == '"' then "\"\"" else [t[0]]) {
        DoubleQuotesChars(t[1..], ch);
      }
    }
  }

  lemma QuoteOneLine(t: string)
    requires '\n' !in t
    ensures '\n' !in Quote(t)
  {
    if '\n' in Quote(t) {
      assert Quote(t) == "\"" + DoubleQuotes(t) + "\"";
      assert '\n' in DoubleQuotes(t);
      DoubleQuotesChars(t, '\n');
      assert false;
    }
  }

  /** Cells whose texts hold no line feed encode to a line free of them. */
  lemma EncodingsOneLine(cells: seq<Cell>)
    requires forall i :: 0 <= i < |cells| ==> '\n' !in cells[i].text
    ensures '\n' !in Text.Join(Encodings(cells), ',')
  {
    var parts := Encodings(cells);
    forall i | 0 <= i < |parts| ensures '\n' !in parts[i] {
      if cells[i].Quoted? {
        QuoteOneLine(cells[i].text);
      }
    }
    OneLineJoin(parts);
  }
}

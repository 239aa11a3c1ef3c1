/** The reading side of the vault format: the text split into lines, each
    line split into cells by the `;`-delimited reader, and the header-keyed
    lookup of a record's cells. */
module Csv {
  import opened Common
  import opened Text

  // ----- Lines (text-mode reading: "\n", "\r\n" and a lone "\r" end a line) -----

  predicate IsBreak(c: char) { c == '\n' || c == '\r' }

  predicate NoBreak(s: string) { forall i :: 0 <= i < |s| ==> !IsBreak(s[i]) }

  /** Index of the first line break of `t`, or `|t|` when there is none. */
  function LineEnd(t: string): (n: nat)
    ensures n <= |t| && NoBreak(t[..n])
    ensures n < |t| ==> IsBreak(t[n])
  {
    if t == [] || IsBreak(t[0]) then 0
    else
      var n := 1 + LineEnd(t[1..]);
      assert t[..n] == [t[0]] + t[1..][..n - 1];
      n
  }

  /** The lines of a text; a last line without terminator still counts and a
      terminator at the very end does not start an extra empty line. */
  function SplitLines(t: string): (lines: seq<string>)
    ensures forall i :: 0 <= i < |lines| ==> NoBreak(lines[i])
    decreases |t|
  {
    if t == [] then []
    else
      var n := LineEnd(t);
      var next := if n == |t| then n
                  else if t[n] == '\r' && n + 1 < |t| && t[n + 1] == '\n' then n + 2
                  else n + 1;
      [t[..n]] + SplitLines(t[next..])
  }

  /** A line without breaks ends where the following break starts. */
  lemma {:induction false} LineEndAt(l: string, tail: string)
    requires NoBreak(l) && |tail| > 0 && IsBreak(tail[0])
    ensures LineEnd(l + tail) == |l|
    decreases |l|
  {
    if l == [] {
      assert l + tail == tail;
    } else {
      assert (l + tail)[0] == l[0] && (l + tail)[1..] == l[1..] + tail;
      assert NoBreak(l[1..]) by {
        forall i | 0 <= i < |l[1..]| ensures !IsBreak(l[1..][i]) { assert l[1..][i] == l[i + 1]; }
      }
      assert !IsBreak(l[0]);
      LineEndAt(l[1..], tail);
    }
  }

  /** "\n" ends a line. */
  lemma SplitAtLf(l: string, rest: string)
    requires NoBreak(l)
    ensures SplitLines(l + "\n" + rest) == [l] + SplitLines(rest)
  {
    var t := l + "\n" + rest;
    assert t == l + ("\n" + rest);
    LineEndAt(l, "\n" + rest);
    assert t[..|l|] == l && t[|l|] == '\n';
    assert t[|l| + 1..] == rest;
  }

  /** "\r\n" ends a line as one terminator: no empty line follows. */
  lemma SplitAtCrLf(l: string, rest: string)
    requires NoBreak(l)
    ensures SplitLines(l + "\r\n" + rest) == [l] + SplitLines(rest)
  {
    var t := l + "\r\n" + rest;
    assert t == l + ("\r\n" + rest);
    LineEndAt(l, "\r\n" + rest);
    assert t[..|l|] == l && t[|l|] == '\r' && t[|l| + 1] == '\n';
    assert t[|l| + 2..] == rest;
  }

  /** A "\r" not followed by "\n" ends a line on its own. */
  lemma SplitAtLoneCr(l: string, rest: string)
    requires NoBreak(l)
    requires rest == [] || rest[0] != '\n'
    ensures SplitLines(l + "\r" + rest) == [l] + SplitLines(rest)
  {
    var t := l + "\r" + rest;
    assert t == l + ("\r" + rest);
    LineEndAt(l, "\r" + rest);
    assert t[..|l|] == l && t[|l|] == '\r';
    assert t[|l| + 1..] == rest;
  }

  // ----- Cells of one line -----

  /** Where the reader is within the current cell. */
  datatype ReadState = StartField | InField | InQuotedField | QuoteInQuotedField

  /** The cells of the rest of a line, reading from state `st` with the text
      of the current cell so far in `cell`. A `"` opens a quoted cell only at
      the start of a cell; inside one, `""` is a literal quote and a single
      `"` closes it; text after the closing quote is kept; an unclosed quote
      ends with the line. */
  function Fields(s: string, st: ReadState, cell: string): (cells: seq<string>)
    ensures |cells| > 0
    decreases |s|
  {
    if s == [] then [cell]
    else
      var c, rest := s[0], s[1..];
      match st
      case StartField =>
        if c == '"' then Fields(rest, InQuotedField, cell)
        else if c == ';' then [cell] + Fields(rest, StartField, "")
        else Fields(rest, InField, cell + [c])
      case InField =>
        if c == ';' then [cell] + Fields(rest, StartField, "")
        else Fields(rest, InField, cell + [c])
      case InQuotedField =>
        if c == '"' then Fields(rest, QuoteInQuotedField, cell)
        else Fields(rest, InQuotedField, cell + [c])
      case QuoteInQuotedField =>
        if c == '"' then Fields(rest, InQuotedField, cell + ['"'])
        else if c == ';' then [cell] + Fields(rest, StartField, "")
        else Fields(rest, InField, cell + [c])
  }

  /** The row the reader yields for one line; an empty line gives no cells. */
  function ParseRow(line: string): (row: seq<string>)
    ensures row == [] <==> line == []
  {
    if line == [] then [] else Fields(line, StartField, "")
  }

  // ----- Cells as the writer produces them -----

  predicate NoDelimiterOrQuote(s: string) { !HasChar(s, ';') && !HasChar(s, '"') }

  /** A cell written bare: no delimiter and no quote. */
  predicate PlainCell(c: string) { NoDelimiterOrQuote(c) }

  /** A cell written between quotes, with no quote inside. */
  predicate QuotedCell(c: string)
  {
    |c| >= 2 && c[0] == '"' && c[|c| - 1] == '"' && !HasChar(c[1..|c| - 1], '"')
  }

  predicate WellFormedCell(c: string) { PlainCell(c) || QuotedCell(c) }

  /** What the reader makes of a well-formed cell: the quotes are dropped. */
  function CellValue(c: string): string
  {
    if QuotedCell(c) then c[1..|c| - 1] else c
  }

  lemma {:induction false} PlainRun(p: string, cell: string, rest: string)
    requires NoDelimiterOrQuote(p)
    ensures Fields(p + rest, InField, cell) == Fields(rest, InField, cell + p)
    decreases |p|
  {
    if p != [] {
      assert (p + rest)[1..] == p[1..] + rest;
      assert !HasChar(p[1..], ';') && !HasChar(p[1..], '"') by {
        forall i | 0 <= i < |p[1..]| ensures p[1..][i] == p[i + 1] { }
      }
      assert p[0] != ';' && p[0] != '"' by { assert p[0] == p[0]; }
      PlainRun(p[1..], cell + [p[0]], rest);
      assert cell + [p[0]] + p[1..] == cell + p;
    } else {
      assert p + rest == rest;
      assert cell + p == cell;
    }
  }

  lemma {:induction false} QuotedRun(q: string, cell: string, rest: string)
    requires !HasChar(q, '"')
    ensures Fields(q + rest, InQuotedField, cell) == Fields(rest, InQuotedField, cell + q)
    decreases |q|
  {
    if q != [] {
      assert (q + rest)[1..] == q[1..] + rest;
      assert !HasChar(q[1..], '"') by {
        forall i | 0 <= i < |q[1..]| ensures q[1..][i] == q[i + 1] { }
      }
      assert q[0] != '"' by { assert q[0] == q[0]; }
      QuotedRun(q[1..], cell + [q[0]], rest);
      assert cell + [q[0]] + q[1..] == cell + q;
    } else {
      assert q + rest == rest;
      assert cell + q == cell;
    }
  }

  /** At the end of a cell, the end of the line or a delimiter closes it. */
  lemma CellEnds(st: ReadState, cell: string, rest: Option<string>)
    requires st != InQuotedField
    ensures rest.None? ==> Fields([], st, cell) == [cell]
    ensures rest.Some? ==> Fields([';'] + rest.value, st, cell) == [cell] + Fields(rest.value, StartField, "")
  {
    if rest.Some? {
      assert ([';'] + rest.value)[1..] == rest.value;
    }
  }

  /** Reading a quoted cell leaves the reader just after its closing quote. */
  lemma QuotedCellRead(c: string, tail: string)
    requires QuotedCell(c)
    ensures Fields(c + tail, StartField, "") == Fields(tail, QuoteInQuotedField, CellValue(c))
  {
    var q := c[1..|c| - 1];
    assert c == ['"'] + q + ['"'];
    assert (c + tail)[1..] == q + (['"'] + tail);
    QuotedRun(q, "", ['"'] + tail);
    assert "" + q == q;
    assert (['"'] + tail)[1..] == tail;
  }

  /** Reading a non-empty bare cell leaves the reader inside it, with its text. */
  lemma PlainCellRead(c: string, tail: string)
    requires PlainCell(c) && c != []
    ensures Fields(c + tail, StartField, "") == Fields(tail, InField, c)
  {
    assert c[0] != '"' && c[0] != ';' by { assert c[0] == c[0]; }
    assert !HasChar(c[1..], ';') && !HasChar(c[1..], '"') by {
      forall i | 0 <= i < |c[1..]| ensures c[1..][i] == c[i + 1] { }
    }
    assert (c + tail)[1..] == c[1..] + tail;
    assert (c + tail)[0] == c[0];
    assert "" + [c[0]] == [c[0]];
    PlainRun(c[1..], [c[0]], tail);
    assert [c[0]] + c[1..] == c;
  }

  /** A well-formed cell followed by the rest of the line after a delimiter,
      or by the end of the line: the reader yields the cell's value and then
      goes on from the start of the next cell. `rest == None` is the end of
      the line. */
  lemma CellThenRest(c: string, rest: Option<string>)
    requires WellFormedCell(c)
    ensures rest.None? ==> Fields(c, StartField, "") == [CellValue(c)]
    ensures rest.Some? ==>
      Fields(c + [';'] + rest.value, StartField, "") == [CellValue(c)] + Fields(rest.value, StartField, "")
  {
    var tail: string := if rest.Some? then [';'] + rest.value else [];
    assert c + tail == if rest.Some? then c + [';'] + rest.value else c;
    if QuotedCell(c) {
      QuotedCellRead(c, tail);
      CellEnds(QuoteInQuotedField, CellValue(c), rest);
    } else if c == [] {
      assert c + tail == tail;
      CellEnds(StartField, "", rest);
    } else {
      PlainCellRead(c, tail);
      CellEnds(InField, c, rest);
    }
  }

  /** The reader inverts the writer: a line made of well-formed cells joined
      by `;` reads back as the cells' values. */
  lemma {:induction false} ParseJoined(cells: seq<string>)
    requires |cells| > 0
    requires forall i :: 0 <= i < |cells| ==> WellFormedCell(cells[i])
    ensures Fields(Join(cells, ";"), StartField, "") ==
      seq(|cells|, i requires 0 <= i < |cells| => CellValue(cells[i]))
  {
    if |cells| == 1 {
      CellThenRest(cells[0], None);
    } else {
      var rest := Join(cells[1..], ";");
      assert Join(cells, ";") == cells[0] + [';'] + rest;
      CellThenRest(cells[0], Some(rest));
      ParseJoined(cells[1..]);
    }
  }

  // ----- Header-keyed records -----

  /** A record's entry for one column name: the name is not in the header
      (KeyError), the record is too short to reach it (None), or its text. */
  datatype Entry = KeyMissing | ShortRow | Val(text: string)

  /** Position of the last occurrence of `key` in `names`, or -1. */
  function LastIndexOf(names: seq<string>, key: string): (j: int)
    ensures -1 <= j < |names|
    ensures j >= 0 ==> names[j] == key
    ensures forall k :: j < k < |names| ==> names[k] != key
  {
    if names == [] then -1
    else if names[|names| - 1] == key then |names| - 1
    else LastIndexOf(names[..|names| - 1], key)
  }

  /** `record[key]` for the dictionary a header-keyed reader builds from the
      header `names` and the row's cells: when a name repeats, its last
      position decides; a position past the end of the row gives None. */
  function Lookup(names: seq<string>, row: seq<string>, key: string): (e: Entry)
    ensures e == KeyMissing <==> key !in names
    ensures e.Val? ==> e.text in row
  {
    var j := LastIndexOf(names, key);
    if j < 0 then KeyMissing else if j < |row| then Val(row[j]) else ShortRow
  }

  /** The header of a text's lines: the cells of the first line. */
  function HeaderOf(lines: seq<string>): (names: seq<string>)
    ensures names == [] <==> lines == [] || lines[0] == []
  {
    if lines == [] then [] else ParseRow(lines[0])
  }

  /** The rows the reader yields after the header, skipping empty lines. */
  function DataRows(lines: seq<string>): (rows: seq<seq<string>>)
    ensures forall i :: 0 <= i < |rows| ==> rows[i] != []
    ensures |rows| <= |lines| && (|lines| > 0 ==> |rows| < |lines|)
  {
    if |lines| <= 1 then []
    else
      var last := ParseRow(lines[|lines| - 1]);
      DataRows(lines[..|lines| - 1]) + (if last == [] then [] else [last])
  }
}

/** The parser that turns the rubric reply of the language model, a
    pipe-delimited text table, into a header and rows of cells
    (app.py, lines 89-100). A reply with no meaningful line has no header and
    the parse fails, where app.py raises IndexError at line 94. */
module TableParser {
  import opened Wrappers
  import opened TextSplit

  /** The `|`-separated fields of one reply line. */
  type Fields = seq<string>

  /** A reshaped content row: a cell is `None` where the line was too short. */
  type Row = seq<Option<string>>

  /** What is handed to the table display: the column names and the rows. */
  datatype Table = Table(header: Fields, rows: seq<Row>)

  /** The only two field values the blank-line filter treats as empty. */
  predicate IsBlank(field: string)
  {
    field == "" || field == " "
  }

  /** A line is kept when at least one of its fields is not blank. */
  predicate HasContent(fields: Fields)
  {
    exists i :: 0 <= i < |fields| && !IsBlank(fields[i])
  }

  /** The reply split on newlines, then each line split on `|`. */
  function ReplyLines(reply: string): seq<Fields>
  {
    var lines := Split(reply, '\n');
    seq(|lines|, i requires 0 <= i < |lines| => Split(lines[i], '|'))
  }

  /** Line 89 keeps every newline-separated line, so a reply with k newlines
      has k + 1 lines; line 90 splits each of them on every `|`, so no field
      holds a `|`. */
  lemma {:induction false} ReplyLinesFields(reply: string)
    ensures |ReplyLines(reply)| == Count(reply, '\n') + 1
    ensures forall i, j :: 0 <= i < |ReplyLines(reply)| && 0 <= j < |ReplyLines(reply)[i]| ==>
              '|' !in ReplyLines(reply)[i][j]
  {
    var lines := Split(reply, '\n');
    SplitCount(reply, '\n');
    forall i | 0 <= i < |lines|
      ensures forall j :: 0 <= j < |Split(lines[i], '|')| ==> '|' !in Split(lines[i], '|')[j]
    {
      SplitFieldsFree(lines[i], '|');
    }
  }

  /** The list comprehension that drops the blank lines. */
  function DropBlankLines(lines: seq<Fields>): (kept: seq<Fields>)
    ensures |kept| <= |lines|
    ensures forall k :: 0 <= k < |kept| ==> HasContent(kept[k])
  {
    if |lines| == 0 then []
    else
      var rest := DropBlankLines(lines[1..]);
      if HasContent(lines[0]) then [lines[0]] + rest else rest
  }

  /** The field values of a line as cells. */
  function Cells(fields: Fields): Row
  {
    seq(|fields|, i requires 0 <= i < |fields| => Some(fields[i]))
  }

  /** One content line cut to, or padded with `None` up to, the header's width. */
  function Reshape(fields: Fields, width: nat): (row: Row)
    ensures |row| == width
    ensures forall j :: 0 <= j < width ==> row[j] == if j < |fields| then Some(fields[j]) else None
  {
    if |fields| < width then Cells(fields) + seq(width - |fields|, _ => None)
    else Cells(fields[..width])
  }

  /** Every content line reshaped to the same width. */
  function ReshapeAll(content: seq<Fields>, width: nat): (rows: seq<Row>)
    ensures |rows| == |content|
    ensures forall k :: 0 <= k < |rows| ==> |rows[k]| == width
  {
    seq(|content|, k requires 0 <= k < |content| => Reshape(content[k], width))
  }

  /** Lines 94-100 on the split reply: no table when no line has content;
      otherwise every row is exactly as wide as the header. */
  function TableOf(lines: seq<Fields>): (t: Option<Table>)
    ensures t.None? <==> forall i :: 0 <= i < |lines| ==> !HasContent(lines[i])
    ensures t.Some? ==> forall k :: 0 <= k < |t.value.rows| ==> |t.value.rows[k]| == |t.value.header|
  {
    DropBlankLinesNone(lines);
    var kept := DropBlankLines(lines);
    if |kept| == 0 then None
    else Some(Table(kept[0], ReshapeAll(kept[1..], |kept[0]|)))
  }

  /** Lines 89-100: the reply has no table exactly when none of its lines has
      a field other than "" and " "; otherwise every row is exactly as wide as
      the header. */
  function ParseTable(reply: string): (t: Option<Table>)
    ensures t.None? <==> forall i :: 0 <= i < |ReplyLines(reply)| ==> !HasContent(ReplyLines(reply)[i])
    ensures t.Some? ==> forall k :: 0 <= k < |t.value.rows| ==> |t.value.rows[k]| == |t.value.header|
  {
    TableOf(ReplyLines(reply))
  }

  /** Nothing survives the filter exactly when no line has content. */
  lemma {:induction false} DropBlankLinesNone(lines: seq<Fields>)
    ensures DropBlankLines(lines) == [] <==> forall i :: 0 <= i < |lines| ==> !HasContent(lines[i])
  {
    if |lines| > 0 {
      DropBlankLinesNone(lines[1..]);
      assert forall i :: 1 <= i < |lines| ==> lines[i] == lines[1..][i - 1];
    }
  }

  /** A line survives the filter iff it occurs in the input and has content. */
  lemma {:induction false} DropBlankLinesMember(lines: seq<Fields>, line: Fields)
    ensures line in DropBlankLines(lines) <==> line in lines && HasContent(line)
  {
    if |lines| > 0 {
      DropBlankLinesMember(lines[1..], line);
      assert lines == [lines[0]] + lines[1..];
    }
  }

  /** The filter works line by line: the kept lines of a concatenation are the
      kept lines of each part, in the original order. */
  lemma {:induction false} DropBlankLinesAppend(a: seq<Fields>, b: seq<Fields>)
    ensures DropBlankLines(a + b) == DropBlankLines(a) + DropBlankLines(b)
  {
    if |a| == 0 {
      assert a + b == b;
    } else {
      var ab := a + b;
      var head: seq<Fields> := if HasContent(a[0]) then [a[0]] else [];
      assert ab[0] == a[0] && ab[1..] == a[1..] + b;
      assert DropBlankLines(ab) == head + DropBlankLines(a[1..] + b);
      assert DropBlankLines(a) == head + DropBlankLines(a[1..]);
      DropBlankLinesAppend(a[1..], b);
      assert head + (DropBlankLines(a[1..]) + DropBlankLines(b)) == (head + DropBlankLines(a[1..])) + DropBlankLines(b);
    }
  }

  /** The first kept line is the first line with content; after it come the
      kept lines of the rest of the reply. */
  lemma {:induction false} DropBlankLinesFirst(lines: seq<Fields>, first: nat)
    requires first < |lines| && HasContent(lines[first])
    requires forall j :: 0 <= j < first ==> !HasContent(lines[j])
    ensures DropBlankLines(lines) == [lines[first]] + DropBlankLines(lines[first + 1..])
  {
    if first > 0 {
      assert forall j :: 0 <= j < first - 1 ==> lines[1..][j] == lines[j + 1];
      DropBlankLinesFirst(lines[1..], first - 1);
      assert lines[1..][first..] == lines[first + 1..];
    }
  }

  /** The whole parse result: the header is the untrimmed field list of the
      first line with content, and the rows are the later lines with content,
      in order, each reshaped to the header's width. */
  lemma {:induction false} TableOfShape(lines: seq<Fields>, first: nat)
    requires first < |lines| && HasContent(lines[first])
    requires forall j :: 0 <= j < first ==> !HasContent(lines[j])
    ensures TableOf(lines)
         == Some(Table(lines[first], ReshapeAll(DropBlankLines(lines[first + 1..]), |lines[first]|)))
  {
    DropBlankLinesFirst(lines, first);
    assert DropBlankLines(lines)[1..] == DropBlankLines(lines[first + 1..]);
  }

  /** Every cell of row k: field j of the k-th content line where it has one,
      `None` up to the header's width otherwise; fields past the width are
      dropped. */
  lemma ReshapeAllCells(content: seq<Fields>, width: nat, k: nat, j: nat)
    requires k < |content| && j < width
    ensures |ReshapeAll(content, width)| == |content|
    ensures |ReshapeAll(content, width)[k]| == width
    ensures ReshapeAll(content, width)[k][j] == if j < |content[k]| then Some(content[k][j]) else None
  {
  }

  /** No field of the list contains the character. */
  predicate FreeOf(fields: Fields, c: char)
  {
    forall i :: 0 <= i < |fields| ==> c !in fields[i]
  }

  /** A header line and one content line, each with content, optionally
      followed by a line whose only field is empty, give that header and that
      line reshaped. */
  lemma TableOfTwoLines(header: Fields, line: Fields, tail: seq<Fields>)
    requires HasContent(header) && HasContent(line)
    requires tail == [] || tail == [[""]]
    ensures TableOf([header, line] + tail) == Some(Table(header, [Reshape(line, |header|)]))
  {
    var lines := [header, line] + tail;
    assert !HasContent([""]);
    assert DropBlankLines(tail) == [] by {
      if tail != [] {
        assert tail[1..] == [];
      }
    }
    assert lines[1..] == [line] + tail;
    DropBlankLinesAppend([line], tail);
    assert DropBlankLines([line]) == [line] + DropBlankLines([line][1..]);
    assert DropBlankLines([line][1..]) == [];
    assert DropBlankLines(lines[1..]) == [line];
    assert ReshapeAll([line], |header|) == [Reshape(line, |header|)];
    TableOfShape(lines, 0);
  }

  /** Splitting a join of newline-free lines gives, line by line, their
      field lists. */
  lemma ReplyLinesOf(texts: seq<string>, fieldLists: seq<Fields>)
    requires |texts| >= 1 && |fieldLists| == |texts| && FreeOf(texts, '\n')
    requires forall i :: 0 <= i < |texts| ==> Split(texts[i], '|') == fieldLists[i]
    ensures ReplyLines(Join(texts, '\n')) == fieldLists
  {
    SplitJoin(texts, '\n');
  }

  /** The field lists of a reply made of two newline-free lines of `|`-free
      fields, with an optional trailing newline. */
  lemma TwoLineReplyLines(header: Fields, line: Fields, trailing: bool)
    requires |header| >= 1 && |line| >= 1 && FreeOf(header, '|') && FreeOf(line, '|')
    requires '\n' !in Join(header, '|') && '\n' !in Join(line, '|')
    ensures ReplyLines(Join([Join(header, '|'), Join(line, '|')] + (if trailing then [""] else []), '\n'))
         == [header, line] + (if trailing then [[""]] else [])
  {
    var texts := [Join(header, '|'), Join(line, '|')] + (if trailing then [""] else []);
    var fieldLists := [header, line] + (if trailing then [[""]] else []);
    forall i | 0 <= i < |texts|
      ensures Split(texts[i], '|') == fieldLists[i]
    {
      if i == 0 {
        SplitJoin(header, '|');
      } else if i == 1 {
        SplitJoin(line, '|');
      } else {
        assert texts[i] == "" && fieldLists[i] == [""];
      }
    }
    forall i | 0 <= i < |texts|
      ensures '\n' !in texts[i]
    {
      if i == 2 {
        assert texts[i] == "";
      }
    }
    ReplyLinesOf(texts, fieldLists);
  }

  /** A reply made of a header line and one content line, each with content
      and without newlines, parses to that header and that line reshaped; an
      optional trailing newline makes no difference. */
  lemma WellFormedReply(header: Fields, line: Fields, trailing: bool, reply: string)
    requires |header| >= 1 && |line| >= 1 && FreeOf(header, '|') && FreeOf(line, '|')
    requires '\n' !in Join(header, '|') && '\n' !in Join(line, '|')
    requires HasContent(header) && HasContent(line)
    requires reply == Join([Join(header, '|'), Join(line, '|')] + (if trailing then [""] else []), '\n')
    ensures ParseTable(reply) == Some(Table(header, [Reshape(line, |header|)]))
  {
    TwoLineReplyLines(header, line, trailing);
    TableOfTwoLines(header, line, if trailing then [[""]] else []);
  }

  // Concrete replies. Each fact about a string literal is proved once, in a
  // small lemma of its own, and the example lemmas take the reply as a
  // parameter equal to the literal: a recursive function applied to a literal
  // inside an `ensures` would be unfolded by the verifier without bound.

  /** Three fields joined. */
  lemma JoinThree(a: string, b: string, c: string, sep: char)
    ensures Join([a, b, c], sep) == a + [sep] + b + [sep] + c
  {
    assert [a, b, c][1..] == [b, c];
    assert [b, c][1..] == [c];
    assert Join([b, c], sep) == b + [sep] + c;
  }

  /** Two fields joined. */
  lemma JoinTwo(a: string, b: string, sep: char)
    ensures Join([a, b], sep) == a + [sep] + b
  {
    assert [a, b][1..] == [b];
  }

  /** No field of the rubric header contains a separator or a newline. */
  lemma RubricHeaderFree()
    ensures FreeOf(["Indicator", "Score", "Feedback"], '|') && '\n' !in "Indicator|Score|Feedback"
  {
  }

  /** The header line of the rubric reply. */
  lemma RubricHeaderLine()
    ensures var header := ["Indicator", "Score", "Feedback"];
            FreeOf(header, '|') && HasContent(header)
            && Join(header, '|') == "Indicator|Score|Feedback" && '\n' !in "Indicator|Score|Feedback"
  {
    var header := ["Indicator", "Score", "Feedback"];
    assert !IsBlank(header[0]);
    RubricHeaderFree();
    JoinThree(header[0], header[1], header[2], '|');
  }

  /** No field of the rubric content line contains a separator or a newline. */
  lemma RubricContentFree()
    ensures FreeOf(["Carbon", "7", "Good tracking"], '|') && '\n' !in "Carbon|7|Good tracking"
  {
  }

  /** The content line of the rubric reply. */
  lemma RubricContentLine()
    ensures var line := ["Carbon", "7", "Good tracking"];
            FreeOf(line, '|') && HasContent(line)
            && Join(line, '|') == "Carbon|7|Good tracking" && '\n' !in "Carbon|7|Good tracking"
  {
    var line := ["Carbon", "7", "Good tracking"];
    assert !IsBlank(line[0]);
    RubricContentFree();
    JoinThree(line[0], line[1], line[2], '|');
  }

  /** The rubric reply as its lines joined by newlines. */
  lemma RubricReplyText()
    ensures Join(["Indicator|Score|Feedback", "Carbon|7|Good tracking"] + [""], '\n')
         == "Indicator|Score|Feedback\nCarbon|7|Good tracking\n"
  {
    assert ["Indicator|Score|Feedback", "Carbon|7|Good tracking"] + [""]
        == ["Indicator|Score|Feedback", "Carbon|7|Good tracking", ""];
    JoinThree("Indicator|Score|Feedback", "Carbon|7|Good tracking", "", '\n');
  }

  /** The content line of the rubric reply under its three-column header. */
  lemma RubricRow()
    ensures Reshape(["Carbon", "7", "Good tracking"], 3) == [Some("Carbon"), Some("7"), Some("Good tracking")]
  {
    var row := Reshape(["Carbon", "7", "Good tracking"], 3);
    assert row[0] == Some("Carbon") && row[1] == Some("7") && row[2] == Some("Good tracking");
  }

  /** The well-formed reply of the rubric call: the trailing newline adds an
      empty line, which the filter drops. */
  lemma ExampleRubricReply(reply: string)
    requires reply == "Indicator|Score|Feedback\nCarbon|7|Good tracking\n"
    ensures ParseTable(reply)
         == Some(Table(["Indicator", "Score", "Feedback"], [[Some("Carbon"), Some("7"), Some("Good tracking")]]))
  {
    RubricHeaderLine();
    RubricContentLine();
    RubricReplyText();
    RubricRow();
    WellFormedReply(["Indicator", "Score", "Feedback"], ["Carbon", "7", "Good tracking"], true, reply);
  }

  /** A short content line and the reply text it belongs to. */
  lemma ShortLine()
    ensures var line := ["Carbon", "7"];
            FreeOf(line, '|') && HasContent(line)
            && Join(line, '|') == "Carbon|7" && '\n' !in "Carbon|7"
            && Join(["Indicator|Score|Feedback", "Carbon|7"] + [], '\n') == "Indicator|Score|Feedback\nCarbon|7"
  {
    var line := ["Carbon", "7"];
    assert !IsBlank(line[0]);
    JoinTwo(line[0], line[1], '|');
    assert ["Indicator|Score|Feedback", "Carbon|7"] + [] == ["Indicator|Score|Feedback", "Carbon|7"];
    JoinTwo("Indicator|Score|Feedback", "Carbon|7", '\n');
  }

  /** The short line padded to the three-column header. */
  lemma ShortRow()
    ensures Reshape(["Carbon", "7"], 3) == [Some("Carbon"), Some("7"), None]
  {
    var row := Reshape(["Carbon", "7"], 3);
    assert row[0] == Some("Carbon") && row[1] == Some("7") && row[2] == None;
  }

  /** A content line shorter than the header is padded with `None`. */
  lemma ExampleShortRow(reply: string)
    requires reply == "Indicator|Score|Feedback\nCarbon|7"
    ensures ParseTable(reply)
         == Some(Table(["Indicator", "Score", "Feedback"], [[Some("Carbon"), Some("7"), None]]))
  {
    RubricHeaderLine();
    ShortLine();
    ShortRow();
    WellFormedReply(["Indicator", "Score", "Feedback"], ["Carbon", "7"], false, reply);
  }

  /** The field lists of a reply of three blank lines. */
  lemma BlankReplyLines(reply: string)
    requires reply == "\n |\n|"
    ensures ReplyLines(reply) == [[""], [" ", ""], ["", ""]]
  {
    JoinThree("", " |", "|", '\n');
    assert "" + "\n" + " |" + "\n" + "|" == reply;
    JoinTwo(" ", "", '|');
    JoinTwo("", "", '|');
    SplitJoin([" ", ""], '|');
    SplitJoin(["", ""], '|');
    assert Split("", '|') == [""];
    ReplyLinesOf(["", " |", "|"], [[""], [" ", ""], ["", ""]]);
  }

  /** A reply whose lines hold only "" and " " fields has no table. */
  lemma ExampleNoTable(reply: string)
    requires reply == "\n |\n|"
    ensures ParseTable(reply) == None
  {
    var fieldLists: seq<Fields> := [[""], [" ", ""], ["", ""]];
    BlankReplyLines(reply);
    assert forall i :: 0 <= i < |fieldLists| ==> !HasContent(fieldLists[i]) by {
      assert fieldLists[0][0] == "" && fieldLists[1][0] == " " && fieldLists[1][1] == "";
      assert fieldLists[2][0] == "" && fieldLists[2][1] == "";
    }
  }

  /** Other whitespace is not blank: a line of two spaces becomes the header. */
  lemma ExampleTwoSpaces(reply: string)
    requires reply == "  "
    ensures ParseTable(reply) == Some(Table(["  "], []))
  {
    SplitJoin(["  "], '\n');
    SplitJoin(["  "], '|');
    assert ReplyLines(reply) == [["  "]];
    assert !IsBlank("  ");
    TableOfShape(ReplyLines(reply), 0);
    assert ReplyLines(reply)[1..] == [];
    assert DropBlankLines([]) == [];
    assert ReshapeAll([], 1) == [];
  }
}

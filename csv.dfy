/**
 The text that the CSV export builds (`exportCSV`, App.tsx): a byte-order
 mark, then the fixed header record and one record per task, joined by line
 feeds. Title and notes are wrapped in double quotes with every inner quote
 doubled; the other five fields are written as they are.

 Beside the encoder sits an independent reader for that format (fields split
 on commas, a field that starts with a quote read up to its closing quote,
 a doubled quote inside it read as one quote), and the lemmas show that the
 reader gives back the header names and every task's field values.
 */
module CsvExport {
  import opened TaskTypes

  /** U+FEFF, written first so that spreadsheet programs read the text as UTF-8. */
  const Bom: char := '\U{FEFF}'

  /** The header record, a single fixed string. */
  const Header: string := "Status,Prioridade,Prazo,Responsável,Diretoria,Tarefa,Observações"

  /** The seven column names the header announces. */
  const HeaderNames: seq<string> :=
    ["Status", "Prioridade", "Prazo", "Responsável", "Diretoria", "Tarefa", "Observações"]

  // ---------------------------------------------------------------- encoding

  /** `s.replace(/"/g, '""')`: every double quote doubled. */
  function EscapeQuotes(s: string): (r: string)
    ensures |r| >= |s|
  {
    if |s| == 0 then ""
    else if s[0] == '"' then "\"\"" + EscapeQuotes(s[1..])
    else [s[0]] + EscapeQuotes(s[1..])
  }

  /** A quoted field: `"` + escaped text + `"`; it opens and closes with a quote around at least the text's length. */
  function QuoteField(s: string): (r: string)
    ensures |r| >= |s| + 2 && r[0] == '"' && r[|r| - 1] == '"'
  {
    "\"" + EscapeQuotes(s) + "\""
  }

  /**
   One task's record, in the order of the header's columns: the texts of its
   seven fields (status, priority, deadline, assignee and role as they are,
   title and notes quoted) joined by commas.
   */
  function Row(t: Task): (r: string)
    ensures r == Join([StatusText(t.status), PriorityText(t.priority), t.deadline, t.assignee,
                       RoleText(t.role), QuoteField(t.task), QuoteField(t.notes)], ',')
  {
    JoinSeven([StatusText(t.status), PriorityText(t.priority), t.deadline, t.assignee,
               RoleText(t.role), QuoteField(t.task), QuoteField(t.notes)], ',');
    StatusText(t.status) + "," + PriorityText(t.priority) + "," + t.deadline + "," +
    t.assignee + "," + RoleText(t.role) + "," + QuoteField(t.task) + "," + QuoteField(t.notes)
  }

  /** The field values a task's record carries, in column order. */
  function RowValues(t: Task): seq<string> {
    [StatusText(t.status), PriorityText(t.priority), t.deadline, t.assignee,
     RoleText(t.role), t.task, t.notes]
  }

  /** The records before joining: the header, then one record per task in list order. */
  function Records(tasks: seq<Task>): (r: seq<string>)
    ensures |r| == |tasks| + 1
    ensures r[0] == Header
    ensures forall i :: 0 <= i < |tasks| ==> r[i + 1] == Row(tasks[i])
  {
    [Header] + seq(|tasks|, i requires 0 <= i < |tasks| => Row(tasks[i]))
  }

  /** `parts.join(sep)`: one separator between each two parts, so never shorter than the number of gaps. */
  function Join(parts: seq<string>, sep: char): (r: string)
    ensures |r| >= |parts| - 1
  {
    if |parts| == 0 then ""
    else if |parts| == 1 then parts[0]
    else parts[0] + [sep] + Join(parts[1..], sep)
  }

  /**
   The exported text: BOM, then the records joined by line feeds. It opens
   with the BOM and the exact header; a line feed follows when there are
   tasks, and nothing follows when there are none.
   */
  function CsvText(tasks: seq<Task>): (r: string)
    ensures |r| >= 1 + |Header| && r[..1 + |Header|] == [Bom] + Header
    ensures |tasks| == 0 <==> |r| == 1 + |Header|
    ensures |tasks| > 0 ==> r[1 + |Header|] == '\n'
  {
    assert |tasks| > 0 ==> Join(Records(tasks), '\n') == Header + ['\n'] + Join(Records(tasks)[1..], '\n');
    [Bom] + Join(Records(tasks), '\n')
  }

  // ---------------------------------------------------------------- reading back

  /** Collapses every `""` back to one `"`; a lone quote is kept as it is. */
  function UnescapeQuotes(s: string): string {
    if |s| == 0 then ""
    else if |s| >= 2 && s[0] == '"' && s[1] == '"' then "\"" + UnescapeQuotes(s[2..])
    else [s[0]] + UnescapeQuotes(s[1..])
  }

  /** Strips the outer quotes of a quoted field and collapses the doubled quotes inside. */
  function UnquoteField(f: string): Option<string> {
    if |f| >= 2 && f[0] == '"' && f[|f| - 1] == '"' then Some(UnescapeQuotes(f[1..|f| - 1]))
    else None
  }

  /** The reader's line splitter: the pieces of `s` between occurrences of `sep`, as JavaScript's `split` gives them (one piece when there is none). */
  function Split(s: string, sep: char): (r: seq<string>)
    ensures |r| >= 1
  {
    if |s| == 0 then [""]
    else
      var pieces := Split(s[1..], sep);
      if s[0] == sep then [""] + pieces
      else [[s[0]] + pieces[0]] + pieces[1..]
  }

  /**
   Reads the body of a quoted field, `s` starting just after its opening
   quote: gives the field's value and what follows the closing quote, or
   `None` when the closing quote is missing.
   */
  function ReadQuoted(s: string): (r: Option<(string, string)>)
    ensures r.Some? ==> |r.value.1| < |s|
  {
    if |s| == 0 then None
    else if s[0] == '"' then
      if |s| >= 2 && s[1] == '"' then
        match ReadQuoted(s[2..])
        case None => None
        case Some(p) => Some(("\"" + p.0, p.1))
      else Some(("", s[1..]))
    else
      match ReadQuoted(s[1..])
      case None => None
      case Some(p) => Some(([s[0]] + p.0, p.1))
  }

  /** Reads an unquoted field: everything up to the first comma, and the rest from that comma on. */
  function ReadPlain(s: string): (r: (string, string))
    ensures |r.1| <= |s|
    ensures r.0 + r.1 == s
    ensures ',' !in r.0
    ensures |r.1| == 0 || r.1[0] == ','
  {
    if |s| == 0 then ("", "")
    else if s[0] == ',' then ("", s)
    else
      var p := ReadPlain(s[1..]);
      ([s[0]] + p.0, p.1)
  }

  /** Reads one record into its field values, or `None` for a quoted field that is not closed properly. */
  function ReadRecord(s: string): Option<seq<string>>
    decreases |s|
  {
    if |s| > 0 && s[0] == '"' then
      match ReadQuoted(s[1..])
      case None => None
      case Some(p) =>
        if |p.1| == 0 then Some([p.0])
        else if p.1[0] == ',' then
          match ReadRecord(p.1[1..])
          case None => None
          case Some(fs) => Some([p.0] + fs)
        else None
    else
      var p := ReadPlain(s);
      if |p.1| == 0 then Some([p.0])
      else
        match ReadRecord(p.1[1..])
        case None => None
        case Some(fs) => Some([p.0] + fs)
  }

  /** Reads each line as a record. */
  function ReadLines(lines: seq<string>): Option<seq<seq<string>>> {
    if |lines| == 0 then Some([])
    else
      match ReadRecord(lines[0])
      case None => None
      case Some(fs) =>
        match ReadLines(lines[1..])
        case None => None
        case Some(rest) => Some([fs] + rest)
  }

  /** Reads an exported text: checks the BOM, splits it into lines and reads each line. */
  function ReadCsv(text: string): Option<seq<seq<string>>> {
    if |text| == 0 || text[0] != Bom then None
    else ReadLines(Split(text[1..], '\n'))
  }

  // ---------------------------------------------------------------- lemmas

  /** Collapsing doubled quotes undoes the doubling. */
  lemma {:induction false} UnescapeEscape(s: string)
    ensures UnescapeQuotes(EscapeQuotes(s)) == s
  {
    if |s| > 0 {
      UnescapeEscape(s[1..]);
      if s[0] == '"' {
        assert ("\"\"" + EscapeQuotes(s[1..]))[2..] == EscapeQuotes(s[1..]);
      } else {
        assert ([s[0]] + EscapeQuotes(s[1..]))[1..] == EscapeQuotes(s[1..]);
      }
      assert s == [s[0]] + s[1..];
    }
  }

  /** Stripping the outer quotes of a quoted field and collapsing `""` gives back the original text. */
  lemma UnquoteQuoteField(s: string)
    ensures UnquoteField(QuoteField(s)) == Some(s)
  {
    var f := QuoteField(s);
    assert f[1..|f| - 1] == EscapeQuotes(s);
    UnescapeEscape(s);
  }

  /** What one character becomes inside a quoted field. */
  function EscapeChar(c: char): string {
    if c == '"' then "\"\"" else [c]
  }

  /** Doubling quotes works one character at a time. */
  lemma EscapeFirst(s: string)
    requires |s| > 0
    ensures EscapeQuotes(s) == EscapeChar(s[0]) + EscapeQuotes(s[1..])
  {
  }

  /** Concatenation is associative. */
  lemma Assoc(x: string, y: string, z: string)
    ensures (x + y) + z == x + (y + z)
  {
  }

  /** Doubling quotes distributes over concatenation. */
  lemma {:induction false} EscapeAppend(a: string, b: string)
    ensures EscapeQuotes(a + b) == EscapeQuotes(a) + EscapeQuotes(b)
  {
    if |a| == 0 {
      assert a + b == b;
    } else {
      EscapeAppend(a[1..], b);
      assert (a + b)[1..] == a[1..] + b;
      EscapeFirst(a + b);
      EscapeFirst(a);
      Assoc(EscapeChar(a[0]), EscapeQuotes(a[1..]), EscapeQuotes(b));
    }
  }

  /** A text without quotes is written unchanged inside the quotes. */
  lemma {:induction false} EscapeWithoutQuotes(s: string)
    requires '"' !in s
    ensures EscapeQuotes(s) == s
  {
    if |s| > 0 {
      EscapeWithoutQuotes(s[1..]);
      assert s == [s[0]] + s[1..];
    }
  }

  /** A title holding quotes is written with each quote doubled inside the outer pair. */
  lemma QuoteFieldExample(title: string)
    requires title == "a \"b\""
    ensures QuoteField(title) == "\"a \"\"b\"\"\""
  {
    EscapeExample(title);
  }

  /** Each quote of a short title is doubled, every other character is kept. */
  lemma EscapeExample(title: string)
    requires title == "a \"b\""
    ensures EscapeQuotes(title) == "a \"\"b\"\""
  {
    EscapeFirst(title);
    EscapeFirst(title[1..]);
    EscapeFirst(title[2..]);
    EscapeFirst(title[3..]);
    EscapeFirst(title[4..]);
    assert title[5..] == [];
  }

  /**
   Reading a quoted field body gives back the original text, provided that
   the character after the closing quote is not another quote.
   */
  lemma {:induction false} ReadQuotedEscaped(s: string, rest: string)
    requires |rest| == 0 || rest[0] != '"'
    ensures ReadQuoted(EscapeQuotes(s) + "\"" + rest) == Some((s, rest))
  {
    var input := EscapeQuotes(s) + "\"" + rest;
    if |s| == 0 {
      assert input == "\"" + rest;
      assert input[1..] == rest;
    } else if s[0] == '"' {
      ReadQuotedEscaped(s[1..], rest);
      assert input[2..] == EscapeQuotes(s[1..]) + "\"" + rest;
      assert s == "\"" + s[1..];
    } else {
      ReadQuotedEscaped(s[1..], rest);
      assert input[1..] == EscapeQuotes(s[1..]) + "\"" + rest;
      assert s == [s[0]] + s[1..];
    }
  }

  /** Reading a plain text without commas stops at the next comma or at the end. */
  lemma {:induction false} ReadPlainOf(a: string, rest: string)
    requires ',' !in a
    requires |rest| == 0 || rest[0] == ','
    ensures ReadPlain(a + rest) == (a, rest)
  {
    if |a| == 0 {
      assert a + rest == rest;
    } else {
      ReadPlainOf(a[1..], rest);
      assert (a + rest)[1..] == a[1..] + rest;
      assert a == [a[0]] + a[1..];
    }
  }

  /** A field the encoder writes unquoted reads back intact: it has no comma and does not open with a quote. */
  predicate PlainSafe(s: string) {
    ',' !in s && (|s| == 0 || s[0] != '"')
  }

  /** A field of a record, as the encoder writes it: verbatim or quoted. */
  datatype Field = Plain(text: string) | Quoted(text: string)

  function FieldText(f: Field): string {
    match f
    case Plain(s) => s
    case Quoted(s) => QuoteField(s)
  }

  function FieldValues(fs: seq<Field>): (r: seq<string>)
    ensures |r| == |fs|
    ensures forall i :: 0 <= i < |fs| ==> r[i] == fs[i].text
  {
    seq(|fs|, i requires 0 <= i < |fs| => fs[i].text)
  }

  function FieldTexts(fs: seq<Field>): (r: seq<string>)
    ensures |r| == |fs|
    ensures forall i :: 0 <= i < |fs| ==> r[i] == FieldText(fs[i])
  {
    seq(|fs|, i requires 0 <= i < |fs| => FieldText(fs[i]))
  }

  /** Each plain field is safe to write verbatim. */
  predicate WellFormed(fs: seq<Field>) {
    forall i :: 0 <= i < |fs| ==> (fs[i].Plain? ==> PlainSafe(fs[i].text))
  }

  /** What reading a record yields when its first field has value `v` and `rest` follows that field. */
  function ThenRest(v: string, rest: string): Option<seq<string>>
    requires |rest| == 0 || rest[0] == ','
  {
    if |rest| == 0 then Some([v])
    else
      match ReadRecord(rest[1..])
      case None => None
      case Some(vs) => Some([v] + vs)
  }

  /** One step of `ReadRecord` on a record that opens with a quote. */
  lemma ReadRecordQuotedStep(s: string, v: string, rest: string)
    requires |s| > 0 && s[0] == '"'
    requires ReadQuoted(s[1..]) == Some((v, rest))
    requires |rest| == 0 || rest[0] == ','
    ensures ReadRecord(s) == ThenRest(v, rest)
  {
  }

  /** One step of `ReadRecord` on a record that does not open with a quote. */
  lemma ReadRecordPlainStep(s: string, v: string, rest: string)
    requires |s| == 0 || s[0] != '"'
    requires ReadPlain(s) == (v, rest)
    ensures ReadRecord(s) == ThenRest(v, rest)
  {
  }

  /** Reading a record that opens with a plain field. */
  lemma ReadPlainField(a: string, rest: string)
    requires PlainSafe(a)
    requires |rest| == 0 || rest[0] == ','
    ensures ReadRecord(a + rest) == ThenRest(a, rest)
  {
    var s := a + rest;
    ReadPlainOf(a, rest);
    if |a| > 0 {
      assert s[0] == a[0];
    } else {
      assert s == rest;
    }
    ReadRecordPlainStep(s, a, rest);
  }

  /** A quoted field followed by `rest` opens with a quote, and after it come the escaped text, the closing quote and `rest`. */
  lemma QuotedThen(a: string, rest: string)
    ensures var s := QuoteField(a) + rest;
            |s| > 0 && s[0] == '"' && s[1..] == EscapeQuotes(a) + "\"" + rest
  {
    Assoc("\"" + EscapeQuotes(a), "\"", rest);
    Assoc("\"", EscapeQuotes(a), "\"" + rest);
    Assoc(EscapeQuotes(a), "\"", rest);
  }

  /** Reading a record that opens with a quoted field. */
  lemma ReadQuotedField(a: string, rest: string)
    requires |rest| == 0 || rest[0] == ','
    ensures ReadRecord(QuoteField(a) + rest) == ThenRest(a, rest)
  {
    QuotedThen(a, rest);
    ReadQuotedEscaped(a, rest);
    ReadRecordQuotedStep(QuoteField(a) + rest, a, rest);
  }

  /** Reading the first field of `FieldText(f) + rest`, for `rest` empty or starting with a comma. */
  lemma ReadFirstField(f: Field, rest: string)
    requires f.Plain? ==> PlainSafe(f.text)
    requires |rest| == 0 || rest[0] == ','
    ensures ReadRecord(FieldText(f) + rest) == ThenRest(f.text, rest)
  {
    match f
    case Plain(a) => ReadPlainField(a, rest);
    case Quoted(a) => ReadQuotedField(a, rest);
  }

  /** A record of well-formed fields joined by commas reads back as the fields' values. */
  lemma {:induction false} ReadJoinedFields(fs: seq<Field>)
    requires |fs| > 0
    requires WellFormed(fs)
    ensures ReadRecord(Join(FieldTexts(fs), ',')) == Some(FieldValues(fs))
  {
    if |fs| == 1 {
      ReadFirstField(fs[0], "");
      assert FieldText(fs[0]) + "" == FieldText(fs[0]);
      assert FieldValues(fs) == [fs[0].text];
    } else {
      ReadJoinedFields(fs[1..]);
      ReadJoinedFieldsStep(fs);
    }
  }

  /** The fields of a record after the first, as texts and as values. */
  lemma FieldsTail(fs: seq<Field>)
    requires |fs| > 1
    ensures Join(FieldTexts(fs), ',') == FieldText(fs[0]) + ([','] + Join(FieldTexts(fs[1..]), ','))
    ensures FieldValues(fs) == [fs[0].text] + FieldValues(fs[1..])
  {
    assert FieldTexts(fs)[1..] == FieldTexts(fs[1..]);
    Assoc(FieldText(fs[0]), [','], Join(FieldTexts(fs[1..]), ','));
  }

  /** Reading the first field, then the rest of the record as read before. */
  lemma ReadJoinedFieldsStep(fs: seq<Field>)
    requires |fs| > 1
    requires fs[0].Plain? ==> PlainSafe(fs[0].text)
    requires ReadRecord(Join(FieldTexts(fs[1..]), ',')) == Some(FieldValues(fs[1..]))
    ensures ReadRecord(Join(FieldTexts(fs), ',')) == Some(FieldValues(fs))
  {
    var rest := [','] + Join(FieldTexts(fs[1..]), ',');
    FieldsTail(fs);
    ReadFirstField(fs[0], rest);
    assert rest[1..] == Join(FieldTexts(fs[1..]), ',');
  }

  /** The fields of a task's record, as the encoder writes them. */
  function RowFields(t: Task): seq<Field> {
    [Plain(StatusText(t.status)), Plain(PriorityText(t.priority)), Plain(t.deadline),
     Plain(t.assignee), Plain(RoleText(t.role)), Quoted(t.task), Quoted(t.notes)]
  }

  /** The enum texts contain no comma and do not start with a quote. */
  lemma EnumTextsPlainSafe(t: Task)
    ensures PlainSafe(StatusText(t.status))
    ensures PlainSafe(PriorityText(t.priority))
    ensures PlainSafe(RoleText(t.role))
  {
  }

  /**
   A task's record reads back as its seven field values in column order, as
   long as the two unquoted free-text fields, deadline and assignee, hold no
   comma and do not start with a quote. Title and notes may hold anything.
   */
  lemma RowReadsBack(t: Task)
    requires PlainSafe(t.deadline) && PlainSafe(t.assignee)
    ensures ReadRecord(Row(t)) == Some(RowValues(t))
  {
    var fs := RowFields(t);
    RowFieldsWellFormed(t);
    RowFieldTexts(t);
    ReadJoinedFields(fs);
    assert FieldValues(fs) == RowValues(t);
  }

  /** The texts of a task's fields are the parts its record joins. */
  lemma RowFieldTexts(t: Task)
    ensures FieldTexts(RowFields(t)) == [StatusText(t.status), PriorityText(t.priority), t.deadline, t.assignee,
                                         RoleText(t.role), QuoteField(t.task), QuoteField(t.notes)]
  {
  }

  lemma RowFieldsWellFormed(t: Task)
    requires PlainSafe(t.deadline) && PlainSafe(t.assignee)
    ensures WellFormed(RowFields(t))
  {
    EnumTextsPlainSafe(t);
  }

  /** Joining a first part onto a non-empty remainder. */
  lemma JoinCons(x: string, rest: seq<string>, sep: char)
    requires |rest| > 0
    ensures Join([x] + rest, sep) == x + [sep] + Join(rest, sep)
  {
    assert ([x] + rest)[1..] == rest;
  }

  /** `Join` of seven parts, written out. */
  lemma JoinSeven(p: seq<string>, sep: char)
    requires |p| == 7
    ensures Join(p, sep) == p[0] + [sep] + p[1] + [sep] + p[2] + [sep] + p[3] + [sep] + p[4] + [sep] + p[5] + [sep] + p[6]
  {
    assert p[6..] == [p[6]];
    var j6 := p[6];
    assert Join(p[6..], sep) == j6;
    assert p[5..] == [p[5]] + p[6..];
    JoinCons(p[5], p[6..], sep);
    var j5 := p[5] + [sep] + j6;
    assert p[4..] == [p[4]] + p[5..];
    JoinCons(p[4], p[5..], sep);
    var j4 := p[4] + [sep] + j5;
    assert p[3..] == [p[3]] + p[4..];
    JoinCons(p[3], p[4..], sep);
    var j3 := p[3] + [sep] + j4;
    assert p[2..] == [p[2]] + p[3..];
    JoinCons(p[2], p[3..], sep);
    var j2 := p[2] + [sep] + j3;
    assert p[1..] == [p[1]] + p[2..];
    JoinCons(p[1], p[2..], sep);
    var j1 := p[1] + [sep] + j2;
    assert p == [p[0]] + p[1..];
    JoinCons(p[0], p[1..], sep);
    assert Join(p, sep) == p[0] + [sep] + j1;
  }

  /** Two part lists with the same first part and the same joined remainder join to the same text. */
  lemma JoinSameHead(p: seq<string>, q: seq<string>, sep: char)
    requires |p| > 1 && |q| > 1 && p[0] == q[0]
    requires Join(p[1..], sep) == Join(q[1..], sep)
    ensures Join(p, sep) == Join(q, sep)
  {
  }

  /**
   Joining a part list in which one part is `a + [sep] + b` gives the same
   text as joining the list with that part replaced by the two parts `a`, `b`.
   */
  lemma {:induction false} JoinSplitPart(p: seq<string>, k: nat, a: string, b: string, sep: char)
    requires k < |p| && p[k] == a + [sep] + b
    ensures Join(p, sep) == Join(p[..k] + [a, b] + p[k + 1..], sep)
  {
    var q := p[..k] + [a, b] + p[k + 1..];
    if k == 0 {
      assert q == [a] + ([b] + p[1..]);
      assert q[1..] == [b] + p[1..];
      if |p| > 1 {
        assert q[1..][1..] == p[1..];
      }
    } else {
      JoinSplitPart(p[1..], k - 1, a, b, sep);
      assert q[1..] == p[1..][..k - 1] + [a, b] + p[1..][k..];
      JoinSameHead(p, q, sep);
    }
  }

  /**
   The deadline and assignee are written without quotes, so a comma inside
   the assignee splits it over two columns: the record then reads as eight
   values, with the role under the title's column and the title under the
   notes' column.
   */
  lemma AssigneeCommaShiftsColumns(t: Task, a: string, b: string)
    requires t.assignee == a + "," + b
    requires PlainSafe(a) && PlainSafe(b) && PlainSafe(t.deadline)
    ensures ReadRecord(Row(t)) ==
      Some([StatusText(t.status), PriorityText(t.priority), t.deadline, a, b,
            RoleText(t.role), t.task, t.notes])
  {
    var fs := SplitAssigneeFields(t, a, b);
    EnumTextsPlainSafe(t);
    assert WellFormed(fs);
    RowWithSplitAssignee(t, a, b);
    ReadJoinedFields(fs);
  }

  /** The fields of a task's record with the assignee `a + "," + b` written as two plain fields. */
  function SplitAssigneeFields(t: Task, a: string, b: string): seq<Field> {
    [Plain(StatusText(t.status)), Plain(PriorityText(t.priority)), Plain(t.deadline),
     Plain(a), Plain(b), Plain(RoleText(t.role)), Quoted(t.task), Quoted(t.notes)]
  }

  lemma RowWithSplitAssignee(t: Task, a: string, b: string)
    requires t.assignee == a + "," + b
    ensures Row(t) == Join(FieldTexts(SplitAssigneeFields(t, a, b)), ',')
    ensures FieldValues(SplitAssigneeFields(t, a, b)) ==
      [StatusText(t.status), PriorityText(t.priority), t.deadline, a, b, RoleText(t.role), t.task, t.notes]
  {
    var tx7 := FieldTexts(RowFields(t));
    RowFieldTexts(t);
    JoinSplitPart(tx7, 3, a, b, ',');
    var tx8 := FieldTexts(SplitAssigneeFields(t, a, b));
    assert tx7[..3] + [a, b] + tx7[4..] == tx8;
  }

  /** The header record is the seven column names joined by commas. */
  lemma HeaderIsJoinedNames()
    ensures Join(HeaderNames, ',') == Header
  {
    JoinSeven(HeaderNames, ',');
    HeaderSpelledOut();
  }

  lemma HeaderSpelledOut()
    ensures "Status" + [','] + "Prioridade" + [','] + "Prazo" + [','] + "Responsável" + [','] +
            "Diretoria" + [','] + "Tarefa" + [','] + "Observações" == Header
  {
    HeaderFirstHalf();
    HeaderSecondHalf();
  }

  lemma HeaderFirstHalf()
    ensures "Status" + [','] + "Prioridade" + [','] + "Prazo" + [','] + "Responsável"
         == "Status,Prioridade,Prazo,Responsável"
  {
    assert "Status" + [','] + "Prioridade" == "Status,Prioridade";
    assert "Status,Prioridade" + [','] + "Prazo" == "Status,Prioridade,Prazo";
  }

  lemma HeaderSecondHalf()
    ensures "Status,Prioridade,Prazo,Responsável" + [','] + "Diretoria" + [','] + "Tarefa" + [','] + "Observações"
         == Header
  {
    assert "Status,Prioridade,Prazo,Responsável" + [','] + "Diretoria"
        == "Status,Prioridade,Prazo,Responsável,Diretoria";
    assert "Status,Prioridade,Prazo,Responsável,Diretoria" + [','] + "Tarefa"
        == "Status,Prioridade,Prazo,Responsável,Diretoria,Tarefa";
  }

  /** Texts that are all plain-safe, joined by commas, read back as themselves. */
  lemma ReadJoinedPlain(names: seq<string>)
    requires |names| > 0
    requires forall i :: 0 <= i < |names| ==> PlainSafe(names[i])
    ensures ReadRecord(Join(names, ',')) == Some(names)
  {
    var fs := seq(|names|, i requires 0 <= i < |names| => Plain(names[i]));
    assert FieldTexts(fs) == names;
    assert FieldValues(fs) == names;
    ReadJoinedFields(fs);
  }

  /** The header record reads back as the seven column names. */
  lemma HeaderReadsBack()
    ensures ReadRecord(Header) == Some(HeaderNames)
  {
    assert forall i :: 0 <= i < |HeaderNames| ==> PlainSafe(HeaderNames[i]);
    ReadJoinedPlain(HeaderNames);
    HeaderIsJoinedNames();
  }

  /** Splitting a text with no separator gives the text itself. */
  lemma {:induction false} SplitWithoutSep(a: string, sep: char)
    requires sep !in a
    ensures Split(a, sep) == [a]
  {
    if |a| > 0 {
      SplitWithoutSep(a[1..], sep);
      assert a == [a[0]] + a[1..];
    }
  }

  /** Splitting stops at the first separator. */
  lemma {:induction false} SplitAtFirstSep(a: string, b: string, sep: char)
    requires sep !in a
    ensures Split(a + [sep] + b, sep) == [a] + Split(b, sep)
  {
    var s := a + [sep] + b;
    if |a| == 0 {
      assert s[1..] == b;
    } else {
      SplitAtFirstSep(a[1..], b, sep);
      assert s[1..] == a[1..] + [sep] + b;
      assert a == [a[0]] + a[1..];
    }
  }

  /** Splitting undoes joining when no part holds the separator. */
  lemma {:induction false} SplitJoin(parts: seq<string>, sep: char)
    requires |parts| > 0
    requires forall i :: 0 <= i < |parts| ==> sep !in parts[i]
    ensures Split(Join(parts, sep), sep) == parts
  {
    if |parts| == 1 {
      SplitWithoutSep(parts[0], sep);
    } else {
      SplitJoin(parts[1..], sep);
      SplitAtFirstSep(parts[0], Join(parts[1..], sep), sep);
      assert parts == [parts[0]] + parts[1..];
    }
  }

  /** Reading lines one by one gives each line's values, when every line reads. */
  lemma {:induction false} ReadEachLine(lines: seq<string>, values: seq<seq<string>>)
    requires |lines| == |values|
    requires forall i :: 0 <= i < |lines| ==> ReadRecord(lines[i]) == Some(values[i])
    ensures ReadLines(lines) == Some(values)
  {
    if |lines| > 0 {
      ReadEachLine(lines[1..], values[1..]);
      assert values == [values[0]] + values[1..];
    }
  }

  /** The two free-text fields written unquoted, deadline and assignee, have no comma and do not start with a quote. */
  predicate PlainFieldsSafe(t: Task) {
    PlainSafe(t.deadline) && PlainSafe(t.assignee)
  }

  /** No text field of the task holds a line feed. */
  predicate NoLineFeed(t: Task) {
    '\n' !in t.deadline && '\n' !in t.assignee && '\n' !in t.task && '\n' !in t.notes
  }

  /** A task the export writes back-readably, records and lines alike. */
  predicate ExportSafe(t: Task) {
    PlainFieldsSafe(t) && NoLineFeed(t)
  }

  /** Doubling quotes adds no line feed. */
  lemma {:induction false} EscapeKeepsOut(s: string, c: char)
    requires c != '"' && c !in s
    ensures c !in EscapeQuotes(s)
  {
    if |s| > 0 {
      EscapeKeepsOut(s[1..], c);
    }
  }

  /** A task's record holds no line feed when none of its text fields does. */
  lemma RowHasNoLineFeed(t: Task)
    requires NoLineFeed(t)
    ensures '\n' !in Row(t)
  {
    EscapeKeepsOut(t.task, '\n');
    EscapeKeepsOut(t.notes, '\n');
    EnumTextsHaveNoLineFeed(t);
  }

  /** The status, priority and role values hold no line feed. */
  lemma EnumTextsHaveNoLineFeed(t: Task)
    ensures '\n' !in StatusText(t.status) && '\n' !in PriorityText(t.priority) && '\n' !in RoleText(t.role)
  {
  }

  /**
   Deadline and assignee are written without quotes, so a line feed in either
   of them goes into the text as it is: the record is split across more than
   one line, and a line-based reader sees the task as several records.
   */
  lemma PlainLineFeedSplitsRecord(t: Task)
    requires '\n' in t.deadline || '\n' in t.assignee
    ensures '\n' in Row(t)
    ensures |Split(Row(t), '\n')| > 1
  {
    SplitHasMoreThanOne(Row(t), '\n');
  }

  /** A text that holds the separator splits into more than one piece. */
  lemma {:induction false} SplitHasMoreThanOne(s: string, sep: char)
    requires sep in s
    ensures |Split(s, sep)| > 1
  {
    if s[0] != sep {
      SplitHasMoreThanOne(s[1..], sep);
    }
  }

  /** The values of every task's record, in list order. */
  function AllRowValues(tasks: seq<Task>): (r: seq<seq<string>>)
    ensures |r| == |tasks|
    ensures forall i :: 0 <= i < |tasks| ==> r[i] == RowValues(tasks[i])
  {
    seq(|tasks|, i requires 0 <= i < |tasks| => RowValues(tasks[i]))
  }

  /** No record holds a line feed when no task's text field does. */
  lemma RecordsHaveNoLineFeed(tasks: seq<Task>)
    requires forall i :: 0 <= i < |tasks| ==> NoLineFeed(tasks[i])
    ensures forall i :: 0 <= i < |Records(tasks)| ==> '\n' !in Records(tasks)[i]
  {
    var recs := Records(tasks);
    forall i | 0 <= i < |recs| ensures '\n' !in recs[i] {
      if i > 0 { RowHasNoLineFeed(tasks[i - 1]); } else { HeaderHasNoLineFeed(); }
    }
  }

  /** Joining keeps out a character that is neither the separator nor in any part. */
  lemma {:induction false} JoinKeepsOut(parts: seq<string>, sep: char, c: char)
    requires c != sep
    requires forall i :: 0 <= i < |parts| ==> c !in parts[i]
    ensures c !in Join(parts, sep)
  {
    if |parts| > 1 {
      JoinKeepsOut(parts[1..], sep, c);
    }
  }

  lemma HeaderHasNoLineFeed()
    ensures '\n' !in Header
  {
    HeaderIsJoinedNames();
    HeaderNamesHaveNoLineFeed();
    JoinKeepsOut(HeaderNames, ',', '\n');
  }

  /** No column name holds a line feed. */
  lemma HeaderNamesHaveNoLineFeed()
    ensures forall i :: 0 <= i < |HeaderNames| ==> '\n' !in HeaderNames[i]
  {
    forall i | 0 <= i < |HeaderNames| ensures '\n' !in HeaderNames[i] {
    }
  }

  /** Every record reads back: the header as the column names, each task's record as its values. */
  lemma RecordsReadBack(tasks: seq<Task>)
    requires forall i :: 0 <= i < |tasks| ==> PlainFieldsSafe(tasks[i])
    ensures ReadLines(Records(tasks)) == Some([HeaderNames] + AllRowValues(tasks))
  {
    var recs := Records(tasks);
    var values := [HeaderNames] + AllRowValues(tasks);
    forall i | 0 <= i < |recs| ensures ReadRecord(recs[i]) == Some(values[i]) {
      RecordReadsBackAt(tasks, i);
    }
    ReadEachLine(recs, values);
  }

  /** Record `i` reads back as the `i`-th entry of the expected values. */
  lemma RecordReadsBackAt(tasks: seq<Task>, i: nat)
    requires forall i :: 0 <= i < |tasks| ==> PlainFieldsSafe(tasks[i])
    requires i <= |tasks|
    ensures ReadRecord(Records(tasks)[i]) == Some(([HeaderNames] + AllRowValues(tasks))[i])
  {
    if i == 0 {
      HeaderRecordReadsBack(tasks);
    } else {
      TaskRecordReadsBack(tasks, i);
    }
  }

  lemma HeaderRecordReadsBack(tasks: seq<Task>)
    ensures ReadRecord(Records(tasks)[0]) == Some(([HeaderNames] + AllRowValues(tasks))[0])
  {
    HeaderReadsBack();
  }

  lemma TaskRecordReadsBack(tasks: seq<Task>, i: nat)
    requires 0 < i <= |tasks| && PlainFieldsSafe(tasks[i - 1])
    ensures ReadRecord(Records(tasks)[i]) == Some(([HeaderNames] + AllRowValues(tasks))[i])
  {
    RowReadsBack(tasks[i - 1]);
  }

  /**
   The exported text reads back: after the BOM come exactly `|tasks| + 1`
   records, the header's column names first and then each task's seven values
   in list order, provided every task is back-readable.
   */
  lemma CsvReadsBack(tasks: seq<Task>)
    requires forall i :: 0 <= i < |tasks| ==> ExportSafe(tasks[i])
    ensures ReadCsv(CsvText(tasks)) == Some([HeaderNames] + AllRowValues(tasks))
  {
    var recs := Records(tasks);
    var text := CsvText(tasks);
    RecordsHaveNoLineFeed(tasks);
    SplitJoin(recs, '\n');
    assert text[1..] == Join(recs, '\n');
    RecordsReadBack(tasks);
  }
}

/** The Universal Propositions reader: CoNLL-U style rows into sentences of
    token records, each predicate column into an IOB2 tag sequence, and each
    sentence into one (words, labels) example per predicate column. */
module UpParser {
  import opened Results
  import opened Seqs
  import opened Strings

  // ===========================================================================
  // Data model

  /** One token row: its id, surface form, predicate sense (column 10) and
      argument columns (11 onward). */
  datatype Token = Token(id: int, form: string, predSense: string, argCols: seq<string>)

  type Sentence = seq<Token>

  /** The exceptions that escape `load_srl_dataset`. */
  datatype LoadError =
    | InvalidId(text: string)    // `int(cols[0])` raises ValueError
    | MissingForm(row: string)   // `cols[1]` raises IndexError
    | MissingArgColumn           // `t["arg_cols"][p]` raises IndexError

  /** What one input line is, once stripped and split on tabs. */
  datatype Row =
    | Comment
    | Blank
    | MultiwordOrEmptyNode
    | TokenRow(token: Token)
    | Malformed(error: LoadError)

  /** The tab-separated columns of a stripped line. */
  function Columns(line: string): seq<string> {
    Split(Strip(line), "\t")
  }

  /** A multiword-token id (`1-2`) or an empty-node id (`1.1`). */
  predicate IsRangeOrDecimalId(id: string) {
    '-' in id || '.' in id
  }

  /** How the line loop treats one line. The id is parsed before column 1 is
      read, so a one-column row with a bad id reports the id. */
  function ClassifyRow(line: string): (row: Row)
    ensures row == Comment <==> "#" <= Strip(line)
    ensures row == Blank <==> Strip(line) == ""
    ensures row == MultiwordOrEmptyNode <==>
              Strip(line) != "" && !("#" <= Strip(line)) && IsRangeOrDecimalId(Columns(line)[0])
    ensures row.TokenRow? <==>
              && Strip(line) != "" && !("#" <= Strip(line))
              && !IsRangeOrDecimalId(Columns(line)[0])
              && ParseInt(Columns(line)[0]).Some? && |Columns(line)| >= 2
  {
    var stripped := Strip(line);
    if "#" <= stripped then Comment
    else if stripped == "" then Blank
    else ClassifyColumns(stripped, Split(stripped, "\t"))
  }

  /** A row that is neither a comment nor blank, from its tab-separated
      columns `cols` of the stripped line `stripped`. */
  function ClassifyColumns(stripped: string, cols: seq<string>): Row
    requires |cols| >= 1
  {
    if IsRangeOrDecimalId(cols[0]) then MultiwordOrEmptyNode
    else match ParseInt(cols[0])
      case None => Malformed(InvalidId(cols[0]))
      case Some(id) =>
        if |cols| < 2 then Malformed(MissingForm(stripped))
        else TokenRow(Token(
          id,
          cols[1],
          if |cols| > 10 then cols[10] else "_",
          if |cols| > 11 then cols[11..] else []))
  }

  /** A token row keeps its columns: joining them gives back the stripped
      line, the form is column 1, the sense column 10 (or `_`), the argument
      columns 11 onward (or none), and the id column is a plain integer. */
  lemma TokenRowColumns(line: string, t: Token)
    requires ClassifyRow(line) == TokenRow(t)
    ensures Join(Columns(line), "\t") == Strip(line)
    ensures |Columns(line)| >= 2 && t.form == Columns(line)[1]
    ensures '-' !in Columns(line)[0] && '.' !in Columns(line)[0]
    ensures ParseInt(Columns(line)[0]) == Some(t.id)
    ensures |Columns(line)| > 10 ==> t.predSense == Columns(line)[10]
    ensures |Columns(line)| <= 10 ==> t.predSense == "_"
    ensures |Columns(line)| > 11 ==> Columns(line) == Columns(line)[..11] + t.argCols
    ensures |Columns(line)| <= 11 ==> t.argCols == []
  {
    var stripped := Strip(line);
    var cols := Columns(line);
    assert ClassifyColumns(stripped, cols) == TokenRow(t);
    TokenColumns(stripped, cols, t);
    JoinSplit(stripped, "\t");
  }

  lemma TokenColumns(stripped: string, cols: seq<string>, t: Token)
    requires |cols| >= 1 && ClassifyColumns(stripped, cols) == TokenRow(t)
    ensures |cols| >= 2 && t.form == cols[1]
    ensures '-' !in cols[0] && '.' !in cols[0]
    ensures ParseInt(cols[0]) == Some(t.id)
    ensures |cols| > 10 ==> t.predSense == cols[10]
    ensures |cols| <= 10 ==> t.predSense == "_"
    ensures |cols| > 11 ==> cols == cols[..11] + t.argCols
    ensures |cols| <= 11 ==> t.argCols == []
  {
    if |cols| > 11 {
      assert cols == cols[..11] + cols[11..];
    }
  }

  /** A row fails exactly when it is a real token row whose id is not an
      integer or that has no form column; the id is checked first. */
  lemma MalformedRow(line: string)
    requires var s := Strip(line); !("#" <= s) && s != ""
    requires var c := Columns(line); '-' !in c[0] && '.' !in c[0]
    ensures ClassifyRow(line).Malformed? <==>
              ParseInt(Columns(line)[0]).None? || |Columns(line)| < 2
    ensures ParseInt(Columns(line)[0]).None? ==>
              ClassifyRow(line) == Malformed(InvalidId(Columns(line)[0]))
    ensures ParseInt(Columns(line)[0]).Some? && |Columns(line)| < 2 ==>
              ClassifyRow(line) == Malformed(MissingForm(Strip(line)))
  {
  }

  // ===========================================================================
  // parse_up_file, as a fold over the classified lines

  /** The classification of every line. */
  function Rows(lines: seq<string>): (rows: seq<Row>)
    ensures |rows| == |lines|
  {
    seq(|lines|, i requires 0 <= i < |lines| => ClassifyRow(lines[i]))
  }

  lemma RowsSlices(lines: seq<string>, k: nat)
    requires k <= |lines|
    ensures Rows(lines[..k]) == Rows(lines)[..k]
    ensures Rows(lines[k..]) == Rows(lines)[k..]
  {
  }

  lemma RowsAppend(a: seq<string>, b: seq<string>)
    ensures Rows(a + b) == Rows(a) + Rows(b)
  {
    var lines := a + b;
    assert lines[..|a|] == a && lines[|a|..] == b;
    RowsSlices(lines, |a|);
    SplitAt(Rows(lines), |a|);
  }

  /** The loop's variables: the finished sentences and the open one. */
  datatype ParseState = ParseState(sentences: seq<Sentence>, current: Sentence)

  const Start := ParseState([], [])

  /** Close the open sentence if it holds any token. */
  function Flush(st: ParseState): seq<Sentence> {
    if st.current != [] then st.sentences + [st.current] else st.sentences
  }

  /** One iteration of the line loop. */
  function Step(st: ParseState, row: Row): Result<ParseState, LoadError> {
    match row
    case Comment => Success(st)
    case Blank => Success(ParseState(Flush(st), []))
    case MultiwordOrEmptyNode => Success(st)
    case TokenRow(t) => Success(st.(current := st.current + [t]))
    case Malformed(e) => Failure(e)
  }

  /** The loop over `rows` from state `st`; an exception ends it. */
  function Run(st: ParseState, rows: seq<Row>): Result<ParseState, LoadError>
    decreases |rows|
  {
    if rows == [] then Success(st)
    else match Step(st, rows[0])
      case Failure(e) => Failure(e)
      case Success(next) => Run(next, rows[1..])
  }

  /** One step of the loop, taken at position `i` of the rows. */
  lemma RunStep(st: ParseState, rows: seq<Row>, i: nat)
    requires i < |rows|
    ensures Run(st, rows[i..]) == match Step(st, rows[i])
                                  case Failure(e) => Failure(e)
                                  case Success(next) => Run(next, rows[i + 1..])
  {
    assert rows[i..][0] == rows[i] && rows[i..][1..] == rows[i + 1..];
  }

  /** The loop, then the final flush. */
  function ParseRows(rows: seq<Row>): Result<seq<Sentence>, LoadError> {
    match Run(Start, rows)
    case Failure(e) => Failure(e)
    case Success(st) => Success(Flush(st))
  }

  /** `parse_up_file` on the lines of a file. */
  function ParseUp(lines: seq<string>): Result<seq<Sentence>, LoadError> {
    ParseRows(Rows(lines))
  }

  /** The line loop of `parse_up_file`, over lines already read from the file. */
  method ParseUpFile(lines: seq<string>) returns (r: Result<seq<Sentence>, LoadError>)
    ensures r == ParseUp(lines)
  {
    ghost var rows := Rows(lines);
    var sentences: seq<Sentence> := [];
    var current: Sentence := [];
    var i := 0;
    while i < |lines|
      invariant 0 <= i <= |lines|
      invariant Run(ParseState(sentences, current), rows[i..]) == Run(Start, rows)
    {
      RunStep(ParseState(sentences, current), rows, i);
      var next := ReadLine(sentences, current, lines[i]);
      if next.Failure? {
        return Failure(next.error);
      }
      sentences, current := next.value.sentences, next.value.current;
      i := i + 1;
    }
    if current != [] {
      sentences := sentences + [current];
    }
    return Success(sentences);
  }

  /** The body of the line loop: what one line does to the finished
      sentences and the open one, or the exception it raises. */
  method ReadLine(sentences: seq<Sentence>, current: Sentence, rawLine: string)
    returns (r: Result<ParseState, LoadError>)
    ensures r == Step(ParseState(sentences, current), ClassifyRow(rawLine))
  {
    var line := Strip(rawLine);
    if "#" <= line {
      return Success(ParseState(sentences, current));
    }
    if line == "" {
      if current != [] {
        return Success(ParseState(sentences + [current], []));
      }
      return Success(ParseState(sentences, current));
    }
    var cols := Split(line, "\t");
    r := ReadColumns(sentences, current, line, cols);
  }

  /** The rest of the loop body, once the line is known to be neither a
      comment nor blank: skip multiword and empty-node rows, parse the id,
      read the form, and append the token. */
  method ReadColumns(sentences: seq<Sentence>, current: Sentence, line: string, cols: seq<string>)
    returns (r: Result<ParseState, LoadError>)
    requires |cols| >= 1
    ensures r == Step(ParseState(sentences, current), ClassifyColumns(line, cols))
  {
    if IsRangeOrDecimalId(cols[0]) {
      return Success(ParseState(sentences, current));
    }
    var id := ParseInt(cols[0]);
    if id.None? {
      return Failure(InvalidId(cols[0]));
    }
    if |cols| < 2 {
      return Failure(MissingForm(line));
    }
    var token := Token(
      id.value,
      cols[1],
      if |cols| > 10 then cols[10] else "_",
      if |cols| > 11 then cols[11..] else []);
    return Success(ParseState(sentences, current + [token]));
  }

  // ---------------------------------------------------------------------------
  // What the parse keeps: the token rows, in order, in non-empty sentences

  /** The tokens of the token rows, in order. */
  function TokenRows(rows: seq<Row>): seq<Token> {
    if rows == [] then []
    else (if rows[0].TokenRow? then [rows[0].token] else []) + TokenRows(rows[1..])
  }

  /** All tokens of a list of sentences, in order. */
  function Flatten(ss: seq<Sentence>): seq<Token> {
    if ss == [] then [] else Flatten(ss[..|ss| - 1]) + ss[|ss| - 1]
  }

  predicate NoEmptySentence(ss: seq<Sentence>) {
    forall k :: 0 <= k < |ss| ==> ss[k] != []
  }

  lemma FlattenSnoc(ss: seq<Sentence>, s: Sentence)
    ensures Flatten(ss + [s]) == Flatten(ss) + s
  {
    assert (ss + [s])[..|ss|] == ss;
  }

  lemma {:induction false} RunKeepsTokens(st: ParseState, rows: seq<Row>)
    requires NoEmptySentence(st.sentences)
    ensures Run(st, rows).Success? ==>
              var fin := Run(st, rows).value;
              && NoEmptySentence(fin.sentences)
              && Flatten(fin.sentences) + fin.current
                 == Flatten(st.sentences) + st.current + TokenRows(rows)
    decreases |rows|
  {
    if rows == [] {
      assert TokenRows(rows) == [];
      assert Flatten(st.sentences) + st.current + [] == Flatten(st.sentences) + st.current;
    } else if Step(st, rows[0]).Success? {
      var next := Step(st, rows[0]).value;
      var head := if rows[0].TokenRow? then [rows[0].token] else [];
      StepKeepsTokens(st, rows[0]);
      RunKeepsTokens(next, rows[1..]);
      assert Run(st, rows) == Run(next, rows[1..]);
      assert TokenRows(rows) == head + TokenRows(rows[1..]);
      assert Flatten(st.sentences) + st.current + (head + TokenRows(rows[1..]))
             == Flatten(st.sentences) + st.current + head + TokenRows(rows[1..]);
    }
  }

  lemma StepKeepsTokens(st: ParseState, row: Row)
    requires NoEmptySentence(st.sentences) && Step(st, row).Success?
    ensures var next := Step(st, row).value;
            && NoEmptySentence(next.sentences)
            && Flatten(next.sentences) + next.current
               == Flatten(st.sentences) + st.current + (if row.TokenRow? then [row.token] else [])
  {
    if row.Blank? && st.current != [] {
      FlattenSnoc(st.sentences, st.current);
    }
  }

  /** A successful parse returns no empty sentence, and its sentences hold
      exactly the tokens of the token rows, in input order: comment rows,
      blank rows and multiword or empty-node rows never become tokens, and
      no token row is dropped. */
  lemma ParseUpKeepsTokenRows(lines: seq<string>)
    ensures ParseUp(lines).Success? ==>
              && NoEmptySentence(ParseUp(lines).value)
              && Flatten(ParseUp(lines).value) == TokenRows(Rows(lines))
  {
    ParseRowsKeepsTokenRows(Rows(lines));
  }

  lemma ParseRowsKeepsTokenRows(rows: seq<Row>)
    ensures ParseRows(rows).Success? ==>
              && NoEmptySentence(ParseRows(rows).value)
              && Flatten(ParseRows(rows).value) == TokenRows(rows)
  {
    RunKeepsTokens(Start, rows);
    if Run(Start, rows).Success? {
      var fin := Run(Start, rows).value;
      assert Flatten(fin.sentences) + fin.current == TokenRows(rows) by {
        assert Flatten(Start.sentences) + Start.current == [];
      }
      if fin.current != [] {
        FlattenSnoc(fin.sentences, fin.current);
      }
    }
  }

  /** No row ends a sentence or the loop: no blank row and no malformed row. */
  predicate Unbroken(rows: seq<Row>) {
    forall i :: 0 <= i < |rows| ==> !rows[i].Blank? && !rows[i].Malformed?
  }

  /** Rows with no blank and no malformed row add all their tokens, in
      order, to the open sentence and close nothing. */
  lemma {:induction false} RunUnbroken(st: ParseState, rows: seq<Row>)
    requires Unbroken(rows)
    ensures Run(st, rows) == Success(st.(current := st.current + TokenRows(rows)))
    decreases |rows|
  {
    if rows == [] {
      assert st.current + [] == st.current;
    } else {
      var head := if rows[0].TokenRow? then [rows[0].token] else [];
      var next := st.(current := st.current + head);
      assert !rows[0].Blank? && !rows[0].Malformed?;
      assert st.current + [] == st.current;
      assert Step(st, rows[0]) == Success(next);
      assert Unbroken(rows[1..]) by {
        forall i | 0 <= i < |rows[1..]|
          ensures !rows[1..][i].Blank? && !rows[1..][i].Malformed?
        {
          assert rows[1..][i] == rows[i + 1];
        }
      }
      RunUnbroken(next, rows[1..]);
      assert TokenRows(rows) == head + TokenRows(rows[1..]);
      assert st.current + head + TokenRows(rows[1..]) == st.current + TokenRows(rows);
    }
  }

  /** Token rows with no blank line between them form one sentence: rows
      with no blank and no malformed row parse to a single sentence holding
      all their tokens, or to none when there is no token. */
  lemma ParseRowsUnbroken(rows: seq<Row>)
    requires Unbroken(rows)
    ensures ParseRows(rows) == Success(if TokenRows(rows) == [] then [] else [TokenRows(rows)])
  {
    RunUnbroken(Start, rows);
    var toks := TokenRows(rows);
    assert [] + toks == toks;
    assert Start.sentences + [toks] == [toks];
  }

  /** `parse_up_file` on lines with no blank line and no malformed row:
      one sentence of all the token rows, or none. */
  lemma ParseUpUnbroken(lines: seq<string>)
    requires Unbroken(Rows(lines))
    ensures ParseUp(lines)
            == Success(if TokenRows(Rows(lines)) == [] then [] else [TokenRows(Rows(lines))])
  {
    ParseRowsUnbroken(Rows(lines));
  }

  // ---------------------------------------------------------------------------
  // When the parse fails

  /** The error of the first malformed row, if there is one. */
  function FirstMalformed(rows: seq<Row>): Option<LoadError> {
    if rows == [] then None
    else if rows[0].Malformed? then Some(rows[0].error)
    else FirstMalformed(rows[1..])
  }

  /** `FirstMalformed` finds the first malformed row, and finds none exactly
      when no row is malformed. */
  lemma {:induction false} FirstMalformedIsFirst(rows: seq<Row>)
    ensures FirstMalformed(rows).None? <==> forall i :: 0 <= i < |rows| ==> !rows[i].Malformed?
    ensures FirstMalformed(rows).Some? ==>
              exists i :: 0 <= i < |rows|
                && rows[i] == Malformed(FirstMalformed(rows).value)
                && forall j :: 0 <= j < i ==> !rows[j].Malformed?
  {
    if rows != [] && !rows[0].Malformed? {
      var rest := rows[1..];
      FirstMalformedIsFirst(rest);
      assert forall i :: 1 <= i < |rows| ==> rows[i] == rest[i - 1];
      if FirstMalformed(rest).Some? {
        var i :| 0 <= i < |rest|
                 && rest[i] == Malformed(FirstMalformed(rest).value)
                 && forall j :: 0 <= j < i ==> !rest[j].Malformed?;
        assert rows[i + 1] == Malformed(FirstMalformed(rows).value);
      }
    }
  }

  lemma {:induction false} RunFails(st: ParseState, rows: seq<Row>)
    ensures Run(st, rows).Failure? <==> FirstMalformed(rows).Some?
    ensures Run(st, rows).Failure? ==> Run(st, rows).error == FirstMalformed(rows).value
    decreases |rows|
  {
    if rows != [] && Step(st, rows[0]).Success? {
      RunFails(Step(st, rows[0]).value, rows[1..]);
    }
  }

  lemma ParseRowsFails(rows: seq<Row>)
    ensures ParseRows(rows).Failure? <==> exists i :: 0 <= i < |rows| && rows[i].Malformed?
    ensures ParseRows(rows).Failure? ==>
              exists i :: 0 <= i < |rows|
                && rows[i] == Malformed(ParseRows(rows).error)
                && forall j :: 0 <= j < i ==> !rows[j].Malformed?
  {
    RunFails(Start, rows);
    FirstMalformedIsFirst(rows);
  }

  /** The parse fails exactly when some row is malformed, and then with the
      error of the first malformed row. */
  lemma ParseUpFailsAtFirstMalformedRow(lines: seq<string>)
    ensures ParseUp(lines).Failure? <==>
              exists i :: 0 <= i < |lines| && ClassifyRow(lines[i]).Malformed?
    ensures ParseUp(lines).Failure? ==>
              exists i :: 0 <= i < |lines|
                && ClassifyRow(lines[i]) == Malformed(ParseUp(lines).error)
                && forall j :: 0 <= j < i ==> !ClassifyRow(lines[j]).Malformed?
  {
    var rows := Rows(lines);
    ParseRowsFails(rows);
    assert forall i :: 0 <= i < |lines| ==> rows[i] == ClassifyRow(lines[i]);
  }

  // ---------------------------------------------------------------------------
  // Sentence boundaries

  /** `Run` over `a + b` is `Run` over `a`, then over `b`. */
  lemma {:induction false} RunAppend(st: ParseState, a: seq<Row>, b: seq<Row>)
    ensures Run(st, a + b) == match Run(st, a)
                              case Failure(e) => Failure(e)
                              case Success(mid) => Run(mid, b)
    decreases |a|
  {
    if a == [] {
      assert a + b == b;
    } else {
      assert (a + b)[0] == a[0] && (a + b)[1..] == a[1..] + b;
      if Step(st, a[0]).Success? {
        RunAppend(Step(st, a[0]).value, a[1..], b);
      }
    }
  }

  /** Put finished sentences `done` in front of those of a run's result. */
  function After(done: seq<Sentence>, r: Result<ParseState, LoadError>): Result<ParseState, LoadError> {
    match r
    case Failure(e) => Failure(e)
    case Success(st) => Success(st.(sentences := done + st.sentences))
  }

  /** Sentences already finished play no part in the rest of the loop. */
  lemma {:induction false} RunAfter(done: seq<Sentence>, st: ParseState, rows: seq<Row>)
    ensures Run(st.(sentences := done + st.sentences), rows) == After(done, Run(st, rows))
    decreases |rows|
  {
    if rows != [] {
      var st' := st.(sentences := done + st.sentences);
      assert Step(st', rows[0]) == After(done, Step(st, rows[0])) by {
        if st.current != [] {
          assert done + st.sentences + [st.current] == done + (st.sentences + [st.current]);
        }
      }
      if Step(st, rows[0]).Success? {
        RunAfter(done, Step(st, rows[0]).value, rows[1..]);
      }
    }
  }

  /** The sentence lists of two parses, one after the other; the first error wins. */
  function ThenParse(first: Result<seq<Sentence>, LoadError>, second: Result<seq<Sentence>, LoadError>): Result<seq<Sentence>, LoadError> {
    match first
    case Failure(e) => Failure(e)
    case Success(a) =>
      match second
      case Failure(e) => Failure(e)
      case Success(b) => Success(a + b)
  }

  lemma {:induction false} ParseRowsBlankSplits(rows: seq<Row>, k: nat)
    requires k < |rows| && rows[k] == Blank
    ensures ParseRows(rows) == ThenParse(ParseRows(rows[..k]), ParseRows(rows[k + 1..]))
  {
    var a, rest := rows[..k], rows[k + 1..];
    assert rows == a + ([Blank] + rest);
    RunAppend(Start, a, [Blank] + rest);
    if Run(Start, a).Success? {
      var mid := Run(Start, a).value;
      assert ([Blank] + rest)[0] == Blank && ([Blank] + rest)[1..] == rest;
      assert Run(mid, [Blank] + rest) == Run(ParseState(Flush(mid), []), rest);
      RunAfter(Flush(mid), Start, rest);
      assert Start.(sentences := Flush(mid) + Start.sentences) == ParseState(Flush(mid), []);
      if Run(Start, rest).Success? {
        var fin := Run(Start, rest).value;
        if fin.current != [] {
          assert Flush(mid) + fin.sentences + [fin.current] == Flush(mid) + (fin.sentences + [fin.current]);
        }
      }
    }
  }

  /** A blank line is a hard sentence boundary: parsing the lines before it
      and the lines after it separately and concatenating the sentence lists
      gives the parse of the whole. */
  lemma ParseUpBlankSplits(lines: seq<string>, k: nat)
    requires k < |lines| && ClassifyRow(lines[k]) == Blank
    ensures ParseUp(lines) == ThenParse(ParseUp(lines[..k]), ParseUp(lines[k + 1..]))
  {
    RowsSlices(lines, k);
    RowsSlices(lines, k + 1);
    ParseRowsBlankSplits(Rows(lines), k);
  }

  /** A lone blank line parses to no sentence. */
  lemma ParseUpBlank(line: string)
    requires ClassifyRow(line) == Blank
    ensures ParseUp([line]) == Success([])
  {
    assert Rows([line])[0] == ClassifyRow(line);
    assert Rows([line]) == [Blank];
    assert Run(Start, [Blank]) == Run(Start, []);
  }

  lemma ParseRowsRepeatedBlank(a: seq<Row>, b: seq<Row>)
    ensures ParseRows(a + [Blank, Blank] + b) == ParseRows(a + [Blank] + b)
  {
    var long := a + [Blank, Blank] + b;
    var short := a + [Blank] + b;
    ParseRowsBlankSplits(long, |a|);
    ParseRowsBlankSplits(short, |a|);
    assert long[..|a|] == a && short[..|a|] == a;
    assert long[|a| + 1..] == [Blank] + b;
    assert short[|a| + 1..] == b;
    ParseRowsBlankSplits([Blank] + b, 0);
    assert ([Blank] + b)[..0] == [] && ([Blank] + b)[1..] == b;
    assert ParseRows([]) == Success([]);
  }

  /** Repeated blank lines add nothing: a second blank line straight after
      a first is as if it were not there. */
  lemma ParseUpRepeatedBlank(a: seq<string>, blank1: string, blank2: string, b: seq<string>)
    requires ClassifyRow(blank1) == Blank && ClassifyRow(blank2) == Blank
    ensures ParseUp(a + [blank1, blank2] + b) == ParseUp(a + [blank1] + b)
  {
    var ra, rb := Rows(a), Rows(b);
    RowsAppend(a, [blank1, blank2]);
    assert Rows([blank1, blank2]) == [Blank, Blank];
    RowsAppend(a + [blank1, blank2], b);
    assert Rows(a + [blank1, blank2] + b) == ra + [Blank, Blank] + rb;
    RowsAppend(a, [blank1]);
    assert Rows([blank1]) == [Blank];
    RowsAppend(a + [blank1], b);
    assert Rows(a + [blank1] + b) == ra + [Blank] + rb;
    ParseRowsRepeatedBlank(ra, rb);
  }

  lemma ParseRowsSkipsRow(a: seq<Row>, row: Row, b: seq<Row>)
    requires row == Comment || row == MultiwordOrEmptyNode
    ensures ParseRows(a + [row] + b) == ParseRows(a + b)
  {
    assert a + [row] + b == a + ([row] + b);
    RunAppend(Start, a, [row] + b);
    RunAppend(Start, a, b);
    if Run(Start, a).Success? {
      assert ([row] + b)[0] == row && ([row] + b)[1..] == b;
    }
  }

  /** Comment rows and multiword or empty-node rows change nothing: removing
      one from the input leaves the parse as it was. */
  lemma ParseUpSkipsRow(a: seq<string>, line: string, b: seq<string>)
    requires ClassifyRow(line) == Comment || ClassifyRow(line) == MultiwordOrEmptyNode
    ensures ParseUp(a + [line] + b) == ParseUp(a + b)
  {
    RowsAppend(a + [line], b);
    RowsAppend(a, [line]);
    RowsAppend(a, b);
    assert Rows([line]) == [ClassifyRow(line)];
    ParseRowsSkipsRow(Rows(a), ClassifyRow(line), Rows(b));
  }

  /** Tokens left open at the end of the input are flushed as a final
      sentence: when the last row is a token row, the last sentence ends
      with its token. */
  lemma ParseRowsFlushesTrailingTokens(rows: seq<Row>, row: Row)
    requires row.TokenRow? && ParseRows(rows + [row]).Success?
    ensures var ss := ParseRows(rows + [row]).value;
            ss != [] && ss[|ss| - 1] != [] && ss[|ss| - 1][|ss[|ss| - 1]| - 1] == row.token
  {
    RunAppend(Start, rows, [row]);
    var mid := Run(Start, rows).value;
    assert Run(mid, [row]) == Run(mid.(current := mid.current + [row.token]), []);
  }

  // ===========================================================================
  // convert_to_bio

  /** The nested `normalize` of `convert_to_bio`. */
  function NormalizeRole(rawRole: string): (role: string)
    ensures role == "O" || role == "ARGM" || ("ARG" <= role && !("ARGM" <= role))
  {
    if rawRole == "_" || rawRole == "V" || rawRole == "C-V" then "O"
    else
      var base := if "C-" <= rawRole || "R-" <= rawRole then rawRole[2..] else rawRole;
      if "ARGM" <= base then "ARGM"
      else if "ARG" <= base then base
      else "O"
  }

  /** A normalised role is `O` (no argument), `ARGM` (every modifier), or an
      `ARG` role that is not a modifier, which is then the raw role itself or
      the raw role less a continuation (`C-`) or reference (`R-`) prefix;
      `_`, `V` and `C-V` are no argument. */
  lemma NormalizeRoleShape(rawRole: string)
    ensures var role := NormalizeRole(rawRole);
            role == "O" || role == "ARGM" || ("ARG" <= role && !("ARGM" <= role))
    ensures var role := NormalizeRole(rawRole);
            role != "O" && role != "ARGM" ==>
              role == rawRole || (("C-" <= rawRole || "R-" <= rawRole) && role == rawRole[2..])
    ensures rawRole == "_" || rawRole == "V" || rawRole == "C-V" ==> NormalizeRole(rawRole) == "O"
    ensures "ARGM" <= rawRole ==> NormalizeRole(rawRole) == "ARGM"
    ensures var base := if "C-" <= rawRole || "R-" <= rawRole then rawRole[2..] else rawRole;
            rawRole != "_" && rawRole != "V" && rawRole != "C-V" ==>
              && ("ARGM" <= base ==> NormalizeRole(rawRole) == "ARGM")
              && ("ARG" <= base && !("ARGM" <= base) ==> NormalizeRole(rawRole) == base)
              && (!("ARG" <= base) ==> NormalizeRole(rawRole) == "O")
  {
    if "ARGM" <= rawRole {
      FirstCharDiffers("_", rawRole);
      FirstCharDiffers("V", rawRole);
      FirstCharDiffers("C-V", rawRole);
      FirstCharDiffers("C-", rawRole);
      FirstCharDiffers("R-", rawRole);
    }
  }

  /** Normalising a normalised role changes nothing. */
  lemma NormalizeRoleIdempotent(rawRole: string)
    ensures NormalizeRole(NormalizeRole(rawRole)) == NormalizeRole(rawRole)
  {
    NormalizeRoleShape(rawRole);
    var role := NormalizeRole(rawRole);
    if role == "O" {
      FirstCharDiffers("C-", role);
      FirstCharDiffers("R-", role);
      FirstCharDiffers("ARGM", role);
      FirstCharDiffers("ARG", role);
    } else {
      assert role[0] == 'A';
      FirstCharDiffers("_", role);
      FirstCharDiffers("V", role);
      FirstCharDiffers("C-V", role);
      FirstCharDiffers("C-", role);
      FirstCharDiffers("R-", role);
    }
  }

  /** The role of the token before position `i`, `O` before the first. */
  function PrevRole(raw: seq<string>, i: nat): string
    requires i <= |raw|
  {
    if i == 0 then "O" else NormalizeRole(raw[i - 1])
  }

  /** The IOB2 tag of position `i`: `O` outside an argument, `I-` when the
      role continues the one just before, `B-` otherwise. */
  function TagAt(raw: seq<string>, i: nat): string
    requires i < |raw|
  {
    var role := NormalizeRole(raw[i]);
    if role == "O" then "O"
    else if role != PrevRole(raw, i) then "B-" + role
    else "I-" + role
  }

  /** The tag sequence for one predicate's raw argument column. */
  function BioEncode(raw: seq<string>): (tags: seq<string>)
    ensures |tags| == |raw|
  {
    seq(|raw|, i requires 0 <= i < |raw| => TagAt(raw, i))
  }

  /** `convert_to_bio`: one left-to-right pass that remembers the previous role. */
  method ConvertToBio(raw: seq<string>) returns (bio: seq<string>)
    ensures bio == BioEncode(raw)
  {
    bio := [];
    var prev := "O";
    for i := 0 to |raw|
      invariant bio == BioEncode(raw)[..i]
      invariant prev == PrevRole(raw, i)
    {
      var role := NormalizeRole(raw[i]);
      TagStep(raw, i);
      if role == "O" {
        bio := bio + ["O"];
        prev := "O";
      } else if role != prev {
        bio := bio + ["B-" + role];
        prev := role;
      } else {
        bio := bio + ["I-" + role];
      }
    }
    assert BioEncode(raw)[..|raw|] == BioEncode(raw);
  }

  /** The tag at `i` and the role remembered for `i + 1`, from the role
      remembered for `i`. */
  lemma TagStep(raw: seq<string>, i: nat)
    requires i < |raw|
    ensures BioEncode(raw)[..i + 1] == BioEncode(raw)[..i] + [TagAt(raw, i)]
    ensures PrevRole(raw, i + 1) == NormalizeRole(raw[i])
  {
    var tags := BioEncode(raw);
    assert tags[i] == TagAt(raw, i);
    TakeSnoc(tags, i);
  }

  /** A tag is `O`, or `B-r` or `I-r` with `r` an `ARG` role. */
  predicate IsTag(t: string) {
    t == "O" || (("B-" <= t || "I-" <= t) && "ARG" <= t[2..])
  }

  /** The IOB2 rule at position `i`: an `I-r` tag follows `B-r` or `I-r`. */
  predicate ContinuesSpan(tags: seq<string>, i: nat)
    requires i < |tags|
  {
    "I-" <= tags[i] ==>
      i > 0 && (tags[i - 1] == tags[i] || tags[i - 1] == "B-" + tags[i][2..])
  }

  /** IOB2 well-formedness: every tag is a tag and keeps the `I-` rule. */
  predicate WellFormedBio(tags: seq<string>) {
    forall i :: 0 <= i < |tags| ==> IsTag(tags[i]) && ContinuesSpan(tags, i)
  }

  /** The role a tag carries. */
  function TagRole(t: string): string {
    if "B-" <= t || "I-" <= t then t[2..] else "O"
  }

  /** The three shapes of a tag, told apart by their first character. */
  lemma TagShapes(role: string)
    requires role != "O"
    ensures "B-" <= "B-" + role && !("I-" <= "B-" + role) && ("B-" + role)[2..] == role
    ensures "I-" <= "I-" + role && !("B-" <= "I-" + role) && ("I-" + role)[2..] == role
    ensures !("B-" <= "O") && !("I-" <= "O")
  {
    FirstCharDiffers("I-", "B-" + role);
    FirstCharDiffers("B-", "I-" + role);
    FirstCharDiffers("B-", "O");
    FirstCharDiffers("I-", "O");
  }

  /** The encoding loses no role and marks span starts exactly: a tag's role
      is its token's normalised role; it is `O` exactly for no argument; and
      it is an `I-` tag exactly when the same role was on the token before
      (so a role that recurs after `O` or after another role starts a new
      `B-` span). */
  lemma BioEncodeSpans(raw: seq<string>, i: nat)
    requires i < |raw|
    ensures TagRole(BioEncode(raw)[i]) == NormalizeRole(raw[i])
    ensures BioEncode(raw)[i] == "O" <==> NormalizeRole(raw[i]) == "O"
    ensures "I-" <= BioEncode(raw)[i] <==>
              NormalizeRole(raw[i]) != "O" && i > 0 && NormalizeRole(raw[i - 1]) == NormalizeRole(raw[i])
    ensures "B-" <= BioEncode(raw)[i] <==>
              NormalizeRole(raw[i]) != "O" && (i == 0 || NormalizeRole(raw[i - 1]) != NormalizeRole(raw[i]))
  {
    var role := NormalizeRole(raw[i]);
    if role != "O" {
      TagShapes(role);
    } else {
      FirstCharDiffers("B-", "O");
      FirstCharDiffers("I-", "O");
    }
  }

  /** Every encoding is well formed: every tag is `O` or carries an `ARG`
      role, and an `I-` tag only continues a span of its own role. */
  lemma BioEncodeWellFormed(raw: seq<string>)
    ensures WellFormedBio(BioEncode(raw))
  {
    forall i | 0 <= i < |raw|
      ensures IsTag(BioEncode(raw)[i]) && ContinuesSpan(BioEncode(raw), i)
    {
      TagWellFormed(raw, i);
    }
  }

  lemma TagWellFormed(raw: seq<string>, i: nat)
    requires i < |raw|
    ensures IsTag(BioEncode(raw)[i]) && ContinuesSpan(BioEncode(raw), i)
  {
    var tags := BioEncode(raw);
    var role := NormalizeRole(raw[i]);
    TagIs(raw, i);
    NormalizeRoleShape(raw[i]);
    if role == "O" {
      TagShapes("ARG");
      assert tags[i] == "O";
    } else {
      TagShapes(role);
      assert "ARG" <= role;
      if i > 0 && PrevRole(raw, i) == role {
        TagIs(raw, i - 1);
        assert tags[i] == "I-" + role;
        assert tags[i - 1] == "B-" + role || tags[i - 1] == "I-" + role;
      } else {
        assert tags[i] == "B-" + role;
      }
    }
  }

  /** The tag at `i`, from the role at `i` and the role before it. */
  lemma TagIs(raw: seq<string>, i: nat)
    requires i < |raw|
    ensures var role := NormalizeRole(raw[i]);
            BioEncode(raw)[i]
            == if role == "O" then "O" else if role != PrevRole(raw, i) then "B-" + role else "I-" + role
  {
    assert BioEncode(raw)[i] == TagAt(raw, i);
  }

  /** The worked example: `_ ARG0 ARG0 _ ARGM-TMP` encodes as
      `O B-ARG0 I-ARG0 O B-ARGM`. */
  lemma BioEncodeExample()
    ensures BioEncode(["_", "ARG0", "ARG0", "_", "ARGM-TMP"])
            == ["O", "B-ARG0", "I-ARG0", "O", "B-ARGM"]
  {
    var raw := ["_", "ARG0", "ARG0", "_", "ARGM-TMP"];
    var tags := BioEncode(raw);
    ExampleRoles();
    TagIs(raw, 0);
    TagIs(raw, 1);
    TagIs(raw, 2);
    TagIs(raw, 3);
    TagIs(raw, 4);
    assert tags[0] == "O" && tags[1] == "B-ARG0" && tags[2] == "I-ARG0";
    assert tags[3] == "O" && tags[4] == "B-ARGM";
  }

  /** The roles of the worked example. */
  lemma ExampleRoles()
    ensures NormalizeRole("_") == "O"
    ensures NormalizeRole("ARG0") == "ARG0"
    ensures NormalizeRole("ARGM-TMP") == "ARGM"
    ensures "ARGM" != "ARG0"
  {
    FirstCharDiffers("_", "ARG0");
    FirstCharDiffers("V", "ARG0");
    FirstCharDiffers("C-V", "ARG0");
    FirstCharDiffers("C-", "ARG0");
    FirstCharDiffers("R-", "ARG0");
    assert "ARG0"[3] != "ARGM"[3];
    NormalizeRoleShape("ARGM-TMP");
  }

  // ===========================================================================
  // sentence_to_examples

  /** One training example: the words of a sentence and one tag per word. */
  datatype Example = Example(words: seq<string>, labels: seq<string>)

  function Forms(tokens: Sentence): seq<string> {
    seq(|tokens|, i requires 0 <= i < |tokens| => tokens[i].form)
  }

  /** The number of predicates, read from the first token. */
  function PredicateCount(tokens: Sentence): nat {
    if tokens == [] then 0 else |tokens[0].argCols|
  }

  predicate HasColumn(tokens: Sentence, p: nat) {
    forall k :: 0 <= k < |tokens| ==> p < |tokens[k].argCols|
  }

  /** Column `p` of every token: one predicate's raw argument roles. */
  function Column(tokens: Sentence, p: nat): seq<string>
    requires HasColumn(tokens, p)
  {
    seq(|tokens|, k requires 0 <= k < |tokens| => tokens[k].argCols[p])
  }

  /** `sentence_to_examples`: one example per predicate column of the first
      token; a later token without that column raises. */
  function SentenceExamples(tokens: Sentence): Result<seq<Example>, LoadError> {
    var n := PredicateCount(tokens);
    if n == 0 then Success([])
    else if !HasColumn(tokens, n - 1) then Failure(MissingArgColumn)
    else Success(seq(n, p requires 0 <= p < n => Example(Forms(tokens), BioEncode(Column(tokens, p)))))
  }

  /** `sentence_to_examples` with its loop over predicate indices. */
  method SentenceToExamples(tokens: Sentence) returns (r: Result<seq<Example>, LoadError>)
    ensures r == SentenceExamples(tokens)
  {
    if |tokens| == 0 {
      return Success([]);
    }
    var numPreds := |tokens[0].argCols|;
    if numPreds == 0 {
      return Success([]);
    }
    var words := Forms(tokens);
    var examples: seq<Example> := [];
    for p := 0 to numPreds
      invariant |examples| == p
      invariant forall q :: 0 <= q < p ==>
                  HasColumn(tokens, q) && examples[q] == Example(words, BioEncode(Column(tokens, q)))
    {
      if exists k :: 0 <= k < |tokens| && |tokens[k].argCols| <= p {
        return Failure(MissingArgColumn);
      }
      var raw := Column(tokens, p);
      var labels := ConvertToBio(raw);
      ghost var before := examples;
      examples := examples + [Example(words, labels)];
      forall q | 0 <= q < p + 1
        ensures HasColumn(tokens, q) && examples[q] == Example(words, BioEncode(Column(tokens, q)))
      {
        if q < p {
          assert examples[q] == before[q];
        }
      }
    }
    assert HasColumn(tokens, numPreds - 1);
    assert examples == SentenceExamples(tokens).value;
    return Success(examples);
  }

  /** What one sentence yields: nothing for an empty sentence or one whose
      first token has no argument column; otherwise an error exactly when a
      later token lacks one of the first token's columns, and else one example
      per column, all with the sentence's words and a well-formed tag sequence
      as long as the sentence. */
  lemma SentenceExamplesShape(tokens: Sentence)
    ensures tokens == [] || tokens[0].argCols == [] ==> SentenceExamples(tokens) == Success([])
    ensures SentenceExamples(tokens).Failure? <==>
              tokens != [] && exists k :: 0 <= k < |tokens| && |tokens[k].argCols| < |tokens[0].argCols|
    ensures SentenceExamples(tokens).Success? ==>
              var exs := SentenceExamples(tokens).value;
              && |exs| == PredicateCount(tokens)
              && forall p :: 0 <= p < |exs| ==>
                   && exs[p].words == Forms(tokens)
                   && |exs[p].labels| == |tokens|
                   && WellFormedBio(exs[p].labels)
  {
    if SentenceExamples(tokens).Success? {
      var exs := SentenceExamples(tokens).value;
      forall p | 0 <= p < |exs|
        ensures |exs[p].labels| == |tokens| && WellFormedBio(exs[p].labels)
      {
        BioEncodeWellFormed(Column(tokens, p));
      }
    }
  }

  // ===========================================================================
  // load_srl_dataset

  /** Examples `a`, then those of `rest`; an error in `rest` wins. */
  function Prepend(a: seq<Example>, rest: Result<seq<Example>, LoadError>): Result<seq<Example>, LoadError> {
    match rest
    case Failure(e) => Failure(e)
    case Success(b) => Success(a + b)
  }

  /** The examples of every sentence, in sentence order, then predicate order. */
  function ExamplesOf(sentences: seq<Sentence>): Result<seq<Example>, LoadError> {
    if sentences == [] then Success([])
    else match SentenceExamples(sentences[0])
      case Failure(e) => Failure(e)
      case Success(a) => Prepend(a, ExamplesOf(sentences[1..]))
  }

  /** The examples from position `i` on: sentence `i`'s, then the rest's. */
  lemma ExamplesOfStep(sentences: seq<Sentence>, i: nat)
    requires i < |sentences|
    ensures ExamplesOf(sentences[i..]) == match SentenceExamples(sentences[i])
                                         case Failure(e) => Failure(e)
                                         case Success(a) => Prepend(a, ExamplesOf(sentences[i + 1..]))
  {
    assert sentences[i..][0] == sentences[i] && sentences[i..][1..] == sentences[i + 1..];
  }

  /** `load_srl_dataset` on the lines of a file. */
  function SrlDataset(lines: seq<string>): Result<seq<Example>, LoadError> {
    match ParseUp(lines)
    case Failure(e) => Failure(e)
    case Success(sentences) => ExamplesOf(sentences)
  }

  /** `load_srl_dataset`: parse, then extend with each sentence's examples. */
  method LoadSrlDataset(lines: seq<string>) returns (r: Result<seq<Example>, LoadError>)
    ensures r == SrlDataset(lines)
  {
    var parsed := ParseUpFile(lines);
    if parsed.Failure? {
      return Failure(parsed.error);
    }
    r := CollectExamples(parsed.value);
  }

  /** The loop of `load_srl_dataset` that extends the example list with the
      examples of each parsed sentence in turn. */
  method CollectExamples(sentences: seq<Sentence>) returns (r: Result<seq<Example>, LoadError>)
    ensures r == ExamplesOf(sentences)
  {
    var all: seq<Example> := [];
    assert sentences[0..] == sentences;
    PrependNothing(ExamplesOf(sentences));
    for i := 0 to |sentences|
      invariant ExamplesOf(sentences) == Prepend(all, ExamplesOf(sentences[i..]))
    {
      ExamplesOfStep(sentences, i);
      var ex := SentenceToExamples(sentences[i]);
      if ex.Failure? {
        return Failure(ex.error);
      }
      PrependTwice(all, ex.value, ExamplesOf(sentences[i + 1..]));
      all := all + ex.value;
    }
    assert sentences[|sentences|..] == [] && all + [] == all;
    return Success(all);
  }

  lemma PrependNothing(rest: Result<seq<Example>, LoadError>)
    ensures Prepend([], rest) == rest
  {
    if rest.Success? {
      assert [] + rest.value == rest.value;
    }
  }

  lemma PrependTwice(a: seq<Example>, b: seq<Example>, rest: Result<seq<Example>, LoadError>)
    ensures Prepend(a, Prepend(b, rest)) == Prepend(a + b, rest)
  {
    if rest.Success? {
      assert a + (b + rest.value) == a + b + rest.value;
    }
  }

  /** The sum of the sentences' predicate counts. */
  function TotalPredicates(sentences: seq<Sentence>): nat {
    if sentences == [] then 0 else PredicateCount(sentences[0]) + TotalPredicates(sentences[1..])
  }

  /** The dataset has one example per predicate column of every sentence,
      and in every example the words and the labels have the same length. */
  lemma {:induction false} ExamplesOfCount(sentences: seq<Sentence>)
    ensures ExamplesOf(sentences).Success? ==>
              var exs := ExamplesOf(sentences).value;
              && |exs| == TotalPredicates(sentences)
              && forall k :: 0 <= k < |exs| ==> |exs[k].words| == |exs[k].labels|
  {
    if sentences != [] && ExamplesOf(sentences).Success? {
      SentenceExamplesShape(sentences[0]);
      ExamplesOfCount(sentences[1..]);
      var a := SentenceExamples(sentences[0]).value;
      var b := ExamplesOf(sentences[1..]).value;
      assert ExamplesOf(sentences).value == a + b;
      forall k | 0 <= k < |a| ensures |a[k].words| == |a[k].labels| {
      }
    }
  }

  /** The dataset fails exactly when some sentence's examples fail, and then
      with the error of the first such sentence. */
  lemma {:induction false} ExamplesOfFails(sentences: seq<Sentence>)
    ensures ExamplesOf(sentences).Failure? <==>
              exists k :: 0 <= k < |sentences| && SentenceExamples(sentences[k]).Failure?
    ensures ExamplesOf(sentences).Failure? ==>
              exists k :: 0 <= k < |sentences|
                && SentenceExamples(sentences[k]) == Failure(ExamplesOf(sentences).error)
                && forall j :: 0 <= j < k ==> SentenceExamples(sentences[j]).Success?
  {
    if sentences != [] {
      var rest := sentences[1..];
      ExamplesOfFails(rest);
      forall k | 0 <= k < |rest| ensures rest[k] == sentences[k + 1] {
      }
      if SentenceExamples(sentences[0]).Failure? {
        assert SentenceExamples(sentences[0]) == Failure(ExamplesOf(sentences).error);
      } else if ExamplesOf(rest).Failure? {
        var k :| 0 <= k < |rest|
                 && SentenceExamples(rest[k]) == Failure(ExamplesOf(rest).error)
                 && forall j :: 0 <= j < k ==> SentenceExamples(rest[j]).Success?;
        assert SentenceExamples(sentences[k + 1]) == Failure(ExamplesOf(sentences).error);
        assert forall j :: 0 <= j < k + 1 ==> SentenceExamples(sentences[j]).Success? by {
          forall j | 0 <= j < k + 1 ensures SentenceExamples(sentences[j]).Success? {
            if j > 0 {
              assert sentences[j] == rest[j - 1];
            }
          }
        }
      } else {
        forall k | 0 <= k < |sentences| ensures SentenceExamples(sentences[k]).Success? {
          if k > 0 {
            assert sentences[k] == rest[k - 1];
          }
        }
      }
    }
  }
}

/**
 * `json_to_df` of qualdocs/core.py: the table of coded passages built from
 * the comments of every document. The pandas table is a sequence of rows;
 * a level cell pandas leaves as NaN is `None` until `replace(np.nan, "")`
 * turns the rows into records of plain strings.
 */
module Table {
  import opened Wrappers
  import opened Strings
  import opened Parser

  /** The four fields read from one comment: quoted text, html, id and author. */
  datatype Comment = Comment(quoted: string, html: string, id: string, author: string)

  /** One entry of the input dictionary: a document name and its comments. */
  datatype Document = Document(name: string, comments: seq<Comment>)

  /** A table row while the table is being built; `None` is a NaN cell. */
  datatype Row = Row(code: string, subcode: Option<string>, subSubcode: Option<string>,
                     name: string, text: string, commentId: string, coder: string)

  /** A row of the finished table, after NaN cells became "". */
  datatype Record = Record(code: string, subcode: string, subSubcode: string,
                           name: string, text: string, commentId: string, coder: string)

  /** The Python exceptions the modelled functions can raise. */
  datatype Exception = TypeError | AssertionError | IndexError

  // ---------------------------------------------------------------------
  // First pass: one row per (code, text) pair, in input order.
  // ---------------------------------------------------------------------

  /** Rows appended one after the other; an exception anywhere loses them all. */
  function Then(a: Option<seq<Row>>, b: Option<seq<Row>>): Option<seq<Row>> {
    if a.Some? && b.Some? then Some(a.value + b.value) else None
  }

  /** The rows that `f` gives for each of `xs`, in order. */
  function Gather<T>(xs: seq<T>, f: T -> Option<seq<Row>>): Option<seq<Row>>
    decreases |xs|
  {
    if xs == [] then Some([]) else Then(Gather(xs[..|xs| - 1], f), f(xs[|xs| - 1]))
  }

  /** The rows appended for the pairs `process_code` returned on one comment. */
  function RowsOf(name: string, c: Comment, pairs: seq<Coded>): seq<Row> {
    seq(|pairs|, i requires 0 <= i < |pairs| =>
      Row(pairs[i].code, None, None, name, pairs[i].text, c.id, c.author))
  }

  /** The rows of one `<br>`-piece of a comment; None where iterating `process_code`'s None raises. */
  function PieceRows(name: string, c: Comment, rename: Option<string -> string>): string -> Option<seq<Row>> {
    (piece: string) =>
      match ParseCode(piece, c.quoted, rename)
      case None => None
      case Some(pairs) => Some(RowsOf(name, c, pairs))
  }

  /** The pieces `process_code` runs on: the whole html, or its `<br>`-separated parts. */
  function Pieces(html: string): seq<string> {
    if !Contains(html, "<br>") then [html] else Split(html, "<br>")
  }

  /** The rows of one comment of the document `name`. */
  function CommentRows(name: string, rename: Option<string -> string>): Comment -> Option<seq<Row>> {
    (c: Comment) => Gather(Pieces(c.html), PieceRows(name, c, rename))
  }

  /** The rows of one document. */
  function DocumentRows(rename: Option<string -> string>): Document -> Option<seq<Row>> {
    (d: Document) => Gather(d.comments, CommentRows(d.name, rename))
  }

  /** The rows of the first pass over all documents. */
  function TableRows(docs: seq<Document>, rename: Option<string -> string>): Option<seq<Row>> {
    Gather(docs, DocumentRows(rename))
  }

  /** `process_code` fails on a piece exactly when its normalized code has more than two `:`. */
  predicate PieceMalformed(piece: string, rename: Option<string -> string>) {
    ColonCount(Normalize(piece, rename)) > 2
  }

  /** Some piece of the comment's html has more than three levels. */
  predicate CommentMalformed(c: Comment, rename: Option<string -> string>) {
    exists k :: 0 <= k < |Pieces(c.html)| && PieceMalformed(Pieces(c.html)[k], rename)
  }

  /** Some comment of some document has a piece with more than three levels. */
  predicate DocsMalformed(docs: seq<Document>, rename: Option<string -> string>) {
    exists i, j :: 0 <= i < |docs| && 0 <= j < |docs[i].comments| &&
      CommentMalformed(docs[i].comments[j], rename)
  }

  /** One more element gathered. */
  lemma GatherSnoc<T>(xs: seq<T>, f: T -> Option<seq<Row>>, j: int)
    requires 0 <= j < |xs|
    ensures Gather(xs[..j + 1], f) == Then(Gather(xs[..j], f), f(xs[j]))
  {
    assert xs[..j + 1][..j] == xs[..j];
  }

  /** Gathering fails exactly when one of the elements fails. */
  lemma {:induction false} GatherNone<T>(xs: seq<T>, f: T -> Option<seq<Row>>)
    ensures Gather(xs, f).None? <==> exists i :: 0 <= i < |xs| && f(xs[i]).None?
    decreases |xs|
  {
    if xs != [] {
      var init := xs[..|xs| - 1];
      GatherNone(init, f);
      if exists i :: 0 <= i < |init| && f(init[i]).None? {
        var i :| 0 <= i < |init| && f(init[i]).None?;
        assert xs[i] == init[i];
      }
      if exists i :: 0 <= i < |xs| && f(xs[i]).None? {
        var i :| 0 <= i < |xs| && f(xs[i]).None?;
        if i < |init| {
          assert init[i] == xs[i];
        }
      }
    }
  }

  /** Every gathered row comes from one of the elements. */
  lemma {:induction false} GatherMember<T>(xs: seq<T>, f: T -> Option<seq<Row>>, row: Row)
    requires Gather(xs, f).Some? && row in Gather(xs, f).value
    ensures exists i :: 0 <= i < |xs| && f(xs[i]).Some? && row in f(xs[i]).value
    decreases |xs|
  {
    var init := xs[..|xs| - 1];
    var last := |xs| - 1;
    if row in f(xs[last]).value {
    } else {
      GatherMember(init, f, row);
      var i :| 0 <= i < |init| && f(init[i]).Some? && row in f(init[i]).value;
      assert xs[i] == init[i];
    }
  }

  /** Each element yielding at least one row gives at least one row per element. */
  lemma {:induction false} GatherLength<T>(xs: seq<T>, f: T -> Option<seq<Row>>)
    requires Gather(xs, f).Some?
    requires forall i :: 0 <= i < |xs| && f(xs[i]).Some? ==> |f(xs[i]).value| >= 1
    ensures |Gather(xs, f).value| >= |xs|
    decreases |xs|
  {
    if xs != [] {
      var init := xs[..|xs| - 1];
      forall i | 0 <= i < |init| && f(init[i]).Some?
        ensures |f(init[i]).value| >= 1
      {
        assert init[i] == xs[i];
      }
      GatherLength(init, f);
    }
  }

  /** The `find("<br>") == -1` branch agrees with splitting on `<br>`. */
  lemma PiecesSplit(html: string)
    ensures Pieces(html) == Split(html, "<br>")
  {
    if !Contains(html, "<br>") {
      SplitAbsent(html, "<br>");
    }
  }

  /**
   * The rows of one `<br>`-piece: none when the piece has more than three
   * levels, otherwise at least one, each with the document name, the comment
   * id, the author as coder, the un-escaped quoted text, no level cells
   * filled yet and at most two `:` in its code.
   */
  lemma PieceRowsShape(name: string, c: Comment, rename: Option<string -> string>, piece: string)
    ensures var r := PieceRows(name, c, rename)(piece);
      && (r.None? <==> PieceMalformed(piece, rename))
      && (r.Some? ==> |r.value| >= 1 && forall row :: row in r.value ==> RowOfComment(row, name, c))
  {
    var r := PieceRows(name, c, rename)(piece);
    ParseCodeDepth(piece, c.quoted, rename);
    if r.Some? {
      var pairs := ParseCode(piece, c.quoted, rename).value;
      assert r.value == RowsOf(name, c, pairs);
      forall row | row in r.value ensures RowOfComment(row, name, c) {
        var i :| 0 <= i < |r.value| && r.value[i] == row;
        assert pairs[i] in pairs;
      }
    }
  }

  /** A first-pass row of comment `c` in document `name`. */
  predicate RowOfComment(row: Row, name: string, c: Comment) {
    && row.name == name && row.commentId == c.id && row.coder == c.author
    && row.text == Unescape(c.quoted)
    && row.subcode.None? && row.subSubcode.None?
    && ColonCount(row.code) <= 2
  }

  /**
   * For each comment, the rows of all its `<br>`-pieces in order: they fail
   * exactly when a piece has more than three levels, and otherwise there
   * is at least one per piece, all sharing the document name, comment id,
   * coder and un-escaped text.
   */
  lemma CommentRowsShape(name: string, c: Comment, rename: Option<string -> string>)
    ensures var r := CommentRows(name, rename)(c);
      && (r.None? <==> CommentMalformed(c, rename))
      && (r.Some? ==>
            && |r.value| >= |Split(c.html, "<br>")|
            && forall row :: row in r.value ==> RowOfComment(row, name, c))
  {
    var pieces := Pieces(c.html);
    var f := PieceRows(name, c, rename);
    var r := CommentRows(name, rename)(c);
    assert r == Gather(pieces, f);
    PiecesSplit(c.html);
    forall k | 0 <= k < |pieces|
      ensures f(pieces[k]).None? <==> PieceMalformed(pieces[k], rename)
      ensures f(pieces[k]).Some? ==> |f(pieces[k]).value| >= 1
    {
      PieceRowsShape(name, c, rename, pieces[k]);
    }
    GatherNone(pieces, f);
    if r.Some? {
      GatherLength(pieces, f);
      forall row | row in r.value ensures RowOfComment(row, name, c) {
        GatherMember(pieces, f, row);
        var k :| 0 <= k < |pieces| && f(pieces[k]).Some? && row in f(pieces[k]).value;
        PieceRowsShape(name, c, rename, pieces[k]);
      }
    }
  }

  /** Row `row` comes from comment `j` of document `i`. */
  predicate RowFrom(row: Row, docs: seq<Document>, i: int, j: int) {
    0 <= i < |docs| && 0 <= j < |docs[i].comments| &&
    RowOfComment(row, docs[i].name, docs[i].comments[j])
  }

  /**
   * The first pass fails exactly when some piece of some comment has more
   * than three levels; otherwise every row carries the name, id, coder and
   * un-escaped text of one comment of the input.
   */
  lemma TableRowsShape(docs: seq<Document>, rename: Option<string -> string>)
    ensures var r := TableRows(docs, rename);
      && (r.None? <==> DocsMalformed(docs, rename))
      && (r.Some? ==> forall row :: row in r.value ==> exists i, j :: RowFrom(row, docs, i, j))
  {
    var g := DocumentRows(rename);
    GatherNone(docs, g);
    forall i | 0 <= i < |docs|
      ensures g(docs[i]).None? <==> exists j :: 0 <= j < |docs[i].comments| && CommentMalformed(docs[i].comments[j], rename)
    {
      var cs := docs[i].comments;
      var f := CommentRows(docs[i].name, rename);
      assert g(docs[i]) == Gather(cs, f);
      GatherNone(cs, f);
      forall j | 0 <= j < |cs| ensures f(cs[j]).None? <==> CommentMalformed(cs[j], rename) {
        CommentRowsShape(docs[i].name, cs[j], rename);
      }
    }
    var r := TableRows(docs, rename);
    if r.Some? {
      forall row | row in r.value ensures exists i, j :: RowFrom(row, docs, i, j) {
        GatherMember(docs, g, row);
        var i :| 0 <= i < |docs| && g(docs[i]).Some? && row in g(docs[i]).value;
        var cs := docs[i].comments;
        var f := CommentRows(docs[i].name, rename);
        assert g(docs[i]) == Gather(cs, f);
        GatherMember(cs, f, row);
        var j :| 0 <= j < |cs| && f(cs[j]).Some? && row in f(cs[j]).value;
        CommentRowsShape(docs[i].name, cs[j], rename);
        assert RowFrom(row, docs, i, j);
      }
    }
  }

  /** The inner `for result in process_result` loop: one appended row per pair. */
  method AppendPairs(df: seq<Row>, name: string, c: Comment, pairs: seq<Coded>) returns (out: seq<Row>)
    ensures out == df + RowsOf(name, c, pairs)
  {
    out := df;
    for i := 0 to |pairs|
      invariant out == df + RowsOf(name, c, pairs[..i])
    {
      var result := pairs[i];
      var codesDict := Row(result.code, None, None, name, result.text, c.id, c.author);
      assert RowsOf(name, c, pairs[..i + 1]) == RowsOf(name, c, pairs[..i]) + [codesDict];
      out := out + [codesDict];
    }
    assert pairs[..|pairs|] == pairs;
  }

  /** A failing element makes the whole gathering fail. */
  lemma GatherFails<T>(xs: seq<T>, f: T -> Option<seq<Row>>, i: int)
    requires 0 <= i < |xs| && f(xs[i]).None?
    ensures Gather(xs, f).None?
  {
    GatherNone(xs, f);
  }

  /** Nothing gathered yet: the rows so far are the accumulated ones. */
  lemma GatherStart<T>(acc: seq<Row>, xs: seq<T>, f: T -> Option<seq<Row>>)
    ensures Then(Some(acc), Gather(xs[..0], f)) == Some(acc)
  {
    assert xs[..0] == [];
    assert acc + [] == acc;
  }

  /**
   * One loop step of an accumulation: `next` appends the rows of `xs[j]` to
   * the rows of `xs[..j]`, or is None (then the whole gathering fails).
   */
  lemma GatherStep<T>(acc: seq<Row>, xs: seq<T>, f: T -> Option<seq<Row>>, j: int, mid: seq<Row>, next: Option<seq<Row>>)
    requires 0 <= j < |xs|
    requires Then(Some(acc), Gather(xs[..j], f)) == Some(mid)
    requires next == Then(Some(mid), f(xs[j]))
    ensures next == Then(Some(acc), Gather(xs[..j + 1], f))
    ensures next.None? ==> Gather(xs, f).None?
  {
    GatherSnoc(xs, f, j);
    if next.None? {
      GatherFails(xs, f, j);
    } else {
      assert acc + (Gather(xs[..j], f).value + f(xs[j]).value) == mid + f(xs[j]).value;
    }
  }

  /** Nothing accumulated before. */
  lemma ThenEmpty(x: Option<seq<Row>>)
    ensures Then(Some([]), x) == x
  {
    if x.Some? {
      assert [] + x.value == x.value;
    }
  }

  /** The whole sequence gathered. */
  lemma GatherAll<T>(acc: seq<Row>, xs: seq<T>, f: T -> Option<seq<Row>>, out: seq<Row>)
    requires Then(Some(acc), Gather(xs[..|xs|], f)) == Some(out)
    ensures Then(Some(acc), Gather(xs, f)) == Some(out)
  {
    assert xs[..|xs|] == xs;
  }

  /** One `process_code` result turned into rows behind `df`. */
  lemma PieceStep(df: seq<Row>, name: string, c: Comment, rename: Option<string -> string>,
                  piece: string, result: Option<seq<Coded>>)
    requires result == ParseCode(piece, c.quoted, rename)
    ensures result.None? ==> Then(Some(df), PieceRows(name, c, rename)(piece)).None?
    ensures result.Some? ==> Then(Some(df), PieceRows(name, c, rename)(piece)) == Some(df + RowsOf(name, c, result.value))
  {
  }

  /** The `for code in codes` loop of the `<br>` branch: each piece processed in order. */
  method AppendPieces(df: seq<Row>, name: string, comment: Comment, codes: seq<string>, rename: Option<string -> string>)
    returns (r: Option<seq<Row>>)
    ensures r == Then(Some(df), Gather(codes, PieceRows(name, comment, rename)))
  {
    var pieceRows := PieceRows(name, comment, rename);
    var out := df;
    GatherStart(df, codes, pieceRows);
    for k := 0 to |codes|
      invariant Then(Some(df), Gather(codes[..k], pieceRows)) == Some(out)
    {
      var processResult := ProcessCode(codes[k], comment.quoted, rename);
      PieceStep(out, name, comment, rename, codes[k], processResult);
      GatherStep(df, codes, pieceRows, k, out, Then(Some(out), pieceRows(codes[k])));
      if processResult.None? {
        return None;
      }
      out := AppendPairs(out, name, comment, processResult.value);
    }
    GatherAll(df, codes, pieceRows, out);
    r := Some(out);
  }

  /** The rows of a comment are those of its pieces. */
  lemma CommentRowsPieces(name: string, comment: Comment, rename: Option<string -> string>)
    ensures CommentRows(name, rename)(comment) == Gather(Pieces(comment.html), PieceRows(name, comment, rename))
  {
  }

  /** Gathering a single piece. */
  lemma GatherOne<T>(x: T, f: T -> Option<seq<Row>>)
    ensures Gather([x], f) == Then(Some([]), f(x))
  {
    assert [x][..0] == [];
  }

  /**
   * The body of the comment loop of `json_to_df`: `process_code` on the
   * whole html when it has no `<br>`, otherwise on each `<br>`-piece, and
   * one appended row per returned pair. `None` is the TypeError raised by
   * iterating the `None` that `process_code` returns.
   */
  method AppendComment(df: seq<Row>, name: string, comment: Comment, rename: Option<string -> string>)
    returns (r: Option<seq<Row>>)
    ensures r == Then(Some(df), CommentRows(name, rename)(comment))
  {
    CommentRowsPieces(name, comment, rename);
    var rawCodes := comment.html;
    if !Contains(rawCodes, "<br>") {
      var pieceRows := PieceRows(name, comment, rename);
      var processResult := ProcessCode(rawCodes, comment.quoted, rename);
      PieceStep(df, name, comment, rename, rawCodes, processResult);
      GatherOne(rawCodes, pieceRows);
      ThenEmpty(pieceRows(rawCodes));
      if processResult.None? {
        return None;
      }
      var out := AppendPairs(df, name, comment, processResult.value);
      r := Some(out);
    } else {
      var codes := Split(rawCodes, "<br>");
      r := AppendPieces(df, name, comment, codes, rename);
    }
  }

  /**
   * The first loop of `json_to_df` over documents and their comments;
   * `None` is a TypeError raised on some comment.
   */
  method BuildRows(docs: seq<Document>, rename: Option<string -> string>) returns (r: Option<seq<Row>>)
    ensures r == TableRows(docs, rename)
  {
    var docRows := DocumentRows(rename);
    var df: seq<Row> := [];
    GatherStart([], docs, docRows);
    for i := 0 to |docs|
      invariant Then(Some([]), Gather(docs[..i], docRows)) == Some(df)
    {
      var name, commentsJson := docs[i].name, docs[i].comments;
      var commentRows := CommentRows(name, rename);
      assert docRows(docs[i]) == Gather(commentsJson, commentRows);
      ghost var before := df;
      GatherStart(before, commentsJson, commentRows);
      for j := 0 to |commentsJson|
        invariant Then(Some(before), Gather(commentsJson[..j], commentRows)) == Some(df)
      {
        var next := AppendComment(df, name, commentsJson[j], rename);
        GatherStep(before, commentsJson, commentRows, j, df, next);
        if next.None? {
          GatherStep([], docs, docRows, i, before, None);
          assert TableRows(docs, rename).None?;
          return None;
        }
        df := next.value;
      }
      GatherAll(before, commentsJson, commentRows, df);
      GatherStep([], docs, docRows, i, before, Some(df));
    }
    GatherAll([], docs, docRows, df);
    ThenEmpty(Gather(docs, docRows));
    r := Some(df);
  }

  // ---------------------------------------------------------------------
  // Second pass: the flattened code split again on `:`, by position.
  // ---------------------------------------------------------------------

  /** The cells for the `:`-pieces `ps` assigned by position: code, subcode, sub_subcode. */
  function Fill(row: Row, ps: seq<string>): Row
    requires |ps| <= 3
  {
    row.(code := if |ps| >= 1 then ps[0] else row.code,
         subcode := if |ps| >= 2 then Some(ps[1]) else row.subcode,
         subSubcode := if |ps| >= 3 then Some(ps[2]) else row.subSubcode)
  }

  /**
   * The table after the second pass, or None when some code has more than
   * three `:`-pieces (the `assert True is False` branch).
   */
  function LevelRows(rows: seq<Row>): Option<seq<Row>> {
    if forall k :: 0 <= k < |rows| ==> |Split(rows[k].code, ":")| <= 3 then
      Some(seq(|rows|, k requires 0 <= k < |rows| => Fill(rows[k], Split(rows[k].code, ":"))))
    else None
  }

  /** Assigning piece `n` to its cell extends the positional assignment by one piece. */
  lemma FillStep(row: Row, ps: seq<string>, n: int)
    requires 0 <= n < |ps| && n < 3
    ensures var before := Fill(row, ps[..n]);
      Fill(row, ps[..n + 1]) ==
        if n == 0 then before.(code := ps[n])
        else if n == 1 then before.(subcode := Some(ps[n]))
        else before.(subSubcode := Some(ps[n]))
  {
  }

  /**
   * The second loop of `json_to_df`: for each row, with a running `count`,
   * piece 0 of its code overwrites the code cell, piece 1 the subcode cell,
   * piece 2 the sub_subcode cell, and a fourth piece fails the assertion.
   */
  method AssignLevels(rows: seq<Row>) returns (r: Option<seq<Row>>)
    ensures r == LevelRows(rows)
  {
    ghost var parts := seq(|rows|, k requires 0 <= k < |rows| => Split(rows[k].code, ":"));
    var codesDf := rows;
    for row := 0 to |codesDf|
      invariant |codesDf| == |rows|
      invariant forall k :: 0 <= k < row ==> |parts[k]| <= 3 && codesDf[k] == Fill(rows[k], parts[k])
      invariant codesDf[row..] == rows[row..]
    {
      var items := codesDf[row];
      assert items == rows[row];
      var count := 0;
      var codeSplit := Split(items.code, ":");
      assert codeSplit == parts[row];
      assert codeSplit[..0] == [];
      for n := 0 to |codeSplit|
        invariant count == n <= 3
        invariant |codesDf| == |rows|
        invariant codesDf[row] == Fill(items, codeSplit[..n])
        invariant forall k :: 0 <= k < row ==> codesDf[k] == Fill(rows[k], parts[k])
        invariant codesDf[row + 1..] == rows[row + 1..]
      {
        var i := codeSplit[n];
        if count == 0 {
          FillStep(items, codeSplit, n);
          codesDf := codesDf[row := codesDf[row].(code := i)];
        } else if count == 1 {
          FillStep(items, codeSplit, n);
          codesDf := codesDf[row := codesDf[row].(subcode := Some(i))];
        } else if count == 2 {
          FillStep(items, codeSplit, n);
          codesDf := codesDf[row := codesDf[row].(subSubcode := Some(i))];
        } else {
          // `assert True is False`
          assert |Split(rows[row].code, ":")| > 3;
          return None;
        }
        count := count + 1;
      }
      assert codeSplit[..|codeSplit|] == codeSplit;
    }
    var leveled := seq(|rows|, k requires 0 <= k < |rows| => Fill(rows[k], Split(rows[k].code, ":")));
    assert forall k :: 0 <= k < |rows| ==> parts[k] == Split(rows[k].code, ":");
    assert codesDf == leveled;
    r := Some(codesDf);
  }

  /** The level cells of a row that are not NaN, in order. */
  function Levels(row: Row): seq<string> {
    [row.code]
    + (if row.subcode.Some? then [row.subcode.value] else [])
    + (if row.subSubcode.Some? then [row.subSubcode.value] else [])
  }

  /** The second pass fails exactly when some code has more than two `:`. */
  lemma LevelRowsFails(rows: seq<Row>)
    ensures LevelRows(rows).None? <==> exists k :: 0 <= k < |rows| && ColonCount(rows[k].code) > 2
  {
    forall k | 0 <= k < |rows| ensures |Split(rows[k].code, ":")| == ColonCount(rows[k].code) + 1 {
      SplitOnChar(rows[k].code, ':');
    }
  }

  /**
   * On first-pass rows (no level cell filled, at most two `:`), the second
   * pass succeeds, keeps the number of rows and every non-level field, and
   * each row's filled levels are exactly the `:`-pieces of its code, untrimmed
   * and in order: they contain no `:` and joined by `:` give the code back.
   * Subcode is filled exactly when the code has a `:`, sub_subcode exactly
   * when it has two.
   */
  lemma LevelRowsLossless(rows: seq<Row>)
    requires forall k :: 0 <= k < |rows| ==>
      ColonCount(rows[k].code) <= 2 && rows[k].subcode.None? && rows[k].subSubcode.None?
    ensures var r := LevelRows(rows);
      && r.Some? && |r.value| == |rows|
      && forall k :: 0 <= k < |rows| ==>
           && Levels(r.value[k]) == Split(rows[k].code, ":")
           && Join(Levels(r.value[k]), ":") == rows[k].code
           && (forall p :: p in Levels(r.value[k]) ==> ':' !in p)
           && (r.value[k].subcode.Some? <==> ColonCount(rows[k].code) >= 1)
           && (r.value[k].subSubcode.Some? <==> ColonCount(rows[k].code) == 2)
           && r.value[k].(code := rows[k].code, subcode := None, subSubcode := None) == rows[k]
  {
    LevelRowsFails(rows);
    var r := LevelRows(rows).value;
    forall k | 0 <= k < |rows|
      ensures && Levels(r[k]) == Split(rows[k].code, ":")
              && Join(Levels(r[k]), ":") == rows[k].code
              && (forall p :: p in Levels(r[k]) ==> ':' !in p)
              && (r[k].subcode.Some? <==> ColonCount(rows[k].code) >= 1)
              && (r[k].subSubcode.Some? <==> ColonCount(rows[k].code) == 2)
              && r[k].(code := rows[k].code, subcode := None, subSubcode := None) == rows[k]
    {
      var ps := Split(rows[k].code, ":");
      SplitOnChar(rows[k].code, ':');
      SplitJoin(rows[k].code, ":");
      LevelsOfFill(rows[k], ps);
    }
  }

  /** Filling an unfilled row from one to three pieces makes those pieces its levels. */
  lemma LevelsOfFill(row: Row, ps: seq<string>)
    requires 1 <= |ps| <= 3 && row.subcode.None? && row.subSubcode.None?
    ensures Levels(Fill(row, ps)) == ps
  {
    if |ps| == 1 {
      assert ps == [ps[0]];
    } else if |ps| == 2 {
      assert ps == [ps[0]] + [ps[1]];
    } else {
      assert ps == [ps[0]] + [ps[1]] + [ps[2]];
    }
  }

  /** The pieces are not trimmed: `"top: a"` gets code "top" and subcode " a". */
  lemma LevelExample(row: Row)
    requires row.code == "top: a" && row.subcode.None? && row.subSubcode.None?
    ensures LevelRows([row]) == Some([row.(code := "top", subcode := Some(" a"))])
  {
    SplitOneLevel("top", "a");
    assert "top" + ": " + "a" == "top: a";
    assert " " + "a" == " a";
    var ps := Split(row.code, ":");
    assert ps == ["top", " a"];
    assert Fill(row, ps) == row.(code := "top", subcode := Some(" a"));
    var rows := [row];
    assert forall k :: 0 <= k < |rows| ==> rows[k] == row;
    assert forall k :: 0 <= k < |rows| ==> |Split(rows[k].code, ":")| <= 3;
    var lv := seq(|rows|, k requires 0 <= k < |rows| => Fill(rows[k], Split(rows[k].code, ":")));
    assert LevelRows(rows) == Some(lv);
    assert lv == [Fill(row, ps)];
  }

  /** `replace(np.nan, "")`: NaN cells become empty strings. */
  function OrEmpty(cell: Option<string>): string {
    if cell.Some? then cell.value else ""
  }

  /** The rows as records of plain strings. */
  function FillNaN(rows: seq<Row>): seq<Record> {
    seq(|rows|, k requires 0 <= k < |rows| =>
      var row := rows[k];
      Record(row.code, OrEmpty(row.subcode), OrEmpty(row.subSubcode), row.name, row.text, row.commentId, row.coder))
  }

  // ---------------------------------------------------------------------
  // `set_index([...]).sort_index()`: ordered by (code, subcode, sub_subcode, name).
  // ---------------------------------------------------------------------

  /** Python's ordering of index tuples: lexicographic over the four key cells. */
  predicate KeyLe(a: Record, b: Record) {
    if a.code != b.code then LexLe(a.code, b.code)
    else if a.subcode != b.subcode then LexLe(a.subcode, b.subcode)
    else if a.subSubcode != b.subSubcode then LexLe(a.subSubcode, b.subSubcode)
    else LexLe(a.name, b.name)
  }

  /** Any two records are ordered one way or the other. */
  lemma KeyLeTotal(a: Record, b: Record)
    ensures KeyLe(a, b) || KeyLe(b, a)
  {
    LexLeTotal(a.code, b.code);
    LexLeTotal(a.subcode, b.subcode);
    LexLeTotal(a.subSubcode, b.subSubcode);
    LexLeTotal(a.name, b.name);
  }

  /** The key order is transitive. */
  lemma KeyLeTransitive(a: Record, b: Record, c: Record)
    requires KeyLe(a, b) && KeyLe(b, c)
    ensures KeyLe(a, c)
  {
    if a.code != b.code || b.code != c.code {
      CellTransitive(a.code, b.code, c.code);
    } else if a.subcode != b.subcode || b.subcode != c.subcode {
      CellTransitive(a.subcode, b.subcode, c.subcode);
    } else if a.subSubcode != b.subSubcode || b.subSubcode != c.subSubcode {
      CellTransitive(a.subSubcode, b.subSubcode, c.subSubcode);
    } else {
      LexLeTransitive(a.name, b.name, c.name);
    }
  }

  /** One key cell decides a comparison where it differs, and the order on it is transitive. */
  lemma CellTransitive(x: string, y: string, z: string)
    requires x != y || y != z
    requires x != y ==> LexLe(x, y)
    requires y != z ==> LexLe(y, z)
    ensures x != z ==> LexLe(x, z)
    ensures x != z || (x == y && y == z)
  {
    if x != y && y != z {
      LexLeTransitive(x, y, z);
    }
    if x == z && x != y {
      LexLeAntisymmetric(x, y);
    }
  }

  /** The table is in key order. */
  predicate Sorted(s: seq<Record>) {
    forall i, j :: 0 <= i < j < |s| ==> KeyLe(s[i], s[j])
  }

  /** `x` placed before the first record it does not exceed. */
  function Insert(x: Record, s: seq<Record>): (r: seq<Record>)
    ensures multiset(r) == multiset(s) + multiset{x}
  {
    if s == [] then [x]
    else if KeyLe(x, s[0]) then [x] + s
    else
      assert s == [s[0]] + s[1..];
      [s[0]] + Insert(x, s[1..])
  }

  /** The records in key order (ties in no promised order). */
  function SortTable(s: seq<Record>): (r: seq<Record>)
    ensures multiset(r) == multiset(s)
  {
    if s == [] then []
    else
      assert s == [s[0]] + s[1..];
      Insert(s[0], SortTable(s[1..]))
  }

  /** A record below every record of a sorted table can go in front of it. */
  lemma SortedCons(a: Record, t: seq<Record>)
    requires Sorted(t)
    requires forall y :: y in t ==> KeyLe(a, y)
    ensures Sorted([a] + t)
  {
    var r := [a] + t;
    forall i, j | 0 <= i < j < |r| ensures KeyLe(r[i], r[j]) {
      if i == 0 {
        assert r[j] == t[j - 1] && t[j - 1] in t;
      } else {
        assert r[i] == t[i - 1] && r[j] == t[j - 1];
      }
    }
  }

  /** Inserting into a sorted table keeps it sorted. */
  lemma {:induction false} InsertSorted(x: Record, s: seq<Record>)
    requires Sorted(s)
    ensures Sorted(Insert(x, s))
  {
    if s == [] {
    } else if KeyLe(x, s[0]) {
      forall y | y in s ensures KeyLe(x, y) {
        var m :| 0 <= m < |s| && s[m] == y;
        if m > 0 {
          KeyLeTransitive(x, s[0], y);
        }
      }
      SortedCons(x, s);
    } else {
      KeyLeTotal(x, s[0]);
      var rest := s[1..];
      var tail := Insert(x, rest);
      assert Sorted(rest);
      InsertSorted(x, rest);
      forall y | y in tail ensures KeyLe(s[0], y) {
        assert y in multiset(tail);
        if y != x {
          assert y in multiset(rest);
          var m :| 0 <= m < |rest| && rest[m] == y;
          assert s[m + 1] == y;
        }
      }
      SortedCons(s[0], tail);
    }
  }

  /** The sorted table is sorted. */
  lemma {:induction false} SortTableSorted(s: seq<Record>)
    ensures Sorted(SortTable(s))
  {
    if s != [] {
      SortTableSorted(s[1..]);
      InsertSorted(s[0], SortTable(s[1..]));
    }
  }

  // ---------------------------------------------------------------------
  // `json_to_df` as a whole.
  // ---------------------------------------------------------------------

  /** The records of the table before sorting, or None when the first pass raises. */
  function Records(docs: seq<Document>, rename: Option<string -> string>): Option<seq<Record>> {
    match TableRows(docs, rename)
    case None => None
    case Some(rows) =>
      match LevelRows(rows)
      case None => None
      case Some(leveled) => Some(FillNaN(leveled))
  }

  /** Record `rec` comes from comment `j` of document `i`; its levels hold no `:`. */
  predicate RecordFrom(rec: Record, docs: seq<Document>, i: int, j: int) {
    && 0 <= i < |docs| && 0 <= j < |docs[i].comments|
    && rec.name == docs[i].name
    && rec.commentId == docs[i].comments[j].id
    && rec.coder == docs[i].comments[j].author
    && rec.text == Unescape(docs[i].comments[j].quoted)
    && ':' !in rec.code && ':' !in rec.subcode && ':' !in rec.subSubcode
  }

  /** The record of a first-pass row after the second pass and the NaN fill. */
  lemma RecordOfRow(row: Row, leveled: Row, rec: Record, docs: seq<Document>, i: int, j: int)
    requires RowFrom(row, docs, i, j)
    requires forall p :: p in Levels(leveled) ==> ':' !in p
    requires leveled.(code := row.code, subcode := None, subSubcode := None) == row
    requires rec == Record(leveled.code, OrEmpty(leveled.subcode), OrEmpty(leveled.subSubcode),
                           leveled.name, leveled.text, leveled.commentId, leveled.coder)
    ensures RecordFrom(rec, docs, i, j)
  {
    assert leveled.code in Levels(leveled);
    if leveled.subcode.Some? {
      assert leveled.subcode.value in Levels(leveled);
    }
    if leveled.subSubcode.Some? {
      assert leveled.subSubcode.value in Levels(leveled);
    }
  }

  /** Every first-pass row comes from a comment of the input and is ready for the second pass. */
  lemma FirstPassReady(docs: seq<Document>, rename: Option<string -> string>)
    requires TableRows(docs, rename).Some?
    ensures var rows := TableRows(docs, rename).value;
      forall k :: 0 <= k < |rows| ==>
        && ColonCount(rows[k].code) <= 2 && rows[k].subcode.None? && rows[k].subSubcode.None?
        && exists i, j :: RowFrom(rows[k], docs, i, j)
  {
    TableRowsShape(docs, rename);
    var rows := TableRows(docs, rename).value;
    forall k | 0 <= k < |rows|
      ensures && ColonCount(rows[k].code) <= 2 && rows[k].subcode.None? && rows[k].subSubcode.None?
              && exists i, j :: RowFrom(rows[k], docs, i, j)
    {
      assert rows[k] in rows;
    }
  }

  /**
   * The records exist exactly when no piece of any comment has more than
   * three levels (so the second pass never reaches its failing assertion),
   * there is one per first-pass row, and each carries the name, comment id,
   * coder and un-escaped text of a comment of the input and `:`-free levels.
   */
  lemma RecordsShape(docs: seq<Document>, rename: Option<string -> string>)
    ensures var r := Records(docs, rename);
      && (r.None? <==> DocsMalformed(docs, rename))
      && (r.Some? ==>
            && |r.value| == |TableRows(docs, rename).value|
            && forall rec :: rec in r.value ==> exists i, j :: RecordFrom(rec, docs, i, j))
  {
    TableRowsShape(docs, rename);
    var t := TableRows(docs, rename);
    if t.Some? {
      var rows := t.value;
      FirstPassReady(docs, rename);
      LevelRowsLossless(rows);
      var leveled := LevelRows(rows).value;
      var recs := FillNaN(leveled);
      assert Records(docs, rename) == Some(recs);
      forall rec | rec in recs ensures exists i, j :: RecordFrom(rec, docs, i, j) {
        var k :| 0 <= k < |recs| && recs[k] == rec;
        var i, j :| RowFrom(rows[k], docs, i, j);
        RecordOfRow(rows[k], leveled[k], rec, docs, i, j);
      }
    }
  }

  /**
   * `json_to_df(comments_json_dict, code_replace_dict)`: a TypeError exactly
   * when some comment piece has more than three levels; otherwise the
   * records in key order, a permutation of the records built in input order.
   */
  method JsonToDf(docs: seq<Document>, rename: Option<string -> string>) returns (r: Result<seq<Record>, Exception>)
    ensures r.Failure? <==> DocsMalformed(docs, rename)
    ensures r.Failure? ==> r.error == TypeError
    ensures r.Success? ==>
      Records(docs, rename).Some? && Sorted(r.value) && multiset(r.value) == multiset(Records(docs, rename).value)
  {
    RecordsShape(docs, rename);
    var rows := BuildRows(docs, rename);
    if rows.None? {
      return Failure(TypeError);
    }
    FirstPassReady(docs, rename);
    LevelRowsLossless(rows.value);
    var leveled := AssignLevels(rows.value);
    var codesDf := if leveled.Some? then Success(FillNaN(leveled.value)) else Failure(AssertionError);
    r := if codesDf.Success? then Success(SortTable(codesDf.value)) else codesDf;
    if r.Success? {
      SortTableSorted(codesDf.value);
    }
  }
}

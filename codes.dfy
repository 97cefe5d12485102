/**
 * `get_code_list` and `get_code_counts` of qualdocs/core.py: one
 * `:`-joined string per table row, and how often each string occurs.
 */
module Codes {
  import opened Wrappers
  import opened Strings
  import opened Parser
  import opened Table

  /** The three level cells of a record's index, `row[0][0:3]`. */
  function LevelCells(rec: Record): seq<string> {
    [rec.code, rec.subcode, rec.subSubcode]
  }

  /** The non-empty strings of `xs`, in order. */
  function NonEmpty(xs: seq<string>): (r: seq<string>)
    ensures |r| <= |xs|
    decreases |xs|
  {
    if xs == [] then []
    else NonEmpty(xs[..|xs| - 1]) + (if xs[|xs| - 1] != [] then [xs[|xs| - 1]] else [])
  }

  /** Exactly the non-empty strings of `xs` are kept. */
  lemma {:induction false} NonEmptyMembers(xs: seq<string>)
    ensures forall p :: p in NonEmpty(xs) <==> p in xs && p != []
    decreases |xs|
  {
    if xs != [] {
      var init := xs[..|xs| - 1];
      NonEmptyMembers(init);
      assert xs == init + [xs[|xs| - 1]];
    }
  }

  /** Every string followed by ":": what the loop accumulates in `code_concat`. */
  function Terminated(xs: seq<string>): string
    decreases |xs|
  {
    if xs == [] then [] else Terminated(xs[..|xs| - 1]) + xs[|xs| - 1] + ":"
  }

  /** One more string considered. */
  lemma NonEmptySnoc(xs: seq<string>, n: int)
    requires 0 <= n < |xs|
    ensures NonEmpty(xs[..n + 1]) == NonEmpty(xs[..n]) + (if xs[n] != [] then [xs[n]] else [])
  {
    assert xs[..n + 1][..n] == xs[..n];
  }

  /** One more string accumulated. */
  lemma TerminatedSnoc(xs: seq<string>, p: string)
    ensures Terminated(xs + [p]) == Terminated(xs) + p + ":"
  {
    assert (xs + [p])[..|xs|] == xs;
  }

  /** The non-empty cells of three levels. */
  lemma NonEmptyThree(a: string, b: string, c: string)
    ensures NonEmpty([a, b, c]) ==
      (if a != [] then [a] else []) + (if b != [] then [b] else []) + (if c != [] then [c] else [])
  {
    var xs := [a, b, c];
    assert xs[..0] == [];
    NonEmptySnoc(xs, 0);
    NonEmptySnoc(xs, 1);
    NonEmptySnoc(xs, 2);
    assert xs[..3] == xs;
  }

  /** The accumulated string is the strings joined by ":" plus one trailing ":". */
  lemma {:induction false} TerminatedJoin(xs: seq<string>)
    requires xs != []
    ensures Terminated(xs) == Join(xs, ":") + ":"
    decreases |xs|
  {
    var init := xs[..|xs| - 1];
    var last := xs[|xs| - 1];
    if init == [] {
      assert xs == [last];
    } else {
      TerminatedJoin(init);
      assert xs == init + [last];
      JoinSnoc(init, last, ":");
    }
  }

  /** A row whose three levels are all "". */
  predicate Blank(rec: Record) {
    rec.code == "" && rec.subcode == "" && rec.subSubcode == ""
  }

  /** The entry of `get_code_list` for one row: its non-empty levels joined by ":". */
  function CodeString(rec: Record): string {
    Join(NonEmpty(LevelCells(rec)), ":")
  }

  /** `get_code_list` as a value: an IndexError on a blank row, else one entry per row. */
  function CodeList(codesDf: seq<Record>): Result<seq<string>, Exception> {
    if exists k :: 0 <= k < |codesDf| && Blank(codesDf[k]) then Failure(IndexError)
    else Success(seq(|codesDf|, k requires 0 <= k < |codesDf| => CodeString(codesDf[k])))
  }

  /** A row is blank exactly when it has no non-empty level. */
  lemma BlankNoLevels(rec: Record)
    ensures Blank(rec) <==> NonEmpty(LevelCells(rec)) == []
  {
    NonEmptyThree(rec.code, rec.subcode, rec.subSubcode);
  }

  /** One level considered by the accumulation loop. */
  lemma ConcatStep(row: seq<string>, n: int, acc: string)
    requires 0 <= n < |row| && acc == Terminated(NonEmpty(row[..n]))
    ensures (if row[n] != "" then acc + row[n] + ":" else acc) == Terminated(NonEmpty(row[..n + 1]))
  {
    NonEmptySnoc(row, n);
    if row[n] != "" {
      assert NonEmpty(row[..n + 1]) == NonEmpty(row[..n]) + [row[n]];
      TerminatedSnoc(NonEmpty(row[..n]), row[n]);
    } else {
      assert NonEmpty(row[..n]) + [] == NonEmpty(row[..n]);
    }
  }

  /**
   * What the loop accumulates for one row is empty exactly on a blank row,
   * and otherwise ends in ":" and is the entry once that is removed.
   */
  lemma ConcatTrim(rec: Record)
    ensures var acc := Terminated(NonEmpty(LevelCells(rec)));
      && (acc == [] <==> Blank(rec))
      && (acc != [] ==> acc[|acc| - 1] == ':' && acc[..|acc| - 1] == CodeString(rec))
  {
    var parts := NonEmpty(LevelCells(rec));
    BlankNoLevels(rec);
    if parts != [] {
      TerminatedJoin(parts);
      var acc := Terminated(parts);
      assert acc == CodeString(rec) + ":";
      assert acc[..|acc| - 1] == CodeString(rec);
    }
  }

  /**
   * `get_code_list(codes_df)`: for each row in table order, the non-empty
   * levels each followed by ":", then the last ":" removed; reading the last
   * character of an empty string (a row with three empty levels) raises
   * IndexError.
   */
  method GetCodeList(codesDf: seq<Record>) returns (r: Result<seq<string>, Exception>)
    ensures r.Failure? <==> exists k :: 0 <= k < |codesDf| && Blank(codesDf[k])
    ensures r.Failure? ==> r.error == IndexError
    ensures r.Success? ==>
      |r.value| == |codesDf| && forall k :: 0 <= k < |codesDf| ==> r.value[k] == CodeString(codesDf[k])
    ensures r == CodeList(codesDf)
  {
    var codeList: seq<string> := [];
    for k := 0 to |codesDf|
      invariant |codeList| == k
      invariant forall m :: 0 <= m < k ==> !Blank(codesDf[m]) && codeList[m] == CodeString(codesDf[m])
    {
      var row := LevelCells(codesDf[k]);
      var codeConcat := "";
      assert row[..0] == [];
      for n := 0 to 3
        invariant codeConcat == Terminated(NonEmpty(row[..n]))
      {
        var code := row[n];
        ConcatStep(row, n, codeConcat);
        if code != "" {
          codeConcat := codeConcat + code + ":";
        }
      }
      assert row[..3] == row;
      ConcatTrim(codesDf[k]);
      if |codeConcat| == 0 {
        // `code_concat[-1]` on an empty string
        r := Failure(IndexError);
        return;
      }
      if codeConcat[|codeConcat| - 1] == ':' {
        codeConcat := codeConcat[..|codeConcat| - 1];
      }
      codeList := codeList + [codeConcat];
    }
    assert codeList == seq(|codesDf|, k requires 0 <= k < |codesDf| => CodeString(codesDf[k]));
    r := Success(codeList);
  }

  /** An entry has no trailing ":" when the row's levels are `:`-free and not all empty. */
  lemma CodeStringNoTrailingColon(rec: Record)
    requires !Blank(rec)
    requires ':' !in rec.code && ':' !in rec.subcode && ':' !in rec.subSubcode
    ensures CodeString(rec) != [] && CodeString(rec)[|CodeString(rec)| - 1] != ':'
  {
    var parts := NonEmpty(LevelCells(rec));
    BlankNoLevels(rec);
    NonEmptyMembers(LevelCells(rec));
    var last := parts[|parts| - 1];
    assert last in parts;
    assert last != [] && last in LevelCells(rec);
    if |parts| == 1 {
      assert Join(parts, ":") == last;
    } else {
      assert parts == parts[..|parts| - 1] + [last];
      JoinSnoc(parts[..|parts| - 1], last, ":");
    }
    assert CodeString(rec)[|CodeString(rec)| - 1] == last[|last| - 1];
  }

  /** Splitting an entry on ":" gives back the row's non-empty levels. */
  lemma CodeStringSplit(rec: Record)
    requires !Blank(rec)
    requires ':' !in rec.code && ':' !in rec.subcode && ':' !in rec.subSubcode
    ensures Split(CodeString(rec), ":") == NonEmpty(LevelCells(rec))
  {
    BlankNoLevels(rec);
    NonEmptyMembers(LevelCells(rec));
    JoinSplit(NonEmpty(LevelCells(rec)), ':');
  }

  /** The record a first-pass row becomes after the second pass and the NaN fill. */
  function RecordOf(leveled: Row): Record {
    FillNaN([leveled])[0]
  }

  /** The non-empty part of one level. */
  lemma NonEmptyOne(a: string)
    ensures NonEmpty([a]) == if a != [] then [a] else []
  {
    assert [a][..0] == [];
  }

  /** The non-empty part of two levels. */
  lemma NonEmptyTwo(a: string, b: string)
    ensures NonEmpty([a, b]) == (if a != [] then [a] else []) + (if b != [] then [b] else [])
  {
    assert [a, b][..1] == [a];
    NonEmptyOne(a);
  }

  /** The level cells of a leveled row's record: its levels, NaN as "". */
  lemma CellsOfLevels(lv: Row, rec: Record)
    requires rec == RecordOf(lv)
    requires lv.subSubcode.Some? ==> lv.subcode.Some?
    ensures NonEmpty(LevelCells(rec)) == NonEmpty(Levels(lv))
    ensures Blank(rec) <==> NonEmpty(Levels(lv)) == []
  {
    NonEmptyThree(rec.code, rec.subcode, rec.subSubcode);
    if lv.subSubcode.Some? {
      assert Levels(lv) == [lv.code, lv.subcode.value, lv.subSubcode.value];
      NonEmptyThree(lv.code, lv.subcode.value, lv.subSubcode.value);
    } else if lv.subcode.Some? {
      assert Levels(lv) == [lv.code, lv.subcode.value];
      NonEmptyTwo(lv.code, lv.subcode.value);
    } else {
      assert Levels(lv) == [lv.code];
      NonEmptyOne(lv.code);
    }
  }

  /** A sequence of non-empty strings is its own non-empty part. */
  lemma {:induction false} NonEmptyKeeps(xs: seq<string>)
    requires forall p :: p in xs ==> p != []
    ensures NonEmpty(xs) == xs
    decreases |xs|
  {
    if xs != [] {
      var init := xs[..|xs| - 1];
      assert forall p :: p in init ==> p in xs;
      NonEmptyKeeps(init);
      assert xs[|xs| - 1] in xs;
      assert xs == init + [xs[|xs| - 1]];
    }
  }

  /**
   * Round trip of the flattened code: when none of the `:`-pieces of a
   * first-pass row's code is empty, the entry of its record is that code;
   * its record is blank exactly when every piece is empty.
   */
  lemma CodeStringRoundTrip(row: Row)
    requires ColonCount(row.code) <= 2 && row.subcode.None? && row.subSubcode.None?
    ensures var leveled := LevelRows([row]);
      && leveled.Some?
      && (Blank(RecordOf(leveled.value[0])) <==> forall p :: p in Split(row.code, ":") ==> p == [])
      && ((forall p :: p in Split(row.code, ":") ==> p != []) ==> CodeString(RecordOf(leveled.value[0])) == row.code)
  {
    var rows := [row];
    assert rows[0] == row;
    LevelRowsLossless(rows);
    var lv := LevelRows(rows).value[0];
    var rec := RecordOf(lv);
    var ps := Split(row.code, ":");
    assert Levels(lv) == ps;
    CellsOfLevels(lv, rec);
    NoneNonEmpty(ps);
    if forall p :: p in ps ==> p != [] {
      NonEmptyKeeps(ps);
      SplitJoin(row.code, ":");
    }
  }

  /** No non-empty string survives exactly when every string is empty. */
  lemma NoneNonEmpty(xs: seq<string>)
    ensures NonEmpty(xs) == [] <==> forall p :: p in xs ==> p == []
  {
    NonEmptyMembers(xs);
    if NonEmpty(xs) != [] {
      assert NonEmpty(xs)[0] in NonEmpty(xs);
    }
  }

  // ---------------------------------------------------------------------
  // `get_code_counts`: a Counter over the entries.
  // ---------------------------------------------------------------------

  /** `Counter(code_list)`: each entry mapped to how often it occurs. */
  function Tally(xs: seq<string>): map<string, nat>
    decreases |xs|
  {
    if xs == [] then map[]
    else
      var m := Tally(xs[..|xs| - 1]);
      var last := xs[|xs| - 1];
      m[last := (if last in m then m[last] else 0) + 1]
  }

  /** The Counter's keys are the entries, and each counts its occurrences. */
  lemma {:induction false} TallyCounts(xs: seq<string>)
    ensures forall k :: k in Tally(xs) <==> k in xs
    ensures forall k :: k in Tally(xs) ==> Tally(xs)[k] == multiset(xs)[k]
    decreases |xs|
  {
    if xs != [] {
      var init := xs[..|xs| - 1];
      var last := xs[|xs| - 1];
      TallyCounts(init);
      assert xs == init + [last];
      assert multiset(xs) == multiset(init) + multiset{last};
    }
  }

  /** The distinct entries in order of first occurrence (the Counter's key order). */
  function Distinct(xs: seq<string>): seq<string>
    decreases |xs|
  {
    if xs == [] then []
    else
      var init := xs[..|xs| - 1];
      var last := xs[|xs| - 1];
      if last in init then Distinct(init) else Distinct(init) + [last]
  }

  /** The distinct entries are the entries, each once. */
  lemma {:induction false} DistinctFacts(xs: seq<string>)
    ensures forall x :: x in Distinct(xs) <==> x in xs
    ensures forall i, j :: 0 <= i < j < |Distinct(xs)| ==> Distinct(xs)[i] != Distinct(xs)[j]
    decreases |xs|
  {
    if xs != [] {
      var init := xs[..|xs| - 1];
      var last := xs[|xs| - 1];
      DistinctFacts(init);
      assert xs == init + [last];
      var d := Distinct(init);
      if last !in init {
        var r := d + [last];
        forall i, j | 0 <= i < j < |r| ensures r[i] != r[j] {
          if j == |d| {
            assert r[i] == d[i] && d[i] in d;
          } else {
            assert r[i] == d[i] && r[j] == d[j];
          }
        }
      }
    }
  }

  /** The sum of the counts of `keys`. */
  function SumOver(keys: seq<string>, m: map<string, nat>): nat
    requires forall k :: k in keys ==> k in m
    decreases |keys|
  {
    if keys == [] then 0
    else
      var init := keys[..|keys| - 1];
      assert forall k :: k in init ==> k in keys;
      SumOver(init, m) + m[keys[|keys| - 1]]
  }

  /** Changing the count of a key not summed over changes nothing. */
  lemma {:induction false} SumIgnores(keys: seq<string>, m: map<string, nat>, x: string, v: nat)
    requires forall k :: k in keys ==> k in m
    requires x !in keys
    ensures SumOver(keys, m[x := v]) == SumOver(keys, m)
    decreases |keys|
  {
    if keys != [] {
      var init := keys[..|keys| - 1];
      assert forall k :: k in init ==> k in keys;
      SumIgnores(init, m, x, v);
    }
  }

  /** Adding one to the count of a key summed over exactly once adds one to the sum. */
  lemma {:induction false} SumBump(keys: seq<string>, m: map<string, nat>, x: string)
    requires forall k :: k in keys ==> k in m
    requires forall i, j :: 0 <= i < j < |keys| ==> keys[i] != keys[j]
    requires x in keys
    ensures SumOver(keys, m[x := m[x] + 1]) == SumOver(keys, m) + 1
    decreases |keys|
  {
    var init := keys[..|keys| - 1];
    var last := keys[|keys| - 1];
    assert forall k :: k in init ==> k in keys;
    if last == x {
      forall i | 0 <= i < |init| ensures init[i] != x {
        assert keys[i] == init[i];
      }
      SumIgnores(init, m, x, m[x] + 1);
    } else {
      assert x in init;
      SumBump(init, m, x);
    }
  }

  /** The counts of the distinct entries sum to the number of entries. */
  lemma {:induction false} TallyTotal(xs: seq<string>)
    ensures forall k :: k in Distinct(xs) ==> k in Tally(xs)
    ensures SumOver(Distinct(xs), Tally(xs)) == |xs|
    decreases |xs|
  {
    DistinctFacts(xs);
    TallyCounts(xs);
    if xs != [] {
      var init := xs[..|xs| - 1];
      var last := xs[|xs| - 1];
      TallyTotal(init);
      DistinctFacts(init);
      TallyCounts(init);
      var m := Tally(init);
      var keys := Distinct(init);
      if last in init {
        assert Distinct(xs) == keys;
        assert Tally(xs) == m[last := m[last] + 1];
        SumBump(keys, m, last);
      } else {
        assert Distinct(xs) == keys + [last];
        assert Tally(xs) == m[last := 1];
        SumIgnores(keys, m, last, 1);
        assert (keys + [last])[..|keys|] == keys;
      }
    }
  }

  /**
   * `get_code_counts` as evidently intended: the Counter over the entries
   * of `get_code_list`, failing as it fails.
   */
  function GetCodeCounts(codesDf: seq<Record>): Result<map<string, nat>, Exception> {
    match CodeList(codesDf)
    case Failure(e) => Failure(e)
    case Success(codeList) => Success(Tally(codeList))
  }

  /**
   * The counts: an IndexError exactly on a blank row; otherwise the keys are
   * the entries of the rows, each counted as often as rows give it, and the
   * counts of the distinct entries sum to the number of rows.
   */
  lemma GetCodeCountsCounts(codesDf: seq<Record>)
    ensures var r := GetCodeCounts(codesDf);
      && (r.Failure? <==> exists k :: 0 <= k < |codesDf| && Blank(codesDf[k]))
      && (r.Failure? ==> r.error == IndexError)
      && (r.Success? ==>
            var entries := CodeList(codesDf).value;
            && |entries| == |codesDf|
            && (forall key :: key in r.value <==> exists k :: 0 <= k < |codesDf| && CodeString(codesDf[k]) == key)
            && (forall key :: key in r.value ==> r.value[key] == multiset(entries)[key])
            && (forall key :: key in Distinct(entries) ==> key in r.value)
            && SumOver(Distinct(entries), r.value) == |codesDf|)
  {
    var r := GetCodeCounts(codesDf);
    if r.Success? {
      var entries := CodeList(codesDf).value;
      TallyTotal(entries);
      TallyCounts(entries);
      forall key ensures key in r.value <==> exists k :: 0 <= k < |codesDf| && CodeString(codesDf[k]) == key {
        if key in r.value {
          var k :| 0 <= k < |entries| && entries[k] == key;
        }
        if exists k :: 0 <= k < |codesDf| && CodeString(codesDf[k]) == key {
          var k :| 0 <= k < |codesDf| && CodeString(codesDf[k]) == key;
          assert entries[k] == key;
        }
      }
    }
  }

  /**
   * `get_code_counts` as written: it builds the Counter but has no return
   * statement, so a call that does not raise returns None.
   */
  function GetCodeCountsAsWritten(codesDf: seq<Record>): (r: Result<Option<map<string, nat>>, Exception>)
    ensures r.Failure? <==> GetCodeCounts(codesDf).Failure?
    ensures r.Success? ==> r.value == None
  {
    match CodeList(codesDf)
    case Failure(e) => Failure(e)
    case Success(codeList) =>
      var codeListCounter := Tally(codeList);
      Success(None)
  }

  /** The entries of the example table below. */
  lemma ExampleEntries(rec: Record, top: Record)
    requires rec.code == "top" && rec.subcode == " sub" && rec.subSubcode == ""
    requires top.code == "top" && top.subcode == "" && top.subSubcode == ""
    ensures CodeList([rec, rec, top]) == Success(["top: sub", "top: sub", "top"])
  {
    NonEmptyThree(rec.code, rec.subcode, rec.subSubcode);
    NonEmptyThree(top.code, top.subcode, top.subSubcode);
    assert NonEmpty(LevelCells(rec)) == ["top", " sub"];
    assert NonEmpty(LevelCells(top)) == ["top"];
    assert CodeString(rec) == "top: sub" by {
      assert ["top", " sub"][1..] == [" sub"];
      assert Join(["top", " sub"], ":") == "top" + ":" + " sub";
    }
    assert CodeString(top) == "top";
    var table := [rec, rec, top];
    assert !Blank(table[0]) && !Blank(table[1]) && !Blank(table[2]);
    var entries := seq(|table|, k requires 0 <= k < |table| => CodeString(table[k]));
    assert entries == ["top: sub", "top: sub", "top"];
  }

  /** The counts of the example entries. */
  lemma ExampleTally()
    ensures Tally(["top: sub", "top: sub", "top"]) == map["top: sub" := 2, "top" := 1]
  {
    var entries := ["top: sub", "top: sub", "top"];
    var m := Tally(entries);
    TallyCounts(entries);
    assert multiset(entries) == multiset{"top: sub", "top: sub", "top"};
    assert "top: sub" in entries && "top" in entries;
    assert m.Keys == {"top: sub", "top"};
    assert m["top: sub"] == 2 && m["top"] == 1;
  }

  /**
   * The table of two rows coded "top: sub" (subcode " sub", as the second
   * pass leaves it) and one coded "top": the intended counts are 2 and 1,
   * and the function as written returns None.
   */
  lemma CountsDiscarded()
    ensures var rec := Record("top", " sub", "", "doc", "text", "1", "coder");
      var top := Record("top", "", "", "doc", "text", "2", "coder");
      && GetCodeCounts([rec, rec, top]) == Success(map["top: sub" := 2, "top" := 1])
      && GetCodeCountsAsWritten([rec, rec, top]) == Success(None)
  {
    var rec := Record("top", " sub", "", "doc", "text", "1", "coder");
    var top := Record("top", "", "", "doc", "text", "2", "coder");
    ExampleEntries(rec, top);
    ExampleTally();
  }
}

/**
 * The comment-code mini-grammar of qualdocs/core.py: `strip_list` and
 * `process_code`. A raw comment such as "Top: Sub: a, b" names a code path
 * of up to three `:`-separated levels whose last level may list siblings
 * separated by `,`; parsing turns it into (flattened code, quoted text) pairs.
 */
module Parser {
  import opened Wrappers
  import opened Strings

  /** One (code, quoted text) tuple of `process_code`'s result list. */
  datatype Coded = Coded(code: string, text: string)

  /** How many `:` a code holds: a code with k colons has k + 1 levels. */
  function ColonCount(s: string): nat {
    multiset(s)[':']
  }

  /** The quoted text with the HTML entity `&#39;` turned back into `'`. */
  function Unescape(text: string): string {
    Replace(text, "&#39;", "'")
  }

  /**
   * The code after lowercasing and, when a renaming dictionary is given,
   * after its substitution (an opaque string-to-string function here).
   */
  function Normalize(rawcode: string, rename: Option<string -> string>): string {
    var code := Lower(rawcode);
    match rename
    case None => code
    case Some(f) => f(code)
  }

  /** `strip_list`: every string of the list stripped, in order. */
  method StripList(input: seq<string>) returns (output: seq<string>)
    ensures |output| == |input|
    ensures forall i :: 0 <= i < |input| ==> output[i] == Strip(input[i])
  {
    output := [];
    for i := 0 to |input|
      invariant |output| == i
      invariant forall k :: 0 <= k < i ==> output[k] == Strip(input[k])
    {
      output := output + [Strip(input[i])];
    }
  }

  /** One pair per sibling, in order: the prefix followed by the stripped sibling. */
  function Expand(prefix: string, items: seq<string>, text: string): (r: seq<Coded>)
    ensures |r| == |items|
    ensures forall i :: 0 <= i < |items| ==> r[i] == Coded(prefix + Strip(items[i]), text)
  {
    if items == [] then []
    else [Coded(prefix + Strip(items[0]), text)] + Expand(prefix, items[1..], text)
  }

  /** The last `:`-level of a split code, stripped: where siblings are looked for. */
  function Leaf(parts: seq<string>): string
    requires parts != []
  {
    Strip(parts[|parts| - 1])
  }

  /** The stripped levels above the last one, each followed by ": ". */
  function Upper(parts: seq<string>): string
    requires 2 <= |parts| <= 3
  {
    if |parts| == 2 then Strip(parts[0]) + ": "
    else Strip(parts[0]) + ": " + Strip(parts[1]) + ": "
  }

  /**
   * The branches of `process_code` on the `:`-levels `parts` of `code`:
   * one level, or no `,` in the last stripped one, gives `code` itself;
   * siblings expand behind the upper levels; more than three levels give None.
   */
  function ParseLevels(code: string, parts: seq<string>, t: string): Option<seq<Coded>>
    requires parts != []
  {
    if |parts| == 1 then Some([Coded(code, t)])
    else if |parts| <= 3 then
      if ',' !in Leaf(parts) then Some([Coded(code, t)])
      else Some(Expand(Upper(parts), Split(Leaf(parts), ","), t))
    else None
  }

  /**
   * What `process_code` returns: `None` when the code has more than three
   * levels (the function falls off its end), otherwise the list of pairs.
   */
  function ParseCode(rawcode: string, text: string, rename: Option<string -> string>): Option<seq<Coded>> {
    var code := Normalize(rawcode, rename);
    ParseLevels(code, Split(code, ":"), Unescape(text))
  }

  /**
   * The sibling loop of `process_code`: strip every `,`-piece of the last
   * level and prepend the already stripped upper levels joined by ": ".
   */
  method ExpandSiblings(upper: string, leaf: string, t: string) returns (returnList: seq<Coded>)
    ensures returnList == Expand(upper, Split(leaf, ","), t)
  {
    var pieces := Split(leaf, ",");
    var items := StripList(pieces);
    returnList := [];
    for i := 0 to |items|
      invariant |returnList| == i
      invariant forall k :: 0 <= k < i ==> returnList[k] == Coded(upper + items[k], t)
    {
      var codeConcat := upper + items[i];
      returnList := returnList + [Coded(codeConcat, t)];
    }
  }

  /** `process_code(rawcode, text, code_replace_dict)`. */
  method ProcessCode(rawcode: string, text: string, rename: Option<string -> string>)
    returns (r: Option<seq<Coded>>)
    ensures r == ParseCode(rawcode, text, rename)
  {
    var t := Unescape(text);
    var code := Lower(rawcode);
    if rename.Some? {
      code := rename.value(code);
    }
    assert code == Normalize(rawcode, rename);
    var codeSep := Split(code, ":");
    assert ParseCode(rawcode, text, rename) == ParseLevels(code, codeSep, t);
    var numParts := |codeSep|;
    if numParts == 1 {
      r := Some([Coded(code, t)]);
    } else if numParts == 2 {
      var stripped := StripList(codeSep);
      assert stripped[1] == Leaf(codeSep) && stripped[0] + ": " == Upper(codeSep);
      if ',' !in stripped[1] {
        r := Some([Coded(code, t)]);
      } else {
        var returnList := ExpandSiblings(stripped[0] + ": ", stripped[1], t);
        r := Some(returnList);
      }
      assert r == ParseLevels(code, codeSep, t);
    } else if numParts == 3 {
      var stripped := StripList(codeSep);
      var mainCode, subcode, subSubcode := stripped[0], stripped[1], stripped[2];
      assert subSubcode == Leaf(codeSep) && mainCode + ": " + subcode + ": " == Upper(codeSep);
      if ',' !in subSubcode {
        r := Some([Coded(code, t)]);
      } else {
        var returnList := ExpandSiblings(mainCode + ": " + subcode + ": ", subSubcode, t);
        r := Some(returnList);
      }
      assert r == ParseLevels(code, codeSep, t);
    } else {
      // more than three levels: the function falls off its end and returns None
      r := None;
    }
  }

  /** The stripped `:`-levels of a split code hold no `:`. */
  lemma StrippedLevelsColonFree(code: string)
    ensures forall p :: p in Split(code, ":") ==> ':' !in Strip(p)
  {
    SplitOnChar(code, ':');
    forall p | p in Split(code, ":") ensures ':' !in Strip(p) {
      StripAvoids(p, ':');
    }
  }

  /** Siblings cut from a level without `:` keep the prefix's `:`-count and the given text. */
  lemma SiblingsDepth(prefix: string, leaf: string, t: string)
    requires ':' !in leaf
    ensures forall p :: p in Expand(prefix, Split(leaf, ","), t) ==>
      p.text == t && ColonCount(p.code) == ColonCount(prefix)
  {
    var items := Split(leaf, ",");
    var r := Expand(prefix, items, t);
    SplitChars(leaf, ",");
    forall p | p in r
      ensures p.text == t && ColonCount(p.code) == ColonCount(prefix)
    {
      var i :| 0 <= i < |items| && r[i] == p;
      assert items[i] in items;
      StripAvoids(items[i], ':');
      assert p.code == prefix + Strip(items[i]);
    }
  }

  /** The upper levels of a split code contribute one `:` each. */
  lemma UpperColons(code: string)
    requires 2 <= |Split(code, ":")| <= 3
    ensures ColonCount(Upper(Split(code, ":"))) == |Split(code, ":")| - 1
    ensures ':' !in Leaf(Split(code, ":"))
  {
    var parts := Split(code, ":");
    StrippedLevelsColonFree(code);
    assert parts[0] in parts && parts[1] in parts && parts[|parts| - 1] in parts;
  }

  /**
   * Parsing fails exactly on codes with more than two `:`. Every pair it
   * returns carries the un-escaped quoted text and a code with exactly as
   * many `:` as the normalized input, so it has at most three levels.
   */
  lemma ParseCodeDepth(rawcode: string, text: string, rename: Option<string -> string>)
    ensures var r := ParseCode(rawcode, text, rename);
      && (r.None? <==> ColonCount(Normalize(rawcode, rename)) > 2)
      && (r.Some? ==>
            && |r.value| >= 1
            && forall p :: p in r.value ==>
                 p.text == Unescape(text) && ColonCount(p.code) == ColonCount(Normalize(rawcode, rename)))
  {
    var code := Normalize(rawcode, rename);
    var parts := Split(code, ":");
    SplitOnChar(code, ':');
    if 2 <= |parts| <= 3 && ',' in Leaf(parts) {
      UpperColons(code);
      SplitOnChar(Leaf(parts), ',');
      SiblingsDepth(Upper(parts), Leaf(parts), Unescape(text));
    }
  }

  /**
   * Without a renaming dictionary, the number of levels is that of the raw
   * comment itself, since lowercasing leaves every `:` in place: parsing
   * fails exactly when the raw code has more than two `:`.
   */
  lemma ParseCodeFailsOnRaw(rawcode: string, text: string)
    ensures ParseCode(rawcode, text, None).None? <==> ColonCount(rawcode) > 2
  {
    ParseCodeDepth(rawcode, text, None);
    LowerKeepsCount(rawcode, ':');
  }

  /**
   * A single pair holding the whole normalized (untrimmed) code comes back
   * exactly when the code has one level, or two or three levels whose last
   * stripped level has no `,`.
   */
  lemma ParseCodeSingle(rawcode: string, text: string, rename: Option<string -> string>)
    ensures var code := Normalize(rawcode, rename);
      var parts := Split(code, ":");
      ParseCode(rawcode, text, rename) == Some([Coded(code, Unescape(text))])
      <==> (|parts| == 1 || (|parts| <= 3 && ',' !in Leaf(parts)))
  {
    var code := Normalize(rawcode, rename);
    var parts := Split(code, ":");
    if 2 <= |parts| <= 3 && ',' in Leaf(parts) {
      SplitOnChar(Leaf(parts), ',');
      assert |Split(Leaf(parts), ",")| >= 2;
    }
  }

  /**
   * A code without `:` comes back unchanged: lowercased, not trimmed, as
   * the only pair, with the un-escaped text.
   */
  lemma ParseCodeNoColon(rawcode: string, text: string, rename: Option<string -> string>)
    requires ':' !in Normalize(rawcode, rename)
    ensures ParseCode(rawcode, text, rename) == Some([Coded(Normalize(rawcode, rename), Unescape(text))])
  {
    SplitOnChar(Normalize(rawcode, rename), ':');
  }

  /** Regrouping `a + ": " + b` around its `:`. */
  lemma ColonSpace(a: string, b: string)
    ensures a + ": " + b == a + [':'] + (" " + b)
  {
    assert ": " == [':'] + " ";
  }

  /** Splitting `a + ": " + b` on `:`, with no `:` on either side, gives `a` and `" " + b`. */
  lemma SplitOneLevel(a: string, b: string)
    requires ':' !in a && ':' !in b
    ensures Split(a + ": " + b, ":") == [a, " " + b]
  {
    ColonSpace(a, b);
    SplitAfterFirst(a, ':', " " + b);
    SplitOnChar(" " + b, ':');
    assert Split(" " + b, ":") == [Split(" " + b, ":")[0]];
    SplitJoin(" " + b, ":");
  }

  /** Regrouping `a + ": " + b + ": " + c` around its first `:`. */
  lemma ColonSpaceTwice(a: string, b: string, c: string)
    ensures a + ": " + b + ": " + c == a + [':'] + ((" " + b) + ": " + c)
  {
    calc {
      a + ": " + b + ": " + c;
      a + ": " + (b + ": " + c);
      { ColonSpace(a, b + ": " + c); }
      a + [':'] + (" " + (b + ": " + c));
      a + [':'] + ((" " + b) + ": " + c);
    }
  }

  /** Splitting `a + ": " + b + ": " + c` on `:`, with no `:` in the three, gives `a`, `" " + b`, `" " + c`. */
  lemma SplitTwoLevels(a: string, b: string, c: string)
    requires ':' !in a && ':' !in b && ':' !in c
    ensures Split(a + ": " + b + ": " + c, ":") == [a, " " + b, " " + c]
  {
    var sb := " " + b;
    ColonSpaceTwice(a, b, c);
    SplitAfterFirst(a, ':', sb + ": " + c);
    assert ':' !in sb;
    SplitOneLevel(sb, c);
  }

  /** One level above the sibling: [`a`, `" " + item`]. */
  lemma SiblingLevelsTwo(a: string, item: string)
    requires ':' !in a && ':' !in item
    ensures a + ": " + item == Join([a, item], ": ")
    ensures Split(a + ": " + item, ":") == [a, " " + item]
  {
    SplitOneLevel(a, item);
  }

  /** Two levels above the sibling: [`a`, `" " + b`, `" " + item`]. */
  lemma SiblingLevelsThree(a: string, b: string, item: string)
    requires ':' !in a && ':' !in b && ':' !in item
    ensures a + ": " + b + ": " + item == Join([a, b, item], ": ")
    ensures Split(a + ": " + b + ": " + item, ":") == [a, " " + b, " " + item]
  {
    SplitTwoLevels(a, b, item);
    calc {
      Join([a, b, item], ": ");
      { assert [a, b, item][1..] == [b, item]; }
      a + ": " + Join([b, item], ": ");
      { assert [b, item][1..] == [item]; }
      a + ": " + (b + ": " + item);
      a + ": " + b + ": " + item;
    }
  }

  /**
   * The `:`-levels of one expanded sibling: the first stripped level, then
   * every further level (the sibling included) behind one space.
   */
  lemma SiblingLevels(parts: seq<string>, item: string)
    requires 2 <= |parts| <= 3 && ':' !in item
    requires forall p :: p in parts ==> ':' !in Strip(p)
    ensures var upper := if |parts| == 2 then [Strip(parts[0])] else [Strip(parts[0]), Strip(parts[1])];
      && Upper(parts) + item == Join(upper + [item], ": ")
      && Split(Upper(parts) + item, ":") ==
           if |parts| == 2 then [Strip(parts[0]), " " + item]
           else [Strip(parts[0]), " " + Strip(parts[1]), " " + item]
  {
    var a := Strip(parts[0]);
    assert parts[0] in parts && parts[1] in parts;
    if |parts| == 2 {
      SiblingLevelsTwo(a, item);
      assert [a] + [item] == [a, item];
    } else {
      var b := Strip(parts[1]);
      assert Upper(parts) + item == a + ": " + b + ": " + item;
      SiblingLevelsThree(a, b, item);
      assert [a, b] + [item] == [a, b, item];
    }
  }

  /**
   * Every pair expanded behind the upper levels of `parts` from `:`-free
   * pieces: its code is the stripped levels joined by ": ", and split on `:`
   * it gives back the first stripped level and the further ones behind one space.
   */
  lemma ExpandLevels(parts: seq<string>, items: seq<string>, t: string)
    requires 2 <= |parts| <= 3
    requires forall p :: p in parts ==> ':' !in Strip(p)
    requires forall p :: p in items ==> ':' !in p
    ensures var upper := if |parts| == 2 then [Strip(parts[0])] else [Strip(parts[0]), Strip(parts[1])];
      var r := Expand(Upper(parts), items, t);
      forall i :: 0 <= i < |items| ==>
        && r[i].code == Join(upper + [Strip(items[i])], ": ")
        && Split(r[i].code, ":") ==
             if |parts| == 2 then [Strip(parts[0]), " " + Strip(items[i])]
             else [Strip(parts[0]), " " + Strip(parts[1]), " " + Strip(items[i])]
  {
    var r := Expand(Upper(parts), items, t);
    forall i | 0 <= i < |items|
      ensures var upper := if |parts| == 2 then [Strip(parts[0])] else [Strip(parts[0]), Strip(parts[1])];
        && r[i].code == Join(upper + [Strip(items[i])], ": ")
        && Split(r[i].code, ":") ==
             if |parts| == 2 then [Strip(parts[0]), " " + Strip(items[i])]
             else [Strip(parts[0]), " " + Strip(parts[1]), " " + Strip(items[i])]
    {
      assert items[i] in items;
      StripAvoids(items[i], ':');
      assert r[i].code == Upper(parts) + Strip(items[i]);
      SiblingLevels(parts, Strip(items[i]));
    }
  }

  /**
   * Siblings after the last `:` expand into one pair per `,`-piece, in
   * order: at least two of them, each code the stripped upper levels joined
   * by ": " and then the stripped piece, each with the same un-escaped text.
   * Split again on `:` (as the table's second pass does), each code gives
   * back the first stripped level and the further ones behind one space.
   */
  lemma ParseCodeSiblings(rawcode: string, text: string, rename: Option<string -> string>)
    requires var parts := Split(Normalize(rawcode, rename), ":");
      2 <= |parts| <= 3 && ',' in Leaf(parts)
    ensures var parts := Split(Normalize(rawcode, rename), ":");
      var items := Split(Leaf(parts), ",");
      var upper := if |parts| == 2 then [Strip(parts[0])] else [Strip(parts[0]), Strip(parts[1])];
      var r := ParseCode(rawcode, text, rename);
      && r.Some? && |r.value| == |items| >= 2
      && forall i :: 0 <= i < |items| ==>
           && r.value[i].code == Join(upper + [Strip(items[i])], ": ")
           && r.value[i].text == Unescape(text)
           && Split(r.value[i].code, ":") ==
                if |parts| == 2 then [Strip(parts[0]), " " + Strip(items[i])]
                else [Strip(parts[0]), " " + Strip(parts[1]), " " + Strip(items[i])]
  {
    var code := Normalize(rawcode, rename);
    var parts := Split(code, ":");
    var leaf := Leaf(parts);
    var items := Split(leaf, ",");
    assert ParseCode(rawcode, text, rename) == Some(Expand(Upper(parts), items, Unescape(text)));
    UpperColons(code);
    StrippedLevelsColonFree(code);
    SplitOnChar(leaf, ',');
    SplitChars(leaf, ",");
    ExpandLevels(parts, items, Unescape(text));
  }

  /** No character reference `&#39;` survives the un-escaping. */
  lemma UnescapeComplete(text: string)
    ensures !Contains(Unescape(text), "&#39;")
  {
    SplitNoSep(text, "&#39;");
    JoinAvoids(Split(text, "&#39;"), '\'', "&#39;");
  }

  /** Quoted text without `&` is left as it is. */
  lemma UnescapePlain(text: string)
    requires '&' !in text
    ensures Unescape(text) == text
  {
    AbsentFirst(text, "&#39;");
    SplitAbsent(text, "&#39;");
  }

  /** Splitting `a + "," + b` on `,` when neither side holds a `,`. */
  lemma SplitComma(a: string, b: string)
    requires ',' !in a && ',' !in b
    ensures Split(a + "," + b, ",") == [a, b]
  {
    assert a + "," + b == a + [','] + b;
    SplitAfterFirst(a, ',', b);
    AbsentFirst(b, ",");
    SplitAbsent(b, ",");
  }

  /** A word with no whitespace at its ends. */
  predicate Word(x: string) {
    x != [] && !IsSpace(x[0]) && !IsSpace(x[|x| - 1])
  }

  /** Stripping a word behind one space gives the word. */
  lemma StripSpaced(x: string)
    requires Word(x)
    ensures Strip(x) == x && Strip(" " + x) == x
  {
    StripFacts(x);
    assert (" " + x)[1..] == x;
    assert TrimLeft(" " + x) == TrimLeft(x);
    TrimLeftFacts(x);
    assert TrimLeft(x) == x;
  }

  /** The siblings part `b, c` of `a: b, c`, after the `:`-split and the strip. */
  lemma SiblingsLeaf(b: string, c: string)
    requires Word(b) && Word(c) && ',' !in b && ',' !in c
    ensures Strip(" " + (b + ", " + c)) == b + ", " + c
    ensures ',' in b + ", " + c
    ensures Split(b + ", " + c, ",") == [b, " " + c]
  {
    var rest := b + ", " + c;
    assert Word(rest) by {
      assert rest[0] == b[0] && rest[|rest| - 1] == c[|c| - 1];
    }
    StripSpaced(rest);
    assert rest[|b|] == ',';
    assert ',' !in " " + c;
    SplitComma(b, " " + c);
    assert b + "," + (" " + c) == rest;
  }

  /**
   * Two siblings under one upper level, `a: b, c` with words `a`, `b`, `c`
   * free of `:` and `,`, expand into `a: b` and `a: c`.
   */
  lemma ParseTwoSiblings(a: string, b: string, c: string, t: string)
    requires Word(a) && Word(b) && Word(c)
    requires ':' !in a && ':' !in b && ':' !in c && ',' !in b && ',' !in c
    ensures var code := a + ": " + b + ", " + c;
      ParseLevels(code, Split(code, ":"), t) == Some([Coded(a + ": " + b, t), Coded(a + ": " + c, t)])
  {
    var code := a + ": " + b + ", " + c;
    var rest := b + ", " + c;
    assert code == a + ": " + rest;
    assert ':' !in rest;
    SplitOneLevel(a, rest);
    var parts := Split(code, ":");
    SiblingsLeaf(b, c);
    StripSpaced(a);
    StripSpaced(c);
    var items := [b, " " + c];
    assert Leaf(parts) == rest;
    assert Upper(parts) == a + ": ";
    var r := Expand(a + ": ", items, t);
    assert r[0] == Coded(a + ": " + b, t) by {
      StripSpaced(b);
    }
    assert r[1] == Coded(a + ": " + c, t);
    assert r == [r[0], r[1]];
  }

  /** No ASCII upper-case letter in `s`. */
  predicate Lowercase(s: string) {
    forall k :: 0 <= k < |s| ==> !('A' <= s[k] <= 'Z')
  }

  /**
   * `process_code` on `a: b, c` (lower-case words free of `:` and `,`,
   * no renaming, a text without character references) gives the two
   * entries `a: b` and `a: c` carrying the text.
   */
  lemma ParseCodeTwoSiblings(a: string, b: string, c: string, t: string)
    requires Word(a) && Word(b) && Word(c)
    requires ':' !in a && ':' !in b && ':' !in c && ',' !in b && ',' !in c
    requires Lowercase(a + ": " + b + ", " + c) && '&' !in t
    ensures ParseCode(a + ": " + b + ", " + c, t, None) ==
      Some([Coded(a + ": " + b, t), Coded(a + ": " + c, t)])
  {
    LowerNoUpper(a + ": " + b + ", " + c);
    UnescapePlain(t);
    ParseTwoSiblings(a, b, c, t);
  }

  /**
   * The documented example: "top: subcode1, subcode2" expands into
   * "top: subcode1" and "top: subcode2", both with the quoted text.
   */
  lemma ParseCodeExample()
    ensures ParseCode("top: subcode1, subcode2", "quoted text", None) ==
      Some([Coded("top: subcode1", "quoted text"), Coded("top: subcode2", "quoted text")])
  {
    var a, b, c := "top", "subcode1", "subcode2";
    ExampleParts(a, b, c);
    assert Lowercase("top: subcode1, subcode2");
    assert '&' !in "quoted text";
    ParseCodeTwoSiblings(a, b, c, "quoted text");
  }

  /** The words of the documented example and how they concatenate. */
  lemma ExampleParts(a: string, b: string, c: string)
    requires a == "top" && b == "subcode1" && c == "subcode2"
    ensures Word(a) && Word(b) && Word(c)
    ensures ':' !in a && ':' !in b && ':' !in c && ',' !in b && ',' !in c
    ensures a + ": " + b + ", " + c == "top: subcode1, subcode2"
    ensures a + ": " + b == "top: subcode1" && a + ": " + c == "top: subcode2"
  {
  }
}

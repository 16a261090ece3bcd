/**
 * The header text of a `.npy` file: the two regular-expression lookups of `descr` and `shape`,
 * the `split`/`trim`/`parseInt`/NaN-filter pipeline that turns the shape capture into integers,
 * and, as the partner of both, the header dictionary NumPy writes.
 */
module NpyHeader {
  import opened Base
  import opened JsText

  /** What a pattern lets stand between its key and its opening delimiter. */
  datatype Gap =
    | Blanks   // `\s*`
    | LetterS  // `s*`: what `\\s*` inside a regular-expression literal denotes

  /**
   * A regular expression of the form `key gap* open ([^close]+) close` (or `*` instead of `+`
   * when `nonEmpty` is false); its capture is the text between the two delimiters.
   */
  datatype Pattern = Pattern(key: string, gap: Gap, open: char, close: char, nonEmpty: bool)

  /** `/'descr':\s*'([^']+)'/`, the intended lookup of the dtype descriptor. */
  const DescrPattern := Pattern("'descr':", Blanks, '\'', '\'', true)
  /** `/'shape':\s*\(([^)]*)\)/`, the intended lookup of the shape tuple. */
  const ShapePattern := Pattern("'shape':", Blanks, '(', ')', false)
  /**
   * The descr lookup as vtk.js writes it, `/'descr':\\s*'([^']+)'/`: inside a regular-expression
   * literal `\\` is a backslash, so the key ends in a backslash followed by any number of `s`.
   */
  const DescrPatternAsWritten := Pattern("'descr':\\", LetterS, '\'', '\'', true)

  predicate InGap(g: Gap, c: char) {
    match g
    case Blanks => IsSpace(c)
    case LetterS => c == 's'
  }

  /** The first position at or after `k` that the gap does not cover. */
  function SkipGap(h: string, g: Gap, k: nat): (j: nat)
    requires k <= |h|
    ensures k <= j <= |h|
    ensures forall i :: k <= i < j ==> InGap(g, h[i])
    ensures j < |h| ==> !InGap(g, h[j])
    decreases |h| - k
  {
    if k < |h| && InGap(g, h[k]) then SkipGap(h, g, k + 1) else k
  }

  /** The first position at or after `k` that holds `c`, or `|h|`. */
  function RunEnd(h: string, c: char, k: nat): (j: nat)
    requires k <= |h|
    ensures k <= j <= |h|
    ensures forall i :: k <= i < j ==> h[i] != c
    ensures j < |h| ==> h[j] == c
    decreases |h| - k
  {
    if k < |h| && h[k] != c then RunEnd(h, c, k + 1) else k
  }

  /** `key` occurs in `h` at position `i`. */
  predicate KeyAt(h: string, key: string, i: nat) {
    i + |key| <= |h| && h[i..i + |key|] == key
  }

  /** The capture of the delimited part of `p` when its opening delimiter is sought at `j`. */
  function DelimitedAt(h: string, p: Pattern, j: nat): (r: Option<string>)
    requires j <= |h|
    ensures r.Some? ==> p.close !in r.value && (p.nonEmpty ==> |r.value| > 0)
  {
    if j < |h| && h[j] == p.open then
      var k := RunEnd(h, p.close, j + 1);
      if k < |h| && (!p.nonEmpty || k > j + 1) then Some(h[j + 1..k]) else None
    else None
  }

  /**
   * The capture of a match of `p` that starts at position `i`. For these patterns a match at a
   * given start is unique: the greedy gap and the greedy run stop exactly where the next token
   * must stand, so no backtracking can produce a second one (`MatchAtIsRegexMatch`).
   */
  function MatchAt(h: string, p: Pattern, i: nat): (r: Option<string>)
    ensures r.Some? ==> KeyAt(h, p.key, i)
    ensures r.Some? ==> p.close !in r.value && (p.nonEmpty ==> |r.value| > 0)
  {
    if KeyAt(h, p.key, i) then DelimitedAt(h, p, SkipGap(h, p.gap, i + |p.key|)) else None
  }

  /** `h.match(p)[1]` restricted to matches starting at `from` or later (see `SearchIsLeftmost`). */
  function Search(h: string, p: Pattern, from: nat): (r: Option<string>)
    ensures r.Some? ==> p.close !in r.value && (p.nonEmpty ==> |r.value| > 0)
    decreases |h| - from
  {
    if from >= |h| then None
    else if MatchAt(h, p, from).Some? then MatchAt(h, p, from)
    else Search(h, p, from + 1)
  }

  /**
   * A match of `p` at `i` as a backtracking regular-expression engine sees it: the key at `i`,
   * gap characters up to the opening delimiter at `j`, the capture `c` free of the closing
   * delimiter, and the closing delimiter at `k`.
   */
  predicate RegexMatch(h: string, p: Pattern, i: nat, c: string, j: nat, k: nat) {
    KeyAt(h, p.key, i) && i + |p.key| <= j < k < |h| &&
    (forall m :: i + |p.key| <= m < j ==> InGap(p.gap, h[m])) &&
    h[j] == p.open && c == h[j + 1..k] && p.close !in c && h[k] == p.close &&
    (p.nonEmpty ==> |c| > 0)
  }

  /** None of the three patterns lets its gap swallow its opening delimiter. */
  lemma PatternsUnambiguous()
    ensures !InGap(DescrPattern.gap, DescrPattern.open)
    ensures !InGap(ShapePattern.gap, ShapePattern.open)
    ensures !InGap(DescrPatternAsWritten.gap, DescrPatternAsWritten.open)
  {
  }

  /**
   * When the gap cannot cover the opening delimiter, `MatchAt` yields `c` exactly when some
   * placement of the delimiters makes the pattern match at `i` with capture `c`: the greedy
   * reading finds the only match there is, so backtracking adds none.
   */
  lemma MatchAtIsRegexMatch(h: string, p: Pattern, i: nat, c: string)
    requires !InGap(p.gap, p.open)
    ensures MatchAt(h, p, i) == Some(c) <==> exists j: nat, k: nat :: RegexMatch(h, p, i, c, j, k)
  {
    if MatchAt(h, p, i) == Some(c) {
      GreedyMatchIsRegexMatch(h, p, i, c);
    }
    if exists j: nat, k: nat :: RegexMatch(h, p, i, c, j, k) {
      var j: nat, k: nat :| RegexMatch(h, p, i, c, j, k);
      RegexMatchIsGreedy(h, p, i, c, j, k);
    }
  }

  lemma GreedyMatchIsRegexMatch(h: string, p: Pattern, i: nat, c: string)
    requires MatchAt(h, p, i) == Some(c)
    ensures RegexMatch(h, p, i, c, SkipGap(h, p.gap, i + |p.key|), RunEnd(h, p.close, SkipGap(h, p.gap, i + |p.key|) + 1))
  {
  }

  lemma RegexMatchIsGreedy(h: string, p: Pattern, i: nat, c: string, j: nat, k: nat)
    requires !InGap(p.gap, p.open) && RegexMatch(h, p, i, c, j, k)
    ensures MatchAt(h, p, i) == Some(c)
  {
    SkipGapStops(h, p.gap, i + |p.key|, j);
    forall m | j + 1 <= m < k ensures h[m] != p.close {
      assert h[m] == c[m - j - 1];
    }
    RunEndStops(h, p.close, j + 1, k);
  }

  lemma {:induction false} SkipGapStops(h: string, g: Gap, k: nat, j: nat)
    requires k <= j < |h| && !InGap(g, h[j])
    requires forall m :: k <= m < j ==> InGap(g, h[m])
    ensures SkipGap(h, g, k) == j
    decreases j - k
  {
    if k < j {
      SkipGapStops(h, g, k + 1, j);
    }
  }

  /** The search finds a match exactly when there is one, and then the leftmost. */
  lemma SearchIsLeftmost(h: string, p: Pattern, from: nat)
    ensures Search(h, p, from).None? <==> forall i :: from <= i < |h| ==> MatchAt(h, p, i).None?
    ensures Search(h, p, from).Some? ==>
      exists i :: from <= i < |h| && MatchAt(h, p, i) == Search(h, p, from) &&
                  forall j :: from <= j < i ==> MatchAt(h, p, j).None?
  {
    SearchFindsNothing(h, p, from);
    if Search(h, p, from).Some? {
      SearchFindsLeftmost(h, p, from);
    }
  }

  lemma {:induction false} SearchFindsNothing(h: string, p: Pattern, from: nat)
    ensures Search(h, p, from).None? <==> forall i :: from <= i < |h| ==> MatchAt(h, p, i).None?
    decreases |h| - from
  {
    if from < |h| && MatchAt(h, p, from).None? {
      SearchFindsNothing(h, p, from + 1);
    }
  }

  lemma {:induction false} SearchFindsLeftmost(h: string, p: Pattern, from: nat)
    requires Search(h, p, from).Some?
    ensures exists i :: from <= i < |h| && MatchAt(h, p, i) == Search(h, p, from) &&
                        forall j :: from <= j < i ==> MatchAt(h, p, j).None?
    decreases |h| - from
  {
    if MatchAt(h, p, from).Some? {
      assert MatchAt(h, p, from) == Search(h, p, from);
    } else {
      SearchFindsLeftmost(h, p, from + 1);
      var i :| from + 1 <= i < |h| && MatchAt(h, p, i) == Search(h, p, from + 1) &&
               forall j :: from + 1 <= j < i ==> MatchAt(h, p, j).None?;
      assert forall j :: from <= j < i ==> MatchAt(h, p, j).None?;
    }
  }

  /** The lookup as written finds something only in a header that holds a backslash. */
  lemma AsWrittenDescrNeedsBackslash(h: string)
    ensures Search(h, DescrPatternAsWritten, 0).Some? ==> exists k :: 0 <= k < |h| && h[k] == '\\'
  {
    SearchIsLeftmost(h, DescrPatternAsWritten, 0);
    if Search(h, DescrPatternAsWritten, 0).Some? {
      var i :| 0 <= i < |h| && MatchAt(h, DescrPatternAsWritten, i) == Search(h, DescrPatternAsWritten, 0) &&
               forall j :: 0 <= j < i ==> MatchAt(h, DescrPatternAsWritten, j).None?;
      assert KeyAt(h, DescrPatternAsWritten.key, i);
      assert h[i + 8] == h[i..i + 9][8] == '\\';
    }
  }

  /** Positions that cannot start a match may be skipped. */
  lemma {:induction false} SearchSkips(h: string, p: Pattern, lo: nat, hi: nat)
    requires lo <= hi
    requires forall i :: lo <= i < hi ==> MatchAt(h, p, i).None?
    ensures Search(h, p, lo) == Search(h, p, hi)
    decreases hi - lo
  {
    if lo < hi && lo < |h| {
      SearchSkips(h, p, lo + 1, hi);
    }
  }

  /** `items.map(x => parseInt(x.trim())).filter(x => !isNaN(x))`. */
  function ShapeItems(items: seq<string>): (r: seq<int>)
    ensures |r| <= |items|
  {
    if items == [] then []
    else
      var rest := ShapeItems(items[1..]);
      var head := ParseInt(Trim(items[0]));
      if head.Some? then [head.value] + rest else rest
  }

  /** One item gives its number when `parseInt` reads one and nothing when it reads NaN. */
  lemma ShapeItemsOne(x: string)
    ensures ShapeItems([x]) == if ParseInt(Trim(x)).Some? then [ParseInt(Trim(x)).value] else []
  {
    assert [x][1..] == [];
  }

  /** The map and the filter work item by item: the axes of `a + b` are those of `a`, then those of `b`. */
  lemma {:induction false} ShapeItemsConcat(a: seq<string>, b: seq<string>)
    ensures ShapeItems(a + b) == ShapeItems(a) + ShapeItems(b)
  {
    if a == [] {
      assert a + b == b;
    } else {
      assert (a + b)[0] == a[0];
      assert (a + b)[1..] == a[1..] + b;
      ShapeItemsConcat(a[1..], b);
    }
  }

  /** Items that all read as NaN give no axes at all. */
  lemma {:induction false} ShapeItemsAllNaN(items: seq<string>)
    requires forall i :: 0 <= i < |items| ==> ParseInt(Trim(items[i])).None?
    ensures ShapeItems(items) == []
  {
    if items != [] {
      assert ParseInt(Trim(items[0])).None?;
      forall i | 0 <= i < |items[1..]| ensures ParseInt(Trim(items[1..][i])).None? {
        assert items[1..][i] == items[i + 1];
      }
      ShapeItemsAllNaN(items[1..]);
    }
  }

  /** `(10,)` names one axis of length 10. */
  lemma ShapeOfOneAxis()
    ensures ParseShape("10,") == [10]
  {
    assert Decimal(10) == "10";
    assert TupleBody([10]) == "10,";
    ParseTupleBody([10]);
  }

  /** `()`, the shape of a zero-dimensional array, names no axis. */
  lemma ShapeOfNoAxis()
    ensures ParseShape("") == []
  {
    assert SplitComma("") == [""];
    ParseEmpty();
  }

  /** The dimensions named by the text between the shape's parentheses. */
  function ParseShape(capture: string): (r: seq<int>)
    ensures |r| <= |SplitComma(capture)|
  {
    ShapeItems(SplitComma(capture))
  }

  /** The dimensions of two captures joined by a comma are those of the first, then those of the second. */
  lemma ParseShapeConcat(a: string, b: string)
    ensures ParseShape(a + [','] + b) == ParseShape(a) + ParseShape(b)
  {
    SplitCommaConcat(a, b);
    ShapeItemsConcat(SplitComma(a), SplitComma(b));
  }

  /**
   * A piece that `parseInt` reads as NaN is dropped and the axes around it are kept in order, so
   * `2, x, 3` names (2, 3).
   */
  lemma ShapeDropsNaNPiece(a: string, x: string, b: string)
    requires ',' !in x && ParseInt(Trim(x)).None?
    ensures ParseShape(a + [','] + (x + [','] + b)) == ParseShape(a) + ParseShape(b)
  {
    ParseShapeConcat(a, x + [','] + b);
    LeadingNaNPiece(x, b);
  }

  /** A leading piece that reads as NaN contributes no axis. */
  lemma LeadingNaNPiece(x: string, b: string)
    requires ',' !in x && ParseInt(Trim(x)).None?
    ensures ParseShape(x + [','] + b) == ParseShape(b)
  {
    ParseShapeConcat(x, b);
    PieceShape(x);
    ShapeItemsOne(x);
    assert ParseShape(x) == [];
  }

  /** A comma-free capture is a single piece. */
  lemma PieceShape(x: string)
    requires ',' !in x
    ensures ParseShape(x) == ShapeItems([x])
  {
    SplitCommaFree(x);
  }

  /** Pieces that each parse to the matching dimension all survive the NaN filter, in order. */
  lemma {:induction false} ShapeItemsAllParse(items: seq<string>, shape: seq<int>)
    requires |items| == |shape|
    requires forall i :: 0 <= i < |items| ==> ParseInt(Trim(items[i])) == Some(shape[i])
    ensures ShapeItems(items) == shape
  {
    if items != [] {
      ShapeItemsAllParse(items[1..], shape[1..]);
    }
  }

  // ---------------------------------------------------------------------------------------------
  // The header NumPy writes (numpy.lib.format._write_array_header), the partner of the lookups.

  /** The printed items of a shape tuple of two or more axes: "2", " 3", " 4". */
  function TupleItems(shape: seq<nat>): (r: seq<string>)
    ensures |r| == |shape|
  {
    seq(|shape|, i requires 0 <= i < |shape| => (if i == 0 then "" else " ") + Decimal(shape[i]))
  }

  /** Python's `repr` of a shape tuple without its parentheses: "", "10," or "2, 3, 4". */
  function TupleBody(shape: seq<nat>): string {
    if |shape| == 0 then ""
    else if |shape| == 1 then Decimal(shape[0]) + ","
    else JoinComma(TupleItems(shape))
  }

  /** Python's `repr` of the shape tuple. */
  function ShapeText(shape: seq<nat>): string {
    "(" + TupleBody(shape) + ")"
  }

  /** Everything the dictionary holds before the shape key; its length is 41 for a 3-character descr. */
  function DictPrefix(descr: string): string {
    "{" + DescrEntry(descr)
  }

  /** The `descr` and `fortran_order` entries. */
  function DescrEntry(descr: string): string {
    "'descr': '" + descr + "', 'fortran_order': False, "
  }

  /** The header dictionary NumPy writes for a C-ordered array, before its padding. */
  function DictText(descr: string, shape: seq<nat>): string {
    DictPrefix(descr) + ShapeEntry(shape)
  }

  /** The last entry of the dictionary and its closing brace. */
  function ShapeEntry(shape: seq<nat>): string {
    "'shape': " + ShapeText(shape) + ", }"
  }

  predicate TupleChar(c: char) {
    '0' <= c <= '9' || c == ',' || c == ' '
  }

  lemma {:induction false} JoinTupleChars(pieces: seq<string>)
    requires |pieces| >= 1
    requires forall i, j :: 0 <= i < |pieces| && 0 <= j < |pieces[i]| ==> TupleChar(pieces[i][j])
    ensures forall j :: 0 <= j < |JoinComma(pieces)| ==> TupleChar(JoinComma(pieces)[j])
  {
    if |pieces| > 1 {
      JoinTupleChars(pieces[1..]);
      var rest := JoinComma(pieces[1..]);
      var whole := pieces[0] + [','] + rest;
      forall j | 0 <= j < |whole| ensures TupleChar(whole[j]) {
        if j < |pieces[0]| {
          assert whole[j] == pieces[0][j];
        } else if j > |pieces[0]| {
          assert whole[j] == rest[j - |pieces[0]| - 1];
        }
      }
    }
  }

  /** A printed shape consists of digits, commas and blanks only. */
  lemma TupleBodyChars(shape: seq<nat>)
    ensures forall j :: 0 <= j < |TupleBody(shape)| ==> TupleChar(TupleBody(shape)[j])
  {
    if |shape| >= 2 {
      var items := TupleItems(shape);
      forall i, j | 0 <= i < |items| && 0 <= j < |items[i]| ensures TupleChar(items[i][j]) {
        var d := Decimal(shape[i]);
        if i == 0 {
          assert items[i] == d;
        } else {
          assert items[i] == " " + d;
          if j > 0 { assert items[i][j] == d[j - 1]; }
        }
      }
      JoinTupleChars(items);
    }
  }

  /** The shape pipeline reads back every non-empty shape NumPy prints. */
  lemma ParseTupleBody(shape: seq<nat>)
    requires |shape| >= 1
    ensures ParseShape(TupleBody(shape)) == shape
  {
    if |shape| == 1 {
      ParseSingleton(shape[0]);
      assert shape == [shape[0]];
    } else {
      var items := TupleItems(shape);
      assert TupleBody(shape) == JoinComma(items);
      forall i | 0 <= i < |items| ensures ',' !in items[i] && ParseInt(Trim(items[i])) == Some(shape[i]) {
        TupleItemParses(shape, i);
      }
      JoinedItems(items, shape);
    }
  }

  /** Comma-free items that each read as an axis, joined by commas, name those axes. */
  lemma JoinedItems(items: seq<string>, shape: seq<int>)
    requires |items| == |shape| >= 1
    requires forall i :: 0 <= i < |items| ==> ',' !in items[i] && ParseInt(Trim(items[i])) == Some(shape[i])
    ensures ShapeItems(SplitComma(JoinComma(items))) == shape
  {
    SplitJoin(items);
    ShapeItemsAllParse(items, shape);
  }

  /** A one-axis tuple prints as "n,": the empty piece after the comma is NaN and dropped. */
  lemma ParseSingleton(n: nat)
    ensures ParseShape(TupleBody([n])) == [n]
  {
    var d := Decimal(n);
    assert TupleBody([n]) == d + ",";
    TrimBlanks("", d);
    ParseDecimal(n, "");
    assert "" + d == d;
    ItemsOfOne(d, n);
  }

  /** One item followed by a comma names one axis: the trailing empty piece reads as NaN. */
  lemma ItemsOfOne(d: string, v: int)
    requires ',' !in d && ParseInt(Trim(d)) == Some(v)
    ensures ShapeItems(SplitComma(d + ",")) == [v]
  {
    SplitCommaPrefix(d, "");
    assert d + [','] + "" == d + ",";
    assert SplitComma("") == [""];
    ParseEmpty();
    assert ShapeItems([""]) == [];
    assert ShapeItems([d, ""]) == [v] + ShapeItems([""]);
  }

  lemma TupleItemParses(shape: seq<nat>, i: nat)
    requires i < |shape|
    ensures ',' !in TupleItems(shape)[i]
    ensures ParseInt(Trim(TupleItems(shape)[i])) == Some(shape[i])
  {
    var blanks := if i == 0 then "" else " ";
    assert TupleItems(shape)[i] == blanks + Decimal(shape[i]);
    ParseTrimmedDecimal(shape[i], blanks);
    DecimalCommaFree(shape[i], blanks);
  }

  lemma DecimalCommaFree(n: nat, blanks: string)
    requires blanks == "" || blanks == " "
    ensures ',' !in blanks + Decimal(n)
  {
    var d := Decimal(n);
    var item := blanks + d;
    forall j | 0 <= j < |item| ensures item[j] != ',' {
      if j >= |blanks| { assert item[j] == d[j - |blanks|]; }
    }
  }

  /** No quote in `s` is directly followed by the letter `s`, so no `'shape':` key starts in it. */
  predicate QuoteSFree(s: string) {
    forall i :: 0 <= i < |s| - 1 ==> !(s[i] == '\'' && s[i + 1] == 's')
  }

  lemma QuoteSFreeConcat(a: string, b: string)
    requires QuoteSFree(a) && QuoteSFree(b)
    requires |a| == 0 || |b| == 0 || !(a[|a| - 1] == '\'' && b[0] == 's')
    ensures QuoteSFree(a + b)
  {
    var h := a + b;
    forall i | 0 <= i < |h| - 1 ensures !(h[i] == '\'' && h[i + 1] == 's') {
      if i + 1 < |a| {
        assert h[i] == a[i] && h[i + 1] == a[i + 1];
      } else if i >= |a| {
        assert h[i] == b[i - |a|] && h[i + 1] == b[i + 1 - |a|];
      } else {
        assert h[i] == a[|a| - 1] && h[i + 1] == b[0];
      }
    }
  }

  /** The prefix is 41 characters long, ends in a blank, and no quote in it is followed by `s`. */
  lemma QuoteSFreePrefix(descr: string)
    requires descr == "<f4" || descr == "|u1"
    ensures |DictPrefix(descr)| == 41 && DictPrefix(descr)[40] == ' '
    ensures QuoteSFree(DictPrefix(descr))
  {
    var opening := "'descr': '";
    var closing := "', 'fortran_order': False, ";
    QuoteSFreePieces();
    assert QuoteSFree(descr) && descr[0] != 's';
    QuoteSFreeConcat(opening, descr);
    QuoteSFreeConcat(opening + descr, closing);
    assert DescrEntry(descr) == opening + descr + closing;
    QuoteSFreeConcat("{", DescrEntry(descr));
    assert DictPrefix(descr)[40] == closing[26];
  }

  lemma QuoteSFreePieces()
    ensures QuoteSFree("{") && QuoteSFree("'descr': '") && QuoteSFree("', 'fortran_order': False, ")
    ensures |"', 'fortran_order': False, "| == 27 && "', 'fortran_order': False, "[26] == ' '
  {
  }

  /** Printable ASCII with no backslash in it. */
  predicate PlainText(s: string) {
    forall i :: 0 <= i < |s| ==> ' ' <= s[i] <= '~' && s[i] != '\\'
  }

  lemma PlainConcat(a: string, b: string)
    requires PlainText(a) && PlainText(b)
    ensures PlainText(a + b)
  {
    assert forall i :: |a| <= i < |a + b| ==> (a + b)[i] == b[i - |a|];
  }

  /** The dictionary NumPy writes is printable ASCII without a backslash. */
  lemma DictTextPlain(descr: string, shape: seq<nat>)
    requires descr == "<f4" || descr == "|u1"
    ensures PlainText(DictText(descr, shape))
  {
    PrefixPlain(descr);
    ShapeEntryPlain(shape);
    PlainConcat(DictPrefix(descr), ShapeEntry(shape));
  }

  lemma PrefixPlain(descr: string)
    requires descr == "<f4" || descr == "|u1"
    ensures PlainText(DictPrefix(descr))
  {
    var opening := "'descr': '";
    var closing := "', 'fortran_order': False, ";
    PlainPieces();
    assert PlainText(descr);
    PlainConcat(opening, descr);
    PlainConcat(opening + descr, closing);
    assert DescrEntry(descr) == opening + descr + closing;
    PlainConcat("{", DescrEntry(descr));
  }

  lemma PlainPieces()
    ensures PlainText("{") && PlainText("'descr': '") && PlainText("', 'fortran_order': False, ")
  {
  }

  lemma ShapeEntryPlain(shape: seq<nat>)
    ensures PlainText(ShapeEntry(shape))
  {
    EntryLayout(shape, "");
    var body := TupleBody(shape);
    TupleBodyChars(shape);
    PlainTuple(body);
    PlainOpen();
    PlainClose();
    PlainConcat("'shape': (", body);
    PlainConcat("'shape': (" + body, "), }");
  }

  lemma PlainTuple(body: string)
    requires forall j :: 0 <= j < |body| ==> TupleChar(body[j])
    ensures PlainText(body)
  {
  }

  lemma PlainOpen()
    ensures PlainText("'shape': (")
  {
  }

  lemma PlainClose()
    ensures PlainText("), }")
  {
  }

  /**
   * In a header NumPy wrote (whatever padding follows), the `descr` lookup finds the descriptor
   * and the `shape` lookup finds the printed tuple.
   */
  lemma LookupsFindNumpyFields(descr: string, shape: seq<nat>, tail: string, h: string)
    requires descr == "<f4" || descr == "|u1"
    requires h == DictText(descr, shape) + tail
    ensures Search(h, DescrPattern, 0) == Some(descr)
    ensures Search(h, ShapePattern, 0) == Some(TupleBody(shape))
  {
    var rest := ShapeEntry(shape) + tail;
    assert h == DictPrefix(descr) + rest;
    DescrLookup(descr, rest);
    TupleBodyChars(shape);
    assert rest == "'shape': (" + TupleBody(shape) + "), }" + tail by {
      EntryLayout(shape, tail);
    }
    ShapeLookup(descr, TupleBody(shape), tail);
  }

  lemma EntryLayout(shape: seq<nat>, tail: string)
    ensures ShapeEntry(shape) + tail == "'shape': (" + TupleBody(shape) + "), }" + tail
  {
  }

  lemma DescrLookup(descr: string, rest: string)
    requires descr == "<f4" || descr == "|u1"
    ensures Search(DictPrefix(descr) + rest, DescrPattern, 0) == Some(descr)
  {
    var x := DescrEntry(descr) + rest;
    var h := "{" + x;
    assert DictPrefix(descr) + rest == h;
    MatchStartsWithKey(h, DescrPattern, 0);
    SearchSkips(h, DescrPattern, 0, 1);
    DescrEntryMatches(descr, rest);
    MatchShifts("{", x, DescrPattern, 0);
  }

  lemma DescrEntryMatches(descr: string, rest: string)
    requires descr == "<f4" || descr == "|u1"
    ensures MatchAt(DescrEntry(descr) + rest, DescrPattern, 0) == Some(descr)
  {
    var h := DescrEntry(descr) + rest;
    assert descr[0] != '\'' && descr[1] != '\'' && descr[2] != '\'';
    assert h[..8] == "'descr':";
    assert h[8] == ' ' && h[9] == '\'';
    assert SkipGap(h, Blanks, 8) == 9 by {
      assert SkipGap(h, Blanks, 9) == 9;
    }
    assert h[10..13] == descr;
    assert h[13] == '\'';
    RunEndStops(h, '\'', 10, 13);
  }

  lemma ShapeLookup(descr: string, body: string, tail: string)
    requires descr == "<f4" || descr == "|u1"
    requires forall j :: 0 <= j < |body| ==> TupleChar(body[j])
    ensures Search(DictPrefix(descr) + ("'shape': (" + body + "), }" + tail), ShapePattern, 0) == Some(body)
  {
    var prefix := DictPrefix(descr);
    var seg := "'shape': (" + body + ("), }" + tail);
    assert "'shape': (" + body + "), }" + tail == seg;
    var h := prefix + seg;
    QuoteSFreePrefix(descr);
    NoShapeKeyInPrefix(prefix, seg);
    SearchSkips(h, ShapePattern, 0, 41);
    ShapeMatchAtStart(body, "), }" + tail);
    MatchShifts(prefix, seg, ShapePattern, 0);
    assert MatchAt(h, ShapePattern, 41) == Some(body);
  }

  /** The shape key followed by a tuple body and its closing parenthesis matches at its start. */
  lemma ShapeMatchAtStart(body: string, rest: string)
    requires forall j :: 0 <= j < |body| ==> TupleChar(body[j])
    requires |rest| > 0 && rest[0] == ')'
    ensures MatchAt("'shape': (" + body + rest, ShapePattern, 0) == Some(body)
  {
    var h := "'shape': (" + body + rest;
    assert h[..8] == "'shape':";
    assert h[8] == ' ' && h[9] == '(';
    assert SkipGap(h, Blanks, 8) == 9 by {
      assert SkipGap(h, Blanks, 9) == 9;
    }
    forall i | 10 <= i < 10 + |body| ensures h[i] != ')' {
      assert h[i] == body[i - 10];
    }
    assert h[10 + |body|] == ')';
    RunEndStops(h, ')', 10, 10 + |body|);
    assert h[10..10 + |body|] == body;
  }

  /** What a match at `i` in `s` captures is what it captures at `|prefix| + i` in `prefix + s`. */
  lemma MatchShifts(prefix: string, s: string, p: Pattern, i: nat)
    ensures MatchAt(prefix + s, p, |prefix| + i) == MatchAt(s, p, i)
  {
    if i + |p.key| <= |s| {
      var h, n, k := prefix + s, |prefix|, i + |p.key|;
      SliceShifts(prefix, s, i, k);
      assert KeyAt(h, p.key, n + i) == KeyAt(s, p.key, i);
      SkipGapShifts(prefix, s, p.gap, k);
      var j := SkipGap(s, p.gap, k);
      assert SkipGap(h, p.gap, n + i + |p.key|) == n + j;
      DelimitedShifts(prefix, s, p, j);
    }
  }

  lemma DelimitedShifts(prefix: string, s: string, p: Pattern, j: nat)
    requires j <= |s|
    ensures DelimitedAt(prefix + s, p, |prefix| + j) == DelimitedAt(s, p, j)
  {
    if j < |s| {
      assert (prefix + s)[|prefix| + j] == s[j];
      RunEndShifts(prefix, s, p.close, j + 1);
      var k := RunEnd(s, p.close, j + 1);
      if k < |s| {
        SliceShifts(prefix, s, j + 1, k);
      }
    }
  }

  lemma SliceShifts(prefix: string, s: string, a: nat, b: nat)
    requires a <= b <= |s|
    ensures (prefix + s)[|prefix| + a..|prefix| + b] == s[a..b]
  {
  }

  lemma {:induction false} SkipGapShifts(prefix: string, s: string, g: Gap, k: nat)
    requires k <= |s|
    ensures SkipGap(prefix + s, g, |prefix| + k) == |prefix| + SkipGap(s, g, k)
    decreases |s| - k
  {
    if k < |s| {
      assert (prefix + s)[|prefix| + k] == s[k];
      SkipGapShifts(prefix, s, g, k + 1);
    }
  }

  lemma {:induction false} RunEndShifts(prefix: string, s: string, c: char, k: nat)
    requires k <= |s|
    ensures RunEnd(prefix + s, c, |prefix| + k) == |prefix| + RunEnd(s, c, k)
    decreases |s| - k
  {
    if k < |s| {
      assert (prefix + s)[|prefix| + k] == s[k];
      RunEndShifts(prefix, s, c, k + 1);
    }
  }

  /** No `'shape':` key starts inside a quote-s-free prefix that ends in a blank. */
  lemma NoShapeKeyInPrefix(prefix: string, rest: string)
    requires QuoteSFree(prefix) && |prefix| > 0 && prefix[|prefix| - 1] == ' '
    ensures forall i :: 0 <= i < |prefix| ==> MatchAt(prefix + rest, ShapePattern, i).None?
  {
    var h := prefix + rest;
    forall i | 0 <= i < |prefix| ensures MatchAt(h, ShapePattern, i).None? {
      MatchStartsWithKey(h, ShapePattern, i);
      assert h[i] == prefix[i];
      if i < |prefix| - 1 {
        assert h[i + 1] == prefix[i + 1];
      }
    }
  }

  /** A match begins with the first two characters of its key. */
  lemma MatchStartsWithKey(h: string, p: Pattern, i: nat)
    requires |p.key| >= 2
    ensures MatchAt(h, p, i).Some? ==> i + 1 < |h| && h[i] == p.key[0] && h[i + 1] == p.key[1]
  {
    if MatchAt(h, p, i).Some? {
      assert h[i..i + |p.key|][0] == h[i];
      assert h[i..i + |p.key|][1] == h[i + 1];
    }
  }

  lemma {:induction false} RunEndStops(h: string, c: char, k: nat, j: nat)
    requires k <= j < |h| && h[j] == c
    requires forall i :: k <= i < j ==> h[i] != c
    ensures RunEnd(h, c, k) == j
    decreases j - k
  {
    if k < j {
      RunEndStops(h, c, k + 1, j);
    }
  }
}

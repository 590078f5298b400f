/**
 * The multiple-choice game of `jeopardy.py`: a question file is chosen,
 * its rows become questions grouped by category (`subtype`, else "Misc"),
 * a tile opens an overlay with four options, and a click on an option is
 * judged against the question's `correct` field, with a short feedback
 * message counted down frame by frame.
 */
module Jeopardy {
  import opened Base
  import opened Collections
  import opened Text
  import opened Rows
  import opened Wrap

  /** Frames the feedback message stays up. */
  const FeedbackDuration := 60

  /** The number of answer options a question has (`option1` to `option4`). */
  const OptionCount := 4

  // ---------------------------------------------------------------------------
  // Field parsers

  /** `detect_delimiter`: a header line with a tab means tab-separated, anything else comma-separated. */
  function DetectDelimiter(header: string): (d: char)
    ensures d == '\t' <==> '\t' in header
    ensures d != '\t' ==> d == ','
  {
    if '\t' in header then '\t' else ','
  }

  /** What `parse_correct_field` returns: None, an option index, or the text itself. */
  datatype CorrectField = NoAnswer | Index(i: int) | Text(t: string)

  /** `c.upper()` on a single character, for the ASCII letters. */
  function Upper(c: char): (u: char)
    ensures 'a' <= c <= 'z' ==> u as int == c as int - 32
    ensures !('a' <= c <= 'z') ==> u == c
  {
    if 'a' <= c <= 'z' then (c as int - 32) as char else c
  }

  /** A single character that names option `i`: its digit, or its letter in either case. */
  predicate NamesOption(ch: char, i: int) {
    0 <= i < OptionCount && (ch as int == '1' as int + i || ch as int == 'a' as int + i || ch as int == 'A' as int + i)
  }

  /**
   * `parse_correct_field`: the empty string means no answer; a single
   * "1"-"4" or letter a-d (either case), once stripped, names option 0-3;
   * anything else is kept as its stripped text.
   */
  function ParseCorrectField(s: string): (r: CorrectField)
    ensures r == NoAnswer <==> s == ""
    ensures r.Index? <==> s != "" && |Strip(s)| == 1 && exists i :: NamesOption(Strip(s)[0], i)
    ensures r.Index? ==> NamesOption(Strip(s)[0], r.i)
    ensures r.Text? ==> r.t == Strip(s)
  {
    if s == "" then NoAnswer else Classify(Strip(s))
  }

  /** `parse_correct_field` after the strip. */
  function Classify(c: string): (r: CorrectField)
    ensures r != NoAnswer
    ensures r.Index? <==> |c| == 1 && exists i :: NamesOption(c[0], i)
    ensures r.Index? ==> NamesOption(c[0], r.i)
    ensures r.Text? ==> r.t == c
  {
    if |c| == 1 && '1' <= c[0] <= '4' then
      assert NamesOption(c[0], DigitValue(c[0]) - 1);
      Index(DigitValue(c[0]) - 1)
    else if |c| == 1 && 'A' <= Upper(c[0]) <= 'D' then
      assert NamesOption(c[0], Upper(c[0]) as int - 'A' as int);
      Index(Upper(c[0]) as int - 'A' as int)
    else
      assert |c| == 1 ==> forall i :: !NamesOption(c[0], i);
      Text(c)
  }

  /** Every option has a digit and two letters that name it. */
  lemma ParseCorrectFieldNames(i: nat)
    requires i < OptionCount
    ensures ParseCorrectField(ShowInt(i + 1)) == Index(i)
    ensures ParseCorrectField(["abcd"[i]]) == Index(i)
    ensures ParseCorrectField(["ABCD"[i]]) == Index(i)
  {
    assert ShowInt(i + 1) == [DigitChar(i + 1)];
    StripTrimmed(ShowInt(i + 1));
    StripTrimmed(["abcd"[i]]);
    StripTrimmed(["ABCD"[i]]);
  }

  /** `correct_index`: the parsed option index, when the field named one. */
  function CorrectIndex(c: CorrectField): (r: Option<int>)
    ensures r.Some? <==> c.Index?
    ensures r.Some? ==> r.value == c.i
  {
    if c.Index? then Some(c.i) else None
  }

  /**
   * The points of a square label: the integer it spells, else the first
   * run of digits in it, else 100.
   */
  function SquarePoints(square: string): (p: int)
    ensures ParseInt(square).Some? ==> p == ParseInt(square).value
    ensures ParseInt(square).None? && FirstDigitRun(square).None? ==> p == 100
    ensures ParseInt(square).None? && FirstDigitRun(square).Some? ==>
      p == DigitsValue(FirstDigitRun(square).value) && p >= 0
  {
    match ParseInt(square)
    case Some(v) => v
    case None =>
      match FirstDigitRun(square)
      case Some(run) => DigitsValue(run)
      case None => 100
  }

  /**
   * A label such as "$200" or "Q300x7": a prefix without digits that `int()`
   * rejects, then the number, then nothing or text that does not start with a
   * digit. The label is worth the number.
   */
  lemma SquarePointsLabel(prefix: string, n: nat, suffix: string)
    requires prefix != [] && !IsSpace(prefix[0]) && !IsDigit(prefix[0]) && prefix[0] != '+' && prefix[0] != '-'
    requires forall i | 0 <= i < |prefix| :: !IsDigit(prefix[i])
    requires suffix == [] || !IsDigit(suffix[0])
    ensures SquarePoints(prefix + ShowNat(n) + suffix) == n
  {
    var digits := ShowNat(n);
    var s := prefix + digits + suffix;
    var e := |prefix| + |digits|;
    assert s[0] == prefix[0];
    StripByFirst(s, IntSpace);
    assert ParseInt(s).None?;
    assert forall i | 0 <= i < |prefix| :: !IsDigit(s[i]);
    assert forall i | |prefix| <= i < e :: s[i] == digits[i - |prefix|];
    assert e < |s| ==> s[e] == suffix[0];
    var r := FindDigitRun(s).value;
    assert r.0 == |prefix| by {
      assert IsDigit(s[|prefix|]);
    }
    assert r.1 == e;
    assert s[r.0..r.1] == digits;
    DigitsValueShowNat(n);
  }

  /** A label that spells an integer is worth that integer. */
  lemma SquarePointsInt(n: int)
    ensures SquarePoints(ShowInt(n)) == n
  {
    ParseIntShowInt(n);
  }

  /** The default label "100" is worth 100. */
  lemma DefaultSquare()
    ensures Strip("100") == "100" && SquarePoints("100") == 100
  {
    StripTrimmed("100");
    SquarePointsInt(100);
    assert ShowNat(1) == "1";
    assert ShowNat(10) == ShowNat(1) + [DigitChar(0)] == "10";
    assert ShowNat(100) == ShowNat(10) + [DigitChar(0)] == "100";
  }

  /** The time allowed: the `time` column as an integer, else 20. */
  function ParseTime(row: Row): (t: int)
    ensures !Truthy(row, "time") ==> t == 20
    ensures Truthy(row, "time") && ParseInt(row["time"]).None? ==> t == 20
    ensures Truthy(row, "time") && ParseInt(row["time"]).Some? ==> t == ParseInt(row["time"]).value
  {
    if Truthy(row, "time") then ParseInt(row["time"]).GetOr(20) else 20
  }

  // ---------------------------------------------------------------------------
  // Loading

  /** A question as `load_questions` builds it from one row. */
  datatype Question = Question(
    subtype: string,
    question: string,
    options: seq<string>,
    correctRaw: string,
    correct: CorrectField,
    time: int,
    squareText: string,
    points: int,
    used: bool)

  /**
   * One row as a question: the category is `subtype`, else `category`;
   * the four options are read as they are; the square label defaults to
   * "100"; every text field is stripped and the question starts unused.
   */
  function ParseQuestion(row: Row): (q: Question)
    ensures !q.used && |q.options| == OptionCount
  {
    var subtype := if Truthy(row, "subtype") then row["subtype"] else GetOr(row, "category", "");
    var correctRaw := GetOr(row, "correct", "");
    var (squareText, points) := SquareField(row);
    Question(Strip(subtype), Strip(GetOr(row, "question", "")),
      [Strip(GetOr(row, "option1", "")), Strip(GetOr(row, "option2", "")), Strip(GetOr(row, "option3", "")), Strip(GetOr(row, "option4", ""))],
      Strip(correctRaw), ParseCorrectField(Strip(correctRaw)), ParseTime(row),
      squareText, points, false)
  }

  /**
   * The fields of a parsed question: the category text, the correct field
   * classified from its own stripped text, the time, and the square label
   * with its points.
   */
  lemma ParseQuestionFields(row: Row)
    ensures var q := ParseQuestion(row);
      && q.subtype == Strip(if Truthy(row, "subtype") then row["subtype"] else GetOr(row, "category", ""))
      && q.correct == ParseCorrectField(q.correctRaw)
      && q.time == ParseTime(row)
      && (q.squareText, q.points) == SquareField(row)
  {
  }

  /**
   * The square label and the points it is worth: the stripped `square_text`
   * and its points, or "100" worth 100 when the column is empty.
   */
  function SquareField(row: Row): (string, int) {
    if Truthy(row, "square_text") then (Strip(row["square_text"]), SquarePoints(row["square_text"])) else ("100", 100)
  }

  /** The square field is `square_text or "100"`, stripped, with its points. */
  lemma SquareFieldDefault(row: Row)
    ensures var square := GetOr(row, "square_text", "100");
      SquareField(row) == (Strip(square), SquarePoints(square))
  {
    DefaultSquare();
  }

  /** The questions of the rows, one per row, in file order. */
  function Questions(rows: seq<Row>): seq<Question> {
    MapSeq(ParseQuestion, rows)
  }

  /** The category a question is filed under: its subtype, or "Misc" when that is empty. */
  function CategoryOf(q: Question): (c: string)
    ensures c != ""
    ensures q.subtype != "" ==> c == q.subtype
  {
    if q.subtype != "" then q.subtype else "Misc"
  }

  function Points(q: Question): int {
    q.points
  }

  function Itself(q: Question): Question {
    q
  }

  /** Filing one question: `categories[q["subtype"] or "Misc"].append(q)`. */
  function FileQuestion(): (Dict<string, seq<Question>>, Question) -> Dict<string, seq<Question>> {
    Nest(CategoryOf, [], Append(Itself))
  }

  /** The defaultdict after every question has been filed. */
  function Grouped(qs: seq<Question>): Dict<string, seq<Question>> {
    Fold(qs, [], FileQuestion())
  }

  /** `sorted(categories.keys())` */
  function SortNames(ks: seq<string>): seq<string> {
    Sort(ks, StrLt)
  }

  /** Filing one more question appends it to its category's list. */
  lemma GroupedSnoc(qs: seq<Question>, q: Question)
    ensures Grouped(qs + [q]) == Put(Grouped(qs), CategoryOf(q), Get(Grouped(qs), CategoryOf(q), []) + [q])
  {
    FoldSnoc(qs, q, [], FileQuestion());
    assert Itself(q) == q;
    assert Append(Itself)(Get(Grouped(qs), CategoryOf(q), []), q) == Get(Grouped(qs), CategoryOf(q), []) + [Itself(q)];
  }

  /** Each category's list holds exactly its questions, in file order. */
  lemma GroupedBucket(qs: seq<Question>, k: string)
    ensures Get(Grouped(qs), k, []) == Select(qs, CategoryOf, k)
    ensures k in Keys(Grouped(qs)) <==> Select(qs, CategoryOf, k) != []
  {
    FoldNestGet(qs, CategoryOf, [], Append(Itself), k);
    FoldNestKeys(qs, CategoryOf, [], Append(Itself), k);
    var sel := Select(qs, CategoryOf, k);
    FoldAppend(sel, Itself);
    assert MapSeq(Itself, sel) == sel;
  }

  /** The longest list among the named categories: `max_rows`. */
  function MaxRows(categories: Dict<string, seq<Question>>, names: seq<string>): nat
    requires names != []
  {
    var here := |Get(categories, names[|names| - 1], [])|;
    if |names| == 1 then here
    else
      var rest := MaxRows(categories, names[..|names| - 1]);
      if rest < here then here else rest
  }

  /** `max_rows` is as long as the longest named list, and some named list is that long. */
  lemma {:induction false} MaxRowsSpec(categories: Dict<string, seq<Question>>, names: seq<string>)
    requires names != []
    ensures forall i | 0 <= i < |names| :: |Get(categories, names[i], [])| <= MaxRows(categories, names)
    ensures exists i | 0 <= i < |names| :: |Get(categories, names[i], [])| == MaxRows(categories, names)
  {
    if |names| > 1 {
      var init := names[..|names| - 1];
      MaxRowsSpec(categories, init);
      forall i | 0 <= i < |names| ensures |Get(categories, names[i], [])| <= MaxRows(categories, names) {
        if i < |init| {
          assert init[i] == names[i];
        }
      }
      var j :| 0 <= j < |init| && |Get(categories, init[j], [])| == MaxRows(categories, init);
      if MaxRows(categories, init) < |Get(categories, names[|names| - 1], [])| {
        assert |Get(categories, names[|names| - 1], [])| == MaxRows(categories, names);
      } else {
        assert |Get(categories, names[j], [])| == MaxRows(categories, names);
      }
    }
  }

  /** `wrap_text`: greedy lines of the words of `text`, one empty line for a text without words. */
  method WrapText(text: string, width: string -> int, maxWidth: int) returns (lines: seq<string>)
    ensures lines == if Split(text) == [] then [""] else Lines(Groups(Split(text), width, maxWidth))
  {
    var words := Split(text);
    if words == [] {
      return [""];
    }
    GroupsFromStep([], words[0], words[1..], width, maxWidth);
    assert words == [words[0]] + words[1..];
    lines := [];
    var cur := words[0];
    ghost var group: seq<string> := [words[0]];
    var i := 1;
    while i < |words|
      invariant 1 <= i <= |words|
      invariant cur == Join(group) && group != []
      invariant lines + Lines(GroupsFrom(group, words[i..], width, maxWidth)) == Lines(Groups(words, width, maxWidth))
    {
      var w := words[i];
      SuffixCons(words, i);
      LinesStep(lines, group, w, words[i + 1..], width, maxWidth);
      var test := cur + " " + w;
      if width(test) <= maxWidth {
        cur := test;
        group := group + [w];
      } else {
        lines := lines + [cur];
        cur := w;
        group := [w];
      }
      i := i + 1;
    }
    assert words[i..] == [];
    assert Lines([group]) == [cur];
    lines := lines + [cur];
  }

  /** The first loop of `load_questions`: one question per row, in file order. */
  method ReadQuestions(rows: seq<Row>) returns (raw: seq<Question>)
    ensures raw == Questions(rows)
  {
    raw := [];
    for i := 0 to |rows|
      invariant |raw| == i && forall j | 0 <= j < i :: raw[j] == ParseQuestion(rows[j])
    {
      raw := raw + [ParseQuestion(rows[i])];
    }
  }

  /** The second loop: each question appended to the list of its category. */
  method GroupByCategory(raw: seq<Question>) returns (cats: Dict<string, seq<Question>>)
    ensures cats == Grouped(raw)
  {
    cats := [];
    for i := 0 to |raw|
      invariant cats == Grouped(raw[..i])
    {
      var q := raw[i];
      assert raw[..i + 1] == raw[..i] + [q];
      GroupedSnoc(raw[..i], q);
      cats := Put(cats, CategoryOf(q), Get(cats, CategoryOf(q), []) + [q]);
    }
    assert raw[..|raw|] == raw;
  }

  /** The third loop: the list of every named category sorted by points, in place. */
  method SortCategories(cats: Dict<string, seq<Question>>, names: seq<string>) returns (r: Dict<string, seq<Question>>)
    requires Distinct(names) && forall i | 0 <= i < |names| :: names[i] in Keys(cats)
    ensures Keys(r) == Keys(cats)
    ensures forall k :: Get(r, k, []) == if k in names then SortByKey(Get(cats, k, []), Points) else Get(cats, k, [])
  {
    r := cats;
    for i := 0 to |names|
      invariant Keys(r) == Keys(cats)
      invariant forall k :: Get(r, k, []) == if k in names[..i] then SortByKey(Get(cats, k, []), Points) else Get(cats, k, [])
    {
      var k := names[i];
      assert k !in names[..i];
      PrefixSnoc(names, i);
      var sorted := SortByKey(Get(r, k, []), Points);
      forall k' ensures Get(Put(r, k, sorted), k', []) == if k' == k then sorted else Get(r, k', []) {
        GetPut(r, k, sorted, k', []);
      }
      r := Put(r, k, sorted);
    }
    assert names[..|names|] == names;
  }

  /**
   * The three loops of `load_questions` and the sort of the names: the
   * board of the questions of `rows` and its sorted category names.
   */
  method BuildBoard(rows: seq<Row>) returns (categories: Dict<string, seq<Question>>, names: seq<string>)
    ensures IsBoard(categories, Questions(rows)) && names == SortNames(Keys(Grouped(Questions(rows))))
    ensures Named(categories, names) && Filed(categories)
    ensures names == [] <==> rows == []
  {
    var raw := ReadQuestions(rows);
    var cats := GroupByCategory(raw);
    names := SortNames(Keys(cats));
    StrLtOrder();
    FoldNestDistinct(raw, CategoryOf, [], Append(Itself));
    SortDistinct(Keys(cats), StrLt);
    forall i | 0 <= i < |names| ensures names[i] in Keys(cats) {
      assert names[i] in multiset(Keys(cats));
    }
    categories := SortCategories(cats, names);
    BoardFacts(raw, categories, names);
  }

  /** Every name is a category of the board. */
  ghost predicate Named(categories: Dict<string, seq<Question>>, names: seq<string>) {
    forall i | 0 <= i < |names| :: names[i] in Keys(categories)
  }

  /** Every question sits in the list of its own category. */
  ghost predicate Filed(categories: Dict<string, seq<Question>>) {
    forall k, i | 0 <= i < |Get(categories, k, [])| :: CategoryOf(Get(categories, k, [])[i]) == k
  }

  /** The board `load_questions` builds from `qs`: each category's questions, sorted by points. */
  ghost predicate IsBoard(categories: Dict<string, seq<Question>>, qs: seq<Question>) {
    && Keys(categories) == Keys(Grouped(qs))
    && forall k {:trigger Select(qs, CategoryOf, k)} :: Get(categories, k, []) == SortByKey(Select(qs, CategoryOf, k), Points)
  }

  /**
   * Sorting the grouped lists under their sorted names gives the board;
   * on it every question sits under its own category, the names are all
   * categories, and there are none exactly when there are no questions.
   */
  lemma BoardFacts(qs: seq<Question>, sorted: Dict<string, seq<Question>>, names: seq<string>)
    requires names == SortNames(Keys(Grouped(qs)))
    requires Keys(sorted) == Keys(Grouped(qs))
    requires forall k :: Get(sorted, k, []) == if k in names then SortByKey(Get(Grouped(qs), k, []), Points) else Get(Grouped(qs), k, [])
    ensures IsBoard(sorted, qs) && Filed(sorted) && Named(sorted, names)
    ensures names == [] <==> qs == []
  {
    forall k ensures Get(sorted, k, []) == SortByKey(Select(qs, CategoryOf, k), Points) {
      GroupedBucket(qs, k);
      if k !in names {
        assert k !in multiset(Keys(Grouped(qs)));
      }
    }
    forall k, i | 0 <= i < |Get(sorted, k, [])| ensures CategoryOf(Get(sorted, k, [])[i]) == k {
      assert Get(sorted, k, [])[i] in multiset(Select(qs, CategoryOf, k));
    }
    forall i | 0 <= i < |names| ensures names[i] in Keys(sorted) {
      assert names[i] in multiset(Keys(Grouped(qs)));
    }
    if qs != [] {
      GroupedBucket(qs, CategoryOf(qs[0]));
      SelectContains(qs, CategoryOf, 0);
      assert CategoryOf(qs[0]) in multiset(names);
    }
  }

  // ---------------------------------------------------------------------------
  // Marking a question used

  /** Why the program stops. */
  datatype Crash = IndexError

  /** The question on tile (col, row): row `row` of category `names[col]`. */
  function QuestionAt(categories: Dict<string, seq<Question>>, names: seq<string>, col: nat, row: nat): Option<Question> {
    if col < |names| && row < |Get(categories, names[col], [])| then Some(Get(categories, names[col], [])[row]) else None
  }

  /** Sets the `used` flag of row `row` of category `cat`. */
  function MarkTile(categories: Dict<string, seq<Question>>, cat: string, row: nat): Dict<string, seq<Question>> {
    var qs := Get(categories, cat, []);
    if row < |qs| then Put(categories, cat, qs[row := qs[row].(used := true)]) else categories
  }

  /**
   * Marking a tile changes that question's flag to true and nothing else:
   * the category names and every other question stay as they were.
   */
  lemma MarkTileEffect(categories: Dict<string, seq<Question>>, cat: string, row: nat, cat': string, i: nat)
    ensures Keys(MarkTile(categories, cat, row)) == Keys(categories)
    ensures |Get(MarkTile(categories, cat, row), cat', [])| == |Get(categories, cat', [])|
    ensures i < |Get(categories, cat', [])| ==>
      Get(MarkTile(categories, cat, row), cat', [])[i] ==
        if cat' == cat && i == row then Get(categories, cat', [])[i].(used := true) else Get(categories, cat', [])[i]
  {
    var qs := Get(categories, cat, []);
    if row < |qs| {
      assert cat in Keys(categories) by {
        assert Find(categories, cat).Some?;
      }
      GetPut(categories, cat, qs[row := qs[row].(used := true)], cat', []);
    }
  }

  /** Marking a tile keeps every category and keeps every question under its own category. */
  lemma MarkTileKeeps(categories: Dict<string, seq<Question>>, names: seq<string>, cat: string, row: nat)
    requires Named(categories, names) && Filed(categories)
    ensures Named(MarkTile(categories, cat, row), names) && Filed(MarkTile(categories, cat, row))
  {
    forall k, i | 0 <= i < |Get(MarkTile(categories, cat, row), k, [])|
      ensures CategoryOf(Get(MarkTile(categories, cat, row), k, [])[i]) == k
    {
      MarkTileEffect(categories, cat, row, k, i);
    }
    MarkTileEffect(categories, cat, row, "", 0);
  }

  /**
   * What the two marking statements of `handle_option_click` do, as
   * written: the question's own flag is set (it is the object on the
   * tile), and then row `row` of `categories[q["subtype"]]` is set again.
   * For a question filed under "Misc" the subtype is empty, that lookup
   * makes an empty list, and indexing it stops the program.
   */
  function MarkUsedAsWritten(categories: Dict<string, seq<Question>>, names: seq<string>, col: nat, row: nat): Result<Dict<string, seq<Question>>, Crash>
    requires QuestionAt(categories, names, col, row).Some?
  {
    var q := QuestionAt(categories, names, col, row).value;
    var marked := MarkTile(categories, names[col], row);
    if q.subtype in Keys(marked) && row < |Get(marked, q.subtype, [])| then Ok(MarkTile(marked, q.subtype, row))
    else Err(IndexError)
  }

  /** A one-question file whose question has no subtype. */
  function MiscBoard(): Dict<string, seq<Question>> {
    [("Misc", [Question("", "Q", ["a", "b", "c", "d"], "1", Index(0), 20, "100", 100, false)])]
  }

  /** The question on the only tile of `MiscBoard` cannot be judged: the program stops. */
  lemma MarkUsedAsWrittenCrashes()
    ensures QuestionAt(MiscBoard(), ["Misc"], 0, 0).Some?
    ensures MarkUsedAsWritten(MiscBoard(), ["Misc"], 0, 0) == Err(IndexError)
  {
    var b := MiscBoard();
    assert Get(b, "Misc", []) == b[0].1;
    var marked := MarkTile(b, "Misc", 0);
    assert Keys(marked) == ["Misc"];
  }

  /**
   * Where the subtype is not empty, the written code and the tile marking
   * agree: the second statement sets the same flag again.
   */
  lemma MarkUsedAsWrittenAgrees(categories: Dict<string, seq<Question>>, names: seq<string>, col: nat, row: nat)
    requires QuestionAt(categories, names, col, row).Some?
    requires CategoryOf(QuestionAt(categories, names, col, row).value) == names[col]
    requires QuestionAt(categories, names, col, row).value.subtype != ""
    ensures MarkUsedAsWritten(categories, names, col, row) == Ok(MarkTile(categories, names[col], row))
  {
    var cat := names[col];
    var marked := MarkTile(categories, cat, row);
    var qs := Get(categories, cat, []);
    assert cat in Keys(categories) by {
      assert Find(categories, cat).Some?;
    }
    GetPut(categories, cat, qs[row := qs[row].(used := true)], cat, []);
    var qs' := Get(marked, cat, []);
    assert qs'[row := qs'[row].(used := true)] == qs';
    GetPut(marked, cat, qs', cat, []);
    assert cat in Keys(marked);
    PutSame(marked, cat);
  }

  /** Storing what a key already holds changes nothing. */
  lemma PutSame<K, V>(d: Dict<K, V>, k: K)
    requires k in Keys(d)
    ensures forall dflt :: Put(d, k, Get(d, k, dflt)) == d
  {
    var i := Find(d, k).value;
    assert d[i := (k, d[i].1)] == d;
  }

  // ---------------------------------------------------------------------------
  // The session

  /** The open overlay: the tile it belongs to and the option index that counts as correct. */
  datatype Overlay = Overlay(col: nat, row: nat, correctIndex: Option<int>)

  /** The module-level state of `jeopardy.py` and the handlers that change it. */
  class Quiz {
    var scores: seq<int>
    var currentTeam: int
    var fileSelect: bool
    var categories: Dict<string, seq<Question>>
    var categoryNames: seq<string>
    var maxRows: int
    var overlay: Option<Overlay>
    var feedbackShowing: bool
    /** Whether the feedback message is the "correct" one. */
    var feedbackCorrect: bool
    var feedbackTimer: int

    ghost predicate Valid()
      reads this
    {
      && |scores| == 2 && 0 <= currentTeam < 2
      && Named(categories, categoryNames) && Filed(categories)
      && (fileSelect ==> overlay.None?)
      && (feedbackShowing ==> 1 <= feedbackTimer <= FeedbackDuration)
      && (overlay.Some? ==> OverlayFits())
    }

    /** The open overlay shows an unused question on the board, with its own correct index. */
    ghost predicate OverlayFits()
      reads this
      requires overlay.Some?
    {
      var o := overlay.value;
      var q := QuestionAt(categories, categoryNames, o.col, o.row);
      q.Some? && !q.value.used && o.correctIndex == CorrectIndex(q.value.correct)
    }

    /** The file list is showing, no question is loaded, both scores are 0 and team A is to play. */
    constructor ()
      ensures Valid()
      ensures fileSelect && scores == [0, 0] && currentTeam == 0 && overlay.None? && !feedbackShowing
      ensures categories == [] && categoryNames == [] && maxRows == 0
    {
      scores := [0, 0];
      currentTeam := 0;
      fileSelect := true;
      categories := [];
      categoryNames := [];
      maxRows := 0;
      overlay := None;
      feedbackShowing := false;
      feedbackCorrect := false;
      feedbackTimer := 0;
    }

    /**
     * `load_questions` on the rows of the chosen file: both scores go back
     * to 0 and team A is to play; every row becomes a question filed under
     * its category; the category names are sorted; each category's list is
     * sorted by points, ties in file order. A file without rows stops the
     * program (`max()` of nothing): `loaded` is false.
     */
    method LoadQuestions(rows: seq<Row>) returns (loaded: bool)
      requires Valid() && overlay.None?
      modifies this
      ensures Valid()
      ensures scores == [0, 0] && currentTeam == 0
      ensures loaded <==> rows != []
      ensures IsBoard(categories, Questions(rows))
      ensures categoryNames == SortNames(Keys(Grouped(Questions(rows))))
      ensures loaded ==> categoryNames != [] && maxRows == MaxRows(categories, categoryNames)
      ensures fileSelect == old(fileSelect) && overlay == old(overlay)
      ensures feedbackShowing == old(feedbackShowing) && feedbackCorrect == old(feedbackCorrect) && feedbackTimer == old(feedbackTimer)
    {
      var cats, names := BuildBoard(rows);
      loaded := Install(cats, names);
    }

    /**
     * Puts a built board in place: scores back to 0, team A to play, and the
     * tallest column's height when there is at least one category.
     */
    method Install(cats: Dict<string, seq<Question>>, names: seq<string>) returns (loaded: bool)
      requires Valid() && overlay.None? && Named(cats, names) && Filed(cats)
      modifies this
      ensures Valid()
      ensures scores == [0, 0] && currentTeam == 0 && categories == cats && categoryNames == names
      ensures loaded <==> names != []
      ensures loaded ==> maxRows == MaxRows(cats, names)
      ensures fileSelect == old(fileSelect) && overlay == old(overlay)
      ensures feedbackShowing == old(feedbackShowing) && feedbackCorrect == old(feedbackCorrect) && feedbackTimer == old(feedbackTimer)
    {
      scores, currentTeam, categories, categoryNames := [0, 0], 0, cats, names;
      loaded := names != [];
      if loaded {
        maxRows := MaxRows(cats, names);
      }
    }

    /**
     * `open_overlay` on a tile of the board: an unused question opens the
     * overlay, which records the tile and the option index the `correct`
     * field names (None when it names none); a used question changes
     * nothing.
     */
    method OpenOverlay(col: nat, row: nat)
      requires Valid() && !fileSelect
      requires QuestionAt(categories, categoryNames, col, row).Some?
      modifies this
      ensures Valid()
      ensures var q := QuestionAt(old(categories), old(categoryNames), col, row).value;
        overlay == if q.used then old(overlay) else Some(Overlay(col, row, CorrectIndex(q.correct)))
      ensures scores == old(scores) && currentTeam == old(currentTeam) && fileSelect == old(fileSelect)
      ensures categories == old(categories) && categoryNames == old(categoryNames) && maxRows == old(maxRows)
      ensures feedbackShowing == old(feedbackShowing) && feedbackCorrect == old(feedbackCorrect) && feedbackTimer == old(feedbackTimer)
    {
      var q := QuestionAt(categories, categoryNames, col, row).value;
      if q.used {
        return;
      }
      overlay := Some(Overlay(col, row, CorrectIndex(q.correct)));
    }

    /**
     * `handle_option_click(idx)`: the answer is correct exactly when `idx`
     * is the recorded correct index; a correct answer adds the question's
     * points to the team to play and a wrong one changes no score; the
     * question is marked used, the turn passes, the overlay closes and the
     * feedback message starts its countdown.
     */
    method HandleOptionClick(idx: int)
      requires Valid() && overlay.Some?
      modifies this
      ensures Valid()
      ensures var o, t := old(overlay).value, old(currentTeam);
        var q := QuestionAt(old(categories), old(categoryNames), o.col, o.row).value;
        var correct := o.correctIndex == Some(idx);
        && scores == (if correct then old(scores)[t := old(scores)[t] + q.points] else old(scores))
        && currentTeam == 1 - t
        && categories == MarkTile(old(categories), old(categoryNames)[o.col], o.row)
        && feedbackCorrect == correct
      ensures overlay.None? && feedbackShowing && feedbackTimer == FeedbackDuration
      ensures categoryNames == old(categoryNames) && maxRows == old(maxRows) && fileSelect == old(fileSelect)
    {
      var o := overlay.value;
      var points := QuestionAt(categories, categoryNames, o.col, o.row).value.points;
      var correct := o.correctIndex == Some(idx);
      CloseOverlay();
      Judge(correct, points);
    }

    /**
     * Scores the answer once the overlay is closed: a correct one adds
     * `points` to the team to play; the turn passes and the feedback starts.
     */
    method Judge(correct: bool, points: int)
      requires Valid() && overlay.None?
      modifies this
      ensures Valid() && overlay.None?
      ensures var t := old(currentTeam);
        && scores == (if correct then old(scores)[t := old(scores)[t] + points] else old(scores))
        && currentTeam == 1 - t
      ensures feedbackCorrect == correct && feedbackShowing && feedbackTimer == FeedbackDuration
      ensures categories == old(categories) && categoryNames == old(categoryNames) && maxRows == old(maxRows) && fileSelect == old(fileSelect)
    {
      scores := if correct then scores[currentTeam := scores[currentTeam] + points] else scores;
      currentTeam := 1 - currentTeam;
      feedbackCorrect, feedbackShowing, feedbackTimer := correct, true, FeedbackDuration;
    }

    /** Marks the open overlay's question used on the board and closes the overlay. */
    method CloseOverlay()
      requires Valid() && overlay.Some?
      modifies this
      ensures Valid() && overlay.None?
      ensures var o := old(overlay).value;
        categories == MarkTile(old(categories), old(categoryNames)[o.col], o.row)
      ensures scores == old(scores) && currentTeam == old(currentTeam) && fileSelect == old(fileSelect)
      ensures categoryNames == old(categoryNames) && maxRows == old(maxRows)
      ensures feedbackShowing == old(feedbackShowing) && feedbackCorrect == old(feedbackCorrect) && feedbackTimer == old(feedbackTimer)
    {
      var o := overlay.value;
      MarkTileKeeps(categories, categoryNames, categoryNames[o.col], o.row);
      categories := MarkTile(categories, categoryNames[o.col], o.row);
      overlay := None;
    }

    /**
     * One frame after the events: on the board, a showing feedback message
     * counts down one frame and hides once the count reaches 0, so it is
     * drawn on exactly `FeedbackDuration` frames.
     */
    method Tick()
      requires Valid()
      modifies this
      ensures Valid()
      ensures feedbackShowing == (old(feedbackShowing) && (fileSelect || old(feedbackTimer) > 1))
      ensures feedbackTimer == if old(feedbackShowing) && !fileSelect then old(feedbackTimer) - 1 else old(feedbackTimer)
      ensures scores == old(scores) && currentTeam == old(currentTeam) && fileSelect == old(fileSelect)
      ensures categories == old(categories) && categoryNames == old(categoryNames) && maxRows == old(maxRows)
      ensures overlay == old(overlay) && feedbackCorrect == old(feedbackCorrect)
    {
      if !fileSelect && feedbackShowing {
        feedbackTimer := feedbackTimer - 1;
        if feedbackTimer <= 0 {
          feedbackShowing := false;
        }
      }
    }

    /**
     * A click on a file of the file list: its questions are loaded and the
     * board replaces the list. Once the board shows, the list is gone and
     * the click changes nothing. `loaded` is false where loading stops the
     * program.
     */
    method ClickFile(rows: seq<Row>) returns (loaded: bool)
      requires Valid()
      modifies this
      ensures Valid()
      ensures !old(fileSelect) ==> loaded && unchanged(this)
      ensures old(fileSelect) ==> (loaded <==> rows != []) && scores == [0, 0] && currentTeam == 0
      ensures old(fileSelect) && loaded ==> !fileSelect
      ensures old(fileSelect) ==>
        && IsBoard(categories, Questions(rows))
        && categoryNames == SortNames(Keys(Grouped(Questions(rows))))
        && overlay.None?
        && feedbackShowing == old(feedbackShowing) && feedbackCorrect == old(feedbackCorrect)
        && feedbackTimer == old(feedbackTimer)
      ensures old(fileSelect) && loaded ==> categoryNames != [] && maxRows == MaxRows(categories, categoryNames)
    {
      if !fileSelect {
        return true;
      }
      loaded := LoadQuestions(rows);
      if loaded {
        fileSelect := false;
      }
    }

    /** A click on option `i` of the open overlay: the answer is judged; with no overlay open nothing happens. */
    method ClickOption(i: nat)
      requires Valid()
      modifies this
      ensures Valid()
      ensures old(overlay).None? || i >= OptionCount ==> unchanged(this)
      ensures old(overlay).Some? && i < OptionCount ==>
        var o, t := old(overlay).value, old(currentTeam);
        var q := QuestionAt(old(categories), old(categoryNames), o.col, o.row).value;
        var correct := o.correctIndex == Some(i as int);
        && scores == (if correct then old(scores)[t := old(scores)[t] + q.points] else old(scores))
        && currentTeam == 1 - t
        && categories == MarkTile(old(categories), old(categoryNames)[o.col], o.row)
        && overlay.None? && feedbackShowing && feedbackCorrect == correct && feedbackTimer == FeedbackDuration
        && categoryNames == old(categoryNames) && maxRows == old(maxRows) && fileSelect == old(fileSelect)
    {
      if !fileSelect && overlay.Some? && i < OptionCount {
        HandleOptionClick(i);
      }
    }

    /** A click on tile (col, row) of the board while no overlay is open. */
    method ClickTile(col: nat, row: nat)
      requires Valid()
      modifies this
      ensures Valid()
      ensures var q := QuestionAt(categories, categoryNames, col, row);
        if !old(fileSelect) && old(overlay).None? && q.Some? && !q.value.used
        then overlay == Some(Overlay(col, row, CorrectIndex(q.value.correct)))
        else overlay == old(overlay)
      ensures scores == old(scores) && currentTeam == old(currentTeam) && fileSelect == old(fileSelect)
      ensures categories == old(categories) && categoryNames == old(categoryNames) && maxRows == old(maxRows)
      ensures feedbackShowing == old(feedbackShowing) && feedbackCorrect == old(feedbackCorrect) && feedbackTimer == old(feedbackTimer)
    {
      if !fileSelect && overlay.None? && QuestionAt(categories, categoryNames, col, row).Some? {
        OpenOverlay(col, row);
      }
    }
  }

  /**
   * The category names are strictly ascending and name exactly the
   * categories some question is filed under.
   */
  lemma CategoryNamesSorted(qs: seq<Question>, k: string)
    ensures StrictlyAscending(SortNames(Keys(Grouped(qs))), StrLt)
    ensures k in SortNames(Keys(Grouped(qs))) <==> exists j | 0 <= j < |qs| :: CategoryOf(qs[j]) == k
  {
    FoldNestDistinct(qs, CategoryOf, [], Append(Itself));
    StrLtOrder();
    SortDistinct(Keys(Grouped(qs)), StrLt);
    GroupedBucket(qs, k);
    var keys := Keys(Grouped(qs));
    assert multiset(SortNames(keys)) == multiset(keys);
    assert k in SortNames(keys) <==> k in multiset(SortNames(keys));
    assert k in keys <==> k in multiset(keys);
    if exists j | 0 <= j < |qs| :: CategoryOf(qs[j]) == k {
      var j :| 0 <= j < |qs| && CategoryOf(qs[j]) == k;
      SelectContains(qs, CategoryOf, j);
    } else if k in keys {
      var sel := Select(qs, CategoryOf, k);
      SelectWithin(qs, CategoryOf, k, sel[0]);
      assert false;
    }
  }

  /**
   * Every question is on the board, in the list of its own category; with
   * `Filed`, it is in no other list.
   */
  lemma QuestionOnBoard(categories: Dict<string, seq<Question>>, qs: seq<Question>, i: nat)
    requires IsBoard(categories, qs) && i < |qs|
    ensures qs[i] in Get(categories, CategoryOf(qs[i]), [])
  {
    SelectContains(qs, CategoryOf, i);
    var sel := Select(qs, CategoryOf, CategoryOf(qs[i]));
    assert qs[i] in multiset(SortByKey(sel, Points));
  }
}

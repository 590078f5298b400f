/**
 * The one-player game of `jeopardy_question.py`: clues loaded from
 * tab-separated rows, grouped by air date, round and category and sorted at
 * every level, a board for one round of the first date with round
 * navigation, an integer hit test for the board's cells, and a question
 * window with a show-answer gate and Correct / Wrong judgment.
 */
module JeopardyQuestion {
  import opened Base
  import opened Collections
  import opened Text
  import opened Rows

  // ---------------------------------------------------------------------------
  // Loading

  /**
   * A loaded clue. The row's `question` column is stored as the clue's
   * `answer` and its `answer` column as the clue's `question`: the window
   * shows the latter first.
   */
  datatype Clue = Clue(airDate: string, round: int, category: string, answer: string, question: string, points: int, used: bool)

  /**
   * Why loading stops: a column that is read is missing (KeyError), or a
   * value that goes through `int()` is not an integer (ValueError).
   */
  datatype LoadError = MissingColumn(column: string) | NotAnInteger(column: string)

  /** The column is present and holds more than whitespace. */
  predicate Filled(row: Row, k: string) {
    k in row && !AllSpace(row[k])
  }

  /** The rows that become clues: these four columns are non-blank. */
  predicate Kept(row: Row) {
    Filled(row, "air_date") && Filled(row, "round") && Filled(row, "category") && Filled(row, "question")
  }

  /**
   * One row, in the order the loader reads it: the four-column test
   * (stopping at the first blank column), then the fields of the new clue;
   * `round` and `clue_value` have no fallback.
   */
  function ParseRow(row: Row): Result<Option<Clue>, LoadError> {
    if "air_date" !in row then Err(MissingColumn("air_date"))
    else if Strip(row["air_date"]) == "" then Ok(None)
    else if "round" !in row then Err(MissingColumn("round"))
    else if Strip(row["round"]) == "" then Ok(None)
    else if "category" !in row then Err(MissingColumn("category"))
    else if Strip(row["category"]) == "" then Ok(None)
    else if "question" !in row then Err(MissingColumn("question"))
    else if Strip(row["question"]) == "" then Ok(None)
    else if ParseInt(row["round"]).None? then Err(NotAnInteger("round"))
    else if "answer" !in row then Err(MissingColumn("answer"))
    else if "clue_value" !in row then Err(MissingColumn("clue_value"))
    else if ParseInt(row["clue_value"]).None? then Err(NotAnInteger("clue_value"))
    else
      Ok(Some(Clue(Strip(row["air_date"]), ParseInt(row["round"]).value, Strip(row["category"]),
        Strip(row["question"]), Strip(row["answer"]), ParseInt(row["clue_value"]).value, false)))
  }

  /**
   * A row becomes a clue exactly when it is kept and its remaining fields
   * read; the clue has the question and answer columns swapped and starts
   * unused. A kept row is never skipped, a row with the four columns
   * present and one of them blank always is, and every error names a
   * column that is missing or does not hold an integer.
   */
  lemma ParseRowSpec(row: Row)
    ensures ParseRow(row).Ok? && ParseRow(row).value.Some? <==>
      Kept(row) && ParseInt(row["round"]).Some? && "answer" in row && "clue_value" in row && ParseInt(row["clue_value"]).Some?
    ensures ParseRow(row).Ok? && ParseRow(row).value.Some? ==>
      ParseRow(row).value.value == Clue(Strip(row["air_date"]), ParseInt(row["round"]).value, Strip(row["category"]),
        Strip(row["question"]), Strip(row["answer"]), ParseInt(row["clue_value"]).value, false)
    ensures Kept(row) ==> ParseRow(row) != Ok(None)
    ensures "air_date" in row && "round" in row && "category" in row && "question" in row && !Kept(row) ==> ParseRow(row) == Ok(None)
    ensures ParseRow(row).Err? && ParseRow(row).error.MissingColumn? ==> ParseRow(row).error.column !in row
    ensures ParseRow(row).Err? && ParseRow(row).error.NotAnInteger? ==>
      var k := ParseRow(row).error.column; k in row && ParseInt(row[k]).None?
  {
    forall k | k in row ensures Strip(row[k]) == [] <==> AllSpace(row[k]) {
      StripSpec(row[k]);
    }
  }

  /**
   * The loading loop: each kept row's clue is appended to `questions` as it
   * is read, and a row that fails ends loading with its error.
   */
  method ReadQuestions(rows: seq<Row>) returns (r: Result<seq<Clue>, LoadError>)
    ensures r == Collect(rows, ParseRow)
  {
    var questions: seq<Clue> := [];
    var i := 0;
    while i < |rows|
      invariant 0 <= i <= |rows|
      invariant Collect(rows[..i], ParseRow) == Ok(questions)
    {
      CollectStep(rows, i, ParseRow);
      var parsed := ParseRow(rows[i]);
      if parsed.Err? {
        CollectErrPrefix(rows, i + 1, ParseRow);
        return Err(parsed.error);
      }
      if parsed.value.Some? {
        questions := questions + [parsed.value.value];
      }
      i := i + 1;
    }
    assert rows[..i] == rows;
    r := Ok(questions);
  }

  // ---------------------------------------------------------------------------
  // Grouping by air date, round and category

  function DateOf(q: Clue): string {
    q.airDate
  }

  function RoundOf(q: Clue): int {
    q.round
  }

  function CategoryOf(q: Clue): string {
    q.category
  }

  function Itself(q: Clue): Clue {
    q
  }

  function Points(q: Clue): int {
    q.points
  }

  /** One round's clues by category. */
  type Categories = Dict<string, seq<Clue>>

  /** One date's rounds by round number. */
  type Rounds = Dict<int, Categories>

  /** All clues by air date, round and category. */
  type Dates = Dict<string, Rounds>

  function FileInRound(): (Categories, Clue) -> Categories {
    Nest(CategoryOf, [], Append(Itself))
  }

  function FileInDate(): (Rounds, Clue) -> Rounds {
    Nest(RoundOf, [], FileInRound())
  }

  /** `dates_dict` after `dates_dict[date][round][category].append(q)` for every clue in turn. */
  function Group(qs: seq<Clue>): Dates {
    Fold(qs, [], Nest(DateOf, [], FileInDate()))
  }

  /** The list under date `d`, round `r` and category `c`, empty where there is none. */
  function Bucket(g: Dates, d: string, r: int, c: string): seq<Clue> {
    Get(Get(Get(g, d, []), r, []), c, [])
  }

  /** The clues of date `d`, round `r` and category `c`, in loading order. */
  function Filter(qs: seq<Clue>, d: string, r: int, c: string): seq<Clue> {
    Select(Select(Select(qs, DateOf, d), RoundOf, r), CategoryOf, c)
  }

  /** Filing one more clue: it is appended to the list of its own date, round and category. */
  lemma GroupSnoc(qs: seq<Clue>, q: Clue)
    ensures var rounds := Get(Group(qs), q.airDate, []); var cats := Get(rounds, q.round, []);
      Group(qs + [q]) == Put(Group(qs), q.airDate, Put(rounds, q.round, Put(cats, q.category, Get(cats, q.category, []) + [q])))
  {
    FoldSnoc(qs, q, [], Nest(DateOf, [], FileInDate()));
    var rounds := Get(Group(qs), q.airDate, []);
    var cats := Get(rounds, q.round, []);
    var bucket := Get(cats, q.category, []) + [q];
    assert CategoryOf(q) == q.category && RoundOf(q) == q.round && Itself(q) == q;
    assert Append(Itself)(Get(cats, q.category, []), q) == bucket;
    var inRound := Nest(CategoryOf, [], Append(Itself));
    assert inRound(cats, q) == Put(cats, q.category, bucket);
    assert FileInDate()(rounds, q) == Put(rounds, q.round, inRound(cats, q));
  }

  /** The grouping loop. */
  method GroupQuestions(qs: seq<Clue>) returns (g: Dates)
    ensures g == Group(qs)
  {
    g := [];
    for i := 0 to |qs|
      invariant g == Group(qs[..i])
    {
      var q := qs[i];
      assert qs[..i + 1] == qs[..i] + [q];
      GroupSnoc(qs[..i], q);
      var rounds := Get(g, q.airDate, []);
      var cats := Get(rounds, q.round, []);
      g := Put(g, q.airDate, Put(rounds, q.round, Put(cats, q.category, Get(cats, q.category, []) + [q])));
    }
    assert qs[..|qs|] == qs;
  }

  /**
   * The list under a date, round and category holds exactly the clues
   * carrying them, in loading order.
   */
  lemma GroupBucket(qs: seq<Clue>, d: string, r: int, c: string)
    ensures Bucket(Group(qs), d, r, c) == Filter(qs, d, r, c)
  {
    FoldNestGet(qs, DateOf, [], FileInDate(), d);
    var inDate := Select(qs, DateOf, d);
    FoldNestGet(inDate, RoundOf, [], FileInRound(), r);
    var inRound := Select(inDate, RoundOf, r);
    FoldNestGet(inRound, CategoryOf, [], Append(Itself), c);
    FoldAppend(Filter(qs, d, r, c), Itself);
    assert MapSeq(Itself, Filter(qs, d, r, c)) == Filter(qs, d, r, c);
  }

  /** No key is repeated at any level. */
  ghost predicate Unique(g: Dates) {
    && Distinct(Keys(g))
    && (forall d :: Distinct(Keys(Get(g, d, []))))
    && (forall d, r :: Distinct(Keys(Get(Get(g, d, []), r, []))))
  }

  /**
   * A date, a round within it and a category within that are present
   * exactly when some clue carries them, and no key is repeated.
   */
  lemma GroupKeys(qs: seq<Clue>, d: string, r: int, c: string)
    ensures d in Keys(Group(qs)) <==> Select(qs, DateOf, d) != []
    ensures r in Keys(Get(Group(qs), d, [])) <==> Select(Select(qs, DateOf, d), RoundOf, r) != []
    ensures c in Keys(Get(Get(Group(qs), d, []), r, [])) <==> Filter(qs, d, r, c) != []
  {
    FoldNestKeys(qs, DateOf, [], FileInDate(), d);
    FoldNestGet(qs, DateOf, [], FileInDate(), d);
    var inDate := Select(qs, DateOf, d);
    FoldNestKeys(inDate, RoundOf, [], FileInRound(), r);
    FoldNestGet(inDate, RoundOf, [], FileInRound(), r);
    FoldNestKeys(Select(inDate, RoundOf, r), CategoryOf, [], Append(Itself), c);
  }

  lemma GroupUnique(qs: seq<Clue>)
    ensures Unique(Group(qs))
  {
    FoldNestDistinct(qs, DateOf, [], FileInDate());
    forall d ensures Distinct(Keys(Get(Group(qs), d, []))) {
      FoldNestGet(qs, DateOf, [], FileInDate(), d);
      FoldNestDistinct(Select(qs, DateOf, d), RoundOf, [], FileInRound());
    }
    forall d, r ensures Distinct(Keys(Get(Get(Group(qs), d, []), r, []))) {
      FoldNestGet(qs, DateOf, [], FileInDate(), d);
      var inDate := Select(qs, DateOf, d);
      FoldNestGet(inDate, RoundOf, [], FileInRound(), r);
      FoldNestDistinct(Select(inDate, RoundOf, r), CategoryOf, [], Append(Itself));
    }
  }

  // ---------------------------------------------------------------------------
  // Sorting every level

  /** `sorted(clues, key=lambda x: x["points"])` */
  function ByPoints(clues: seq<Clue>): seq<Clue> {
    SortByKey(clues, Points)
  }

  /** `categories_sorted`: categories in ascending order, each list by points. */
  function SortedCategories(cats: Categories): Categories {
    Reorder(cats, Sort(Keys(cats), StrLt), [], ByPoints)
  }

  /** `rounds_sorted`: round numbers in ascending order, each round's categories sorted. */
  function SortedRounds(rounds: Rounds): Rounds {
    Reorder(rounds, Sort(Keys(rounds), IntLt), [], SortedCategories)
  }

  /** `dates_sorted`: air dates in ascending order, each date's rounds sorted. */
  function SortedDates(g: Dates): Dates {
    Reorder(g, Sort(Keys(g), StrLt), [], SortedRounds)
  }

  /** The board every screen is drawn from. */
  function Board(qs: seq<Clue>): Dates {
    SortedDates(Group(qs))
  }

  /** The innermost loop: `categories_sorted[cat] = sorted(...)` for each category in order. */
  method SortCategories(cats: Categories) returns (sorted: Categories)
    requires Distinct(Keys(cats))
    ensures sorted == SortedCategories(cats)
  {
    var ks := Sort(Keys(cats), StrLt);
    StrLtOrder();
    SortDistinct(Keys(cats), StrLt);
    sorted := [];
    for i := 0 to |ks|
      invariant sorted == Reorder(cats, ks[..i], [], ByPoints)
    {
      assert ks[i] !in ks[..i];
      assert ks[..i + 1] == ks[..i] + [ks[i]];
      ReorderSnoc(cats, ks[..i], ks[i], [], ByPoints);
      sorted := Put(sorted, ks[i], ByPoints(Get(cats, ks[i], [])));
    }
    assert ks[..|ks|] == ks;
  }

  /** The middle loop: `rounds_sorted[rnd] = categories_sorted` for each round in order. */
  method SortRounds(rounds: Rounds) returns (sorted: Rounds)
    requires Distinct(Keys(rounds)) && forall r :: Distinct(Keys(Get(rounds, r, [])))
    ensures sorted == SortedRounds(rounds)
  {
    var ks := Sort(Keys(rounds), IntLt);
    IntLtOrder();
    SortDistinct(Keys(rounds), IntLt);
    sorted := [];
    for i := 0 to |ks|
      invariant sorted == Reorder(rounds, ks[..i], [], SortedCategories)
    {
      assert ks[i] !in ks[..i];
      assert ks[..i + 1] == ks[..i] + [ks[i]];
      ReorderSnoc(rounds, ks[..i], ks[i], [], SortedCategories);
      var cats := SortCategories(Get(rounds, ks[i], []));
      sorted := Put(sorted, ks[i], cats);
    }
    assert ks[..|ks|] == ks;
  }

  /** The outer loop: `dates_sorted[date] = rounds_sorted` for each date in order. */
  method SortDates(g: Dates) returns (sorted: Dates)
    requires Unique(g)
    ensures sorted == SortedDates(g)
  {
    var ks := Sort(Keys(g), StrLt);
    StrLtOrder();
    SortDistinct(Keys(g), StrLt);
    sorted := [];
    for i := 0 to |ks|
      invariant sorted == Reorder(g, ks[..i], [], SortedRounds)
    {
      assert ks[i] !in ks[..i];
      assert ks[..i + 1] == ks[..i] + [ks[i]];
      ReorderSnoc(g, ks[..i], ks[i], [], SortedRounds);
      var rounds := SortRounds(Get(g, ks[i], []));
      sorted := Put(sorted, ks[i], rounds);
    }
    assert ks[..|ks|] == ks;
  }

  /** Grouping then sorting: the loaded board. */
  method BuildBoard(qs: seq<Clue>) returns (board: Dates)
    ensures board == Board(qs)
  {
    var g := GroupQuestions(qs);
    GroupUnique(qs);
    board := SortDates(g);
  }

  // ---------------------------------------------------------------------------
  // What the loaded board promises

  /** Looking up a date, round and category in the sorted board finds the grouped list, sorted by points. */
  lemma SortedBucket(g: Dates, d: string, r: int, c: string)
    ensures Bucket(SortedDates(g), d, r, c) == ByPoints(Bucket(g, d, r, c))
  {
    GetReorder(g, Sort(Keys(g), StrLt), [], SortedRounds, d, []);
    SortSameElements(Keys(g), StrLt, d);
    var rounds := Get(g, d, []);
    GetReorder(rounds, Sort(Keys(rounds), IntLt), [], SortedCategories, r, []);
    SortSameElements(Keys(rounds), IntLt, r);
    var cats := Get(rounds, r, []);
    GetReorder(cats, Sort(Keys(cats), StrLt), [], ByPoints, c, []);
    SortSameElements(Keys(cats), StrLt, c);
  }

  /**
   * Each list of the board holds the clues of its date, round and category,
   * sorted by points, clues of equal points in loading order (the ensures of
   * `SortByKey`).
   */
  lemma BoardBucket(qs: seq<Clue>, d: string, r: int, c: string)
    ensures Bucket(Board(qs), d, r, c) == SortByKey(Filter(qs, d, r, c), Points)
  {
    SortedBucket(Group(qs), d, r, c);
    GroupBucket(qs, d, r, c);
  }

  /**
   * Every loaded clue is on the board exactly as often as it was loaded, in
   * the list of its own date, round and category, and in no other list.
   */
  lemma {:induction false} BoardCount(qs: seq<Clue>, d: string, r: int, c: string, x: Clue)
    ensures multiset(Bucket(Board(qs), d, r, c))[x] ==
      if x.airDate == d && x.round == r && x.category == c then multiset(qs)[x] else 0
  {
    BoardBucket(qs, d, r, c);
    SelectCount(qs, DateOf, d, x);
    SelectCount(Select(qs, DateOf, d), RoundOf, r, x);
    SelectCount(Select(Select(qs, DateOf, d), RoundOf, r), CategoryOf, c, x);
  }

  lemma ClueOnBoard(qs: seq<Clue>, i: nat)
    requires i < |qs|
    ensures qs[i] in Bucket(Board(qs), qs[i].airDate, qs[i].round, qs[i].category)
  {
    BoardCount(qs, qs[i].airDate, qs[i].round, qs[i].category, qs[i]);
  }

  /** Dates, the rounds of each date and the categories of each round are strictly ascending. */
  lemma BoardOrdered(qs: seq<Clue>, d: string, r: int)
    ensures StrictlyAscending(Keys(Board(qs)), StrLt) && Distinct(Keys(Board(qs)))
    ensures StrictlyAscending(Keys(Get(Board(qs), d, [])), IntLt) && Distinct(Keys(Get(Board(qs), d, [])))
    ensures var cats := Get(Get(Board(qs), d, []), r, []);
      StrictlyAscending(Keys(cats), StrLt) && Distinct(Keys(cats))
  {
    var g := Group(qs);
    GroupUnique(qs);
    StrLtOrder();
    IntLtOrder();
    SortDistinct(Keys(g), StrLt);
    GetReorder(g, Sort(Keys(g), StrLt), [], SortedRounds, d, []);
    var rounds := Get(g, d, []);
    SortDistinct(Keys(rounds), IntLt);
    GetReorder(rounds, Sort(Keys(rounds), IntLt), [], SortedCategories, r, []);
    var cats := Get(rounds, r, []);
    SortDistinct(Keys(cats), StrLt);
  }

  /** Some clue has date `d` exactly when its selection is non-empty. */
  lemma InDate(qs: seq<Clue>, d: string)
    ensures Select(qs, DateOf, d) != [] <==> exists i | 0 <= i < |qs| :: qs[i].airDate == d
  {
    var inDate := Select(qs, DateOf, d);
    if exists i | 0 <= i < |qs| :: qs[i].airDate == d {
      var i :| 0 <= i < |qs| && qs[i].airDate == d;
      SelectContains(qs, DateOf, i);
    }
    if inDate != [] {
      SelectWithin(qs, DateOf, d, inDate[0]);
    }
  }

  /** Some clue has date `d` and round `r` exactly when their selection is non-empty. */
  lemma InRound(qs: seq<Clue>, d: string, r: int)
    ensures Select(Select(qs, DateOf, d), RoundOf, r) != [] <==>
      exists i | 0 <= i < |qs| :: qs[i].airDate == d && qs[i].round == r
  {
    var inDate := Select(qs, DateOf, d);
    var inRound := Select(inDate, RoundOf, r);
    if exists i | 0 <= i < |qs| :: qs[i].airDate == d && qs[i].round == r {
      var i :| 0 <= i < |qs| && qs[i].airDate == d && qs[i].round == r;
      SelectContains(qs, DateOf, i);
      var j :| 0 <= j < |inDate| && inDate[j] == qs[i];
      SelectContains(inDate, RoundOf, j);
    }
    if inRound != [] {
      SelectWithin(inDate, RoundOf, r, inRound[0]);
      SelectWithin(qs, DateOf, d, inRound[0]);
    }
  }

  /** Some clue has date `d`, round `r` and category `c` exactly when `Filter` is non-empty. */
  lemma InCategory(qs: seq<Clue>, d: string, r: int, c: string)
    ensures Filter(qs, d, r, c) != [] <==>
      exists i | 0 <= i < |qs| :: qs[i].airDate == d && qs[i].round == r && qs[i].category == c
  {
    var inDate := Select(qs, DateOf, d);
    var inRound := Select(inDate, RoundOf, r);
    if exists i | 0 <= i < |qs| :: qs[i].airDate == d && qs[i].round == r && qs[i].category == c {
      var i :| 0 <= i < |qs| && qs[i].airDate == d && qs[i].round == r && qs[i].category == c;
      SelectContains(qs, DateOf, i);
      var j :| 0 <= j < |inDate| && inDate[j] == qs[i];
      SelectContains(inDate, RoundOf, j);
      var k :| 0 <= k < |inRound| && inRound[k] == qs[i];
      SelectContains(inRound, CategoryOf, k);
    }
    var f := Filter(qs, d, r, c);
    if f != [] {
      SelectWithin(inRound, CategoryOf, c, f[0]);
      SelectWithin(inDate, RoundOf, r, f[0]);
      SelectWithin(qs, DateOf, d, f[0]);
    }
  }

  /**
   * The board lists a date, a round within it and a category within that
   * exactly when some loaded clue carries them.
   */
  lemma BoardKeys(qs: seq<Clue>, d: string, r: int, c: string)
    ensures d in Keys(Board(qs)) <==> exists i | 0 <= i < |qs| :: qs[i].airDate == d
    ensures r in Keys(Get(Board(qs), d, [])) <==> exists i | 0 <= i < |qs| :: qs[i].airDate == d && qs[i].round == r
    ensures c in Keys(Get(Get(Board(qs), d, []), r, [])) <==>
      exists i | 0 <= i < |qs| :: qs[i].airDate == d && qs[i].round == r && qs[i].category == c
  {
    var g := Group(qs);
    GroupKeys(qs, d, r, c);
    InDate(qs, d);
    InRound(qs, d, r);
    InCategory(qs, d, r, c);
    SortSameElements(Keys(g), StrLt, d);
    GetReorder(g, Sort(Keys(g), StrLt), [], SortedRounds, d, []);
    var rounds := Get(g, d, []);
    SortSameElements(Keys(rounds), IntLt, r);
    GetReorder(rounds, Sort(Keys(rounds), IntLt), [], SortedCategories, r, []);
    var cats := Get(rounds, r, []);
    SortSameElements(Keys(cats), StrLt, c);
  }

  /** Every listed category of the board has at least one clue. */
  lemma BoardCategoryFilled(qs: seq<Clue>, d: string, r: int, c: string)
    requires c in Keys(Get(Get(Board(qs), d, []), r, []))
    ensures Bucket(Board(qs), d, r, c) != []
  {
    BoardKeys(qs, d, r, c);
    var i :| 0 <= i < |qs| && qs[i].airDate == d && qs[i].round == r && qs[i].category == c;
    BoardCount(qs, d, r, c, qs[i]);
  }

  /** Every listed round has at least one category. */
  lemma BoardRoundFilled(qs: seq<Clue>, d: string, r: int)
    requires r in Keys(Get(Board(qs), d, []))
    ensures Get(Get(Board(qs), d, []), r, []) != []
  {
    BoardKeys(qs, d, r, "");
    var i :| 0 <= i < |qs| && qs[i].airDate == d && qs[i].round == r;
    BoardKeys(qs, d, r, qs[i].category);
  }

  /** Every listed date has at least one round. */
  lemma BoardDateFilled(qs: seq<Clue>, d: string)
    requires d in Keys(Board(qs))
    ensures Get(Board(qs), d, []) != []
  {
    BoardKeys(qs, d, 0, "");
    var i :| 0 <= i < |qs| && qs[i].airDate == d;
    BoardKeys(qs, d, qs[i].round, "");
  }

  /** A date's rounds as the board screen needs them: at least one round, no empty round, no empty category. */
  predicate Shaped(rounds: Rounds) {
    && rounds != []
    && forall i | 0 <= i < |rounds| ::
      rounds[i].1 != [] && forall j | 0 <= j < |rounds[i].1| :: rounds[i].1[j].1 != []
  }

  /** The board of a non-empty load lists some date, and every date of it has the shape the screen needs. */
  lemma BoardShaped(qs: seq<Clue>, i: nat)
    requires qs != [] && i < |Board(qs)|
    ensures Shaped(Board(qs)[i].1)
  {
    var b := Board(qs);
    var d := b[i].0;
    BoardOrdered(qs, d, 0);
    GetIndex(b, i, []);
    assert Keys(b)[i] == d;
    BoardDateFilled(qs, d);
    var rounds := b[i].1;
    forall j | 0 <= j < |rounds|
      ensures rounds[j].1 != [] && forall k | 0 <= k < |rounds[j].1| :: rounds[j].1[k].1 != []
    {
      var r := rounds[j].0;
      BoardOrdered(qs, d, r);
      GetIndex(rounds, j, []);
      assert Keys(rounds)[j] == r;
      BoardRoundFilled(qs, d, r);
      var cats := rounds[j].1;
      forall k | 0 <= k < |cats| ensures cats[k].1 != [] {
        GetIndex(cats, k, []);
        assert Keys(cats)[k] == cats[k].0;
        BoardCategoryFilled(qs, d, r, cats[k].0);
      }
    }
  }

  lemma BoardNonEmpty(qs: seq<Clue>)
    requires qs != []
    ensures Board(qs) != []
  {
    BoardKeys(qs, qs[0].airDate, 0, "");
  }

  // ---------------------------------------------------------------------------
  // Board geometry

  const WindowHeight := 800
  const BoardTop := 100
  const BoardLeft := 50
  const CellWidth := 200
  const CellHeightMax := 100
  const CellMargin := 10
  const CategoryHeight := 50
  const CategoryPadding := 20
  const BottomMargin := 80

  /** The height below the category titles left for the cells. */
  const CellAreaHeight := WindowHeight - BoardTop - BottomMargin - CategoryHeight - CategoryPadding

  /** `max_rows`: the length of the longest category list of a round, 0 for a round without categories. */
  function MaxRows(round: Categories): nat {
    if round == [] then 0
    else
      var rest := MaxRows(round[..|round| - 1]);
      if rest < |round[|round| - 1].1| then |round[|round| - 1].1| else rest
  }

  /** `max_rows` bounds every list of the round and is the length of one of them. */
  lemma {:induction false} MaxRowsSpec(round: Categories)
    requires round != []
    ensures forall i | 0 <= i < |round| :: |round[i].1| <= MaxRows(round)
    ensures exists i | 0 <= i < |round| :: |round[i].1| == MaxRows(round)
  {
    var init := round[..|round| - 1];
    if init != [] {
      MaxRowsSpec(init);
      assert forall i | 0 <= i < |init| :: round[i] == init[i];
      var j :| 0 <= j < |init| && |init[j].1| == MaxRows(init);
      if MaxRows(init) < |round[|round| - 1].1| {
        assert |round[|round| - 1].1| == MaxRows(round);
      } else {
        assert |round[j].1| == MaxRows(round);
      }
    }
  }

  /** `CELL_HEIGHT_DYNAMIC`: the cell height, shrunk so that `maxRows` rows fit the cell area. */
  function CellHeight(maxRows: nat): int
    requires maxRows > 0
  {
    var fit := CellAreaHeight / maxRows;
    if fit < CellHeightMax then fit else CellHeightMax
  }

  /**
   * The cell height is the largest height of at most `CELL_HEIGHT` with
   * which `maxRows` cells fit the cell area.
   */
  lemma CellHeightSpec(maxRows: nat)
    requires maxRows > 0
    ensures var h := CellHeight(maxRows);
      && 0 <= h <= CellHeightMax
      && h * maxRows <= CellAreaHeight
      && (h == CellHeightMax || (h + 1) * maxRows > CellAreaHeight)
  {
    var q := CellAreaHeight / maxRows;
    assert CellAreaHeight == q * maxRows + CellAreaHeight % maxRows;
    if CellHeight(maxRows) < CellHeightMax {
      assert (q + 1) * maxRows == q * maxRows + maxRows;
    } else {
      assert CellHeightMax * maxRows <= q * maxRows;
    }
  }

  /** The left edge of column `col`. */
  function ColumnX(col: int): int {
    BoardLeft + col * (CellWidth + CellMargin)
  }

  /** The top edge of row `row` when cells are `h` high. */
  function RowY(row: int, h: int): int {
    BoardTop + CategoryHeight + CategoryPadding + row * (h + CellMargin)
  }

  /** Point (x, y) lies in the cell of clue `row` of category `col`, edges included. */
  predicate InCell(round: Categories, h: int, x: int, y: int, col: int, row: int) {
    && 0 <= col < |round| && 0 <= row < |round[col].1|
    && ColumnX(col) <= x <= ColumnX(col) + CellWidth
    && RowY(row, h) <= y <= RowY(row, h) + h
  }

  /**
   * `get_cell_under_mouse`: the cell containing the point, scanning the
   * categories and then their clues in order; none when no cell contains it.
   */
  method CellUnderMouse(round: Categories, h: int, x: int, y: int) returns (cell: Option<(nat, nat)>)
    ensures cell.Some? ==> InCell(round, h, x, y, cell.value.0, cell.value.1)
    ensures cell.None? ==> forall col, row :: !InCell(round, h, x, y, col, row)
  {
    for col := 0 to |round|
      invariant forall c, row | c < col :: !InCell(round, h, x, y, c, row)
    {
      var colX := ColumnX(col);
      if colX <= x <= colX + CellWidth {
        for row := 0 to |round[col].1|
          invariant forall r | r < row :: !InCell(round, h, x, y, col, r)
        {
          var rowY := RowY(row, h);
          if rowY <= y <= rowY + h {
            return Some((col, row));
          }
        }
      }
    }
    return None;
  }

  /** A later row starts below the end of an earlier one and its margin. */
  lemma RowsApart(row: int, row': int, h: int)
    requires row < row' && h >= 0
    ensures RowY(row, h) + h + CellMargin <= RowY(row', h)
  {
    var k := h + CellMargin;
    var n := row' - row;
    assert row' * k == row * k + n * k;
    assert n * k >= k by {
      assert n * k == (n - 1) * k + k;
      assert (n - 1) * k >= 0;
    }
  }

  /** Cells do not overlap: a point lies in at most one cell. */
  lemma CellUnique(round: Categories, h: int, x: int, y: int, col: int, row: int, col': int, row': int)
    requires h >= 0
    requires InCell(round, h, x, y, col, row) && InCell(round, h, x, y, col', row')
    ensures col == col' && row == row'
  {
    if row < row' {
      RowsApart(row, row', h);
    } else if row' < row {
      RowsApart(row', row, h);
    }
  }

  // ---------------------------------------------------------------------------
  // Marking a clue used

  /** The clue of row `row` of category `col` of round `r` of date `d`, by position. */
  function ClueIn(b: Dates, d: nat, r: nat, col: nat, row: nat): Option<Clue> {
    if d < |b| && r < |b[d].1| && col < |b[d].1[r].1| && row < |b[d].1[r].1[col].1|
    then Some(b[d].1[r].1[col].1[row])
    else None
  }

  /** `current_question["used"] = True` on the clue at that position. */
  function MarkUsed(b: Dates, d: nat, r: nat, col: nat, row: nat): Dates {
    if ClueIn(b, d, r, col, row).Some? then
      var rounds := b[d].1;
      var cats := rounds[r].1;
      var clues := cats[col].1;
      b[d := (b[d].0, rounds[r := (rounds[r].0, cats[col := (cats[col].0, clues[row := clues[row].(used := true)])])])]
    else b
  }

  /** Marking sets that clue's flag and changes no other clue. */
  lemma MarkUsedEffect(b: Dates, d: nat, r: nat, col: nat, row: nat, d': nat, r': nat, col': nat, row': nat)
    ensures ClueIn(MarkUsed(b, d, r, col, row), d', r', col', row') ==
      if (d', r', col', row') == (d, r, col, row) && ClueIn(b, d, r, col, row).Some?
      then Some(ClueIn(b, d, r, col, row).value.(used := true))
      else ClueIn(b, d', r', col', row')
  {
  }

  /**
   * Marking keeps every key at every level and every list's length: the
   * board keeps its shape, and lookups by key still find the same positions.
   */
  lemma MarkUsedShape(b: Dates, d: nat, r: nat, col: nat, row: nat, i: nat)
    requires i < |b|
    ensures var b' := MarkUsed(b, d, r, col, row);
      && Keys(b') == Keys(b) && Keys(b'[i].1) == Keys(b[i].1)
      && (forall j | 0 <= j < |b[i].1| :: Keys(b'[i].1[j].1) == Keys(b[i].1[j].1))
      && (forall j, k | 0 <= j < |b[i].1| && 0 <= k < |b[i].1[j].1| :: |b'[i].1[j].1[k].1| == |b[i].1[j].1[k].1|)
      && (Shaped(b[i].1) ==> Shaped(b'[i].1))
  {
  }

  /** A shaped date's rounds each have a longest list of at least one clue, so the cell height is defined. */
  lemma ShapedMaxRows(rounds: Rounds, i: nat)
    requires Shaped(rounds) && i < |rounds|
    ensures MaxRows(rounds[i].1) > 0
  {
    MaxRowsSpec(rounds[i].1);
    assert |rounds[i].1[0].1| > 0;
  }

  // ---------------------------------------------------------------------------
  // The session

  /**
   * What a click lands on, as the screen on show resolves it: on the board,
   * the Next Round and Prev Round buttons (tested in that order) or else the
   * cell `CellUnderMouse` finds; in the question window, one of its three
   * buttons.
   */
  datatype Target = NextButton | PrevButton | Cell(col: nat, row: nat) | ShowAnswerButton | CorrectButton | WrongButton | Nowhere

  /** The module-level game state and the click handler that changes it. */
  class Session {
    var board: Dates
    /** `date_list`: the board's air dates, in order. */
    var dateList: seq<string>
    var dateIdx: nat
    var roundIdx: int
    var score: int
    /** `showing_question_window` */
    var window: bool
    var showingAnswer: bool
    /** Where `current_question` sits in the round on show: (category column, row). */
    var current: Option<(nat, nat)>

    ghost predicate Valid()
      reads this
    {
      BoardValid() && WindowValid()
    }

    /** The date list is the board's, and the date and round on show exist and are shaped. */
    ghost predicate BoardValid()
      reads this`board, this`dateList, this`dateIdx, this`roundIdx
    {
      && dateList == Keys(board) && dateIdx < |board|
      && Shaped(board[dateIdx].1)
      && 0 <= roundIdx < |board[dateIdx].1|
    }

    /** An open question window shows an unused clue. */
    ghost predicate WindowValid()
      reads this`window, this`current, this`board, this`dateIdx, this`roundIdx
    {
      window ==> OpenClue().Some? && !OpenClue().value.used
    }

    /** `current_round`: the categories of the round on show. */
    function Round(): Categories
      reads this`board, this`dateIdx, this`roundIdx
    {
      if dateIdx < |board| && 0 <= roundIdx < |board[dateIdx].1| then board[dateIdx].1[roundIdx].1 else []
    }

    /** The clue `current_question` refers to. */
    function OpenClue(): Option<Clue>
      reads this`current, this`board, this`dateIdx, this`roundIdx
    {
      if current.Some? && roundIdx >= 0 then ClueIn(board, dateIdx, roundIdx, current.value.0, current.value.1) else None
    }

    /**
     * `get_current_round()`: the date and round number on show and the
     * round's categories, of which there is at least one, each with a clue,
     * so the board can be drawn.
     */
    function CurrentRound(): (r: (string, int, Categories))
      reads this
      requires Valid()
      ensures r.0 == dateList[dateIdx] && r.0 in Keys(board) && r.2 == Round()
      ensures r.2 != [] && forall i | 0 <= i < |r.2| :: r.2[i].1 != []
    {
      (dateList[dateIdx], board[dateIdx].1[roundIdx].0, board[dateIdx].1[roundIdx].1)
    }

    /**
     * The board of the loaded clues, showing the first round of the first
     * date, score 0, no question open.
     */
    constructor (qs: seq<Clue>)
      requires qs != []
      ensures Valid()
      ensures board == Board(qs) && dateIdx == 0 && roundIdx == 0 && score == 0
      ensures !window && !showingAnswer && current.None?
    {
      var b := BuildBoard(qs);
      BoardNonEmpty(qs);
      BoardShaped(qs, 0);
      board := b;
      dateList := Keys(b);
      dateIdx := 0;
      roundIdx := 0;
      score := 0;
      window := false;
      showingAnswer := false;
      current := None;
    }

    /**
     * A mouse click. On the board: Next Round moves one round on, staying
     * at the last round of the date, and Prev Round one back, staying at
     * the first; a click on an unused cell opens its clue with the answer
     * hidden, and a used cell does nothing. In the window: Show Answer
     * reveals the answer; once it is shown, Correct adds the clue's points
     * to the score and Wrong leaves it, and both mark the clue used and
     * close the window. The date never changes.
     */
    method Click(t: Target)
      requires Valid()
      requires !window && t.Cell? ==> t.col < |Round()| && t.row < |Round()[t.col].1|
      modifies this
      ensures Valid()
      ensures dateList == old(dateList) && dateIdx == old(dateIdx)
      ensures !old(window) ==>
        && board == old(board) && score == old(score)
        && (var n := |board[dateIdx].1|;
            roundIdx == (
              if t == NextButton then (if old(roundIdx) + 1 < n then old(roundIdx) + 1 else n - 1)
              else if t == PrevButton then (if old(roundIdx) > 0 then old(roundIdx) - 1 else 0)
              else old(roundIdx)))
        && var opens := t.Cell? && !old(Round())[t.col].1[t.row].used;
          && window == opens
          && if opens then !showingAnswer && current == Some((t.col, t.row))
             else showingAnswer == old(showingAnswer) && current == old(current)
      ensures old(window) ==>
        var q := old(OpenClue()).value;
        var judged := old(showingAnswer) && (t == CorrectButton || t == WrongButton);
        && roundIdx == old(roundIdx) && current == old(current)
        && showingAnswer == (old(showingAnswer) || t == ShowAnswerButton)
        && window == !judged
        && score == old(score) + (if judged && t == CorrectButton then q.points else 0)
        && board == if judged then MarkUsed(old(board), dateIdx, roundIdx, current.value.0, current.value.1) else old(board)
    {
      if !window {
        ClickBoard(t);
      } else {
        ClickWindow(t);
      }
    }

    /** A click while the board is on show: round navigation or opening an unused cell. */
    method ClickBoard(t: Target)
      requires Valid() && !window
      requires t.Cell? ==> t.col < |Round()| && t.row < |Round()[t.col].1|
      modifies this`roundIdx, this`current, this`window, this`showingAnswer
      ensures Valid()
      ensures var n := |board[dateIdx].1|;
        roundIdx == (
          if t == NextButton then (if old(roundIdx) + 1 < n then old(roundIdx) + 1 else n - 1)
          else if t == PrevButton then (if old(roundIdx) > 0 then old(roundIdx) - 1 else 0)
          else old(roundIdx))
      ensures var opens := t.Cell? && !old(Round())[t.col].1[t.row].used;
        && window == opens
        && if opens then !showingAnswer && current == Some((t.col, t.row))
           else showingAnswer == old(showingAnswer) && current == old(current)
    {
      if t == NextButton {
        roundIdx := roundIdx + 1;
        var roundCount := |board[dateIdx].1|;
        if roundIdx >= roundCount {
          roundIdx := roundCount - 1;
        }
      } else if t == PrevButton {
        roundIdx := roundIdx - 1;
        if roundIdx < 0 {
          roundIdx := 0;
        }
      } else if t.Cell? {
        var q := Round()[t.col].1[t.row];
        if !q.used {
          current := Some((t.col, t.row));
          window := true;
          showingAnswer := false;
        }
      }
    }

    /** A click while the question window is open: reveal, or judge once revealed. */
    method ClickWindow(t: Target)
      requires Valid() && window
      modifies this`board, this`score, this`window, this`showingAnswer
      ensures Valid()
      ensures var q := old(OpenClue()).value;
        var judged := old(showingAnswer) && (t == CorrectButton || t == WrongButton);
        && showingAnswer == (old(showingAnswer) || t == ShowAnswerButton)
        && window == !judged
        && score == old(score) + (if judged && t == CorrectButton then q.points else 0)
        && board == if judged then MarkUsed(old(board), dateIdx, roundIdx, current.value.0, current.value.1) else old(board)
    {
      if !showingAnswer && t == ShowAnswerButton {
        showingAnswer := true;
      } else if showingAnswer && (t == CorrectButton || t == WrongButton) {
        var q := OpenClue().value;
        if t == CorrectButton {
          score := score + q.points;
        }
        MarkUsedShape(board, dateIdx, roundIdx, current.value.0, current.value.1, dateIdx);
        board := MarkUsed(board, dateIdx, roundIdx, current.value.0, current.value.1);
        window := false;
      }
    }
  }
}

/**
 * The two-team game of `jeopardy_question_2players.py`: clues loaded from
 * tab-separated rows into one bucket per (air date, round), the rounds
 * visited in sorted order, a board whose cell in row `r` under a category
 * offers the first unused clue of that category worth 100 × (r + 1), and a
 * question window whose judgment scores the team whose turn it is and then
 * passes the turn.
 */
module JeopardyTwoTeams {
  import opened Base
  import opened Collections
  import opened Text
  import opened Rows
  import JQ = JeopardyQuestion

  /** A clue has the same fields as in the one-player game. */
  type Clue = JQ.Clue

  type LoadError = JQ.LoadError

  // ---------------------------------------------------------------------------
  // Loading

  /** The rows that become clues: these four columns are non-blank. */
  predicate Kept(row: Row) {
    JQ.Filled(row, "air_date") && JQ.Filled(row, "round") && JQ.Filled(row, "category") && JQ.Filled(row, "answer")
  }

  /** A clue's points: an empty `clue_value` counts 0, any other text must be an integer. */
  function ClueValue(text: string): Option<int> {
    if text == "" then Some(0) else ParseInt(text)
  }

  /**
   * One row, in the order the loader reads it: the four-column test
   * (stopping at the first blank column), then the fields of the new clue
   * in the order the clue's dict literal lists them.
   */
  function ParseRow(row: Row): Result<Option<Clue>, LoadError> {
    if "air_date" !in row then Err(JQ.MissingColumn("air_date"))
    else if Strip(row["air_date"]) == "" then Ok(None)
    else if "round" !in row then Err(JQ.MissingColumn("round"))
    else if Strip(row["round"]) == "" then Ok(None)
    else if "category" !in row then Err(JQ.MissingColumn("category"))
    else if Strip(row["category"]) == "" then Ok(None)
    else if "answer" !in row then Err(JQ.MissingColumn("answer"))
    else if Strip(row["answer"]) == "" then Ok(None)
    else if ParseInt(row["round"]).None? then Err(JQ.NotAnInteger("round"))
    else if "question" !in row then Err(JQ.MissingColumn("question"))
    else if "clue_value" !in row then Err(JQ.MissingColumn("clue_value"))
    else if ClueValue(row["clue_value"]).None? then Err(JQ.NotAnInteger("clue_value"))
    else
      Ok(Some(JQ.Clue(Strip(row["air_date"]), ParseInt(row["round"]).value, Strip(row["category"]),
        Strip(row["question"]), Strip(row["answer"]), ClueValue(row["clue_value"]).value, false)))
  }

  /**
   * A row becomes a clue exactly when it is kept and its remaining fields
   * read; the clue has the question and answer columns swapped, is worth 0
   * when `clue_value` is empty, and starts unused. A kept row is never
   * skipped, a row with the four columns present and one of them blank
   * always is, and every error names a column that is missing or holds
   * text that is not an integer.
   */
  lemma ParseRowSpec(row: Row)
    ensures ParseRow(row).Ok? && ParseRow(row).value.Some? <==>
      Kept(row) && ParseInt(row["round"]).Some? && "question" in row && "clue_value" in row &&
      (row["clue_value"] == "" || ParseInt(row["clue_value"]).Some?)
    ensures ParseRow(row).Ok? && ParseRow(row).value.Some? ==>
      var c := ParseRow(row).value.value;
      && c.airDate == Strip(row["air_date"]) && c.round == ParseInt(row["round"]).value
      && c.category == Strip(row["category"])
      && c.question == Strip(row["answer"]) && c.answer == Strip(row["question"])
      && c.points == (if row["clue_value"] == "" then 0 else ParseInt(row["clue_value"]).value)
      && !c.used
    ensures Kept(row) ==> ParseRow(row) != Ok(None)
    ensures "air_date" in row && "round" in row && "category" in row && "answer" in row && !Kept(row) ==> ParseRow(row) == Ok(None)
    ensures ParseRow(row).Err? && ParseRow(row).error.MissingColumn? ==> ParseRow(row).error.column !in row
    ensures ParseRow(row).Err? && ParseRow(row).error.NotAnInteger? ==>
      var k := ParseRow(row).error.column; k in row && row[k] != "" && ParseInt(row[k]).None?
  {
    forall k | k in row ensures Strip(row[k]) == [] <==> AllSpace(row[k]) {
      StripSpec(row[k]);
    }
  }

  /** A round is identified by its air date and round number. */
  type RoundKey = (string, int)

  /** `rounds_dict`: each round's clues, keys in order of first appearance. */
  type RoundsDict = Dict<RoundKey, seq<Clue>>

  function KeyOf(q: Clue): RoundKey {
    (q.airDate, q.round)
  }

  /** `rounds_dict.setdefault(key, []).append(clue)` over the loaded clues. */
  function Bucketed(clues: seq<Clue>): RoundsDict {
    Fold(clues, [], Nest(KeyOf, [], Append(JQ.Itself)))
  }

  /** What loading leaves: `clues`, `rounds_dict` and `rounds_list`. */
  datatype Loaded = Loaded(clues: seq<Clue>, rounds: RoundsDict, order: seq<RoundKey>)

  function Load(rows: seq<Row>): Result<Loaded, LoadError> {
    match Collect(rows, ParseRow)
    case Err(e) => Err(e)
    case Ok(clues) => Ok(Loaded(clues, Bucketed(clues), Sort(Keys(Bucketed(clues)), PairLt)))
  }

  /**
   * The loading loop: each kept row's clue is appended to `clues` and to
   * its round's bucket as it is read; afterwards the round keys are sorted.
   */
  method LoadData(rows: seq<Row>) returns (r: Result<Loaded, LoadError>)
    ensures r == Load(rows)
  {
    var clues: seq<Clue> := [];
    var roundsDict: RoundsDict := [];
    var i := 0;
    while i < |rows|
      invariant 0 <= i <= |rows|
      invariant Collect(rows[..i], ParseRow) == Ok(clues)
      invariant roundsDict == Bucketed(clues)
    {
      CollectStep(rows, i, ParseRow);
      var parsed := ParseRow(rows[i]);
      if parsed.Err? {
        CollectErrPrefix(rows, i + 1, ParseRow);
        return Err(parsed.error);
      }
      if parsed.value.Some? {
        var clue := parsed.value.value;
        var key := (clue.airDate, clue.round);
        FoldSnoc(clues, clue, [], Nest(KeyOf, [], Append(JQ.Itself)));
        assert KeyOf(clue) == key && JQ.Itself(clue) == clue;
        clues := clues + [clue];
        roundsDict := Put(roundsDict, key, Get(roundsDict, key, []) + [clue]);
      }
      i := i + 1;
    }
    assert rows[..i] == rows;
    r := Ok(Loaded(clues, roundsDict, Sort(Keys(roundsDict), PairLt)));
  }

  /** A round's bucket holds exactly the clues of that air date and round, in file order. */
  lemma BucketContents(clues: seq<Clue>, k: RoundKey)
    ensures Get(Bucketed(clues), k, []) == Select(clues, KeyOf, k)
  {
    var sel := Select(clues, KeyOf, k);
    FoldNestGet(clues, KeyOf, [], Append(JQ.Itself), k);
    FoldAppend(sel, JQ.Itself);
    assert MapSeq(JQ.Itself, sel) == sel;
  }

  /** Every clue is in its own round's bucket as often as it was loaded, and in no other. */
  lemma BucketCount(clues: seq<Clue>, k: RoundKey, c: Clue)
    ensures multiset(Get(Bucketed(clues), k, []))[c] == if KeyOf(c) == k then multiset(clues)[c] else 0
  {
    BucketContents(clues, k);
    SelectCount(clues, KeyOf, k, c);
  }

  /**
   * The rounds are the (air date, round) pairs of the loaded clues, each
   * once, each with a non-empty bucket; `rounds_list` holds the same keys
   * in strictly ascending tuple order.
   */
  lemma LoadedShape(clues: seq<Clue>)
    ensures Distinct(Keys(Bucketed(clues)))
    ensures forall k :: k in Keys(Bucketed(clues)) <==> exists i | 0 <= i < |clues| :: KeyOf(clues[i]) == k
    ensures forall k | k in Keys(Bucketed(clues)) :: Get(Bucketed(clues), k, []) != []
    ensures var order := Sort(Keys(Bucketed(clues)), PairLt);
      && StrictlyAscending(order, PairLt)
      && (forall k :: k in order <==> k in Keys(Bucketed(clues)))
      && (clues != [] ==> order != [])
  {
    var b := Bucketed(clues);
    FoldNestDistinct(clues, KeyOf, [], Append(JQ.Itself));
    forall k ensures k in Keys(b) <==> exists i | 0 <= i < |clues| :: KeyOf(clues[i]) == k {
      FoldNestKeys(clues, KeyOf, [], Append(JQ.Itself), k);
      var sel := Select(clues, KeyOf, k);
      if exists i | 0 <= i < |clues| :: KeyOf(clues[i]) == k {
        var i :| 0 <= i < |clues| && KeyOf(clues[i]) == k;
        SelectContains(clues, KeyOf, i);
      }
      if sel != [] {
        SelectWithin(clues, KeyOf, k, sel[0]);
      }
    }
    forall k | k in Keys(b) ensures Get(b, k, []) != [] {
      FoldNestKeys(clues, KeyOf, [], Append(JQ.Itself), k);
      BucketContents(clues, k);
    }
    PairLtOrder();
    SortDistinct(Keys(b), PairLt);
    forall k ensures k in Sort(Keys(b), PairLt) <==> k in Keys(b) {
      SortSameElements(Keys(b), PairLt, k);
    }
    if clues != [] {
      assert KeyOf(clues[0]) in Keys(b);
    }
  }

  // ---------------------------------------------------------------------------
  // The board of one round

  /** The round's categories: `sorted(list(set(...)))`. */
  function Categories(clues: seq<Clue>): seq<string> {
    Sort(Dedup(MapSeq(JQ.CategoryOf, clues)), StrLt)
  }

  /** The columns are the round's categories, each once, in ascending string order. */
  lemma CategoriesOrdered(clues: seq<Clue>)
    ensures StrictlyAscending(Categories(clues), StrLt) && Distinct(Categories(clues))
  {
    StrLtOrder();
    SortDistinct(Dedup(MapSeq(JQ.CategoryOf, clues)), StrLt);
  }

  /**
   * A category is a column exactly when some clue of the round has it.
   */
  lemma CategoriesSpec(clues: seq<Clue>)
    ensures forall c :: c in Categories(clues) <==> exists i | 0 <= i < |clues| :: clues[i].category == c
  {
    var names := MapSeq(JQ.CategoryOf, clues);
    var unique := Dedup(names);
    forall c ensures c in Categories(clues) <==> exists i | 0 <= i < |clues| :: clues[i].category == c {
      SortSameElements(unique, StrLt, c);
      if exists i | 0 <= i < |clues| :: clues[i].category == c {
        var i :| 0 <= i < |clues| && clues[i].category == c;
        assert names[i] == c;
      }
      if c in unique {
        var j :| 0 <= j < |unique| && unique[j] == c;
        var i :| 0 <= i < |names| && names[i] == unique[j];
        assert clues[i].category == c;
      }
    }
  }

  /** A round with a clue has a column, so the row count's division is defined. */
  lemma CategoriesNonEmpty(clues: seq<Clue>)
    requires clues != []
    ensures Categories(clues) != []
  {
    CategoriesSpec(clues);
    var c := clues[0].category;
    assert clues[0].category == c;
    assert c in Categories(clues);
  }

  /**
   * `max(1, len(current_clues) // num_categories)`: the board's row count,
   * the number of whole rows the round's clues would fill, and at least one.
   */
  function RowCount(clueCount: nat, categoryCount: nat): (r: nat)
    requires categoryCount > 0
    ensures r >= 1
    ensures clueCount >= categoryCount ==> r * categoryCount <= clueCount < (r + 1) * categoryCount
    ensures clueCount < categoryCount ==> r == 1
  {
    var q := clueCount / categoryCount;
    if q > 1 then q else 1
  }

  /** The points a row's cells ask for. */
  function RowValue(row: nat): int {
    100 * (row + 1)
  }

  /** A clue the cell of `category` and `points` may offer. */
  predicate Offered(c: Clue, category: string, points: int) {
    c.category == category && !c.used && c.points == points
  }

  /**
   * `next((c for c in current_clues if ...), None)`: the position of the
   * first clue of the category, unused and worth the points, if any.
   */
  function FirstOffered(clues: seq<Clue>, category: string, points: int): (r: Option<nat>)
    ensures r.Some? ==> r.value < |clues| && Offered(clues[r.value], category, points)
    ensures r.Some? ==> forall j | 0 <= j < r.value :: !Offered(clues[j], category, points)
    ensures r.None? ==> forall j | 0 <= j < |clues| :: !Offered(clues[j], category, points)
  {
    if clues == [] then None
    else if Offered(clues[0], category, points) then Some(0)
    else match FirstOffered(clues[1..], category, points)
      case None => None
      case Some(i) => Some(i + 1)
  }

  /**
   * The clue behind the cell in `row` under column `col` of the columns
   * `cats`, as a position in the round.
   */
  function Tile(clues: seq<Clue>, cats: seq<string>, row: nat, col: nat): Option<nat>
    requires col < |cats|
  {
    FirstOffered(clues, cats[col], RowValue(row))
  }

  /**
   * Under distinct columns, two different cells never offer the same clue:
   * their categories or their values differ. So answering a clue takes one
   * button off the board and no other.
   */
  lemma TilesDistinct(clues: seq<Clue>, cats: seq<string>, row: nat, col: nat, row': nat, col': nat)
    requires Distinct(cats) && col < |cats| && col' < |cats|
    requires (row, col) != (row', col') && Tile(clues, cats, row, col).Some?
    ensures Tile(clues, cats, row, col) != Tile(clues, cats, row', col')
  {
    if Tile(clues, cats, row, col) == Tile(clues, cats, row', col') {
      assert false;
    }
  }

  /** A clue button: its cell, and the position of its clue in the round. */
  datatype Button = Button(row: nat, col: nat, clue: nat)

  /** The cell of `a` comes before that of `b`, row by row. */
  predicate Before(a: Button, b: Button) {
    a.row < b.row || (a.row == b.row && a.col < b.col)
  }

  /** The buttons of one row of the board, column by column. */
  method DrawRow(clues: seq<Clue>, cats: seq<string>, row: nat) returns (buttons: seq<Button>)
    ensures forall j | 0 <= j < |buttons| ::
      buttons[j].row == row && buttons[j].col < |cats| && Tile(clues, cats, row, buttons[j].col) == Some(buttons[j].clue)
    ensures forall col: nat | col < |cats| && Tile(clues, cats, row, col).Some? ::
      Button(row, col, Tile(clues, cats, row, col).value) in buttons
    ensures forall j, k | 0 <= j < k < |buttons| :: buttons[j].col < buttons[k].col
  {
    buttons := [];
    for col := 0 to |cats|
      invariant forall j | 0 <= j < |buttons| ::
        buttons[j].row == row && buttons[j].col < col && Tile(clues, cats, row, buttons[j].col) == Some(buttons[j].clue)
      invariant forall c: nat | c < col && Tile(clues, cats, row, c).Some? :: Button(row, c, Tile(clues, cats, row, c).value) in buttons
      invariant forall j, k | 0 <= j < k < |buttons| :: buttons[j].col < buttons[k].col
    {
      var tile := Tile(clues, cats, row, col);
      if tile.Some? {
        buttons := buttons + [Button(row, col, tile.value)];
      }
    }
  }

  /** The buttons of the first `rows` rows under the columns `cats`, row by row. */
  method DrawGrid(clues: seq<Clue>, cats: seq<string>, rows: nat) returns (buttons: seq<Button>)
    ensures forall j | 0 <= j < |buttons| ::
      buttons[j].row < rows && buttons[j].col < |cats| && Tile(clues, cats, buttons[j].row, buttons[j].col) == Some(buttons[j].clue)
    ensures forall row: nat, col: nat | row < rows && col < |cats| && Tile(clues, cats, row, col).Some? ::
      Button(row, col, Tile(clues, cats, row, col).value) in buttons
    ensures forall j, k | 0 <= j < k < |buttons| :: Before(buttons[j], buttons[k])
  {
    buttons := [];
    for row := 0 to rows
      invariant forall j | 0 <= j < |buttons| ::
        buttons[j].row < row && buttons[j].col < |cats| && Tile(clues, cats, buttons[j].row, buttons[j].col) == Some(buttons[j].clue)
      invariant forall r: nat, c: nat | r < row && c < |cats| && Tile(clues, cats, r, c).Some? ::
        Button(r, c, Tile(clues, cats, r, c).value) in buttons
      invariant forall j, k | 0 <= j < k < |buttons| :: Before(buttons[j], buttons[k])
    {
      var rowButtons := DrawRow(clues, cats, row);
      forall r: nat, c: nat | r <= row && c < |cats| && Tile(clues, cats, r, c).Some?
        ensures Button(r, c, Tile(clues, cats, r, c).value) in buttons + rowButtons
      {
        if r < row {
          assert Button(r, c, Tile(clues, cats, r, c).value) in buttons;
        } else {
          assert Button(r, c, Tile(clues, cats, r, c).value) in rowButtons;
        }
      }
      buttons := buttons + rowButtons;
    }
  }

  /**
   * `buttons` of `draw_board`: the round's categories are the columns, it
   * has `RowCount` rows, and a cell gets a button exactly when it offers a
   * clue.
   */
  method DrawButtons(clues: seq<Clue>) returns (buttons: seq<Button>)
    requires clues != []
    ensures var cats := Categories(clues);
      && |cats| > 0
      && (forall j | 0 <= j < |buttons| ::
            buttons[j].row < RowCount(|clues|, |cats|) && buttons[j].col < |cats| &&
            Tile(clues, cats, buttons[j].row, buttons[j].col) == Some(buttons[j].clue))
      && (forall row: nat, col: nat | row < RowCount(|clues|, |cats|) && col < |cats| && Tile(clues, cats, row, col).Some? ::
            Button(row, col, Tile(clues, cats, row, col).value) in buttons)
      && (forall j, k | 0 <= j < k < |buttons| :: Before(buttons[j], buttons[k]))
  {
    var cats := Categories(clues);
    CategoriesNonEmpty(clues);
    buttons := DrawGrid(clues, cats, RowCount(|clues|, |cats|));
  }

  // ---------------------------------------------------------------------------
  // The game

  /** The game state of the main loop and of a running `show_question`. */
  class Game {
    var rounds: RoundsDict
    /** `rounds_list` */
    var roundsList: seq<RoundKey>
    var roundIdx: int
    var teamScores: seq<int>
    var currentTeam: int
    /** The clue `show_question` runs for, as its position in the round's bucket. */
    var open: Option<nat>
    /** `show_answer` of the running `show_question`. */
    var showAnswer: bool

    ghost predicate Valid()
      reads this
    {
      BoardValid() && |teamScores| == 2 && 0 <= currentTeam <= 1 && WindowValid()
    }

    /** Every listed round is stored and has clues, and the one on show is listed. */
    ghost predicate BoardValid()
      reads this`rounds, this`roundsList, this`roundIdx
    {
      && Distinct(Keys(rounds))
      && 0 <= roundIdx < |roundsList|
      && (forall i | 0 <= i < |roundsList| :: roundsList[i] in Keys(rounds) && Get(rounds, roundsList[i], []) != [])
    }

    /** An open question window shows an unused clue of the round on show. */
    ghost predicate WindowValid()
      reads this`open, this`rounds, this`roundsList, this`roundIdx
    {
      open.Some? ==> open.value < |Bucket()| && !Bucket()[open.value].used
    }

    /** `current_clues`: the clues of the round on show. */
    function Bucket(): seq<Clue>
      reads this`rounds, this`roundsList, this`roundIdx
    {
      if 0 <= roundIdx < |roundsList| then Get(rounds, roundsList[roundIdx], []) else []
    }

    /**
     * The loaded rounds, showing the first one, both teams at 0, the first
     * team to play. Loading must succeed and keep a clue: otherwise the
     * program stops with an exception.
     */
    constructor (rows: seq<Row>)
      requires Load(rows).Ok? && Load(rows).value.clues != []
      ensures Valid()
      ensures rounds == Load(rows).value.rounds && roundsList == Load(rows).value.order
      ensures roundIdx == 0 && teamScores == [0, 0] && currentTeam == 0 && open.None?
    {
      var r := LoadData(rows);
      LoadedShape(r.value.clues);
      rounds := r.value.rounds;
      roundsList := r.value.order;
      roundIdx := 0;
      teamScores := [0, 0];
      currentTeam := 0;
      open := None;
      showAnswer := false;
    }

    /** `handle_answer`: a correct answer scores for the team on turn; the turn always passes. */
    method HandleAnswer(correct: bool, points: int)
      requires |teamScores| == 2 && 0 <= currentTeam <= 1
      modifies this
      ensures teamScores == if correct then old(teamScores)[old(currentTeam) := old(teamScores)[old(currentTeam)] + points] else old(teamScores)
      ensures currentTeam == 1 - old(currentTeam)
      ensures rounds == old(rounds) && roundsList == old(roundsList) && roundIdx == old(roundIdx)
      ensures open == old(open) && showAnswer == old(showAnswer)
    {
      if correct {
        teamScores := teamScores[currentTeam := teamScores[currentTeam] + points];
      }
      currentTeam := 1 - currentTeam;
    }

    /**
     * A judgment in the question window once the answer is shown: the
     * clue's points go through `handle_answer`, the clue is marked used in
     * its round's bucket, and the window closes.
     */
    method Judge(correct: bool)
      requires Valid() && open.Some? && showAnswer
      modifies this
      ensures Valid()
      ensures var i := old(open).value; var q := old(Bucket())[i];
        && roundsList == old(roundsList) && roundIdx == old(roundIdx) && open.None? && showAnswer
        && teamScores == (if correct then old(teamScores)[old(currentTeam) := old(teamScores)[old(currentTeam)] + q.points]
                          else old(teamScores))
        && currentTeam == 1 - old(currentTeam)
        && rounds == Put(old(rounds), roundsList[roundIdx], old(Bucket())[i := q.(used := true)])
        && Bucket() == old(Bucket())[i := q.(used := true)]
    {
      var i := open.value;
      var bucket := Bucket();
      var key := roundsList[roundIdx];
      HandleAnswer(correct, bucket[i].points);
      var marked := bucket[i := bucket[i].(used := true)];
      forall k ensures Get(Put(rounds, key, marked), k, []) == if k == key then marked else Get(rounds, k, []) {
        GetPut(rounds, key, marked, k, []);
      }
      rounds := Put(rounds, key, marked);
      open := None;
    }

    /**
     * A mouse click. On the board: Prev Round moves one round back, staying
     * at the first, and Next Round one on, staying at the last; a click on
     * a cell that offers a clue opens it with the answer hidden. In the
     * window: Show Answer reveals the answer; once it is shown, Correct and
     * Wrong are judged, and before that they do nothing.
     */
    method Click(t: JQ.Target)
      requires Valid()
      requires open.None? && t.Cell? ==>
        t.col < |Categories(Bucket())| && t.row < RowCount(|Bucket()|, |Categories(Bucket())|)
      modifies this
      ensures Valid()
      ensures roundsList == old(roundsList)
      ensures old(open).None? ==>
        && rounds == old(rounds) && teamScores == old(teamScores) && currentTeam == old(currentTeam)
        && (var n := |roundsList|;
            roundIdx == (
              if t == JQ.PrevButton then (if old(roundIdx) > 0 then old(roundIdx) - 1 else 0)
              else if t == JQ.NextButton then (if old(roundIdx) + 1 < n then old(roundIdx) + 1 else n - 1)
              else old(roundIdx)))
        && open == (if t.Cell? then Tile(old(Bucket()), Categories(old(Bucket())), t.row, t.col) else None)
        && showAnswer == (if open.Some? then false else old(showAnswer))
      ensures old(open).Some? ==>
        var i := old(open).value;
        var q := old(Bucket())[i];
        var judged := old(showAnswer) && (t == JQ.CorrectButton || t == JQ.WrongButton);
        && roundIdx == old(roundIdx)
        && showAnswer == (old(showAnswer) || t == JQ.ShowAnswerButton)
        && open == (if judged then None else old(open))
        && teamScores == (if judged && t == JQ.CorrectButton
                          then old(teamScores)[old(currentTeam) := old(teamScores)[old(currentTeam)] + q.points]
                          else old(teamScores))
        && currentTeam == (if judged then 1 - old(currentTeam) else old(currentTeam))
        && Bucket() == (if judged then old(Bucket())[i := q.(used := true)] else old(Bucket()))
        && rounds == (if judged then Put(old(rounds), roundsList[roundIdx], Bucket()) else old(rounds))
    {
      if open.None? {
        ClickBoard(t);
      } else {
        ClickWindow(t);
      }
    }

    /** A click while the board is on show: round navigation or opening a tile. */
    method ClickBoard(t: JQ.Target)
      requires Valid() && open.None?
      requires t.Cell? ==> t.col < |Categories(Bucket())| && t.row < RowCount(|Bucket()|, |Categories(Bucket())|)
      modifies this`roundIdx, this`open, this`showAnswer
      ensures Valid()
      ensures var n := |roundsList|;
        roundIdx == (
          if t == JQ.PrevButton then (if old(roundIdx) > 0 then old(roundIdx) - 1 else 0)
          else if t == JQ.NextButton then (if old(roundIdx) + 1 < n then old(roundIdx) + 1 else n - 1)
          else old(roundIdx))
      ensures open == (if t.Cell? then Tile(old(Bucket()), Categories(old(Bucket())), t.row, t.col) else None)
      ensures showAnswer == (if open.Some? then false else old(showAnswer))
    {
      if t == JQ.PrevButton {
        roundIdx := if roundIdx - 1 > 0 then roundIdx - 1 else 0;
      } else if t == JQ.NextButton {
        roundIdx := if |roundsList| - 1 < roundIdx + 1 then |roundsList| - 1 else roundIdx + 1;
      } else if t.Cell? {
        OpenTile(t.row, t.col);
      }
    }

    /** A click on the cell at (`row`, `col`): opens its clue, if it offers one, with the answer hidden. */
    method OpenTile(row: nat, col: nat)
      requires Valid() && open.None? && col < |Categories(Bucket())|
      modifies this`open, this`showAnswer
      ensures Valid()
      ensures open == Tile(Bucket(), Categories(Bucket()), row, col)
      ensures showAnswer == (if open.Some? then false else old(showAnswer))
    {
      var bucket := Bucket();
      var tile := Tile(bucket, Categories(bucket), row, col);
      if tile.Some? {
        assert tile.value < |bucket| && !bucket[tile.value].used;
        open := tile;
        showAnswer := false;
        assert Bucket() == bucket;
      }
    }

    /** A click while the question window is open: reveal, or judge once revealed. */
    method ClickWindow(t: JQ.Target)
      requires Valid() && open.Some?
      modifies this
      ensures Valid()
      ensures roundsList == old(roundsList)
      ensures var i := old(open).value;
        var q := old(Bucket())[i];
        var judged := old(showAnswer) && (t == JQ.CorrectButton || t == JQ.WrongButton);
        && roundIdx == old(roundIdx)
        && showAnswer == (old(showAnswer) || t == JQ.ShowAnswerButton)
        && open == (if judged then None else old(open))
        && teamScores == (if judged && t == JQ.CorrectButton
                          then old(teamScores)[old(currentTeam) := old(teamScores)[old(currentTeam)] + q.points]
                          else old(teamScores))
        && currentTeam == (if judged then 1 - old(currentTeam) else old(currentTeam))
        && Bucket() == (if judged then old(Bucket())[i := q.(used := true)] else old(Bucket()))
        && rounds == (if judged then Put(old(rounds), roundsList[roundIdx], Bucket()) else old(rounds))
    {
      if !showAnswer && t == JQ.ShowAnswerButton {
        showAnswer := true;
      } else if showAnswer && (t == JQ.CorrectButton || t == JQ.WrongButton) {
        Judge(t == JQ.CorrectButton);
      }
    }
  }
}

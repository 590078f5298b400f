/**
 * The two-team game of `jeopardy_game.py`: clues loaded from tab-separated
 * rows and grouped by (air date, round) and category, a board of tiles, a
 * question screen with a show-answer gate for regular clues and a
 * three-stage flow for 0-point (final) clues, and manual score adjustments.
 */
module JeopardyGame {
  import opened Base
  import opened Collections
  import opened Text
  import opened Rows
  import opened Wrap

  // ---------------------------------------------------------------------------
  // Loading

  /**
   * A clue as the board stores it. The row's `answer` column is what the host
   * reads out (`question`), and its `question` column is the expected
   * response (`answer`).
   */
  datatype Clue = Clue(question: string, answer: string, points: int, used: bool)

  /** `(air_date, round)` */
  type RoundKey = (string, int)

  /** A kept row: the round and category it is filed under, and its clue. */
  datatype Entry = Entry(key: RoundKey, category: string, clue: Clue)

  /** Why loading stops: a row that is kept lacks a column the loader reads. */
  datatype LoadError = MissingColumn(column: string)

  /** Categories of one round, in first-seen order, each with its clues in file order. */
  type Categories = Dict<string, seq<Clue>>

  /** `rounds_dict`: each round's categories, rounds in first-seen order. */
  type Rounds = Dict<RoundKey, Categories>

  /** A row is used only when these four columns are present and non-empty. */
  predicate Kept(row: Row) {
    Truthy(row, "air_date") && Truthy(row, "round") && Truthy(row, "category") && Truthy(row, "answer")
  }

  /** The clue value: `clue_value`, else `cluevalue`, else 0; a value that is not an integer counts 0. */
  function ParsePoints(row: Row): (p: int)
    ensures !Truthy(row, "clue_value") && !Truthy(row, "cluevalue") ==> p == 0
    ensures Truthy(row, "clue_value") && ParseInt(row["clue_value"]).None? ==> p == 0
    ensures Truthy(row, "clue_value") && ParseInt(row["clue_value"]).Some? ==>
      p == ParseInt(row["clue_value"]).value
    ensures !Truthy(row, "clue_value") && Truthy(row, "cluevalue") && ParseInt(row["cluevalue"]).None? ==>
      p == 0
    ensures !Truthy(row, "clue_value") && Truthy(row, "cluevalue") && ParseInt(row["cluevalue"]).Some? ==>
      p == ParseInt(row["cluevalue"]).value
  {
    if Truthy(row, "clue_value") then ParseInt(row["clue_value"]).GetOr(0)
    else if Truthy(row, "cluevalue") then ParseInt(row["cluevalue"]).GetOr(0)
    else 0
  }

  /** The round number; text that is not an integer means round 1. */
  function ParseRound(s: string): (r: int)
    ensures ParseInt(s).None? ==> r == 1
    ensures ParseInt(s).Some? ==> r == ParseInt(s).value
  {
    ParseInt(s).GetOr(1)
  }

  /** A written integer clue value is read back exactly. */
  lemma ParsePointsShow(row: Row, n: int)
    requires "clue_value" in row && row["clue_value"] == ShowInt(n)
    ensures ParsePoints(row) == n
  {
    ParseIntShowInt(n);
  }

  /** `cluevalue` is used when `clue_value` is missing or empty. */
  lemma ParsePointsFallback(row: Row, n: int)
    requires !Truthy(row, "clue_value") && "cluevalue" in row && row["cluevalue"] == ShowInt(n)
    ensures ParsePoints(row) == n
  {
    ParseIntShowInt(n);
  }

  lemma ParseRoundShow(n: int)
    ensures ParseRound(ShowInt(n)) == n
  {
    ParseIntShowInt(n);
  }

  /**
   * One row: skipped (None) unless it is kept; a kept row without a
   * `question` column stops loading.
   */
  function ParseRow(row: Row): (r: Result<Option<Entry>, LoadError>)
    ensures r.Ok? && r.value.None? <==> !Kept(row)
    ensures r.Err? <==> Kept(row) && "question" !in row
    ensures r.Ok? && r.value.Some? ==>
      var e := r.value.value;
      && e.clue == Clue(Strip(row["answer"]), Strip(row["question"]), ParsePoints(row), false)
      && e.key == (Strip(row["air_date"]), ParseRound(row["round"]))
      && e.category == Strip(row["category"])
  {
    if !Kept(row) then Ok(None)
    else if "question" !in row then Err(MissingColumn("question"))
    else
      var clue := Clue(Strip(row["answer"]), Strip(row["question"]), ParsePoints(row), false);
      Ok(Some(Entry((Strip(row["air_date"]), ParseRound(row["round"])), Strip(row["category"]), clue)))
  }

  /**
   * Loading fails exactly when some row fails; otherwise the entries are
   * those of the kept rows, one per kept row, in file order.
   */
  lemma KeptRowsSpec(rows: seq<Row>)
    ensures Collect(rows, ParseRow).Err? <==> exists i | 0 <= i < |rows| :: ParseRow(rows[i]).Err?
    ensures Collect(rows, ParseRow).Ok? ==>
      var es, kept := Collect(rows, ParseRow).value, Select(rows, Kept, true);
      |es| == |kept| && forall j | 0 <= j < |es| :: ParseRow(kept[j]) == Ok(Some(es[j]))
  {
    CollectSpec(rows, ParseRow);
    if Collect(rows, ParseRow).Ok? {
      forall i | 0 <= i < |rows| ensures Yields(ParseRow)(rows[i]) == Kept(rows[i]) {
        assert ParseRow(rows[i]).Ok?;
      }
      SelectSame(rows, Yields(ParseRow), Kept, true);
    }
  }

  function EntryKey(e: Entry): RoundKey {
    e.key
  }

  function EntryCategory(e: Entry): string {
    e.category
  }

  function EntryClue(e: Entry): Clue {
    e.clue
  }

  /** Filing one entry within its round: the category's list gets the clue appended. */
  function FileInRound(): (Categories, Entry) -> Categories {
    Nest(EntryCategory, [], Append(EntryClue))
  }

  /** `rounds_dict` after filing every entry in turn. */
  function Group(es: seq<Entry>): Rounds {
    Fold(es, [], Nest(EntryKey, [], FileInRound()))
  }

  /** `sorted(rounds_dict.keys())` */
  function SortedKeys(ks: seq<RoundKey>): seq<RoundKey> {
    Sort(ks, PairLt)
  }

  /** What `load_data` leaves behind: the grouped clues and the sorted round keys. */
  datatype Loaded = Loaded(rounds: Rounds, roundsList: seq<RoundKey>)

  function Load(rows: seq<Row>): Result<Loaded, LoadError> {
    match Collect(rows, ParseRow)
    case Err(e) => Err(e)
    case Ok(es) => Ok(Loaded(Group(es), SortedKeys(Keys(Group(es)))))
  }

  /** `load_data`: one pass over the rows, filing each kept row's clue as it is read. */
  method LoadData(rows: seq<Row>) returns (r: Result<Loaded, LoadError>)
    ensures r == Load(rows)
  {
    var rounds: Rounds := [];
    ghost var es: seq<Entry> := [];
    var i := 0;
    while i < |rows|
      invariant 0 <= i <= |rows|
      invariant Collect(rows[..i], ParseRow) == Ok(es)
      invariant rounds == Group(es)
    {
      var row := rows[i];
      CollectStep(rows, i, ParseRow);
      if Kept(row) {
        var points := ParsePoints(row);
        if "question" !in row {
          CollectErrPrefix(rows, i + 1, ParseRow);
          return Err(MissingColumn("question"));
        }
        var clue := Clue(Strip(row["answer"]), Strip(row["question"]), points, false);
        var key := (Strip(row["air_date"]), ParseRound(row["round"]));
        var category := Strip(row["category"]);
        var cats := Get(rounds, key, []);
        cats := Put(cats, category, Get(cats, category, []) + [clue]);
        rounds := Put(rounds, key, cats);
        GroupSnoc(es, Entry(key, category, clue));
        es := es + [Entry(key, category, clue)];
      }
      i := i + 1;
    }
    assert rows[..i] == rows;
    r := Ok(Loaded(rounds, SortedKeys(Keys(rounds))));
  }

  /** Filing one more entry: its clue is appended to its category's list within its round. */
  lemma GroupSnoc(es: seq<Entry>, e: Entry)
    ensures var cats := Get(Group(es), e.key, []);
      Group(es + [e]) == Put(Group(es), e.key, Put(cats, e.category, Get(cats, e.category, []) + [e.clue]))
  {
    FoldSnoc(es, e, [], Nest(EntryKey, [], FileInRound()));
    var cats := Get(Group(es), e.key, []);
    assert EntryClue(e) == e.clue;
    assert Append(EntryClue)(Get(cats, e.category, []), e) == Get(cats, e.category, []) + [EntryClue(e)];
    assert FileInRound()(cats, e) == Put(cats, EntryCategory(e), Get(cats, e.category, []) + [e.clue]);
  }

  /**
   * The clues filed under round `key` and category `cat` are exactly the
   * clues of the entries carrying that round and category, in file order.
   */
  lemma GroupBucket(es: seq<Entry>, key: RoundKey, cat: string)
    ensures Get(Get(Group(es), key, []), cat, []) == MapSeq(EntryClue, Select(Select(es, EntryKey, key), EntryCategory, cat))
  {
    FoldNestGet(es, EntryKey, [], FileInRound(), key);
    var inRound := Select(es, EntryKey, key);
    FoldNestGet(inRound, EntryCategory, [], Append(EntryClue), cat);
    FoldAppend(Select(inRound, EntryCategory, cat), EntryClue);
  }

  /**
   * A round is present exactly when some entry carries it, and a category
   * within it exactly when some entry carries both; no round has an empty
   * category dict and no key occurs twice.
   */
  lemma GroupKeys(es: seq<Entry>, key: RoundKey, cat: string)
    ensures key in Keys(Group(es)) <==> Select(es, EntryKey, key) != []
    ensures cat in Keys(Get(Group(es), key, [])) <==> Select(Select(es, EntryKey, key), EntryCategory, cat) != []
    ensures key in Keys(Group(es)) ==> Get(Group(es), key, []) != []
    ensures Distinct(Keys(Group(es))) && Distinct(Keys(Get(Group(es), key, [])))
  {
    FoldNestKeys(es, EntryKey, [], FileInRound(), key);
    FoldNestGet(es, EntryKey, [], FileInRound(), key);
    FoldNestDistinct(es, EntryKey, [], FileInRound());
    var inRound := Select(es, EntryKey, key);
    FoldNestKeys(inRound, EntryCategory, [], Append(EntryClue), cat);
    FoldNestDistinct(inRound, EntryCategory, [], Append(EntryClue));
    if inRound != [] {
      FoldNestKeys(inRound, EntryCategory, [], Append(EntryClue), inRound[0].category);
      SelectContains(inRound, EntryCategory, 0);
    }
  }

  /** The board's shape: the listed rounds are exactly the stored ones, and each has a category. */
  ghost predicate WellFormed(rounds: Rounds, roundsList: seq<RoundKey>) {
    && (forall k :: k in roundsList <==> k in Keys(rounds))
    && (forall i | 0 <= i < |roundsList| :: Get(rounds, roundsList[i], []) != [])
  }

  /**
   * After a successful load every clue is unused, it sits in the list of its
   * own round and category, `rounds_list` is strictly ascending and holds
   * every round once, and every round has at least one category.
   */
  lemma LoadProperties(rows: seq<Row>)
    requires Load(rows).Ok?
    ensures var b := Load(rows).value; var es := Collect(rows, ParseRow).value;
      && WellFormed(b.rounds, b.roundsList)
      && StrictlyAscending(b.roundsList, PairLt)
      && (forall key, cat :: Get(Get(b.rounds, key, []), cat, []) == MapSeq(EntryClue, Select(Select(es, EntryKey, key), EntryCategory, cat)))
      && (forall j | 0 <= j < |es| :: !es[j].clue.used)
  {
    var es := Collect(rows, ParseRow).value;
    var b := Load(rows).value;
    KeptRowsSpec(rows);
    forall j | 0 <= j < |es| ensures !es[j].clue.used {
      assert ParseRow(Select(rows, Kept, true)[j]) == Ok(Some(es[j]));
    }
    forall key, cat
      ensures Get(Get(b.rounds, key, []), cat, []) == MapSeq(EntryClue, Select(Select(es, EntryKey, key), EntryCategory, cat))
    {
      GroupBucket(es, key, cat);
    }
    forall i | 0 <= i < |b.roundsList| ensures Get(b.rounds, b.roundsList[i], []) != [] {
      assert b.roundsList[i] in multiset(Keys(b.rounds));
      GroupKeys(es, b.roundsList[i], "");
    }
    forall k ensures k in b.roundsList <==> k in Keys(b.rounds) {
      assert k in b.roundsList <==> k in multiset(b.roundsList);
    }
    GroupKeys(es, ("", 0), "");
    PairLtOrder();
    SortDistinct(Keys(b.rounds), PairLt);
  }

  // ---------------------------------------------------------------------------
  // The board and its clues

  /** The clue on the tile in column `col` (category) and row `row` of round `key`. */
  function ClueAt(rounds: Rounds, key: RoundKey, col: nat, row: nat): Option<Clue> {
    var cats := Get(rounds, key, []);
    if col < |cats| && row < |cats[col].1| then Some(cats[col].1[row]) else None
  }

  /** `clue['used'] = True` for the clue on that tile. */
  function MarkUsed(rounds: Rounds, key: RoundKey, col: nat, row: nat): Rounds {
    var cats := Get(rounds, key, []);
    if col < |cats| && row < |cats[col].1| then
      var clues := cats[col].1;
      Put(rounds, key, cats[col := (cats[col].0, clues[row := clues[row].(used := true)])])
    else rounds
  }

  /**
   * Marking a tile used changes that clue's flag to true and nothing else:
   * no other clue, no round key, no category name.
   */
  lemma MarkUsedEffect(rounds: Rounds, key: RoundKey, col: nat, row: nat, key': RoundKey, col': nat, row': nat)
    ensures Keys(MarkUsed(rounds, key, col, row)) == Keys(rounds)
    ensures Keys(Get(MarkUsed(rounds, key, col, row), key', [])) == Keys(Get(rounds, key', []))
    ensures ClueAt(MarkUsed(rounds, key, col, row), key', col', row') ==
      if (key', col', row') == (key, col, row) && ClueAt(rounds, key, col, row).Some?
      then Some(ClueAt(rounds, key, col, row).value.(used := true))
      else ClueAt(rounds, key', col', row')
  {
    var cats := Get(rounds, key, []);
    if col < |cats| && row < |cats[col].1| {
      var clues := cats[col].1;
      var cats' := cats[col := (cats[col].0, clues[row := clues[row].(used := true)])];
      assert key in Keys(rounds) by {
        assert Find(rounds, key).Some?;
      }
      GetPut(rounds, key, cats', key', []);
      assert Keys(cats') == Keys(cats);
    }
  }

  // ---------------------------------------------------------------------------
  // The session

  /** One change to a team's score, as the scoreboard sees it. */
  datatype Credit = Credit(team: int, amount: int)

  /** The sum of all changes made to `team`'s score. */
  function Total(ledger: seq<Credit>, team: int): int {
    if ledger == [] then 0
    else Total(ledger[..|ledger| - 1], team) + (if ledger[|ledger| - 1].team == team then ledger[|ledger| - 1].amount else 0)
  }

  lemma TotalSnoc(ledger: seq<Credit>, c: Credit, team: int)
    ensures Total(ledger + [c], team) == Total(ledger, team) + (if c.team == team then c.amount else 0)
  {
    assert (ledger + [c])[..|ledger|] == ledger;
  }

  /** Which screen the game shows: the board, or the clue on tile (col, row) of the current round. */
  datatype Screen =
    | OnBoard
    | OnClue(col: nat, row: nat, stage: int, showAnswer: bool)

  /** Keys the board screen reacts to; `Other` is any other key. */
  datatype Key = Plus | KeypadPlus | Equals | Minus | KeypadMinus | LetterT | Other

  /**
   * The buttons of the clue screen: `Advance` is the single button of a
   * final clue (Show Clue, Show Answer/Score, Done); the others belong to a
   * regular clue.
   */
  datatype Button = Advance | ShowAnswer | Correct | Wrong

  /** The module-level game state and the handlers that change it. */
  class Game {
    var scores: seq<int>
    var currentTeam: int
    var roundIndex: int
    var rounds: Rounds
    var roundsList: seq<RoundKey>
    var screen: Screen
    /** Every score change made so far, in order. */
    ghost var ledger: seq<Credit>

    ghost predicate Valid()
      reads this
    {
      ScoresValid() && BoardValid()
    }

    /** The scoreboard agrees with the ledger, and the team to play is 0 or 1. */
    ghost predicate ScoresValid()
      reads this`scores, this`currentTeam, this`ledger
    {
      && |scores| == 2 && 0 <= currentTeam < 2
      && scores[0] == Total(ledger, 0) && scores[1] == Total(ledger, 1)
      && (forall i | 0 <= i < |ledger| :: 0 <= ledger[i].team < 2)
    }

    /** The rounds are well formed, the round index is in range and an open clue fits its screen. */
    ghost predicate BoardValid()
      reads this`rounds, this`roundsList, this`roundIndex, this`screen
    {
      && WellFormed(rounds, roundsList)
      && (if roundsList == [] then roundIndex == 0 else 0 <= roundIndex < |roundsList|)
      && (screen.OnClue? ==> OpenClue().Some? && ScreenFits(screen, OpenClue().value))
    }

    /** The clue whose screen is showing. */
    function OpenClue(): Option<Clue>
      reads this`rounds, this`roundsList, this`roundIndex, this`screen
    {
      if screen.OnClue? && 0 <= roundIndex < |roundsList| then
        ClueAt(rounds, roundsList[roundIndex], screen.col, screen.row)
      else None
    }

    /** The round shown on the board. */
    function CurrentRound(): Option<RoundKey>
      reads this`roundsList, this`roundIndex
    {
      if 0 <= roundIndex < |roundsList| then Some(roundsList[roundIndex]) else None
    }

    constructor (loaded: Loaded)
      requires WellFormed(loaded.rounds, loaded.roundsList)
      ensures Valid()
      ensures scores == [0, 0] && currentTeam == 0 && roundIndex == 0 && screen == OnBoard
      ensures rounds == loaded.rounds && roundsList == loaded.roundsList
    {
      scores := [0, 0];
      currentTeam := 0;
      roundIndex := 0;
      rounds := loaded.rounds;
      roundsList := loaded.roundsList;
      screen := OnBoard;
      ledger := [];
    }

    /** Adds `amount` to the current team's score. */
    method Award(amount: int)
      requires ScoresValid()
      modifies this`scores, this`ledger
      ensures ScoresValid()
      ensures scores == old(scores)[currentTeam := old(scores)[currentTeam] + amount]
      ensures ledger == old(ledger) + [Credit(currentTeam, amount)]
    {
      var c := Credit(currentTeam, amount);
      TotalSnoc(ledger, c, 0);
      TotalSnoc(ledger, c, 1);
      scores, ledger := scores[currentTeam := scores[currentTeam] + amount], ledger + [c];
    }

    /**
     * `handle_answer`: a correct answer adds the clue's points to the team
     * whose turn it is, a wrong one subtracts them; the other team's score
     * is untouched and the turn passes to the other team.
     */
    method HandleAnswer(correct: bool, points: int)
      requires ScoresValid()
      modifies this`scores, this`ledger, this`currentTeam
      ensures ScoresValid()
      ensures var t := old(currentTeam);
        && scores[t] == old(scores)[t] + (if correct then points else -points)
        && scores[1 - t] == old(scores)[1 - t]
        && currentTeam == 1 - t
      ensures ledger == old(ledger) + [Credit(old(currentTeam), if correct then points else -points)]
    {
      Award(if correct then points else -points);
      currentTeam := 1 - currentTeam;
    }

    /**
     * A key pressed on the board: `+`, keypad `+` or `=` add 1000 to the
     * current team, `-` or keypad `-` take 1000 away, `T` passes the turn.
     * Keys pressed while a clue is open are consumed by the clue screen and
     * change nothing, although the Final Jeopardy answer screen asks the
     * host to adjust scores with these keys (jeopardy_game.py:278-281): its
     * event loop (lines 325-356) handles only quitting and clicks.
     */
    method KeyDown(k: Key)
      requires Valid()
      modifies this
      ensures Valid()
      ensures var t := old(currentTeam);
        if old(screen).OnClue? || k == Other then scores == old(scores) && currentTeam == t && ledger == old(ledger)
        else if k == LetterT then scores == old(scores) && currentTeam == 1 - t && ledger == old(ledger)
        else
          var amount := if k in {Plus, KeypadPlus, Equals} then 1000 else -1000;
          && scores[t] == old(scores)[t] + amount && scores[1 - t] == old(scores)[1 - t]
          && currentTeam == t && ledger == old(ledger) + [Credit(t, amount)]
      ensures roundIndex == old(roundIndex) && screen == old(screen)
      ensures rounds == old(rounds) && roundsList == old(roundsList)
    {
      if screen.OnBoard? {
        if k == Plus || k == KeypadPlus || k == Equals {
          Award(1000);
        } else if k == Minus || k == KeypadMinus {
          Award(-1000);
        } else if k == LetterT {
          currentTeam := 1 - currentTeam;
        }
      }
    }

    /**
     * A click on team `i`'s score box: adds 1000 when it is the current
     * team's box; the boxes are only drawn when some round is loaded.
     */
    method ClickScore(i: int)
      requires Valid()
      modifies this
      ensures Valid()
      ensures if old(screen).OnBoard? && roundsList != [] && i == old(currentTeam)
        then scores[i] == old(scores)[i] + 1000 && scores[1 - i] == old(scores)[1 - i] && ledger == old(ledger) + [Credit(i, 1000)]
        else scores == old(scores) && ledger == old(ledger)
      ensures currentTeam == old(currentTeam) && roundIndex == old(roundIndex) && screen == old(screen)
      ensures rounds == old(rounds) && roundsList == old(roundsList)
    {
      if screen.OnBoard? && roundsList != [] && i == currentTeam {
        Award(1000);
      }
    }

    /** "Prev Round": one round back, staying at the first. */
    method PrevRound()
      requires Valid()
      modifies this
      ensures Valid()
      ensures roundIndex == if old(screen).OnBoard? && roundsList != [] && old(roundIndex) > 0 then old(roundIndex) - 1 else old(roundIndex)
      ensures scores == old(scores) && currentTeam == old(currentTeam) && ledger == old(ledger) && screen == old(screen)
      ensures rounds == old(rounds) && roundsList == old(roundsList)
    {
      if screen.OnBoard? && roundsList != [] {
        roundIndex := if roundIndex - 1 < 0 then 0 else roundIndex - 1;
      }
    }

    /** "Next Round": one round on, staying at the last. */
    method NextRound()
      requires Valid()
      modifies this
      ensures Valid()
      ensures roundIndex == if old(screen).OnBoard? && old(roundIndex) < |roundsList| - 1 then old(roundIndex) + 1 else old(roundIndex)
      ensures scores == old(scores) && currentTeam == old(currentTeam) && ledger == old(ledger) && screen == old(screen)
      ensures rounds == old(rounds) && roundsList == old(roundsList)
    {
      if screen.OnBoard? && roundsList != [] {
        roundIndex := if |roundsList| - 1 < roundIndex + 1 then |roundsList| - 1 else roundIndex + 1;
      }
    }

    /**
     * A click on tile (col, row) of the current round: an unused clue opens,
     * a final (0-point) clue at stage 1 and a regular one with its answer
     * hidden; a used tile or an empty cell does nothing.
     */
    method ClickTile(col: nat, row: nat)
      requires Valid()
      modifies this
      ensures Valid()
      ensures var c := if old(screen).OnBoard? && roundsList != [] then ClueAt(rounds, roundsList[roundIndex], col, row) else None;
        if c.Some? && !c.value.used
        then screen == OnClue(col, row, if c.value.points == 0 then 1 else 2, false)
        else screen == old(screen)
      ensures scores == old(scores) && currentTeam == old(currentTeam) && ledger == old(ledger) && roundIndex == old(roundIndex)
      ensures rounds == old(rounds) && roundsList == old(roundsList)
    {
      if screen.OnBoard? && roundsList != [] {
        var c := ClueAt(rounds, roundsList[roundIndex], col, row);
        if c.Some? && !c.value.used {
          screen := OnClue(col, row, if c.value.points == 0 then 1 else 2, false);
        }
      }
    }

    /**
     * A press of a clue-screen button. A final clue advances from stage 1 to
     * 2 to 3, and the press at stage 3 marks it used and returns to the
     * board without touching scores or the turn. A regular clue first needs
     * Show Answer; after that Correct or Wrong judges it (as
     * `HandleAnswer`), marks it used and returns to the board. Any other
     * press changes nothing.
     */
    method PressButton(b: Button)
      requires Valid()
      modifies this
      ensures Valid()
      ensures roundIndex == old(roundIndex) && roundsList == old(roundsList)
      ensures old(screen).OnBoard? ==> screen == old(screen) && rounds == old(rounds) && scores == old(scores) && currentTeam == old(currentTeam) && ledger == old(ledger)
      ensures old(screen).OnClue? ==>
        var s, c, key := old(screen), old(OpenClue()).value, roundsList[roundIndex];
        var judged := c.points != 0 && s.showAnswer && (b == Correct || b == Wrong);
        var finished := judged || (c.points == 0 && s.stage == 3 && b == Advance);
        && rounds == (if finished then MarkUsed(old(rounds), key, s.col, s.row) else old(rounds))
        && screen == (
          if finished then OnBoard
          else if c.points == 0 && b == Advance then s.(stage := s.stage + 1)
          else if c.points != 0 && !s.showAnswer && b == ShowAnswer then s.(showAnswer := true)
          else s)
        && (if judged then
              var amount := if b == Correct then c.points else -c.points;
              && scores[old(currentTeam)] == old(scores)[old(currentTeam)] + amount
              && scores[1 - old(currentTeam)] == old(scores)[1 - old(currentTeam)]
              && currentTeam == 1 - old(currentTeam)
              && ledger == old(ledger) + [Credit(old(currentTeam), amount)]
            else scores == old(scores) && currentTeam == old(currentTeam) && ledger == old(ledger))
    {
      if screen.OnClue? {
        if OpenClue().value.points == 0 {
          PressFinal(b);
        } else {
          PressRegular(b);
        }
      }
    }

    /** `PressButton` on a final clue's screen. */
    method PressFinal(b: Button)
      requires Valid() && screen.OnClue? && OpenClue().value.points == 0
      modifies this
      ensures roundIndex == old(roundIndex) && roundsList == old(roundsList)
      ensures Valid()
      ensures scores == old(scores) && currentTeam == old(currentTeam) && ledger == old(ledger)
      ensures var s, key := old(screen), roundsList[roundIndex];
        var finished := s.stage == 3 && b == Advance;
        && rounds == (if finished then MarkUsed(old(rounds), key, s.col, s.row) else old(rounds))
        && screen == (if finished then OnBoard else if b == Advance then s.(stage := s.stage + 1) else s)
    {
      var s := screen;
      if b == Advance {
        if s.stage == 1 {
          screen := s.(stage := 2);
        } else if s.stage == 2 {
          screen := s.(stage := 3);
        } else {
          screen := OnBoard;
          MarkTileUsed(roundsList[roundIndex], s.col, s.row);
        }
      }
    }

    /** `PressButton` on a regular clue's screen. */
    method PressRegular(b: Button)
      requires Valid() && screen.OnClue? && OpenClue().value.points != 0
      modifies this
      ensures roundIndex == old(roundIndex) && roundsList == old(roundsList)
      ensures Valid()
      ensures var s, c, key := old(screen), old(OpenClue()).value, roundsList[roundIndex];
        var judged := s.showAnswer && (b == Correct || b == Wrong);
        && rounds == (if judged then MarkUsed(old(rounds), key, s.col, s.row) else old(rounds))
        && screen == (if judged then OnBoard else if !s.showAnswer && b == ShowAnswer then s.(showAnswer := true) else s)
        && (if judged then
              var amount := if b == Correct then c.points else -c.points;
              && scores[old(currentTeam)] == old(scores)[old(currentTeam)] + amount
              && scores[1 - old(currentTeam)] == old(scores)[1 - old(currentTeam)]
              && currentTeam == 1 - old(currentTeam)
              && ledger == old(ledger) + [Credit(old(currentTeam), amount)]
            else scores == old(scores) && currentTeam == old(currentTeam) && ledger == old(ledger))
    {
      if !screen.showAnswer && b == ShowAnswer {
        var c := OpenClue();
        screen := screen.(showAnswer := true);
        assert OpenClue() == c;
      } else if screen.showAnswer && (b == Correct || b == Wrong) {
        Judge(b == Correct, OpenClue().value.points);
      }
    }

    /**
     * Correct or Wrong on a regular clue whose answer shows: the answer is
     * scored as `handle_answer` does, the clue is marked used and the board
     * comes back.
     */
    method Judge(correct: bool, points: int)
      requires Valid() && screen.OnClue? && screen.showAnswer && OpenClue().value.points == points != 0
      modifies this`screen, this`rounds, this`scores, this`ledger, this`currentTeam
      ensures Valid() && screen == OnBoard
      ensures rounds == MarkUsed(old(rounds), roundsList[roundIndex], old(screen).col, old(screen).row)
      ensures var t, amount := old(currentTeam), if correct then points else -points;
        && scores[t] == old(scores)[t] + amount && scores[1 - t] == old(scores)[1 - t]
        && currentTeam == 1 - t && ledger == old(ledger) + [Credit(t, amount)]
    {
      var s := screen;
      var key := roundsList[roundIndex];
      screen := OnBoard;
      MarkTileUsed(key, s.col, s.row);
      HandleAnswer(correct, points);
    }

    /** Sets the `used` flag of one tile's clue, back on the board. */
    method MarkTileUsed(key: RoundKey, col: nat, row: nat)
      requires BoardValid() && screen.OnBoard?
      modifies this`rounds
      ensures BoardValid()
      ensures rounds == MarkUsed(old(rounds), key, col, row)
    {
      forall k' ensures Keys(Get(MarkUsed(rounds, key, col, row), k', [])) == Keys(Get(rounds, k', [])) {
        MarkUsedEffect(rounds, key, col, row, k', 0, 0);
      }
      MarkUsedEffect(rounds, key, col, row, key, col, row);
      rounds := MarkUsed(rounds, key, col, row);
    }
  }

  /**
   * A clue screen that belongs to `c`: the clue is unused, a final clue is
   * at stage 1, 2 or 3 with no answer gate, and a regular clue at stage 2.
   */
  predicate ScreenFits(s: Screen, c: Clue)
    requires s.OnClue?
  {
    && !c.used
    && (if c.points == 0 then 1 <= s.stage <= 3 && !s.showAnswer else s.stage == 2)
  }

  /** `wrap_text`: the words of `text` laid out greedily on lines no wider than `maxWidth`. */
  method WrapText(text: string, width: string -> int, maxWidth: int) returns (lines: seq<string>)
    ensures lines == Lines(Groups(Split(text), width, maxWidth))
  {
    var words := Split(text);
    lines := [];
    var current := "";
    ghost var cur: seq<string> := [];
    var i := 0;
    while i < |words|
      invariant 0 <= i <= |words|
      invariant current == Join(cur) && (cur == [] <==> current == "")
      invariant forall k | 0 <= k < |cur| :: IsWord(cur[k])
      invariant lines + Lines(GroupsFrom(cur, words[i..], width, maxWidth)) == Lines(Groups(words, width, maxWidth))
    {
      var word := words[i];
      SuffixCons(words, i);
      var test := if current != "" then current + " " + word else word;
      if current == "" {
        GroupsFromStep(cur, word, words[i + 1..], width, maxWidth);
        current := word;
        cur := [word];
      } else {
        LinesStep(lines, cur, word, words[i + 1..], width, maxWidth);
        if width(test) <= maxWidth {
          current := test;
          cur := cur + [word];
        } else {
          lines := lines + [current];
          current := word;
          cur := [word];
        }
      }
      i := i + 1;
    }
    if current != "" {
      lines := lines + [current];
    }
  }
}

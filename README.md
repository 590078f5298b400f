# Jeopardy games, modelled in Dafny

This project models the game logic of four small pygame Jeopardy programs.
The programs are near-copies of one game:

- `jeopardy_game.py`: two teams, clues grouped by (air date, round) and then
  category, a three-stage flow for 0-point "final" clues, and manual ±1000
  score adjustments.
- `jeopardy.py`: multiple-choice questions loaded from a chosen file and
  grouped by category. The answer is picked from an overlay, and a feedback
  message counts down.
- `jeopardy_question.py`: one player, clues grouped by date, round and
  category, sorted at every level. The board has an integer hit-test.
- `jeopardy_question_2players.py`: two teams. Each board cell offers the
  first unused clue of its category worth 100 × (row + 1).

Nothing is drawn. A row of the input file is a map from column name to text,
as `csv.DictReader` yields it. A mouse click arrives as the tile or button it
hit. Each game's module-level state is a class whose methods are the click
and key handlers.

The modules are:

- `Base`: `Option` and `Result`.
- `Text`: the Python string operations the programs use.
  - `str.strip` and `str.split`.
  - `int()` on text, including its sign, surrounding whitespace (all of `isspace` except U+001C to U+001F, which `int()` rejects) and `_` separators.
  - The first run of digits that `re.search(r"\d+")` finds.
  - Ordering of strings, of ints and of (string, int) pairs by `<`.
- `Collections`: Python dicts and sorting.
  - An insertion-ordered dict as an association list, with `Get`/`Put`.
  - Group-by folds, as `setdefault(...).append` and `defaultdict(list)` build them.
  - `sorted` on keys under a strict total order, and the stable `sort(key=...)`.
  - `OrderedDict` rebuilt in a given key order.
- `Rows`: the row loop that skips rows, keeps the rest and stops at the first
  row that raises.
- `Wrap`: greedy word wrapping with an abstract font-width function.
- `Jeopardy`, `JeopardyGame`, `JeopardyQuestion`, `JeopardyTwoTeams`: one
  module per program.

## Model

| member | source | states |
|---|---|---|
| Text.StripSpec | jeopardy_question.py:54 | `strip()` removes exactly the leading and trailing whitespace; the result is empty iff the text is all whitespace |
| Text.StripStrip | jeopardy.py:165-171 | stripping twice is stripping once, so the stripped `correct_raw` parses the same again |
| Text.Split | jeopardy_game.py:190 | `split()` yields only non-empty words without whitespace |
| Text.SplitBlank | jeopardy_game.py:190 | `split()` yields no word exactly when the text is all whitespace |
| Text.SplitJoin | jeopardy_game.py:190 | splitting words joined by single spaces gives back the same words |
| Text.ParseIntShowInt | jeopardy_question.py:57 | `int()` reads back the decimal text of every integer of at most 4300 digits; the model reads back every integer (see Left out) |
| Text.ParseIntLeadingSpace | jeopardy_question.py:57 | `int()` ignores leading whitespace other than U+001C to U+001F, so an unstripped `round` column still reads |
| Text.ParseIntSeparator | jeopardy_question.py:57 | text starting with one of the separators U+001C to U+001F is whitespace to `strip()` but never an integer to `int()` |
| Text.ParseIntBlank | jeopardy_game.py:64-67 | a blank text is never an integer |
| Text.FindDigitRun | jeopardy.py:162 | the first maximal run of digits: none before it, all digits inside it, a non-digit (or the end) after it; none iff the text has no digit |
| Text.FirstDigitRun | jeopardy.py:162-163 | no match exactly when the text holds no digit; otherwise the match is the first maximal run of digits: non-empty, all digits, no digit before it and none right after it |
| Text.StrLtOrder | jeopardy.py:179 | string `<` is a strict total order, so `sorted` on names is well defined |
| Text.PairLtOrder | jeopardy_game.py:88 | tuple `<` on (air date, round) is a strict total order |
| Collections.GetPut | jeopardy_game.py:83-87 | after `d[k] = v`, key `k` holds `v` and every other key is unchanged |
| Collections.GetReorder | jeopardy_question.py:74-82 | an `OrderedDict` rebuilt over the given keys holds each key's transformed value and nothing else |
| Collections.FoldNestGet | jeopardy.py:176-178 | after grouping, each key's list is built from exactly the items with that key, in input order |
| Collections.SortAscending | jeopardy.py:179 | `sorted` yields an ascending permutation of its input |
| Collections.SortDistinct | jeopardy_game.py:88 | sorting distinct keys yields them strictly ascending and distinct |
| Collections.SortByKey | jeopardy.py:180-181 | `sort(key=points)` is sorted by points and a permutation, and it keeps the input order among equal points (stable) |
| Rows.GetOr | jeopardy.py:149-157 | `row.get(k) or default`: the column's text when present and non-empty, otherwise the default |
| Rows.CollectSpec | jeopardy_question.py:51-64 | the row loop fails iff some row raises, and then with the first such row's error; otherwise it holds exactly the clues of the yielding rows, in file order |
| Wrap.WrapProperties | jeopardy_game.py:189-203 | wrapped lines hold all the words in order, no line is empty, every line of two or more words fits the width, every word after a line's first fitted on the words before it, and each line's first word did not fit on the line before |
| Wrap.WrapUnique | jeopardy_game.py:189-203 | these properties determine the wrapping: any grouping of the words that has them is the greedy one |
| Jeopardy.DetectDelimiter | jeopardy.py:68-69 | tab iff the header contains a tab, otherwise comma |
| Jeopardy.ParseCorrectField | jeopardy.py:87-95 | None iff the text is empty; an option index iff the stripped text is one of 1–4, a–d or A–D; otherwise the stripped text |
| Jeopardy.ParseCorrectFieldNames | jeopardy.py:91-94 | "1"–"4", "a"–"d" and "A"–"D" name options 0–3 |
| Jeopardy.CorrectIndex | jeopardy.py:250-251 | the overlay's correct index is set iff the parsed field is an index, and then equals it |
| Jeopardy.SquarePoints | jeopardy.py:158-163 | the integer value of `square_text`; otherwise the value of its first run of digits; with no digit at all, 100 |
| Jeopardy.SquarePointsLabel | jeopardy.py:161-163 | a label made of a prefix without digits, a number, and nothing or text not starting with a digit (such as "Q300" or "Q300x7") is worth that number |
| Jeopardy.SquarePointsInt | jeopardy.py:158-159 | an integer's text is worth that integer |
| Jeopardy.DefaultSquare | jeopardy.py:157 | the default square "100" is worth 100 |
| Jeopardy.ParseTime | jeopardy.py:153-156 | `time` is its integer value when present and integer, otherwise 20 |
| Jeopardy.ParseQuestion | jeopardy.py:164-174 | a loaded question starts unused and has four options |
| Jeopardy.ParseQuestionFields | jeopardy.py:149-172 | subtype falls back to category; `correct` is the parse of the stripped raw field; time and square as above |
| Jeopardy.SquareFieldDefault | jeopardy.py:157-171 | square text and points come from `square_text`, defaulting to "100" |
| Jeopardy.CategoryOf | jeopardy.py:178 | a question is filed under its subtype, or "Misc" when that is empty; never under "" |
| Jeopardy.GroupedSnoc | jeopardy.py:177-178 | filing one more question appends it to its own category's list only |
| Jeopardy.GroupedBucket | jeopardy.py:176-178 | each category's list is exactly its questions in file order; a category exists iff it has a question |
| Jeopardy.MaxRowsSpec | jeopardy.py:182 | `max_rows` bounds every named list's length and equals one of them |
| Jeopardy.WrapText | jeopardy.py:71-85 | the word loop produces `[""]` for no words, otherwise the greedy lines of the words |
| Jeopardy.ReadQuestions | jeopardy.py:141-174 | the loop yields one question per row, in file order |
| Jeopardy.GroupByCategory | jeopardy.py:176-178 | the defaultdict loop yields the grouping fold |
| Jeopardy.SortCategories | jeopardy.py:180-181 | sorting in place keeps the keys and sorts exactly the named lists by points |
| Jeopardy.BuildBoard | jeopardy.py:176-181 | every category's list is its questions stably sorted by points, the names are all categories, and there are none iff the file has no rows |
| Jeopardy.BoardFacts | jeopardy.py:176-181 | the sorted lists form the board; each question is in its own category's list |
| Jeopardy.CategoryNamesSorted | jeopardy.py:179 | the category names are strictly ascending and are exactly the categories of the questions |
| Jeopardy.QuestionOnBoard | jeopardy.py:176-181 | every loaded question appears in its category's list |
| Jeopardy.MarkTileEffect | jeopardy.py:300 | marking a tile sets that question's flag and changes no other question, key or list length |
| Jeopardy.MarkTileKeeps | jeopardy.py:300 | marking keeps every name a category and every question in its own category |
| Jeopardy.MarkUsedAsWrittenCrashes | jeopardy.py:301 | as written, judging a question filed under "Misc" indexes an empty list and stops the program |
| Jeopardy.MarkUsedAsWrittenAgrees | jeopardy.py:300-301 | when the subtype is the category, the code as written marks the same tile as the corrected model |
| Jeopardy.Quiz.constructor | jeopardy.py:98-118 | file list showing, no board, scores 0–0, team A to play |
| Jeopardy.Quiz.LoadQuestions | jeopardy.py:136-182 | resets scores to 0–0 and the turn to team A; installs the board of the rows and the sorted names; loads iff the file has a row; sets `max_rows` |
| Jeopardy.Quiz.Install | jeopardy.py:176-182 | installs a board with its names and `max_rows` |
| Jeopardy.Quiz.OpenOverlay | jeopardy.py:241-251 | a used question changes nothing; otherwise the overlay opens on that tile with the parsed correct index |
| Jeopardy.Quiz.HandleOptionClick | jeopardy.py:279-308 | correct iff the option is the correct index; a correct answer adds the points to the team on turn; the tile is marked used, the turn flips, the overlay closes, and feedback shows for 60 frames |
| Jeopardy.Quiz.Judge | jeopardy.py:284-308 | scores and turn update, and feedback is set, as `handle_option_click` does |
| Jeopardy.Quiz.CloseOverlay | jeopardy.py:300-306 | the overlay's own tile is marked used and the overlay closes; scores are untouched |
| Jeopardy.Quiz.Tick | jeopardy.py:351-355 | while feedback shows on the board, the timer drops by one, and the feedback hides once the timer reaches 0 |
| Jeopardy.Quiz.ClickFile | jeopardy.py:326-334 | on the file list, a click loads the file's board with sorted category names, resets the scores and turn, and leaves the list only when the file has rows (then the tallest column sets the row count); elsewhere it changes nothing |
| Jeopardy.Quiz.ClickOption | jeopardy.py:335-339 | with the overlay open, an option click is judged: a correct answer adds the question's points to the team on turn and a wrong one changes no score; the tile is marked used, the turn flips, the overlay closes and feedback starts; otherwise nothing changes |
| Jeopardy.Quiz.ClickTile | jeopardy.py:340-343 | on the board with no overlay, an unused tile opens the overlay; scores, turn, board and feedback never change |
| JeopardyGame.ParsePoints | jeopardy_game.py:64-67 | points are the integer value of `clue_value` when that is non-empty, else of `cluevalue` when that is non-empty, else 0; a chosen value that is not an integer counts 0 |
| JeopardyGame.ParsePointsShow | jeopardy_game.py:65 | an integer `clue_value` gives its value |
| JeopardyGame.ParsePointsFallback | jeopardy_game.py:65 | an empty `clue_value` falls back to `cluevalue` |
| JeopardyGame.ParseRound | jeopardy_game.py:76-79 | the round is the text's integer value, and 1 when it is not an integer |
| JeopardyGame.ParseRoundShow | jeopardy_game.py:77 | an integer round reads as itself |
| JeopardyGame.ParseRow | jeopardy_game.py:63-87 | a row is skipped iff one of `air_date`, `round`, `category`, `answer` is empty; a kept row's clue swaps question and answer, starts unused, and has the stripped date, the parsed round and the category as its key |
| JeopardyGame.KeptRowsSpec | jeopardy_game.py:61-87 | the loaded entries are exactly those of the kept rows, in file order |
| JeopardyGame.LoadData | jeopardy_game.py:54-91 | the row loop builds the nested dict and the sorted key list of the loading function |
| JeopardyGame.GroupSnoc | jeopardy_game.py:83-87 | one more clue is appended to its own (key, category) list only |
| JeopardyGame.GroupBucket | jeopardy_game.py:82-87 | each (key, category) list is exactly the clues with that key and category, in file order |
| JeopardyGame.GroupKeys | jeopardy_game.py:83-86 | a key or category exists iff it has a clue; keys are distinct and every round has a category |
| JeopardyGame.LoadProperties | jeopardy_game.py:54-88 | the loaded rounds are well formed, `rounds_list` is strictly ascending, every list holds exactly its clues, and every clue starts unused |
| JeopardyGame.MarkUsedEffect | jeopardy_game.py:340-355 | marking a tile sets that clue's flag and no other; keys and categories are unchanged |
| JeopardyGame.Game.constructor | jeopardy_game.py:26-30 | the loaded rounds on show at index 0, scores 0–0, team 0 to play |
| JeopardyGame.Game.Award | jeopardy_game.py:362 | adds the amount to the team on turn and records it |
| JeopardyGame.Game.HandleAnswer | jeopardy_game.py:359-368 | correct adds the points and wrong subtracts them, for the team on turn only; the turn flips |
| JeopardyGame.Game.KeyDown | jeopardy_game.py:382-389 | `+`/`=` add 1000 and `-` subtracts 1000 for the team on turn; `T` flips the turn; no clue, round or screen changes |
| JeopardyGame.Game.ClickScore | jeopardy_game.py:402-405 | the current team's score box adds 1000 to it; the other box does nothing |
| JeopardyGame.Game.PrevRound | jeopardy_game.py:395-396 | the round index drops by one, staying at 0 |
| JeopardyGame.Game.NextRound | jeopardy_game.py:397-398 | the round index rises by one, staying at the last round |
| JeopardyGame.Game.ClickTile | jeopardy_game.py:407-413 | an unused clue opens at stage 1 if it is worth 0, otherwise at stage 2 with the answer hidden; a used one changes nothing |
| JeopardyGame.Game.PressButton | jeopardy_game.py:332-356 | final clue: stages 1→2→3, and only the press at stage 3 marks it used and returns, with scores and turn unchanged; regular clue: Show Answer reveals, and once revealed Correct/Wrong score, flip the turn, mark it used and return |
| JeopardyGame.Game.PressFinal | jeopardy_game.py:333-341 | the final-clue stage flow, which never touches scores or the turn |
| JeopardyGame.Game.PressRegular | jeopardy_game.py:344-356 | the show-answer gate and judgment of a regular clue |
| JeopardyGame.Game.Judge | jeopardy_game.py:348-356 | judgment scores through `handle_answer`, marks the clue used and returns to the board |
| JeopardyGame.Game.MarkTileUsed | jeopardy_game.py:340 | `clue['used'] = True` on the open tile |
| JeopardyGame.WrapText | jeopardy_game.py:189-203 | the word loop yields the greedy lines of the words |
| JeopardyQuestion.ParseRowSpec | jeopardy_question.py:54-63 | a row yields a clue iff its four columns are non-blank and `round` and `clue_value` are integers; the clue swaps question and answer and starts unused; a blank column skips the row; errors name a missing or non-integer column |
| JeopardyQuestion.ReadQuestions | jeopardy_question.py:50-64 | the loop yields the row collection, failing at the first bad row |
| JeopardyQuestion.GroupSnoc | jeopardy_question.py:70-71 | one more clue is appended to its own (date, round, category) list only |
| JeopardyQuestion.GroupQuestions | jeopardy_question.py:69-71 | the nested defaultdict loop yields the grouping fold |
| JeopardyQuestion.GroupBucket | jeopardy_question.py:69-71 | each (date, round, category) list is exactly its clues, in file order |
| JeopardyQuestion.GroupKeys | jeopardy_question.py:69-71 | a date, round or category exists iff it has a clue |
| JeopardyQuestion.GroupUnique | jeopardy_question.py:69-71 | keys are distinct at every level |
| JeopardyQuestion.SortCategories | jeopardy_question.py:78-80 | the categories rebuilt in sorted order, each list sorted by points |
| JeopardyQuestion.SortRounds | jeopardy_question.py:76-81 | the rounds rebuilt in sorted order |
| JeopardyQuestion.SortDates | jeopardy_question.py:74-82 | the dates rebuilt in sorted order |
| JeopardyQuestion.BuildBoard | jeopardy_question.py:69-82 | grouping then sorting yields the board |
| JeopardyQuestion.SortedBucket | jeopardy_question.py:74-82 | sorting keeps each list's clues, ordered by points |
| JeopardyQuestion.BoardBucket | jeopardy_question.py:69-82 | each board list is its clues stably sorted by points |
| JeopardyQuestion.BoardCount | jeopardy_question.py:69-82 | every loaded clue appears in its own list as often as it was loaded, and in no other list |
| JeopardyQuestion.ClueOnBoard | jeopardy_question.py:69-82 | every loaded clue is on the board |
| JeopardyQuestion.BoardOrdered | jeopardy_question.py:75-79 | dates, rounds and categories are each strictly ascending and distinct |
| JeopardyQuestion.InDate | jeopardy_question.py:71 | a date has clues iff some clue has that date |
| JeopardyQuestion.InRound | jeopardy_question.py:71 | a (date, round) has clues iff some clue has both |
| JeopardyQuestion.InCategory | jeopardy_question.py:71 | a (date, round, category) has clues iff some clue has all three |
| JeopardyQuestion.BoardKeys | jeopardy_question.py:69-84 | the board's dates, rounds and categories are exactly those of the clues |
| JeopardyQuestion.BoardCategoryFilled | jeopardy_question.py:80 | no category list is empty |
| JeopardyQuestion.BoardRoundFilled | jeopardy_question.py:81 | no round is empty |
| JeopardyQuestion.BoardDateFilled | jeopardy_question.py:82 | no date is empty |
| JeopardyQuestion.BoardShaped | jeopardy_question.py:69-82 | every date has rounds, every round categories, every category clues |
| JeopardyQuestion.BoardNonEmpty | jeopardy_question.py:84 | a file with a clue gives a non-empty `date_list` |
| JeopardyQuestion.MaxRowsSpec | jeopardy_question.py:119 | `max_rows` bounds every category's length and equals one of them |
| JeopardyQuestion.CellHeightSpec | jeopardy_question.py:121-124 | the cell height is the largest one, up to 100, whose rows fit the cell area |
| JeopardyQuestion.CellUnderMouse | jeopardy_question.py:159-168 | a returned cell contains the point, with inclusive bounds and a row below its category's length; none iff no cell contains it |
| JeopardyQuestion.RowsApart | jeopardy_question.py:165-166 | the spans of two rows do not meet |
| JeopardyQuestion.CellUnique | jeopardy_question.py:159-168 | at most one cell contains a point |
| JeopardyQuestion.MarkUsedEffect | jeopardy_question.py:245-248 | marking sets that clue's flag and no other |
| JeopardyQuestion.MarkUsedShape | jeopardy_question.py:245-248 | marking keeps every key and list length |
| JeopardyQuestion.ShapedMaxRows | jeopardy_question.py:119-124 | every round has a row, so the cell-height division is defined |
| JeopardyQuestion.Session.CurrentRound | jeopardy_question.py:88-93 | the current date, round number and non-empty categories of the board |
| JeopardyQuestion.Session.constructor | jeopardy_question.py:84-104 | the board of the clues, first date and round, score 0, no window |
| JeopardyQuestion.Session.Click | jeopardy_question.py:214-249 | dispatches a click to the board or to the question window |
| JeopardyQuestion.Session.ClickBoard | jeopardy_question.py:216-237 | Next and Prev move the round index, clamped to the current date's rounds; the date never changes; an unused cell opens with the answer hidden, and a used one does nothing |
| JeopardyQuestion.Session.ClickWindow | jeopardy_question.py:238-249 | Show Answer reveals; once revealed, Correct adds the points and Wrong does not, and both mark the clue used and close the window |
| JeopardyTwoTeams.ParseRowSpec | jeopardy_question_2players.py:57-65 | a row yields a clue iff its four columns are non-blank and its numbers read; the clue swaps question and answer, is worth 0 for an empty `clue_value`, and starts unused; errors name a missing or non-integer column |
| JeopardyTwoTeams.LoadData | jeopardy_question_2players.py:50-72 | the row loop yields the clues, their buckets and the sorted round keys |
| JeopardyTwoTeams.BucketContents | jeopardy_question_2players.py:68-69 | each bucket is exactly its round's clues, in file order |
| JeopardyTwoTeams.BucketCount | jeopardy_question_2players.py:67-69 | every clue is in its own bucket as often as it was loaded, and in no other |
| JeopardyTwoTeams.LoadedShape | jeopardy_question_2players.py:68-71 | the rounds are the clues' keys, each once and non-empty; `rounds_list` is strictly ascending with the same keys |
| JeopardyTwoTeams.CategoriesOrdered | jeopardy_question_2players.py:83 | the columns are distinct and ascending |
| JeopardyTwoTeams.CategoriesSpec | jeopardy_question_2players.py:83 | a category is a column iff a clue of the round has it |
| JeopardyTwoTeams.CategoriesNonEmpty | jeopardy_question_2players.py:83-84 | a round with a clue has a column |
| JeopardyTwoTeams.RowCount | jeopardy_question_2players.py:104 | at least one row, and as many as the clues fill whole rows |
| JeopardyTwoTeams.FirstOffered | jeopardy_question_2players.py:110 | the first clue of the category, unused and worth the row's points, or none if there is none |
| JeopardyTwoTeams.TilesDistinct | jeopardy_question_2players.py:105-117 | two cells never offer the same clue |
| JeopardyTwoTeams.DrawRow | jeopardy_question_2players.py:106-117 | one row's buttons, one per offering cell, in column order |
| JeopardyTwoTeams.DrawGrid | jeopardy_question_2players.py:105-117 | the buttons of every row, one per offering cell, row by row |
| JeopardyTwoTeams.DrawButtons | jeopardy_question_2players.py:77-117 | a button exactly for each cell that offers a clue, in a grid of `RowCount` rows |
| JeopardyTwoTeams.Game.constructor | jeopardy_question_2players.py:26-30 | the loaded rounds, first round, scores 0–0, team 0 to play |
| JeopardyTwoTeams.Game.HandleAnswer | jeopardy_question_2players.py:191-196 | correct adds the points to the team on turn, wrong changes no score, and the turn always flips |
| JeopardyTwoTeams.Game.Judge | jeopardy_question_2players.py:167-174 | the judgment scores, flips the turn, marks the clue used in its bucket and closes the window |
| JeopardyTwoTeams.Game.Click | jeopardy_question_2players.py:159-216 | dispatches a click to the board or to the question window |
| JeopardyTwoTeams.Game.ClickBoard | jeopardy_question_2players.py:209-216 | Prev and Next keep the round index in range without wrapping; a cell opens its offered clue with the answer hidden |
| JeopardyTwoTeams.Game.OpenTile | jeopardy_question_2players.py:214-216 | opens the clue a cell offers, if any |
| JeopardyTwoTeams.Game.ClickWindow | jeopardy_question_2players.py:163-174 | Show Answer reveals; Correct and Wrong are judged only after that |

## Left out

- Drawing, fonts, colours, sounds, `display.flip` and the clock are not modelled. Event polling is a method call per event, and quitting is not modelled.
- File opening, `csv.DictReader`, `os.listdir`, `sys.argv` and `sys.exit` are not modelled. A file is the sequence of its rows, and `jeopardy.py`'s header line is a string.
- Float layout and `pygame.Rect` hits are not modelled. Clicks arrive as the tile, cell or button they hit, except for the integer hit-test of `jeopardy_question.py`.
- Font pixel widths are an abstract function.
- Text.ParseInt: CPython's default limit on decimal text (`sys.int_info.default_max_str_digits`, 4300 digits, not counting the sign and `_`) is not modelled; the model reads literals of any length. Beyond the limit `int()` raises ValueError, so the source gives 0 for such a `clue_value` (jeopardy_game.py:64-67) and round 1 for such a round (jeopardy_game.py:76-79), stops loading at jeopardy_question.py:57,62 and jeopardy_question_2players.py:60,64, and stops the program at jeopardy.py:163, where `int(m.group())` is outside the `try`. On each of these the model returns the number.
- `int()` and the `\d` of `re.search` (jeopardy.py:162) match only ASCII digits here; Python accepts every Unicode decimal digit in both. `str.upper` is modelled for ASCII letters only.
- Short rows, whose missing columns `csv.DictReader` fills with `None`, are not modelled. A missing column is an absent key.
- The header whitespace stripping of `jeopardy.py` (`row_lc`, line 148) is not modelled. Column names are taken as given.
- In `jeopardy_game.py`, lines 411-414 search for the clicked clue's category name only to show it. The model addresses the clue by its tile, so it leaves that search out.
- `jeopardy.py` stores option rectangles when drawing, and a click lands on them. The model takes an option index 0–3.
- Jeopardy.Quiz.ClickFile: the `max()` over an empty file (jeopardy.py:182) raises. The model reports such a file as not loaded and stays on the file list.
- In `jeopardy_question.py`, `CELL_HEIGHT_DYNAMIC` is recomputed when the board is drawn. The hit-test takes the height as a parameter.
- `jeopardy_question.py` never sets its `feedback` variable, so it is not modelled. Its inline wrapping in the question window is not modelled either.
- The `wrap_text` of `jeopardy_question_2players.py` is not modelled; it is used for drawing only.
- The flat `clues` list of `jeopardy_question_2players.py` is loaded but only the buckets are used later. Marking a clue updates its bucket.
- JeopardyTwoTeams.Game.constructor requires a file that loads and holds a clue. Otherwise the program stops: on a bad row, or on an empty `rounds_list` (jeopardy_question_2players.py:81).
- JeopardyQuestion.Session.constructor requires a clue. With none, `get_current_round` indexes an empty `date_list`.
- In `jeopardy_question_2players.py` and in `jeopardy_game.py` (lines 394-414), one click is tested against Prev/Next, then (in `jeopardy_game.py`) the score boxes, then the clue buttons drawn before any round change. Where a tile overlaps Prev/Next, as row 8 of a category with 9 or more clues does in `jeopardy_game.py`, that click moves the round and also reaches the tile loop, whose category search at lines 411-414 then runs in the new round. The model treats each click as hitting one target.
- Board cells of `jeopardy_question.py` and `jeopardy_question_2players.py` are required to lie within the board. The hit-test never returns others.

## Findings

| source | as written | input that shows it | evidently intended | confidence | as-written member | corrected member |
|---|---|---|---|---|---|---|
| jeopardy.py:301 | after marking the question, marks row `row` of `categories[q["subtype"]]` again | a file with one question whose `subtype` and `category` are empty: it is filed under "Misc", `categories[""]` is a new empty list, and indexing it raises IndexError when the question is judged | mark only the question on the tile that was opened | not executed | Jeopardy.MarkUsedAsWrittenCrashes | Jeopardy.Quiz.CloseOverlay |

/**
 * Greedy word wrapping, as the `wrap_text` helpers do it: words are added to
 * the current line while the line, measured by the font, stays within the
 * maximum width; a word that does not fit starts a new line. The font's
 * pixel width is an abstract function `width`.
 */
module Wrap {
  import opened Text
  import opened Collections

  /**
   * The groups of words that greedy wrapping produces when `cur` is the line
   * being built and `rest` are the words still to place.
   */
  function GroupsFrom(cur: seq<string>, rest: seq<string>, width: string -> int, maxWidth: int): seq<seq<string>>
    decreases |rest|
  {
    if rest == [] then (if cur == [] then [] else [cur])
    else if cur == [] then GroupsFrom([rest[0]], rest[1..], width, maxWidth)
    else if width(Join(cur) + " " + rest[0]) <= maxWidth then GroupsFrom(cur + [rest[0]], rest[1..], width, maxWidth)
    else [cur] + GroupsFrom([rest[0]], rest[1..], width, maxWidth)
  }

  /** The words of each wrapped line, line by line. */
  function Groups(words: seq<string>, width: string -> int, maxWidth: int): seq<seq<string>> {
    GroupsFrom([], words, width, maxWidth)
  }

  /** The text of each line: its words joined by single spaces. */
  function Lines(groups: seq<seq<string>>): seq<string> {
    MapSeq(Join, groups)
  }

  function Concat(groups: seq<seq<string>>): seq<string> {
    if groups == [] then [] else groups[0] + Concat(groups[1..])
  }

  /** Whether `word` fits after the words of `line`. */
  predicate Fits(line: seq<string>, word: string, width: string -> int, maxWidth: int) {
    width(Join(line) + " " + word) <= maxWidth
  }

  /** Each line after the first starts with a word that did not fit on the line before. */
  predicate Greedy(groups: seq<seq<string>>, width: string -> int, maxWidth: int) {
    forall k | 1 <= k < |groups| :: groups[k] != [] && !Fits(groups[k - 1], groups[k][0], width, maxWidth)
  }

  /** The line grew word by word: every word after the first fitted on the words before it. */
  predicate Built(line: seq<string>, width: string -> int, maxWidth: int) {
    forall j | 0 < j < |line| :: Fits(line[..j], line[j], width, maxWidth)
  }

  /** One step of greedy wrapping: the next word starts, extends or follows the current line. */
  lemma GroupsFromStep(cur: seq<string>, word: string, rest: seq<string>, width: string -> int, maxWidth: int)
    ensures GroupsFrom(cur, [word] + rest, width, maxWidth) ==
      if cur == [] then GroupsFrom([word], rest, width, maxWidth)
      else if Fits(cur, word, width, maxWidth) then GroupsFrom(cur + [word], rest, width, maxWidth)
      else [cur] + GroupsFrom([word], rest, width, maxWidth)
  {
    assert ([word] + rest)[0] == word && ([word] + rest)[1..] == rest;
  }

  lemma LinesCons(g: seq<string>, gs: seq<seq<string>>)
    ensures Lines([g] + gs) == [Join(g)] + Lines(gs)
  {
  }

  /** One word of a wrapping loop, seen from the lines already emitted. */
  lemma LinesStep(lines: seq<string>, cur: seq<string>, word: string, rest: seq<string>, width: string -> int, maxWidth: int)
    requires cur != []
    ensures Join(cur + [word]) == Join(cur) + " " + word
    ensures Fits(cur, word, width, maxWidth) ==>
      lines + Lines(GroupsFrom(cur, [word] + rest, width, maxWidth)) == lines + Lines(GroupsFrom(cur + [word], rest, width, maxWidth))
    ensures !Fits(cur, word, width, maxWidth) ==>
      lines + Lines(GroupsFrom(cur, [word] + rest, width, maxWidth)) == (lines + [Join(cur)]) + Lines(GroupsFrom([word], rest, width, maxWidth))
  {
    GroupsFromStep(cur, word, rest, width, maxWidth);
    assert (cur + [word])[..|cur|] == cur;
    if !Fits(cur, word, width, maxWidth) {
      LinesCons(cur, GroupsFrom([word], rest, width, maxWidth));
    }
  }

  /** No word is lost, duplicated or reordered: the lines hold the words in order. */
  lemma {:induction false} GroupsFromConcat(cur: seq<string>, rest: seq<string>, width: string -> int, maxWidth: int)
    ensures Concat(GroupsFrom(cur, rest, width, maxWidth)) == cur + rest
    decreases |rest|
  {
    if rest == [] {
      assert cur + rest == cur;
    } else {
      assert rest == [rest[0]] + rest[1..];
      if cur == [] {
        GroupsFromConcat([rest[0]], rest[1..], width, maxWidth);
      } else if Fits(cur, rest[0], width, maxWidth) {
        GroupsFromConcat(cur + [rest[0]], rest[1..], width, maxWidth);
      } else {
        var gs := GroupsFrom([rest[0]], rest[1..], width, maxWidth);
        GroupsFromConcat([rest[0]], rest[1..], width, maxWidth);
        assert ([cur] + gs)[1..] == gs;
      }
    }
  }

  /** Every line holds at least one word. */
  lemma {:induction false} GroupsFromNonEmpty(cur: seq<string>, rest: seq<string>, width: string -> int, maxWidth: int)
    ensures forall k | 0 <= k < |GroupsFrom(cur, rest, width, maxWidth)| :: GroupsFrom(cur, rest, width, maxWidth)[k] != []
    decreases |rest|
  {
    if rest != [] {
      if cur == [] {
        GroupsFromNonEmpty([rest[0]], rest[1..], width, maxWidth);
      } else if Fits(cur, rest[0], width, maxWidth) {
        GroupsFromNonEmpty(cur + [rest[0]], rest[1..], width, maxWidth);
      } else {
        GroupsFromNonEmpty([rest[0]], rest[1..], width, maxWidth);
      }
    }
  }

  /** The line being built stays first. */
  lemma {:induction false} GroupsFromFirst(cur: seq<string>, rest: seq<string>, width: string -> int, maxWidth: int)
    requires cur != []
    ensures GroupsFrom(cur, rest, width, maxWidth) != []
    ensures GroupsFrom(cur, rest, width, maxWidth)[0] != []
    ensures GroupsFrom(cur, rest, width, maxWidth)[0][0] == cur[0]
    decreases |rest|
  {
    if rest != [] && Fits(cur, rest[0], width, maxWidth) {
      GroupsFromFirst(cur + [rest[0]], rest[1..], width, maxWidth);
    }
  }

  /** A line of two or more words fits within the maximum width. */
  lemma {:induction false} GroupsFromFit(cur: seq<string>, rest: seq<string>, width: string -> int, maxWidth: int)
    requires |cur| > 1 ==> width(Join(cur)) <= maxWidth
    ensures forall k | 0 <= k < |GroupsFrom(cur, rest, width, maxWidth)| ::
      |GroupsFrom(cur, rest, width, maxWidth)[k]| > 1 ==> width(Join(GroupsFrom(cur, rest, width, maxWidth)[k])) <= maxWidth
    decreases |rest|
  {
    if rest != [] {
      if cur == [] {
        GroupsFromFit([rest[0]], rest[1..], width, maxWidth);
      } else if Fits(cur, rest[0], width, maxWidth) {
        assert (cur + [rest[0]])[..|cur|] == cur;
        GroupsFromFit(cur + [rest[0]], rest[1..], width, maxWidth);
      } else {
        GroupsFromFit([rest[0]], rest[1..], width, maxWidth);
      }
    }
  }

  /** Greedy: the first word of each line would not have fitted on the line before. */
  lemma {:induction false} GroupsFromGreedy(cur: seq<string>, rest: seq<string>, width: string -> int, maxWidth: int)
    ensures Greedy(GroupsFrom(cur, rest, width, maxWidth), width, maxWidth)
    decreases |rest|
  {
    if rest != [] {
      if cur == [] {
        GroupsFromGreedy([rest[0]], rest[1..], width, maxWidth);
      } else if Fits(cur, rest[0], width, maxWidth) {
        GroupsFromGreedy(cur + [rest[0]], rest[1..], width, maxWidth);
      } else {
        var gs := GroupsFrom([rest[0]], rest[1..], width, maxWidth);
        GroupsFromGreedy([rest[0]], rest[1..], width, maxWidth);
        GroupsFromFirst([rest[0]], rest[1..], width, maxWidth);
        assert ([cur] + gs)[1..] == gs;
      }
    }
  }

  /** Every line was built by adding words that fitted. */
  lemma {:induction false} GroupsFromBuilt(cur: seq<string>, rest: seq<string>, width: string -> int, maxWidth: int)
    requires Built(cur, width, maxWidth)
    ensures forall k | 0 <= k < |GroupsFrom(cur, rest, width, maxWidth)| ::
      Built(GroupsFrom(cur, rest, width, maxWidth)[k], width, maxWidth)
    decreases |rest|
  {
    if rest != [] {
      if cur == [] {
        GroupsFromBuilt([rest[0]], rest[1..], width, maxWidth);
      } else if Fits(cur, rest[0], width, maxWidth) {
        var next := cur + [rest[0]];
        forall j | 0 < j < |next|
          ensures Fits(next[..j], next[j], width, maxWidth)
        {
          if j < |cur| {
            assert next[..j] == cur[..j];
          } else {
            assert next[..j] == cur;
          }
        }
        GroupsFromBuilt(next, rest[1..], width, maxWidth);
      } else {
        var gs := GroupsFrom([rest[0]], rest[1..], width, maxWidth);
        GroupsFromBuilt([rest[0]], rest[1..], width, maxWidth);
        assert forall k | 1 <= k < |[cur] + gs| :: ([cur] + gs)[k] == gs[k - 1];
      }
    }
  }

  /** A grouping whose first line is exactly `cur` holds `rest` in its later lines. */
  lemma LineEnds(cur: seq<string>, rest: seq<string>, gs: seq<seq<string>>)
    requires gs != [] && gs[0] == cur && Concat(gs) == cur + rest
    requires forall k | 0 <= k < |gs| :: gs[k] != []
    ensures Concat(gs[1..]) == rest
    ensures rest == [] <==> |gs| == 1
    ensures rest != [] ==> gs[1][0] == rest[0]
  {
    var tail := gs[1..];
    assert Concat(gs) == cur + Concat(tail);
    assert (cur + rest)[|cur|..] == rest;
    assert (cur + Concat(tail))[|cur|..] == Concat(tail);
    if tail != [] {
      assert Concat(tail) == tail[0] + Concat(tail[1..]);
      assert tail[0] == gs[1];
    }
  }

  /** A first line longer than `cur` continues with the next word, which fitted. */
  lemma LineGrows(cur: seq<string>, rest: seq<string>, gs: seq<seq<string>>, width: string -> int, maxWidth: int)
    requires cur != [] && gs != [] && |cur| < |gs[0]| && gs[0][..|cur|] == cur && Concat(gs) == cur + rest
    requires Built(gs[0], width, maxWidth)
    ensures rest != [] && gs[0][..|cur| + 1] == cur + [rest[0]]
    ensures Fits(cur, rest[0], width, maxWidth)
  {
    assert Concat(gs) == gs[0] + Concat(gs[1..]);
    assert (cur + rest)[..|gs[0]|] == gs[0];
    var line, j := gs[0], |cur|;
    assert |rest| > 0;
    assert (cur + rest)[j] == rest[0];
    assert line[j] == (cur + rest)[..|line|][j];
    assert 0 < j < |line|;
    assert Fits(line[..j], line[j], width, maxWidth);
  }

  lemma GreedyTail(gs: seq<seq<string>>, width: string -> int, maxWidth: int)
    requires gs != [] && Greedy(gs, width, maxWidth)
    ensures Greedy(gs[1..], width, maxWidth)
  {
    var tail := gs[1..];
    assert forall k | 1 <= k < |tail| :: tail[k] == gs[k + 1] && tail[k - 1] == gs[k];
  }

  /** The greedy grouping facts `GroupsFromUnique` assumes of `gs` for the line being built `cur`. */
  predicate Regrouping(cur: seq<string>, rest: seq<string>, gs: seq<seq<string>>, width: string -> int, maxWidth: int) {
    && cur != [] && gs != [] && |cur| <= |gs[0]| && gs[0][..|cur|] == cur
    && Concat(gs) == cur + rest
    && (forall k | 0 <= k < |gs| :: gs[k] != [] && Built(gs[k], width, maxWidth))
    && Greedy(gs, width, maxWidth)
  }

  /**
   * Any grouping of `cur + rest` whose first line starts with `cur` and that
   * has the properties of greedy wrapping is the one greedy wrapping builds.
   */
  lemma {:induction false} GroupsFromUnique(cur: seq<string>, rest: seq<string>, gs: seq<seq<string>>, width: string -> int, maxWidth: int)
    requires Regrouping(cur, rest, gs, width, maxWidth)
    ensures GroupsFrom(cur, rest, width, maxWidth) == gs
    decreases |rest|, 1
  {
    if |gs[0]| == |cur| {
      UniqueLineEnds(cur, rest, gs, width, maxWidth);
    } else {
      LineGrows(cur, rest, gs, width, maxWidth);
      var w := rest[0];
      assert rest == [w] + rest[1..];
      GroupsFromStep(cur, w, rest[1..], width, maxWidth);
      GroupsFromUnique(cur + [w], rest[1..], gs, width, maxWidth);
    }
  }

  /** `GroupsFromUnique` where the first line is exactly `cur`. */
  lemma {:induction false} UniqueLineEnds(cur: seq<string>, rest: seq<string>, gs: seq<seq<string>>, width: string -> int, maxWidth: int)
    requires Regrouping(cur, rest, gs, width, maxWidth) && gs[0] == cur
    ensures GroupsFrom(cur, rest, width, maxWidth) == gs
    decreases |rest|, 0
  {
    LineEnds(cur, rest, gs);
    if rest == [] {
      assert gs == [cur];
    } else {
      var w, tail := rest[0], gs[1..];
      assert !Fits(cur, w, width, maxWidth);
      assert rest == [w] + rest[1..];
      GroupsFromStep(cur, w, rest[1..], width, maxWidth);
      GreedyTail(gs, width, maxWidth);
      assert tail[0][..1] == [w];
      assert forall k | 0 <= k < |tail| :: tail[k] == gs[k + 1];
      GroupsFromUnique([w], rest[1..], tail, width, maxWidth);
      assert gs == [cur] + tail;
    }
  }

  /**
   * The properties of `WrapProperties` determine the wrapping: a grouping of
   * `words` into non-empty lines, each grown by words that fitted, where each
   * line's first word did not fit on the line before, is greedy wrapping's.
   */
  lemma WrapUnique(words: seq<string>, gs: seq<seq<string>>, width: string -> int, maxWidth: int)
    requires Concat(gs) == words
    requires forall k | 0 <= k < |gs| :: gs[k] != [] && Built(gs[k], width, maxWidth)
    requires Greedy(gs, width, maxWidth)
    ensures gs == Groups(words, width, maxWidth)
  {
    if gs != [] {
      assert Concat(gs) == gs[0] + Concat(gs[1..]);
      var w := words[0];
      assert gs[0][..1] == [w];
      assert words == [w] + words[1..];
      GroupsFromStep([], w, words[1..], width, maxWidth);
      assert Regrouping([w], words[1..], gs, width, maxWidth);
      GroupsFromUnique([w], words[1..], gs, width, maxWidth);
    }
  }

  /**
   * What greedy wrapping of `words` promises: the lines hold all the words in
   * order, none is empty, a line of several words fits, each line grew by
   * words that fitted, and each line's first word would not have fitted on
   * the previous line.
   */
  lemma WrapProperties(words: seq<string>, width: string -> int, maxWidth: int)
    ensures Concat(Groups(words, width, maxWidth)) == words
    ensures forall k | 0 <= k < |Groups(words, width, maxWidth)| :: Groups(words, width, maxWidth)[k] != []
    ensures forall k | 0 <= k < |Groups(words, width, maxWidth)| ::
      |Groups(words, width, maxWidth)[k]| > 1 ==> width(Join(Groups(words, width, maxWidth)[k])) <= maxWidth
    ensures Greedy(Groups(words, width, maxWidth), width, maxWidth)
    ensures forall k | 0 <= k < |Groups(words, width, maxWidth)| :: Built(Groups(words, width, maxWidth)[k], width, maxWidth)
  {
    GroupsFromBuilt([], words, width, maxWidth);
    GroupsFromConcat([], words, width, maxWidth);
    GroupsFromNonEmpty([], words, width, maxWidth);
    GroupsFromFit([], words, width, maxWidth);
    GroupsFromGreedy([], words, width, maxWidth);
  }
}

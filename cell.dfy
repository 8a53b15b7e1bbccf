/** What a single cell computes about the lines through it (index.js, class
    Cell): runs of equal tokens along its eight sides and four axes, whether
    one of them reaches the winning length, and the heuristic score the
    search uses in place of that test. The board is a flat sequence of
    tokens and a cell is its position in it. */
module Cells {
  import opened Tokens
  import opened Grid

  /** Number of neighbour slots of a cell; the base of the heuristic. */
  const NeighbourCount: nat := 8

  /** Whether the neighbour at `side` holds this cell's token; None when the
      slot is empty (off the board). Empty cells compare equal to each other,
      as the source's strict equality on null does. */
  function IsNeighbourEqual(d: Dims, s: seq<Token>, pos: nat, side: nat): (e: Option<bool>)
    requires |s| == d.Size() && pos < |s| && side < 8
    ensures e.Some? <==> Neighbour(d, pos, side).Some?
    ensures e.Some? ==> (e.value <==> s[Neighbour(d, pos, side).value] == s[pos])
  {
    match Neighbour(d, pos, side)
    case None => None
    case Some(q) => Some(s[pos] == s[q])
  }

  /** Number of consecutive cells beyond pos, walking along `side`, that
      hold the same token as pos. */
  function EqualsBySide(d: Dims, s: seq<Token>, pos: nat, side: nat): nat
    requires |s| == d.Size() && pos < |s| && side < 8
    decreases Reach(d, pos, side)
  {
    if IsNeighbourEqual(d, s, pos, side) == Some(true) then
      var q := Neighbour(d, pos, side).value;
      ReachDecreases(d, pos, side);
      1 + EqualsBySide(d, s, q, side)
    else 0
  }

  /** EqualsBySide is the length of the maximal run: the first n steps along
      the side are on the board and hold pos's token, and step n+1 is off
      the board or holds another token. In particular it is 0 exactly when
      the neighbour is missing or differs. */
  lemma {:induction false} EqualsBySideIsMaximalRun(d: Dims, s: seq<Token>, pos: nat, side: nat)
    requires |s| == d.Size() && pos < |s| && side < 8
    ensures var n := EqualsBySide(d, s, pos, side);
      && (forall j :: 1 <= j <= n ==> Step(d, pos, side, j).Some? && s[Step(d, pos, side, j).value] == s[pos])
      && (Step(d, pos, side, n + 1).None? || s[Step(d, pos, side, n + 1).value] != s[pos])
    decreases Reach(d, pos, side)
  {
    StepOne(d, pos, side);
    if IsNeighbourEqual(d, s, pos, side) == Some(true) {
      var q := Neighbour(d, pos, side).value;
      ReachDecreases(d, pos, side);
      EqualsBySideIsMaximalRun(d, s, q, side);
      var n := EqualsBySide(d, s, pos, side);
      assert n == 1 + EqualsBySide(d, s, q, side);
      forall j | 1 <= j <= n
        ensures Step(d, pos, side, j).Some? && s[Step(d, pos, side, j).value] == s[pos]
      {
        if j > 1 {
          StepShift(d, pos, side, j - 1);
        }
      }
      StepShift(d, pos, side, n);
    }
  }

  /** Any run of k equal cells beyond pos along `side` is counted:
      EqualsBySide is at least k. */
  lemma {:induction false} EqualsBySideCoversRun(d: Dims, s: seq<Token>, pos: nat, side: nat, k: nat)
    requires |s| == d.Size() && pos < |s| && side < 8
    requires forall j :: 1 <= j <= k ==> Step(d, pos, side, j).Some? && s[Step(d, pos, side, j).value] == s[pos]
    ensures EqualsBySide(d, s, pos, side) >= k
  {
    EqualsBySideIsMaximalRun(d, s, pos, side);
    var n := EqualsBySide(d, s, pos, side);
    if n < k {
      assert 1 <= n + 1 <= k;
    }
  }

  /** Length of the run through pos along axis `direction` (0..3), pos
      included: the two opposite sides direction and 7-direction. */
  function EqualsByDirection(d: Dims, s: seq<Token>, pos: nat, direction: nat): (n: nat)
    requires |s| == d.Size() && pos < |s| && direction < NeighbourCount / 2
    ensures n >= 1
  {
    EqualsBySide(d, s, pos, direction) + EqualsBySide(d, s, pos, NeighbourCount - 1 - direction) + 1
  }

  /** The cell at pos is part of n in a row: some axis through it has a run
      of at least n. */
  predicate CompletesLine(d: Dims, s: seq<Token>, pos: nat, n: int)
    requires |s| == d.Size() && pos < |s|
  {
    exists direction :: 0 <= direction < NeighbourCount / 2 && EqualsByDirection(d, s, pos, direction) >= n
  }

  /** 8 to the power e. The heuristic's base is NeighbourCount, the number
      of neighbour slots, which is 8 for every cell. */
  function Pow8(e: nat): (r: nat)
    ensures r >= 1
  {
    if e == 0 then 1 else 8 * Pow8(e - 1)
  }

  /** Powers of 8 grow with the exponent. */
  lemma {:induction false} Pow8Monotone(e: nat, e': nat)
    requires e <= e'
    ensures Pow8(e) <= Pow8(e')
    decreases e'
  {
    if e < e' {
      Pow8Monotone(e, e' - 1);
    }
  }

  /** Score of a single axis whose run has the given length. */
  function RunScore(run: nat): nat
  {
    if run > 1 then Pow8(run - 2) * 1000 else 0
  }

  /** A longer run never scores less. */
  lemma RunScoreMonotone(run: nat, run': nat)
    requires run <= run'
    ensures RunScore(run) <= RunScore(run')
  {
    if run > 1 {
      Pow8Monotone(run - 2, run' - 2);
    }
  }

  /** The largest score a cell can be given, reached by a completed line of
      length `line`. */
  function TopScore(line: nat): (t: nat)
    requires line >= 2
    ensures t == RunScore(line) && t >= 1000
  {
    Pow8(line - 2) * 1000
  }

  /** Whether a (signed) search value signals a completed line. */
  predicate IsWinnerMove(value: int, line: nat)
    requires line >= 2
  {
    Abs(value) >= TopScore(line)
  }

  /** Sum of the axis scores of axes 0..k-1, as the scoring loop adds them. */
  function ScoreUpTo(d: Dims, s: seq<Token>, pos: nat, k: nat): nat
    requires |s| == d.Size() && pos < |s| && k <= NeighbourCount / 2
  {
    if k == 0 then 0 else ScoreUpTo(d, s, pos, k - 1) + RunScore(EqualsByDirection(d, s, pos, k - 1))
  }

  /** The heuristic value of the cell: the sum of its axis scores, capped at
      the top score. */
  function CellValue(d: Dims, s: seq<Token>, pos: nat, line: nat): (v: nat)
    requires |s| == d.Size() && pos < |s| && line >= 2
    ensures v <= TopScore(line)
  {
    var score := ScoreUpTo(d, s, pos, NeighbourCount / 2);
    if score > TopScore(line) then TopScore(line) else score
  }

  /** The partial sum includes every axis score added so far. */
  lemma {:induction false} ScoreIncludesAxis(d: Dims, s: seq<Token>, pos: nat, k: nat, direction: nat)
    requires |s| == d.Size() && pos < |s| && direction < k <= NeighbourCount / 2
    ensures ScoreUpTo(d, s, pos, k) >= RunScore(EqualsByDirection(d, s, pos, direction))
  {
    if direction < k - 1 {
      ScoreIncludesAxis(d, s, pos, k - 1, direction);
    }
  }

  /** When every axis run is at most `run`, the partial sum is at most k
      times that run's score. */
  lemma {:induction false} ScoreBoundedByRuns(d: Dims, s: seq<Token>, pos: nat, k: nat, run: nat)
    requires |s| == d.Size() && pos < |s| && k <= NeighbourCount / 2
    requires forall direction :: 0 <= direction < k ==> EqualsByDirection(d, s, pos, direction) <= run
    ensures ScoreUpTo(d, s, pos, k) <= Mul(k, RunScore(run))
  {
    if k > 0 {
      ScoreBoundedByRuns(d, s, pos, k - 1, run);
      RunScoreMonotone(EqualsByDirection(d, s, pos, k - 1), run);
    }
  }

  /** Every partial sum is a whole number of thousands. */
  lemma {:induction false} ScoreIsThousands(d: Dims, s: seq<Token>, pos: nat, k: nat)
    requires |s| == d.Size() && pos < |s| && k <= NeighbourCount / 2
    ensures ScoreUpTo(d, s, pos, k) % 1000 == 0
  {
    if k > 0 {
      ScoreIsThousands(d, s, pos, k - 1);
      var run := EqualsByDirection(d, s, pos, k - 1);
      var a := ScoreUpTo(d, s, pos, k - 1);
      if run > 1 {
        var q := a / 1000;
        assert a == q * 1000;
        assert a + Pow8(run - 2) * 1000 == (q + Pow8(run - 2)) * 1000;
      }
    }
  }

  /** The heuristic saturates exactly at a win: the cell's value is a
      winning value if and only if the cell completes a line. */
  lemma WinnerMoveIffCompletesLine(d: Dims, s: seq<Token>, pos: nat, line: nat)
    requires |s| == d.Size() && pos < |s| && line >= 2
    ensures IsWinnerMove(CellValue(d, s, pos, line), line) <==> CompletesLine(d, s, pos, line)
  {
    var score := ScoreUpTo(d, s, pos, NeighbourCount / 2);
    if CompletesLine(d, s, pos, line) {
      var direction :| 0 <= direction < NeighbourCount / 2 && EqualsByDirection(d, s, pos, direction) >= line;
      ScoreIncludesAxis(d, s, pos, NeighbourCount / 2, direction);
      RunScoreMonotone(line, EqualsByDirection(d, s, pos, direction));
    } else {
      ScoreBoundedByRuns(d, s, pos, NeighbourCount / 2, line - 1);
      MulIsProduct(NeighbourCount / 2, RunScore(line - 1));
      if line > 2 {
        assert TopScore(line) == 8 * RunScore(line - 1);
      }
    }
  }

  /** The same equivalence for the signed value the search computes,
      +-(value + depth), as long as the remaining depth stays below 1000
      (scores are whole thousands, so a smaller depth cannot push a
      non-winning value over the top score). */
  lemma WinnerMoveIffCompletesLineInSearch(d: Dims, s: seq<Token>, pos: nat, line: nat, depth: nat, maximising: bool)
    requires |s| == d.Size() && pos < |s| && line >= 2 && depth < 1000
    ensures var v := CellValue(d, s, pos, line) + depth;
      IsWinnerMove(if maximising then v else -v, line) <==> CompletesLine(d, s, pos, line)
  {
    WinnerMoveIffCompletesLine(d, s, pos, line);
    ScoreIsThousands(d, s, pos, NeighbourCount / 2);
    var v := CellValue(d, s, pos, line);
    var top := TopScore(line);
    assert top % 1000 == 0;
    if v < top {
      assert v % 1000 == 0;
      assert v <= top - 1000;
    }
  }
}

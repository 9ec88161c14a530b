/**
 * Minesweeper: the game board (Minesweeper in minesweeper.py), the
 * sentences "this many of these cells are mines" (Sentence), and the
 * player that keeps a knowledge base of sentences and infers safe cells
 * and mines from it (MinesweeperAI).
 *
 * The ghost set `truth` that several contracts mention stands for the real
 * mine positions: a knowledge base is sound for `truth` when every cell it
 * calls a mine is one, every cell it calls safe is not, and every
 * sentence counts its mines right.
 */
module Mines {
  import opened Optional
  import opened Collections

  /** (row, column). */
  type Cell = (int, int)

  /** c is one of the (up to) eight cells around `cell`. */
  predicate Adjacent(cell: Cell, c: Cell) {
    c != cell && -1 <= c.0 - cell.0 <= 1 && -1 <= c.1 - cell.1 <= 1
  }

  predicate InBoard(height: int, width: int, c: Cell) {
    0 <= c.0 < height && 0 <= c.1 < width
  }

  /** The in-bounds cells around `cell`. */
  function Neighbourhood(height: int, width: int, cell: Cell): (r: set<Cell>)
    ensures forall c :: c in r <==> Adjacent(cell, c) && InBoard(height, width, c)
  {
    set i, j | cell.0 - 1 <= i <= cell.0 + 1 && cell.1 - 1 <= j <= cell.1 + 1 && (i, j) != cell
                && InBoard(height, width, (i, j)) :: (i, j)
  }

  /** No cell has more than eight neighbours. */
  lemma {:induction false} AtMostEight(cell: Cell, s: set<Cell>)
    requires forall c :: c in s ==> Adjacent(cell, c)
    ensures |s| <= 8
  {
    var (a, b) := cell;
    var above := {(a - 1, b - 1), (a - 1, b), (a - 1, b + 1)};
    var level := {(a, b - 1), (a, b + 1)};
    var below := {(a + 1, b - 1), (a + 1, b), (a + 1, b + 1)};
    assert |above| <= 3 && |level| <= 2 && |below| <= 3;
    var around := above + level + below;
    assert s <= around;
    assert around == s + (around - s);
  }

  /** A part as large as the whole is the whole. */
  lemma {:induction false} SameSizeSubset<T>(a: set<T>, b: set<T>)
    requires a <= b && |a| == |b|
    ensures a == b
  {
    assert b == a + (b - a);
  }

  /** The game board, with the mines placed up front. */
  class Minesweeper {
    const height: nat
    const width: nat
    const board: array2<bool>
    var mines: set<Cell>
    var minesFound: set<Cell>

    ghost predicate Valid()
      reads this, board
    {
      && board.Length0 == height && board.Length1 == width
      && (forall c :: c in mines ==> InBoard(height, width, c))
      && forall i, j :: 0 <= i < height && 0 <= j < width ==> (board[i, j] <==> (i, j) in mines)
    }

    /**
     * A height-by-width board with mines exactly at `placement`; the
     * random drawing of positions is replaced by the given placement.
     */
    constructor(height: nat, width: nat, placement: set<Cell>)
      requires forall c :: c in placement ==> InBoard(height, width, c)
      ensures Valid() && fresh(board)
      ensures this.height == height && this.width == width
      ensures mines == placement && minesFound == {}
    {
      this.height := height;
      this.width := width;
      board := new bool[height, width]((_, _) => false);
      mines := {};
      minesFound := {};
      new;
      var todo := placement;
      while todo != {}
        invariant todo <= placement && mines == placement - todo && minesFound == {}
        invariant Valid()
        decreases todo
      {
        var c :| c in todo;
        mines := mines + {c};
        board[c.0, c.1] := true;
        todo := todo - {c};
      }
    }

    /** `board[i][j]`, with Python's reading of negative indices. */
    function IsMine(cell: Cell): (r: bool)
      reads this, board
      requires Valid() && -(height as int) <= cell.0 < height && -(width as int) <= cell.1 < width
      ensures r <==> (PyIndex(cell.0, height), PyIndex(cell.1, width)) in mines
    {
      board[PyIndex(cell.0, height), PyIndex(cell.1, width)]
    }

    /** The mines around `cell`. */
    ghost function NearbyMineCells(cell: Cell): set<Cell>
      reads this
    {
      set c | c in mines && Adjacent(cell, c)
    }

    /** Counts the mines in the 3-by-3 block around `cell`, skipping `cell` and off-board cells. */
    method NearbyMines(cell: Cell) returns (count: nat)
      requires Valid()
      ensures count == |NearbyMineCells(cell)| && count <= 8
    {
      count := 0;
      ghost var seen: set<Cell> := {};
      for i := cell.0 - 1 to cell.0 + 2
        invariant seen == ScannedBefore(mines, cell, (i, cell.1 - 1))
        invariant count == |seen|
      {
        for j := cell.1 - 1 to cell.1 + 2
          invariant seen == ScannedBefore(mines, cell, (i, j))
          invariant count == |seen|
        {
          ScanStep(mines, cell, (i, j));
          if (i, j) == cell {
            continue;
          }
          if 0 <= i < height && 0 <= j < width {
            if board[i, j] {
              seen := seen + {(i, j)};
              count := count + 1;
            } else {
              assert (i, j) !in mines;
            }
          } else {
            assert (i, j) !in mines;
          }
        }
        ScanRow(mines, cell, i);
      }
      ScanDone(mines, cell);
      AtMostEight(cell, seen);
    }

    /**
     * The player has flagged exactly the mines: on a well-formed game,
     * every flag lies on the board and a cell is flagged exactly when
     * the board holds a mine there.
     */
    function Won(): (r: bool)
      reads this, board
      ensures Valid() ==> (r <==>
        (forall c :: c in minesFound ==> InBoard(height, width, c)) &&
        forall i, j :: 0 <= i < height && 0 <= j < width ==> (board[i, j] <==> (i, j) in minesFound))
    {
      minesFound == mines
    }
  }

  /** The mines around `cell` that a row-by-row scan reaches before `at`. */
  ghost function ScannedBefore(mines: set<Cell>, cell: Cell, at: Cell): set<Cell> {
    set c | c in mines && Adjacent(cell, c) && (c.0 < at.0 || (c.0 == at.0 && c.1 < at.1))
  }

  /** Scanning one more cell adds it exactly when it is a mine around `cell`. */
  lemma ScanStep(mines: set<Cell>, cell: Cell, at: Cell)
    ensures at !in ScannedBefore(mines, cell, at)
    ensures ScannedBefore(mines, cell, (at.0, at.1 + 1)) ==
      ScannedBefore(mines, cell, at) + (if at in mines && Adjacent(cell, at) then {at} else {})
  {
  }

  /** Past the last column of the block, the scan moves on to the next row. */
  lemma ScanRow(mines: set<Cell>, cell: Cell, i: int)
    ensures ScannedBefore(mines, cell, (i, cell.1 + 2)) == ScannedBefore(mines, cell, (i + 1, cell.1 - 1))
  {
  }

  /** Past the last row of the block, the scan has seen every mine around `cell`. */
  lemma ScanDone(mines: set<Cell>, cell: Cell)
    ensures ScannedBefore(mines, cell, (cell.0 + 2, cell.1 - 1)) == set c | c in mines && Adjacent(cell, c)
  {
  }

  /** "Exactly `count` of `cells` are mines", true of the mine set `truth`. */
  ghost predicate Holds(cells: set<Cell>, count: int, truth: set<Cell>) {
    |cells * truth| == count
  }

  /** A set of cells together with how many of them are mines. */
  class Sentence {
    var cells: set<Cell>
    var count: int

    constructor(cells: set<Cell>, count: int)
      ensures this.cells == cells && this.count == count
    {
      this.cells := cells;
      this.count := count;
    }

    /** `__eq__`: same cells, same count. */
    function Equals(other: Sentence): (r: bool)
      reads this, other
      ensures r <==> cells == other.cells && count == other.count
    {
      cells == other.cells && count == other.count
    }

    /** All the cells when there are as many mines as cells (and at least one); none otherwise. */
    function KnownMines(): (r: set<Cell>)
      reads this
      ensures r <= cells
      ensures r != {} <==> |cells| == count && count > 0
      ensures |cells| == count && count > 0 ==> r == cells
      ensures |cells| != count || count <= 0 ==> r == {}
    {
      if |cells| == count && count > 0 then cells else {}
    }

    /** All the cells when the count is zero; none otherwise. */
    function KnownSafes(): (r: set<Cell>)
      reads this
      ensures r <= cells
      ensures r == cells <==> count == 0 || cells == {}
      ensures count == 0 ==> r == cells
      ensures count != 0 ==> r == {}
    {
      if count == 0 then cells else {}
    }

    /** Drops `cell`, a mine, and counts one mine fewer if it was among the cells. */
    method MarkMine(cell: Cell)
      modifies this
      ensures cells == old(cells) - {cell}
      ensures count == if cell in old(cells) then old(count) - 1 else old(count)
    {
      if cell in cells {
        cells := cells - {cell};
        count := count - 1;
      }
    }

    /** Drops `cell`, a safe cell; the count stays. */
    method MarkSafe(cell: Cell)
      modifies this
      ensures cells == old(cells) - {cell} && count == old(count)
    {
      if cell in cells {
        cells := cells - {cell};
      }
    }
  }

  /** A true sentence that names as many mines as cells names only mines. */
  lemma KnownMinesSound(s: Sentence, truth: set<Cell>)
    requires Holds(s.cells, s.count, truth)
    ensures s.KnownMines() <= truth
  {
    if s.KnownMines() != {} {
      SameSizeSubset(s.cells * truth, s.cells);
    }
  }

  /** A true sentence with count zero names only safe cells. */
  lemma KnownSafesSound(s: Sentence, truth: set<Cell>)
    requires Holds(s.cells, s.count, truth)
    ensures s.KnownSafes() !! truth
  {
    if s.count == 0 {
      assert s.KnownSafes() == s.cells;
      assert |s.cells * truth| == 0;
      assert s.cells * truth == {};
      forall c | c in s.cells
        ensures c !in truth
      {
        assert c !in s.cells * truth;
      }
    } else {
      assert s.KnownSafes() == {};
    }
  }

  /** Taking a mine out of a true sentence, and one off its count if it was in it, keeps it true. */
  lemma {:induction false} MarkMineKeepsTruth(cells: set<Cell>, count: int, cell: Cell, truth: set<Cell>)
    requires Holds(cells, count, truth) && cell in truth
    ensures Holds(cells - {cell}, if cell in cells then count - 1 else count, truth)
  {
    if cell in cells {
      assert cells * truth == (cells - {cell}) * truth + {cell};
    } else {
      assert (cells - {cell}) * truth == cells * truth;
    }
  }

  /** Taking a safe cell out of a true sentence keeps it true. */
  lemma {:induction false} MarkSafeKeepsTruth(cells: set<Cell>, count: int, cell: Cell, truth: set<Cell>)
    requires Holds(cells, count, truth) && cell !in truth
    ensures Holds(cells - {cell}, count, truth)
  {
    assert (cells - {cell}) * truth == cells * truth;
  }

  /**
   * The subset rule: if one true sentence's cells lie inside another's,
   * the cells only the larger one has hold the difference of the counts.
   */
  lemma {:induction false} SubsetRuleKeepsTruth(c1: set<Cell>, n1: int, c2: set<Cell>, n2: int, truth: set<Cell>)
    requires Holds(c1, n1, truth) && Holds(c2, n2, truth) && c1 <= c2
    ensures Holds(c2 - c1, n2 - n1, truth)
  {
    assert c2 * truth == (c2 - c1) * truth + c1 * truth;
    assert (c2 - c1) * truth !! c1 * truth;
  }

  /** The (cells, count) pairs the sentences of `ks` hold. */
  function Said(ks: seq<Sentence>): (r: set<(set<Cell>, int)>)
    reads ks
    ensures forall k :: 0 <= k < |ks| ==> (ks[k].cells, ks[k].count) in r
  {
    if ks == [] then {} else {(ks[0].cells, ks[0].count)} + Said(ks[1..])
  }

  /** Whatever is said, some sentence says. */
  lemma {:induction false} SaidBySome(ks: seq<Sentence>, v: (set<Cell>, int))
    requires v in Said(ks)
    ensures exists k :: 0 <= k < |ks| && v == (ks[k].cells, ks[k].count)
  {
    if v != (ks[0].cells, ks[0].count) {
      SaidBySome(ks[1..], v);
      var k :| 0 <= k < |ks[1..]| && v == (ks[1..][k].cells, ks[1..][k].count);
      assert ks[k + 1] == ks[1..][k];
    }
  }

  /** Whatever true sentences say is true. */
  lemma SaidTrue(ks: seq<Sentence>, truth: set<Cell>)
    requires forall k :: 0 <= k < |ks| ==> Holds(ks[k].cells, ks[k].count, truth)
    ensures forall v :: v in Said(ks) ==> Holds(v.0, v.1, truth)
  {
    forall v | v in Said(ks) ensures Holds(v.0, v.1, truth) {
      SaidBySome(ks, v);
    }
  }

  /** What two lists say together. */
  lemma {:induction false} SaidConcat(a: seq<Sentence>, b: seq<Sentence>)
    ensures Said(a + b) == Said(a) + Said(b)
  {
    if a != [] {
      assert (a + b)[1..] == a[1..] + b;
      SaidConcat(a[1..], b);
    } else {
      assert a + b == b;
    }
  }

  /** What a list says once one more sentence is appended. */
  lemma SaidAppend(ks: seq<Sentence>, s: Sentence)
    ensures Said(ks + [s]) == Said(ks) + {(s.cells, s.count)}
  {
    SaidConcat(ks, [s]);
    assert Said([s]) == {(s.cells, s.count)} + Said([]);
  }

  /** The (cells, count) of each sentence of `ks`, in order. */
  ghost function Facts(ks: seq<Sentence>): (r: seq<(set<Cell>, int)>)
    reads ks
    ensures |r| == |ks| && forall k :: 0 <= k < |ks| ==> r[k] == (ks[k].cells, ks[k].count)
  {
    if ks == [] then [] else [(ks[0].cells, ks[0].count)] + Facts(ks[1..])
  }

  /** What a list says is exactly the pairs its sentences hold, repeats merged. */
  lemma {:induction false} SaidFacts(ks: seq<Sentence>)
    ensures Said(ks) == set v | v in Facts(ks)
  {
    if ks != [] {
      SaidFacts(ks[1..]);
      assert Facts(ks) == [(ks[0].cells, ks[0].count)] + Facts(ks[1..]);
    }
  }

  /** Python's `in` on a list of sentences: some sentence of `ks` equals (cells, count). */
  predicate Mentions(ks: seq<Sentence>, cells: set<Cell>, count: int)
    reads ks
  {
    (cells, count) in Said(ks)
  }

  /** A sentence that shows neither safe cells nor mines by itself. */
  predicate Silent(cells: set<Cell>, count: int) {
    (count == 0 ==> cells == {}) && !(|cells| == count && count > 0)
  }

  /** The pairs the subset rule looks at: both non-empty, different, the first inside the second. */
  predicate Derives(s1: Sentence, s2: Sentence)
    reads s1, s2
  {
    s1.cells != {} && s2.cells != {} && !s1.Equals(s2) && s1.cells <= s2.cells
  }

  /** The subset rule's new sentence from s1 inside s2: the cells only s2 has, and the difference of the counts. */
  function Difference(s1: Sentence, s2: Sentence): (d: (set<Cell>, int))
    reads s1, s2
  {
    (s2.cells - s1.cells, s2.count - s1.count)
  }

  /** `d` is the difference of two sentences of `ks` the subset rule applies to. */
  ghost predicate DerivedValue(ks: seq<Sentence>, d: (set<Cell>, int))
    reads ks
  {
    exists p, q :: 0 <= p < |ks| && 0 <= q < |ks| && Derives(ks[p], ks[q]) && d == Difference(ks[p], ks[q])
  }

  /** The same test on (cells, count) pairs. */
  predicate DerivesValue(v1: (set<Cell>, int), v2: (set<Cell>, int)) {
    v1.0 != {} && v2.0 != {} && v1 != v2 && v1.0 <= v2.0
  }

  /** Every non-empty difference the subset rule can form from two pairs of `said` is in `said`. */
  ghost predicate Closed(said: set<(set<Cell>, int)>) {
    forall v1, v2 :: v1 in said && v2 in said && DerivesValue(v1, v2) && v2.0 - v1.0 != {} ==>
      (v2.0 - v1.0, v2.1 - v1.1) in said
  }

  /** The cells some sentence of `ks` shows safe by itself. */
  ghost function ShownSafes(ks: seq<Sentence>): set<Cell>
    reads ks
  {
    set k, c | 0 <= k < |ks| && c in ks[k].KnownSafes() :: c
  }

  /** The cells some sentence of `ks` shows to be mines by itself. */
  ghost function ShownMines(ks: seq<Sentence>): set<Cell>
    reads ks
  {
    set k, c | 0 <= k < |ks| && c in ks[k].KnownMines() :: c
  }

  /**
   * A sentence's (cells, count) once every cell of `safes` has been
   * marked safe and then every cell of `mines` a mine: the cells lose
   * both, and the count loses one per mine among the cells left.
   */
  function Marked(v: (set<Cell>, int), safes: set<Cell>, mines: set<Cell>): (set<Cell>, int) {
    (v.0 - safes - mines, v.1 - |(v.0 - safes) * mines|)
  }

  /** Marking safe cells that are not mines and mines that are keeps a true sentence true. */
  lemma {:induction false} MarkedKeepsTruth(v: (set<Cell>, int), safes: set<Cell>, mines: set<Cell>, truth: set<Cell>)
    requires Holds(v.0, v.1, truth) && safes !! truth && mines <= truth
    ensures Holds(Marked(v, safes, mines).0, Marked(v, safes, mines).1, truth)
  {
    var left := v.0 - safes;
    assert v.0 * truth == left * truth;
    assert left * truth == (left - mines) * truth + left * mines;
    assert (left - mines) * truth !! left * mines;
  }

  /** Marking the safe cells and then the mines, one set after the other, is `Marked`. */
  lemma MarkedInSteps(cells: set<Cell>, count: int, midCells: set<Cell>, midCount: int, newCells: set<Cell>, newCount: int,
                      safes: set<Cell>, mines: set<Cell>)
    requires midCells == cells - safes && midCount == count
    requires newCells == midCells - mines && newCount == midCount - |midCells * mines|
    ensures (newCells, newCount) == Marked((cells, count), safes, mines)
  {
  }

  /** Marking nothing leaves a sentence as it was. */
  lemma MarkedNothing(v: (set<Cell>, int))
    ensures Marked(v, {}, {}) == v
  {
    assert (v.0 - {}) * {} == {};
  }

  /** Every pair of `said` after the marking. */
  ghost function MarkAll(said: set<(set<Cell>, int)>, safes: set<Cell>, mines: set<Cell>): set<(set<Cell>, int)> {
    set v | v in said :: Marked(v, safes, mines)
  }

  /** Each pair of `facts` after the marking, in order. */
  ghost function MarkEach(facts: seq<(set<Cell>, int)>, safes: set<Cell>, mines: set<Cell>): seq<(set<Cell>, int)> {
    seq(|facts|, k requires 0 <= k < |facts| => Marked(facts[k], safes, mines))
  }

  /** The pairs of a list marked one by one are the marked pairs of the list. */
  lemma MarkedFacts(facts: seq<(set<Cell>, int)>, safes: set<Cell>, mines: set<Cell>)
    ensures (set v | v in MarkEach(facts, safes, mines)) == MarkAll((set v | v in facts), safes, mines)
  {
    var after := MarkEach(facts, safes, mines);
    forall v | v in MarkAll((set v | v in facts), safes, mines) ensures v in after {
      var w :| w in facts && v == Marked(w, safes, mines);
      var k :| 0 <= k < |facts| && facts[k] == w;
      assert after[k] == v;
    }
  }

  /** A set splits into the part outside `other` and the part inside. */
  lemma CardSplit<T>(a: set<T>, other: set<T>)
    ensures |a| == |a - other| + |a * other|
  {
    assert a == (a - other) + a * other;
    assert (a - other) !! a * other;
  }

  /** Marking nothing leaves what is said as it was. */
  lemma MarkAllNothing(said: set<(set<Cell>, int)>)
    ensures MarkAll(said, {}, {}) == said
  {
    forall v | v in said ensures Marked(v, {}, {}) == v {
      MarkedNothing(v);
    }
  }

  /** The cells true sentences show safe are not mines, and those they show to be mines are. */
  lemma ShownSound(ks: seq<Sentence>, truth: set<Cell>)
    requires forall k :: 0 <= k < |ks| ==> Holds(ks[k].cells, ks[k].count, truth)
    ensures ShownSafes(ks) !! truth && ShownMines(ks) <= truth
  {
    forall c | c in ShownSafes(ks) ensures c !in truth {
      var k :| 0 <= k < |ks| && c in ks[k].KnownSafes();
      KnownSafesSound(ks[k], truth);
    }
    forall c | c in ShownMines(ks) ensures c in truth {
      var k :| 0 <= k < |ks| && c in ks[k].KnownMines();
      KnownMinesSound(ks[k], truth);
    }
  }

  /** Every difference the subset rule can form from two pairs of `said`. */
  ghost function Derived(said: set<(set<Cell>, int)>): set<(set<Cell>, int)> {
    set v1, v2 | v1 in said && v2 in said && DerivesValue(v1, v2) :: (v2.0 - v1.0, v2.1 - v1.1)
  }

  /** What is said after one round of the subset rule and the removal of the empty sentences. */
  ghost function Extend(said: set<(set<Cell>, int)>): set<(set<Cell>, int)> {
    set v | v in said + Derived(said) && v.0 != {}
  }

  /** Silent sentences say only silent pairs. */
  lemma SaidSilent(ks: seq<Sentence>)
    requires forall k :: 0 <= k < |ks| ==> Silent(ks[k].cells, ks[k].count)
    ensures forall v :: v in Said(ks) ==> Silent(v.0, v.1)
  {
    forall v | v in Said(ks) ensures Silent(v.0, v.1) {
      SaidBySome(ks, v);
    }
  }

  /** When the subset rule adds nothing, a round keeps every pair silent. */
  lemma ExtendKeepsSilent(said: set<(set<Cell>, int)>)
    requires Derived(said) <= said
    requires forall v :: v in said ==> Silent(v.0, v.1)
    ensures forall v :: v in Extend(said) ==> Silent(v.0, v.1)
  {
  }

  /** Each pair the subset rule found in `ks` is a difference of two pairs `ks` says. */
  lemma PairsAreDerived(ks: seq<Sentence>, pairs: seq<(set<Cell>, int)>)
    requires forall k :: 0 <= k < |pairs| ==> DerivedValue(ks, pairs[k])
    ensures forall k :: 0 <= k < |pairs| ==> pairs[k] in Derived(Said(ks))
  {
    forall k | 0 <= k < |pairs| ensures pairs[k] in Derived(Said(ks)) {
      assert DerivedValue(ks, pairs[k]);
      var p, q :| 0 <= p < |ks| && 0 <= q < |ks| && Derives(ks[p], ks[q]) && pairs[k] == Difference(ks[p], ks[q]);
      DifferenceDerived(ks, p, q);
    }
  }

  /** The subset rule's difference of two sentences of `ks` is derived from what `ks` says. */
  lemma DifferenceDerived(ks: seq<Sentence>, p: int, q: int)
    requires 0 <= p < |ks| && 0 <= q < |ks| && Derives(ks[p], ks[q])
    ensures Difference(ks[p], ks[q]) in Derived(Said(ks))
  {
    var v1, v2 := (ks[p].cells, ks[p].count), (ks[q].cells, ks[q].count);
    assert v1 in Said(ks) && v2 in Said(ks) && DerivesValue(v1, v2);
  }

  /** Each difference of two pairs `ks` says is said already or among the pairs found. */
  lemma DerivedArePairs(ks: seq<Sentence>, pairs: seq<(set<Cell>, int)>)
    requires forall p, q :: 0 <= p < |ks| && 0 <= q < |ks| && Derives(ks[p], ks[q]) ==>
      Difference(ks[p], ks[q]) in Said(ks) || Difference(ks[p], ks[q]) in pairs
    ensures forall v :: v in Derived(Said(ks)) ==> v in Said(ks) || v in pairs
  {
    forall v1, v2 | v1 in Said(ks) && v2 in Said(ks) && DerivesValue(v1, v2)
      ensures (v2.0 - v1.0, v2.1 - v1.1) in Said(ks) || (v2.0 - v1.0, v2.1 - v1.1) in pairs
    {
      SaidBySome(ks, v1);
      SaidBySome(ks, v2);
      var p :| 0 <= p < |ks| && v1 == (ks[p].cells, ks[p].count);
      var q :| 0 <= q < |ks| && v2 == (ks[q].cells, ks[q].count);
      assert Derives(ks[p], ks[q]);
      SameDifference(v1, v2, ks[p], ks[q]);
    }
    DerivedFrom(Said(ks), pairs);
  }

  /** The difference of two pairs is the difference of the sentences that hold them. */
  lemma SameDifference(v1: (set<Cell>, int), v2: (set<Cell>, int), s1: Sentence, s2: Sentence)
    requires v1 == (s1.cells, s1.count) && v2 == (s2.cells, s2.count)
    ensures Difference(s1, s2) == (v2.0 - v1.0, v2.1 - v1.1)
  {
  }

  /** Every difference of two pairs of `said` is in `said` or `pairs` when each one formed pair by pair is. */
  lemma DerivedFrom(said: set<(set<Cell>, int)>, pairs: seq<(set<Cell>, int)>)
    requires forall v1, v2 :: v1 in said && v2 in said && DerivesValue(v1, v2) ==>
      (v2.0 - v1.0, v2.1 - v1.1) in said || (v2.0 - v1.0, v2.1 - v1.1) in pairs
    ensures forall v :: v in Derived(said) ==> v in said || v in pairs
  {
  }

  /** Two sets that each add to `said` only what the other adds. */
  lemma CoverFromBoth(said: set<(set<Cell>, int)>, found: set<(set<Cell>, int)>, derived: set<(set<Cell>, int)>)
    requires found <= derived
    requires forall v :: v in derived ==> v in said || v in found
    ensures said + found == said + derived
  {
  }

  /** Adding exactly what the subset rule derives and dropping the empty pairs is `Extend`. */
  lemma ExtendBy(said: set<(set<Cell>, int)>, found: set<(set<Cell>, int)>)
    requires said + found == said + Derived(said)
    ensures Extend(said) == set v | v in said + found && v.0 != {}
  {
  }

  /** The sentences of `ks` that still have cells, in order. */
  function NonEmpty(ks: seq<Sentence>): (r: seq<Sentence>)
    reads ks
    ensures forall k :: 0 <= k < |r| ==> r[k] in ks && r[k].cells != {}
    ensures Said(r) == set v | v in Said(ks) && v.0 != {}
  {
    if ks == [] then []
    else if ks[0].cells != {} then [ks[0]] + NonEmpty(ks[1..])
    else NonEmpty(ks[1..])
  }

  /** Dropping the empty sentences keeps a closed list closed. */
  lemma NonEmptyKeepsClosed(ks: seq<Sentence>)
    requires Closed(Said(ks))
    ensures Closed(Said(NonEmpty(ks)))
  {
  }

  /** Dropping the empty sentences keeps every remaining sentence true. */
  lemma NonEmptyKeepsTrue(ks: seq<Sentence>, truth: set<Cell>)
    requires forall k :: 0 <= k < |ks| ==> Holds(ks[k].cells, ks[k].count, truth)
    ensures forall k :: 0 <= k < |NonEmpty(ks)| ==> Holds(NonEmpty(ks)[k].cells, NonEmpty(ks)[k].count, truth)
  {
  }

  /** If every pair the subset rule applies to yields a difference already said, what is said is closed. */
  lemma {:induction false} ClosedByPairs(ks: seq<Sentence>)
    requires forall p, q :: 0 <= p < |ks| && 0 <= q < |ks| && Derives(ks[p], ks[q]) ==>
      Difference(ks[p], ks[q]) in Said(ks)
    ensures Closed(Said(ks))
  {
    forall v1, v2 | v1 in Said(ks) && v2 in Said(ks) && DerivesValue(v1, v2) && v2.0 - v1.0 != {}
      ensures (v2.0 - v1.0, v2.1 - v1.1) in Said(ks)
    {
      SaidBySome(ks, v1);
      SaidBySome(ks, v2);
      var p :| 0 <= p < |ks| && v1 == (ks[p].cells, ks[p].count);
      var q :| 0 <= q < |ks| && v2 == (ks[q].cells, ks[q].count);
      assert Derives(ks[p], ks[q]);
    }
  }

  /** What the subset rule derives from true pairs is true. */
  lemma DerivedTrue(said: set<(set<Cell>, int)>, truth: set<Cell>)
    requires forall v :: v in said ==> Holds(v.0, v.1, truth)
    ensures forall v :: v in Derived(said) ==> Holds(v.0, v.1, truth)
  {
    forall v | v in Derived(said) ensures Holds(v.0, v.1, truth) {
      var v1, v2 :| v1 in said && v2 in said && DerivesValue(v1, v2) && v == (v2.0 - v1.0, v2.1 - v1.1);
      SubsetRuleKeepsTruth(v1.0, v1.1, v2.0, v2.1, truth);
    }
  }

  /** True pairs together with new pairs derived from them are all true. */
  lemma PairsTrue(said: set<(set<Cell>, int)>, pairs: seq<(set<Cell>, int)>, truth: set<Cell>)
    requires forall v :: v in said ==> Holds(v.0, v.1, truth)
    requires forall k :: 0 <= k < |pairs| ==> pairs[k] in Derived(said)
    ensures forall v :: v in said + (set v | v in pairs) ==> Holds(v.0, v.1, truth)
  {
    DerivedTrue(said, truth);
    forall v | v in said + (set v | v in pairs) ensures Holds(v.0, v.1, truth) {
      if v !in said {
        var k :| 0 <= k < |pairs| && pairs[k] == v;
      }
    }
  }

  /**
   * The sentence add_knowledge builds is true: with `count` the true
   * number of mines around the cell, the neighbours not known either way
   * hold `count` less the known mines among the neighbours.
   */
  lemma {:induction false} NewSentenceTrue(neighbors: set<Cell>, count: int, mines: set<Cell>, safes: set<Cell>, truth: set<Cell>)
    requires mines <= truth && safes !! truth && Holds(neighbors, count, truth)
    ensures Holds(neighbors - mines - safes, count - |mines * neighbors|, truth)
  {
    var unknown := neighbors - mines - safes;
    assert neighbors * truth == unknown * truth + mines * neighbors;
    assert unknown * truth !! mines * neighbors;
  }

  /** A sentence over the unknown neighbours with the adjusted count holds the one pair `Recorded` gives. */
  lemma RecordedOne(neighbors: set<Cell>, count: int, mines: set<Cell>, safes: set<Cell>, s: Sentence)
    requires s.cells == neighbors - mines - safes != {}
    requires s.count == count - |mines * neighbors|
    ensures Recorded(neighbors, count, mines, safes) == {(s.cells, s.count)}
  {
  }

  /** A list of true sentences with one more true sentence appended is still true. */
  lemma AppendTrue(ks: seq<Sentence>, s: Sentence, truth: set<Cell>)
    requires forall k :: 0 <= k < |ks| ==> Holds(ks[k].cells, ks[k].count, truth)
    requires Holds(s.cells, s.count, truth)
    ensures forall k :: 0 <= k < |ks + [s]| ==> Holds((ks + [s])[k].cells, (ks + [s])[k].count, truth)
  {
    forall k | 0 <= k < |ks + [s]| ensures Holds((ks + [s])[k].cells, (ks + [s])[k].count, truth) {
      if k < |ks| {
        assert (ks + [s])[k] == ks[k];
      }
    }
  }

  /** Sentences that each lost `cell` and kept their count say the pairs of `facts` marked with `cell` safe. */
  lemma MarkedSafeSaid(facts: seq<(set<Cell>, int)>, ks: seq<Sentence>, cell: Cell)
    requires |facts| == |ks|
    requires forall k :: 0 <= k < |ks| ==> ks[k].cells == facts[k].0 - {cell} && ks[k].count == facts[k].1
    ensures Said(ks) == MarkAll((set v | v in facts), {cell}, {})
  {
    forall k | 0 <= k < |ks| ensures Facts(ks)[k] == MarkEach(facts, {cell}, {})[k] {
      assert (facts[k].0 - {cell}) * {} == {};
    }
    assert Facts(ks) == MarkEach(facts, {cell}, {});
    SaidFacts(ks);
    MarkedFacts(facts, {cell}, {});
  }

  /** The cells some pair of `said` shows safe by itself: those of a pair counting no mine. */
  ghost function SafesShownBy(said: set<(set<Cell>, int)>): set<Cell> {
    set v, c | v in said && v.1 == 0 && c in v.0 :: c
  }

  /** The cells some pair of `said` shows to be mines: those of a pair with as many mines as cells. */
  ghost function MinesShownBy(said: set<(set<Cell>, int)>): set<Cell> {
    set v, c | v in said && |v.0| == v.1 && v.1 > 0 && c in v.0 :: c
  }

  /** What the sentences give away one by one is what the pairs they say give away. */
  lemma ShownBySaid(ks: seq<Sentence>)
    ensures ShownSafes(ks) == SafesShownBy(Said(ks))
    ensures ShownMines(ks) == MinesShownBy(Said(ks))
  {
    forall c | c in SafesShownBy(Said(ks)) ensures c in ShownSafes(ks) {
      var v :| v in Said(ks) && v.1 == 0 && c in v.0;
      SaidBySome(ks, v);
      var k :| 0 <= k < |ks| && v == (ks[k].cells, ks[k].count);
      assert c in ks[k].KnownSafes();
    }
    forall c | c in ShownSafes(ks) ensures c in SafesShownBy(Said(ks)) {
      var k :| 0 <= k < |ks| && c in ks[k].KnownSafes();
      assert (ks[k].cells, ks[k].count) in Said(ks);
    }
    forall c | c in MinesShownBy(Said(ks)) ensures c in ShownMines(ks) {
      var v :| v in Said(ks) && |v.0| == v.1 && v.1 > 0 && c in v.0;
      SaidBySome(ks, v);
      var k :| 0 <= k < |ks| && v == (ks[k].cells, ks[k].count);
      assert c in ks[k].KnownMines();
    }
    forall c | c in ShownMines(ks) ensures c in MinesShownBy(Said(ks)) {
      var k :| 0 <= k < |ks| && c in ks[k].KnownMines();
      assert (ks[k].cells, ks[k].count) in Said(ks);
    }
  }

  /** What is said after marking everything `said` gives away. */
  ghost function MarkShown(said: set<(set<Cell>, int)>): set<(set<Cell>, int)> {
    MarkAll(said, SafesShownBy(said), MinesShownBy(said))
  }

  /**
   * One pass of the inference loop on what is said: mark what single
   * pairs give away, then add the subset rule's differences and drop the
   * empty pairs.
   */
  ghost function Pass(said: set<(set<Cell>, int)>): set<(set<Cell>, int)> {
    Extend(MarkShown(said))
  }

  /** A pass on `said` finds something: a cell given away, or a difference not yet said. */
  ghost predicate Informative(said: set<(set<Cell>, int)>) {
    SafesShownBy(said) != {} || MinesShownBy(said) != {} || !(Derived(MarkShown(said)) <= MarkShown(said))
  }

  /** What is said after `n` passes. */
  ghost function Passes(said: set<(set<Cell>, int)>, n: nat): set<(set<Cell>, int)> {
    if n == 0 then said else Pass(Passes(said, n - 1))
  }

  /** The cells the first `n` passes mark safe. */
  ghost function SafesFound(said: set<(set<Cell>, int)>, n: nat): set<Cell> {
    if n == 0 then {} else SafesFound(said, n - 1) + SafesShownBy(Passes(said, n - 1))
  }

  /** The cells the first `n` passes mark as mines. */
  ghost function MinesFound(said: set<(set<Cell>, int)>, n: nat): set<Cell> {
    if n == 0 then {} else MinesFound(said, n - 1) + MinesShownBy(Passes(said, n - 1))
  }

  /** One more pass: what is said, and the cells found, after n + 1 passes. */
  lemma PassStep(said: set<(set<Cell>, int)>, n: nat)
    ensures Passes(said, n + 1) == Pass(Passes(said, n))
    ensures SafesFound(said, n + 1) == SafesFound(said, n) + SafesShownBy(Passes(said, n))
    ensures MinesFound(said, n + 1) == MinesFound(said, n) + MinesShownBy(Passes(said, n))
  {
  }

  /** Every pass so far was informative, and so is the next one. */
  lemma InformativeStep(said: set<(set<Cell>, int)>, n: nat)
    requires forall i :: 0 <= i < n ==> Informative(Passes(said, i))
    requires Informative(Passes(said, n))
    ensures forall i :: 0 <= i < n + 1 ==> Informative(Passes(said, i))
  {
  }

  /**
   * What a revealed count adds: the pair over the neighbours not known
   * either way, with the known mines among the neighbours taken off the
   * count, unless it has no cells.
   */
  ghost function Recorded(neighbors: set<Cell>, count: int, mines: set<Cell>, safes: set<Cell>): set<(set<Cell>, int)> {
    if neighbors - mines - safes == {} then {} else {(neighbors - mines - safes, count - |mines * neighbors|)}
  }

  /** The player: what it has clicked, what it knows, and its sentences. */
  class MinesweeperAI {
    const height: nat
    const width: nat
    var movesMade: set<Cell>
    var mines: set<Cell>
    var safes: set<Cell>
    var knowledge: seq<Sentence>

    constructor(height: nat, width: nat)
      ensures this.height == height && this.width == width
      ensures movesMade == {} && mines == {} && safes == {} && knowledge == []
    {
      this.height := height;
      this.width := width;
      movesMade := {};
      mines := {};
      safes := {};
      knowledge := [];
    }

    /** Everything the player knows is true of the mine set `truth`. */
    ghost predicate Sound(truth: set<Cell>)
      reads this`mines, this`safes, this`knowledge, knowledge
    {
      && mines <= truth && safes !! truth
      && forall k :: 0 <= k < |knowledge| ==> Holds(knowledge[k].cells, knowledge[k].count, truth)
    }

    /**
     * Nothing more follows from the sentences one at a time or pair by
     * pair: none is empty, none gives away its cells, and every difference
     * the subset rule can form is already a sentence.
     */
    ghost predicate Settled()
      reads this, knowledge
    {
      && (forall k :: 0 <= k < |knowledge| ==>
            knowledge[k].cells != {} && Silent(knowledge[k].cells, knowledge[k].count))
      && Closed(Said(knowledge))
    }

    /**
     * The state after `n` passes of the inference loop started on what
     * was said, `start`, with the safes and mines `safes0` and `mines0`.
     */
    ghost predicate Ran(start: set<(set<Cell>, int)>, n: nat, safes0: set<Cell>, mines0: set<Cell>)
      reads this, knowledge
    {
      && Said(knowledge) == Passes(start, n)
      && safes == safes0 + SafesFound(start, n) && mines == mines0 + MinesFound(start, n)
    }

    /** Records a mine and takes it out of every sentence, lowering the counts of those that had it. */
    method MarkMine(cell: Cell, ghost truth: set<Cell>)
      modifies this, knowledge
      ensures mines == old(mines) + {cell}
      ensures safes == old(safes) && movesMade == old(movesMade) && knowledge == old(knowledge)
      ensures forall s :: s in knowledge ==>
        s.cells == old(s.cells) - {cell} && s.count == if cell in old(s.cells) then old(s.count) - 1 else old(s.count)
      ensures forall s :: s in knowledge ==> s.count - |s.cells| == old(s.count) - |old(s.cells)|
      ensures old(Sound(truth)) && cell in truth ==> Sound(truth)
    {
      mines := mines + {cell};
      for k := 0 to |knowledge|
        modifies knowledge
        invariant forall s :: s in knowledge[..k] ==>
          s.cells == old(s.cells) - {cell} && s.count == if cell in old(s.cells) then old(s.count) - 1 else old(s.count)
        invariant forall s :: s in knowledge[k..] && s !in knowledge[..k] ==> s.cells == old(s.cells) && s.count == old(s.count)
      {
        assert knowledge[..k + 1] == knowledge[..k] + [knowledge[k]];
        knowledge[k].MarkMine(cell);
      }
      assert knowledge[..|knowledge|] == knowledge;
      if old(Sound(truth)) && cell in truth {
        forall k | 0 <= k < |knowledge|
          ensures Holds(knowledge[k].cells, knowledge[k].count, truth)
        {
          MarkMineKeepsTruth(old(knowledge[k].cells), old(knowledge[k].count), cell, truth);
        }
      }
    }

    /** Records a safe cell and takes it out of every sentence. */
    method MarkSafe(cell: Cell, ghost truth: set<Cell>)
      modifies this, knowledge
      ensures safes == old(safes) + {cell}
      ensures mines == old(mines) && movesMade == old(movesMade) && knowledge == old(knowledge)
      ensures forall s :: s in knowledge ==> s.cells == old(s.cells) - {cell} && s.count == old(s.count)
      ensures old(Sound(truth)) && cell !in truth ==> Sound(truth)
    {
      safes := safes + {cell};
      for k := 0 to |knowledge|
        modifies knowledge
        invariant forall s :: s in knowledge[..k] ==> s.cells == old(s.cells) - {cell} && s.count == old(s.count)
        invariant forall s :: s in knowledge[k..] && s !in knowledge[..k] ==> s.cells == old(s.cells) && s.count == old(s.count)
      {
        assert knowledge[..k + 1] == knowledge[..k] + [knowledge[k]];
        knowledge[k].MarkSafe(cell);
      }
      assert knowledge[..|knowledge|] == knowledge;
      if old(Sound(truth)) && cell !in truth {
        forall k | 0 <= k < |knowledge|
          ensures Holds(knowledge[k].cells, knowledge[k].count, truth)
        {
          MarkSafeKeepsTruth(old(knowledge[k].cells), old(knowledge[k].count), cell, truth);
        }
      }
    }

    /** The in-board cells around `cell`, gathered row by row. */
    method NeighbourCells(cell: Cell) returns (neighbors: set<Cell>)
      ensures neighbors == Neighbourhood(height, width, cell)
    {
      neighbors := {};
      var i := if cell.0 - 1 < 0 then 0 else cell.0 - 1;
      var rows := if height < cell.0 + 2 then height else cell.0 + 2;
      while i < rows
        invariant neighbors == set c | c in Neighbourhood(height, width, cell) && c.0 < i
        invariant i >= cell.0 - 1
      {
        var j := if cell.1 - 1 < 0 then 0 else cell.1 - 1;
        var columns := if width < cell.1 + 2 then width else cell.1 + 2;
        while j < columns
          invariant neighbors == set c | c in Neighbourhood(height, width, cell) && (c.0 < i || (c.0 == i && c.1 < j))
          invariant j >= cell.1 - 1
        {
          if (i, j) != cell {
            neighbors := neighbors + {(i, j)};
          }
          j := j + 1;
        }
        i := i + 1;
      }
    }

    /** The neighbours not yet known either way, and `count` less the known mines among them. */
    method Unknown(neighbors: set<Cell>, count: int) returns (unknown: set<Cell>, remaining: int)
      ensures unknown == neighbors - mines - safes
      ensures remaining == count - |mines * neighbors|
    {
      unknown := {};
      remaining := count;
      var todo := neighbors;
      ghost var done := {};
      while todo != {}
        invariant done <= neighbors && todo == neighbors - done
        invariant unknown <= done - mines - safes <= unknown
        invariant remaining == count - |mines * done|
      {
        var n :| n in todo;
        OneMore(mines, done, n);
        if n in mines {
          remaining := remaining - 1;
        } else if n !in safes {
          unknown := unknown + {n};
        }
        done := done + {n};
        todo := todo - {n};
      }
      assert done == neighbors;
    }

    /** The cells some sentence shows safe, those some sentence shows to be mines, and whether any did. */
    method Collect() returns (knownSafes: set<Cell>, knownMines: set<Cell>, newInfo: bool)
      ensures forall c :: c in knownSafes <==> exists k :: 0 <= k < |knowledge| && c in knowledge[k].KnownSafes()
      ensures forall c :: c in knownMines <==> exists k :: 0 <= k < |knowledge| && c in knowledge[k].KnownMines()
      ensures !newInfo <==> forall k :: 0 <= k < |knowledge| ==> Silent(knowledge[k].cells, knowledge[k].count)
      ensures !newInfo <==> knownSafes == {} && knownMines == {}
      ensures knownSafes == ShownSafes(knowledge) && knownMines == ShownMines(knowledge)
    {
      knownSafes := {};
      knownMines := {};
      newInfo := false;
      for k := 0 to |knowledge|
        invariant forall c :: c in knownSafes <==> exists l :: 0 <= l < k && c in knowledge[l].KnownSafes()
        invariant forall c :: c in knownMines <==> exists l :: 0 <= l < k && c in knowledge[l].KnownMines()
        invariant !newInfo <==> forall l :: 0 <= l < k ==> Silent(knowledge[l].cells, knowledge[l].count)
        invariant !newInfo <==> knownSafes == {} && knownMines == {}
      {
        var safeCells := knowledge[k].KnownSafes();
        var mineCells := knowledge[k].KnownMines();
        if safeCells != {} {
          knownSafes := knownSafes + safeCells;
          newInfo := true;
        }
        if mineCells != {} {
          knownMines := knownMines + mineCells;
          newInfo := true;
        }
      }
    }

    /** Marks every cell of `cells` safe, one after the other. */
    method MarkSafes(cells: set<Cell>, ghost truth: set<Cell>)
      modifies this, knowledge
      ensures safes == old(safes) + cells
      ensures mines == old(mines) && movesMade == old(movesMade) && knowledge == old(knowledge)
      ensures forall s :: s in knowledge ==> s.cells == old(s.cells) - cells && s.count == old(s.count)
      ensures old(Sound(truth)) && cells !! truth ==> Sound(truth)
    {
      var todo := cells;
      ghost var done := {};
      while todo != {}
        invariant done + todo == cells && done !! todo
        invariant safes == old(safes) + done
        invariant mines == old(mines) && movesMade == old(movesMade) && knowledge == old(knowledge)
        invariant forall s :: s in knowledge ==> s.cells == old(s.cells) - done && s.count == old(s.count)
        invariant old(Sound(truth)) && cells !! truth ==> Sound(truth)
      {
        var c :| c in todo;
        MarkSafe(c, truth);
        done := done + {c};
        todo := todo - {c};
      }
    }

    /**
     * Marks every cell of `cells` a mine, one after the other: each
     * sentence loses those cells and one from its count for each it loses.
     */
    method MarkMines(cells: set<Cell>, ghost truth: set<Cell>)
      modifies this, knowledge
      ensures mines == old(mines) + cells
      ensures safes == old(safes) && movesMade == old(movesMade) && knowledge == old(knowledge)
      ensures forall s :: s in knowledge ==>
        s.cells == old(s.cells) - cells && s.count == old(s.count) - |old(s.cells) * cells|
      ensures old(Sound(truth)) && cells <= truth ==> Sound(truth)
    {
      var todo := cells;
      while todo != {}
        invariant todo <= cells
        invariant mines == old(mines) + (cells - todo)
        invariant safes == old(safes) && movesMade == old(movesMade) && knowledge == old(knowledge)
        invariant forall s :: s in knowledge ==> s.cells <= old(s.cells) - (cells - todo) <= s.cells
        invariant forall s :: s in knowledge ==> s.count - |s.cells| == old(s.count) - |old(s.cells)|
        invariant old(Sound(truth)) && cells <= truth ==> Sound(truth)
      {
        var c :| c in todo;
        MarkMine(c, truth);
        todo := todo - {c};
      }
      forall s | s in knowledge
        ensures s.count == old(s.count) - |old(s.cells) * cells|
      {
        assert s.cells == old(s.cells) - cells;
        CardSplit(old(s.cells), cells);
        assert |s.cells| == |old(s.cells)| - |old(s.cells) * cells|;
      }
    }

    /**
     * Marks every cell of `knownSafes` safe and then every cell of
     * `knownMines` a mine: each sentence becomes its `Marked` form.
     */
    method MarkCells(knownSafes: set<Cell>, knownMines: set<Cell>, ghost truth: set<Cell>)
      modifies this, knowledge
      ensures safes == old(safes) + knownSafes && mines == old(mines) + knownMines
      ensures movesMade == old(movesMade) && knowledge == old(knowledge)
      ensures Facts(knowledge) == MarkEach(old(Facts(knowledge)), knownSafes, knownMines)
      ensures Said(knowledge) == MarkAll(old(Said(knowledge)), knownSafes, knownMines)
      ensures old(Sound(truth)) && knownSafes !! truth && knownMines <= truth ==> Sound(truth)
    {
      ghost var facts := Facts(knowledge);
      SaidFacts(knowledge);
      MarkSafes(knownSafes, truth);
      label safesMarked:
      MarkMines(knownMines, truth);
      forall k | 0 <= k < |knowledge| ensures Facts(knowledge)[k] == Marked(facts[k], knownSafes, knownMines) {
        var s := knowledge[k];
        assert s in knowledge;
        assert facts[k] == (old(s.cells), old(s.count));
        MarkedInSteps(old(s.cells), old(s.count), old@safesMarked(s.cells), old@safesMarked(s.count), s.cells, s.count, knownSafes, knownMines);
        assert Facts(knowledge)[k] == (s.cells, s.count);
      }
      assert Facts(knowledge) == MarkEach(facts, knownSafes, knownMines);
      SaidFacts(knowledge);
      MarkedFacts(facts, knownSafes, knownMines);
    }

    /**
     * For every pair of sentences the subset rule applies
     * to, the (cells, count) of the difference sentence, unless it is
     * already a sentence or already found in this pass.
     */
    method Differences() returns (pairs: seq<(set<Cell>, int)>)
      ensures Fresh(pairs)
      ensures forall p, q :: 0 <= p < |knowledge| && 0 <= q < |knowledge| && Derives(knowledge[p], knowledge[q]) ==>
        Difference(knowledge[p], knowledge[q]) in Said(knowledge) || Difference(knowledge[p], knowledge[q]) in pairs
    {
      pairs := [];
      for i := 0 to |knowledge|
        invariant Fresh(pairs)
        invariant forall p, q :: 0 <= p < i && 0 <= q < |knowledge| && Derives(knowledge[p], knowledge[q]) ==>
          Difference(knowledge[p], knowledge[q]) in Said(knowledge) || Difference(knowledge[p], knowledge[q]) in pairs
      {
        ghost var before := pairs;
        pairs := DifferencesWith(i, pairs);
        forall p, q | 0 <= p < i + 1 && 0 <= q < |knowledge| && Derives(knowledge[p], knowledge[q])
          ensures Difference(knowledge[p], knowledge[q]) in Said(knowledge) || Difference(knowledge[p], knowledge[q]) in pairs
        {
          var d := Difference(knowledge[p], knowledge[q]);
          if p < i && d !in Said(knowledge) {
            assert d in before;
          }
        }
      }
    }

    /**
     * The subset rule's new pairs, with what they add up to: together
     * with what is said they are everything the rule derives from it,
     * and there are none exactly when that adds nothing.
     */
    method NewSentences() returns (pairs: seq<(set<Cell>, int)>)
      ensures forall k :: 0 <= k < |pairs| ==> pairs[k] in Derived(Said(knowledge))
      ensures Said(knowledge) + (set v | v in pairs) == Said(knowledge) + Derived(Said(knowledge))
      ensures |pairs| > 0 <==> !(Derived(Said(knowledge)) <= Said(knowledge))
      ensures |pairs| == 0 ==> Closed(Said(knowledge))
    {
      pairs := Differences();
      ghost var said := Said(knowledge);
      PairsAreDerived(knowledge, pairs);
      DerivedArePairs(knowledge, pairs);
      CoverFromBoth(said, (set v | v in pairs), Derived(said));
      if |pairs| > 0 {
        assert pairs[0] in Derived(said) && pairs[0] !in said;
      } else {
        ClosedByPairs(knowledge);
      }
    }

    /**
     * The new differences found so far are each what the subset rule
     * makes of two sentences, none is a sentence yet, and none repeats.
     */
    ghost predicate Fresh(pairs: seq<(set<Cell>, int)>)
      reads this, knowledge
    {
      && (forall k :: 0 <= k < |pairs| ==> DerivedValue(knowledge, pairs[k]))
      && (forall k :: 0 <= k < |pairs| ==> pairs[k] !in Said(knowledge))
      && (forall k, l :: 0 <= k < l < |pairs| ==> pairs[k] != pairs[l])
    }

    /** The inner loop of the subset rule: sentence number `i` against every sentence. */
    method DifferencesWith(i: nat, pairs0: seq<(set<Cell>, int)>) returns (pairs: seq<(set<Cell>, int)>)
      requires i < |knowledge| && Fresh(pairs0)
      ensures Fresh(pairs) && forall d :: d in pairs0 ==> d in pairs
      ensures forall q :: 0 <= q < |knowledge| && Derives(knowledge[i], knowledge[q]) ==>
        Difference(knowledge[i], knowledge[q]) in Said(knowledge) || Difference(knowledge[i], knowledge[q]) in pairs
    {
      pairs := pairs0;
      for j := 0 to |knowledge|
        invariant Fresh(pairs) && forall d :: d in pairs0 ==> d in pairs
        invariant forall q :: 0 <= q < j && Derives(knowledge[i], knowledge[q]) ==>
          Difference(knowledge[i], knowledge[q]) in Said(knowledge) || Difference(knowledge[i], knowledge[q]) in pairs
      {
        var s1, s2 := knowledge[i], knowledge[j];
        if s1.cells != {} && s2.cells != {} && !s1.Equals(s2) && s1.cells <= s2.cells {
          var sentence := Difference(s1, s2);
          if !Mentions(knowledge, sentence.0, sentence.1) && sentence !in pairs {
            pairs := pairs + [sentence];
          }
        }
      }
    }

    /** One fresh sentence per pair, in order. */
    static method Build(pairs: seq<(set<Cell>, int)>) returns (found: seq<Sentence>)
      ensures |found| == |pairs|
      ensures forall k :: 0 <= k < |found| ==>
        fresh(found[k]) && found[k].cells == pairs[k].0 && found[k].count == pairs[k].1
      ensures Said(found) == set v | v in pairs
    {
      found := [];
      for k := 0 to |pairs|
        invariant |found| == k
        invariant forall l :: 0 <= l < k ==>
          fresh(found[l]) && found[l].cells == pairs[l].0 && found[l].count == pairs[l].1
      {
        var sentence := new Sentence(pairs[k].0, pairs[k].1);
        found := found + [sentence];
      }
      SaidFacts(found);
      assert Facts(found) == pairs;
    }

    /**
     * One pass of the inference loop of `add_knowledge`: mark what single
     * sentences give away, add the subset rule's new sentences, drop the
     * empty ones. Returns whether the pass found anything.
     */
    method InferenceRound(ghost truth: set<Cell>) returns (newInfo: bool, ghost shownSafes: set<Cell>, ghost shownMines: set<Cell>)
      modifies this, knowledge
      ensures movesMade == old(movesMade) && old(mines) <= mines && old(safes) <= safes
      ensures forall s :: s in knowledge ==> s in old(knowledge) || fresh(s)
      ensures forall k :: 0 <= k < |knowledge| ==> knowledge[k].cells != {}
      ensures old(Sound(truth)) ==> Sound(truth)
      ensures !newInfo ==> Settled()
      ensures shownSafes == old(ShownSafes(knowledge)) && shownMines == old(ShownMines(knowledge))
      ensures safes == old(safes) + shownSafes && mines == old(mines) + shownMines
      ensures shownSafes == SafesShownBy(old(Said(knowledge))) && shownMines == MinesShownBy(old(Said(knowledge)))
      ensures Said(knowledge) == Pass(old(Said(knowledge)))
      ensures newInfo <==> Informative(old(Said(knowledge)))
    {
      ShownBySaid(knowledge);
      ghost var said := Said(knowledge);
      ghost var safesShown, minesShown := ShownSafes(knowledge), ShownMines(knowledge);
      var marked, added;
      marked, shownSafes, shownMines := MarkKnown(truth);
      ghost var mid := Said(knowledge);
      assert mid == MarkAll(said, safesShown, minesShown);
      if !marked {
        SaidSilent(knowledge);
      }
      added := AddDifferences(truth);
      newInfo := marked || added;
      if !newInfo {
        SettledBy(mid);
      }
    }

    /** A closed list that a round of the subset rule left as it was, over silent pairs, is settled. */
    lemma SettledBy(mid: set<(set<Cell>, int)>)
      requires Said(knowledge) == Extend(mid) && Derived(mid) <= mid
      requires forall v :: v in mid ==> Silent(v.0, v.1)
      requires forall k :: 0 <= k < |knowledge| ==> knowledge[k].cells != {}
      requires Closed(Said(knowledge))
      ensures Settled()
    {
      ExtendKeepsSilent(mid);
      forall k | 0 <= k < |knowledge| ensures Silent(knowledge[k].cells, knowledge[k].count) {
        assert (knowledge[k].cells, knowledge[k].count) in Said(knowledge);
      }
    }

    /**
     * The first half of a pass of the inference loop in `add_knowledge`
     * (minesweeper.py:215-235): marks every cell some sentence shows safe,
     * then every cell some sentence shows to be a mine; returns whether
     * there were any.
     */
    method MarkKnown(ghost truth: set<Cell>) returns (newInfo: bool, ghost shownSafes: set<Cell>, ghost shownMines: set<Cell>)
      modifies this, knowledge
      ensures movesMade == old(movesMade) && knowledge == old(knowledge)
      ensures !newInfo ==> forall k :: 0 <= k < |knowledge| ==> Silent(knowledge[k].cells, knowledge[k].count)
      ensures old(Sound(truth)) ==> Sound(truth)
      ensures shownSafes == old(ShownSafes(knowledge)) && shownMines == old(ShownMines(knowledge))
      ensures newInfo <==> shownSafes != {} || shownMines != {}
      ensures safes == old(safes) + shownSafes && mines == old(mines) + shownMines
      ensures Facts(knowledge) == MarkEach(old(Facts(knowledge)), shownSafes, shownMines)
      ensures Said(knowledge) == MarkAll(old(Said(knowledge)), shownSafes, shownMines)
    {
      var knownSafes, knownMines;
      knownSafes, knownMines, newInfo := Collect();
      shownSafes, shownMines := knownSafes, knownMines;
      ghost var facts := Facts(knowledge);
      ghost var silent := forall k :: 0 <= k < |facts| ==> Silent(facts[k].0, facts[k].1);
      assert !newInfo ==> silent;
      ghost var sound := Sound(truth);
      assert old(Sound(truth)) ==> sound;
      if sound {
        ShownSound(knowledge, truth);
      }
      MarkCells(knownSafes, knownMines, truth);
      assert sound ==> Sound(truth);
      if !newInfo {
        // both sets were empty: marking them changed no sentence
        forall k | 0 <= k < |knowledge| ensures Silent(knowledge[k].cells, knowledge[k].count) {
          MarkedNothing(facts[k]);
          assert Facts(knowledge)[k] == facts[k];
        }
      }
    }

    /**
     * The second half of a pass of the inference loop in `add_knowledge`
     * (minesweeper.py:237-256): appends the subset rule's new sentences
     * and drops the empty ones; returns whether there were new sentences.
     */
    method AddDifferences(ghost truth: set<Cell>) returns (added: bool)
      modifies this
      ensures movesMade == old(movesMade) && mines == old(mines) && safes == old(safes)
      ensures forall s :: s in knowledge ==> s in old(knowledge) || fresh(s)
      ensures forall k :: 0 <= k < |knowledge| ==> knowledge[k].cells != {}
      ensures old(Sound(truth)) ==> Sound(truth)
      ensures !added ==> Closed(Said(knowledge))
      ensures !added ==> forall k :: 0 <= k < |knowledge| ==> knowledge[k] in old(knowledge)
      ensures added <==> !(Derived(old(Said(knowledge))) <= old(Said(knowledge)))
      ensures Said(knowledge) == Extend(old(Said(knowledge)))
    {
      ghost var said := Said(knowledge);
      var pairs := NewSentences();
      added := |pairs| > 0;
      ExtendBy(said, set v | v in pairs);
      if !added {
        NonEmptyKeepsClosed(knowledge);
        knowledge := NonEmpty(knowledge);
      } else {
        AppendSentences(pairs, truth);
      }
    }

    /**
     * Appends one new sentence per pair, each a difference the subset
     * rule forms from two sentences, and drops the empty sentences.
     */
    method AppendSentences(pairs: seq<(set<Cell>, int)>, ghost truth: set<Cell>)
      requires forall k :: 0 <= k < |pairs| ==> pairs[k] in Derived(Said(knowledge))
      modifies this`knowledge
      ensures forall s :: s in knowledge ==> s in old(knowledge) || fresh(s)
      ensures forall k :: 0 <= k < |knowledge| ==> knowledge[k].cells != {}
      ensures old(Sound(truth)) ==> Sound(truth)
      ensures Said(knowledge) == set v | v in old(Said(knowledge)) + (set v | v in pairs) && v.0 != {}
    {
      ghost var said := Said(knowledge);
      ghost var sound := Sound(truth);
      if sound {
        SaidTrue(knowledge, truth);
        PairsTrue(said, pairs, truth);
      }
      var next := Appended(knowledge, pairs);
      knowledge := next;
      assert sound ==> mines <= truth && safes !! truth;
      if sound {
        forall k | 0 <= k < |knowledge| ensures Holds(knowledge[k].cells, knowledge[k].count, truth) {
          assert (knowledge[k].cells, knowledge[k].count) in Said(knowledge);
        }
      }
    }

    /** The sentences of `ks` followed by one fresh sentence per pair, the empty ones dropped. */
    static method Appended(ks: seq<Sentence>, pairs: seq<(set<Cell>, int)>) returns (next: seq<Sentence>)
      ensures forall s :: s in next ==> s in ks || fresh(s)
      ensures forall k :: 0 <= k < |next| ==> next[k].cells != {}
      ensures Said(next) == set v | v in Said(ks) + (set v | v in pairs) && v.0 != {}
    {
      ghost var said := Said(ks);
      var found := Build(pairs);
      assert Said(ks) == said;
      SaidConcat(ks, found);
      next := NonEmpty(ks + found);
    }

    /**
     * `add_knowledge` (minesweeper.py:177-258): records the move, marks the cell safe, adds the
     * sentence its count gives (`Record`), and runs the inference loop (`Infer`) on what
     * is then said, `start`.
     */
    method AddKnowledge(cell: Cell, count: int, fuel: nat, ghost truth: set<Cell>)
      returns (ghost settled: bool, ghost start: set<(set<Cell>, int)>, ghost passes: nat)
      modifies this, knowledge
      ensures movesMade == old(movesMade) + {cell}
      ensures cell in safes && old(safes) <= safes && old(mines) <= mines
      ensures forall s :: s in knowledge ==> s in old(knowledge) || fresh(s)
      ensures fuel > 0 ==> forall k :: 0 <= k < |knowledge| ==> knowledge[k].cells != {}
      ensures settled ==> Settled()
      ensures old(Sound(truth)) && cell !in truth && count == |Neighbourhood(height, width, cell) * truth| ==> Sound(truth)
      ensures start == MarkAll(old(Said(knowledge)), {cell}, {}) + Recorded(Neighbourhood(height, width, cell), count, old(mines), old(safes) + {cell})
      ensures passes <= fuel && (!settled ==> passes == fuel)
      ensures Said(knowledge) == Passes(start, passes)
      ensures safes == old(safes) + {cell} + SafesFound(start, passes) && mines == old(mines) + MinesFound(start, passes)
      ensures forall i :: 0 <= i < passes - 1 ==> Informative(Passes(start, i))
      ensures settled <==> passes > 0 && !Informative(Passes(start, passes - 1))
    {
      Record(cell, count, truth);
      assert forall k :: 0 <= k < |knowledge| ==> knowledge[k] in old(knowledge) || fresh(knowledge[k]);
      settled, start, passes := Infer(fuel, truth);
    }

    /**
     * The first steps of `add_knowledge`: the move is recorded, the cell is
     * marked safe in every sentence, and the sentence its count gives is added.
     */
    method Record(cell: Cell, count: int, ghost truth: set<Cell>)
      modifies this, knowledge
      ensures movesMade == old(movesMade) + {cell}
      ensures safes == old(safes) + {cell} && mines == old(mines)
      ensures forall s :: s in knowledge ==> s in old(knowledge) || fresh(s)
      ensures old(Sound(truth)) && cell !in truth && count == |Neighbourhood(height, width, cell) * truth| ==> Sound(truth)
      ensures Said(knowledge) == MarkAll(old(Said(knowledge)), {cell}, {}) + Recorded(Neighbourhood(height, width, cell), count, old(mines), old(safes) + {cell})
    {
      ghost var facts := Facts(knowledge);
      SaidFacts(knowledge);
      ghost var told := Said(knowledge);
      ghost var sound := Sound(truth);
      movesMade := movesMade + {cell};
      assert Sound(truth) == sound;
      MarkSafe(cell, truth);
      ghost var marksound := Sound(truth);
      assert sound && cell !in truth ==> marksound;
      forall k | 0 <= k < |knowledge| ensures knowledge[k].cells == facts[k].0 - {cell} && knowledge[k].count == facts[k].1 {
        assert knowledge[k] in knowledge;
      }
      MarkedSafeSaid(facts, knowledge, cell);
      ghost var marked := Said(knowledge);
      assert marked == MarkAll(told, {cell}, {});
      ghost var safes1, mines1 := safes, mines;
      assert safes1 == old(safes) + {cell} && mines1 == old(mines);
      AddCountSentence(cell, count, truth);
      assert safes == safes1 && mines == mines1;
      assert marksound && count == |Neighbourhood(height, width, cell) * truth| ==> Sound(truth);
      assert Said(knowledge) == marked + Recorded(Neighbourhood(height, width, cell), count, mines, safes);
    }

    /**
     * The sentence the revealed count gives, over the
     * neighbours not yet known either way and with the known mines among
     * them taken off the count, appended unless it has no cells.
     */
    method AddCountSentence(cell: Cell, count: int, ghost truth: set<Cell>)
      modifies this`knowledge
      ensures mines == old(mines) && safes == old(safes)
      ensures forall s :: s in knowledge ==> s in old(knowledge) || fresh(s)
      ensures Neighbourhood(height, width, cell) - mines - safes == {} ==> knowledge == old(knowledge)
      ensures Neighbourhood(height, width, cell) - mines - safes != {} ==>
        && |knowledge| == |old(knowledge)| + 1 && knowledge[..|old(knowledge)|] == old(knowledge)
        && knowledge[|old(knowledge)|].cells == Neighbourhood(height, width, cell) - mines - safes
        && knowledge[|old(knowledge)|].count == count - |mines * Neighbourhood(height, width, cell)|
      ensures old(Sound(truth)) && count == |Neighbourhood(height, width, cell) * truth| ==> Sound(truth)
      ensures Said(knowledge) == old(Said(knowledge)) + Recorded(Neighbourhood(height, width, cell), count, mines, safes)
    {
      ghost var told := Said(knowledge);
      var neighbors := NeighbourCells(cell);
      var unknown, remaining := Unknown(neighbors, count);
      if unknown != {} {
        var sentence := new Sentence(unknown, remaining);
        ghost var before := knowledge;
        assert Said(before) == told;
        knowledge := knowledge + [sentence];
        SaidAppend(before, sentence);
        RecordedOne(neighbors, count, mines, safes, sentence);
        assert Said(knowledge) == told + Recorded(neighbors, count, mines, safes);
        if old(Sound(truth)) && count == |neighbors * truth| {
          NewSentenceTrue(neighbors, count, mines, safes, truth);
          AppendTrue(before, sentence, truth);
        }
      }
    }

    /**
     * Pass number `round + 1` of the inference loop started on `start`
     * with the safes and mines `safes0` and `mines0`.
     */
    method NextPass(ghost start: set<(set<Cell>, int)>, ghost round: nat, ghost safes0: set<Cell>, ghost mines0: set<Cell>, ghost truth: set<Cell>)
      returns (newInfo: bool)
      requires Ran(start, round, safes0, mines0)
      modifies this, knowledge
      ensures movesMade == old(movesMade) && old(mines) <= mines && old(safes) <= safes
      ensures forall s :: s in knowledge ==> s in old(knowledge) || fresh(s)
      ensures forall k :: 0 <= k < |knowledge| ==> knowledge[k] in old(knowledge) || fresh(knowledge[k])
      ensures forall k :: 0 <= k < |knowledge| ==> knowledge[k].cells != {}
      ensures old(Sound(truth)) ==> Sound(truth)
      ensures !newInfo ==> Settled()
      ensures Ran(start, round + 1, safes0, mines0)
      ensures newInfo <==> Informative(Passes(start, round))
    {
      ghost var shownSafes, shownMines;
      newInfo, shownSafes, shownMines := InferenceRound(truth);
      PassStep(start, round);
      assert Said(knowledge) == Passes(start, round + 1);
      assert safes == safes0 + SafesFound(start, round + 1);
      assert mines == mines0 + MinesFound(start, round + 1);
    }

    /**
     * The inference loop of `add_knowledge`: inference passes until one
     * finds nothing new, or until `fuel` passes have run. `settled` tells
     * which, and `passes` counts the passes made from `start`, what was
     * said on entry.
     */
    method Infer(fuel: nat, ghost truth: set<Cell>) returns (ghost settled: bool, ghost start: set<(set<Cell>, int)>, ghost passes: nat)
      modifies this, knowledge
      ensures start == old(Said(knowledge))
      ensures movesMade == old(movesMade) && old(safes) <= safes && old(mines) <= mines
      ensures forall s :: s in knowledge ==> s in old(knowledge) || fresh(s)
      ensures fuel > 0 ==> forall k :: 0 <= k < |knowledge| ==> knowledge[k].cells != {}
      ensures settled ==> Settled()
      ensures old(Sound(truth)) ==> Sound(truth)
      ensures passes <= fuel && (!settled ==> passes == fuel)
      ensures Said(knowledge) == Passes(start, passes)
      ensures safes == old(safes) + SafesFound(start, passes) && mines == old(mines) + MinesFound(start, passes)
      ensures forall i :: 0 <= i < passes - 1 ==> Informative(Passes(start, i))
      ensures settled <==> passes > 0 && !Informative(Passes(start, passes - 1))
    {
      start := Said(knowledge);
      settled := false;
      var round := 0;
      while round < fuel
        invariant round <= fuel
        invariant movesMade == old(movesMade) && old(safes) <= safes && old(mines) <= mines
        invariant forall s :: s in knowledge ==> s in old(knowledge) || fresh(s)
        invariant forall k :: 0 <= k < |knowledge| ==> knowledge[k] in old(knowledge) || fresh(knowledge[k])
        invariant round > 0 ==> forall k :: 0 <= k < |knowledge| ==> knowledge[k].cells != {}
        invariant old(Sound(truth)) ==> Sound(truth)
        invariant !settled
        invariant Ran(start, round, old(safes), old(mines))
        invariant forall i :: 0 <= i < round ==> Informative(Passes(start, i))
      {
        var newInfo := NextPass(start, round, old(safes), old(mines), truth);
        if newInfo {
          InformativeStep(start, round);
        }
        round := round + 1;
        if !newInfo {
          settled := true;
          break;
        }
      }
      passes := round;
      assert Said(knowledge) == Passes(start, passes);
      assert safes == old(safes) + SafesFound(start, passes) && mines == old(mines) + MinesFound(start, passes);
    }

    /** A cell known to be safe and not yet clicked, if there is one. */
    method MakeSafeMove() returns (move: Option<Cell>)
      ensures move.Some? ==> move.value in safes && move.value !in movesMade
      ensures move.None? <==> safes <= movesMade
    {
      var todo := safes;
      while todo != {}
        invariant todo <= safes && safes - todo <= movesMade
      {
        var c :| c in todo;
        if c !in movesMade {
          return Some(c);
        }
        todo := todo - {c};
      }
      return None;
    }

    /** Every cell of the board. */
    function AllMoves(): (r: set<Cell>)
      ensures forall c :: c in r <==> InBoard(height, width, c)
    {
      set i, j | 0 <= i < height && 0 <= j < width :: (i, j)
    }

    /**
     * Some cell of the board that is neither clicked nor known to be a
     * mine, if there is one; which one is left open, standing for the
     * arbitrary element `set.pop` returns.
     */
    method MakeRandomMove() returns (move: Option<Cell>)
      ensures move.Some? ==> InBoard(height, width, move.value) && move.value !in mines && move.value !in movesMade
      ensures move.None? <==> forall c :: InBoard(height, width, c) ==> c in mines || c in movesMade
    {
      var possible := AllMoves() - mines - movesMade;
      assert forall c :: InBoard(height, width, c) ==> c in AllMoves();
      if possible != {} {
        var c :| c in possible;
        return Some(c);
      }
      assert forall c :: InBoard(height, width, c) ==> c in possible || c in mines || c in movesMade;
      return None;
    }
  }

  /** A mine that was not yet taken out adds one to the cells of `old` already counted. */
  lemma {:induction false} OneMore(cells: set<Cell>, done: set<Cell>, c: Cell)
    requires c !in done
    ensures |cells * (done + {c})| == |cells * done| + if c in cells then 1 else 0
  {
    if c in cells {
      assert cells * (done + {c}) == cells * done + {c};
    } else {
      assert cells * (done + {c}) == cells * done;
    }
  }

}

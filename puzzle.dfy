/**
 * The puzzle a crossword solver works on: word slots (variables), the
 * overlap table between every two slots, and the word list. The module
 * that parses a grid file into this description is not part of this
 * model; what the solver relies on is collected in WellFormed.
 *
 * The predicates here are the specification the solver in module
 * Generate is proved against.
 */
module Puzzle {
  import opened Optional

  datatype Direction = Across | Down

  /** A word slot: starting row i, starting column j, direction, length. */
  datatype Variable = Variable(i: int, j: int, direction: Direction, length: nat)

  type Word = string

  /** (p, q): letter p of the first slot sits in the same cell as letter q of the second. */
  type Overlap = (nat, nat)

  /** The candidate words of each slot. */
  type Domains = map<Variable, set<Word>>

  /** A partial assignment of words to slots. */
  type Bindings = map<Variable, Word>

  datatype Crossword = Crossword(
    height: nat,
    width: nat,
    variables: set<Variable>,
    overlaps: map<(Variable, Variable), Option<Overlap>>,
    words: set<Word>)

  /** The grid cell of letter k of slot v. */
  function CellOf(v: Variable, k: int): (int, int) {
    if v.direction == Down then (v.i + k, v.j) else (v.i, v.j + k)
  }

  predicate InGrid(cw: Crossword, cell: (int, int)) {
    0 <= cell.0 < cw.height && 0 <= cell.1 < cw.width
  }

  /** What the grid parser guarantees about the puzzle it hands over. */
  ghost predicate WellFormed(cw: Crossword) {
    // every slot lies inside the grid
    && (forall v, k {:trigger CellOf(v, k)} :: v in cw.variables && 0 <= k < v.length ==> InGrid(cw, CellOf(v, k)))
    // the overlap table has an entry for every ordered pair of distinct slots
    && (forall v1, v2 :: (v1, v2) in cw.overlaps <==> v1 in cw.variables && v2 in cw.variables && v1 != v2)
    // an overlap names a letter of each slot
    && (forall v1, v2 :: (v1, v2) in cw.overlaps && cw.overlaps[(v1, v2)].Some? ==>
          cw.overlaps[(v1, v2)].value.0 < v1.length && cw.overlaps[(v1, v2)].value.1 < v2.length)
    // and those two letters are exactly the cell the slots share
    && (forall v1, v2, p: nat, q: nat {:trigger CellOf(v1, p), CellOf(v2, q)} ::
          (v1, v2) in cw.overlaps && p < v1.length && q < v2.length ==>
            (CellOf(v1, p) == CellOf(v2, q) <==> cw.overlaps[(v1, v2)] == Some((p, q))))
  }

  /** `overlaps[x, y]`, with pairs outside the table read as no overlap. */
  function OverlapOf(cw: Crossword, x: Variable, y: Variable): Option<Overlap> {
    if (x, y) in cw.overlaps then cw.overlaps[(x, y)] else None
  }

  function Flip(ov: Option<Overlap>): Option<Overlap> {
    match ov
    case None => None
    case Some((p, q)) => Some((q, p))
  }

  /** The slots that share a cell with v. */
  function Neighbors(cw: Crossword, v: Variable): set<Variable> {
    set w | w in cw.variables && w != v && OverlapOf(cw, w, v).Some?
  }

  /** The overlap table of a well-formed puzzle reads the same from either side. */
  lemma OverlapSymmetric(cw: Crossword, x: Variable, y: Variable)
    requires WellFormed(cw)
    ensures OverlapOf(cw, y, x) == Flip(OverlapOf(cw, x, y))
  {
    if OverlapOf(cw, x, y).Some? {
      OverlapFlips(cw, x, y);
    } else if OverlapOf(cw, y, x).Some? {
      OverlapFlips(cw, y, x);
    }
  }

  lemma OverlapFlips(cw: Crossword, x: Variable, y: Variable)
    requires WellFormed(cw) && OverlapOf(cw, x, y).Some?
    ensures OverlapOf(cw, y, x) == Flip(OverlapOf(cw, x, y))
  {
    var ov := cw.overlaps[(x, y)].value;
    assert CellOf(x, ov.0) == CellOf(y, ov.1);
    assert (y, x) in cw.overlaps;
    assert cw.overlaps[(y, x)] == Some((ov.1, ov.0));
  }

  /** y is a neighbour of x exactly when x is a neighbour of y. */
  lemma NeighborsSymmetric(cw: Crossword, x: Variable, y: Variable)
    requires WellFormed(cw)
    ensures y in Neighbors(cw, x) <==> x in Neighbors(cw, y)
  {
    OverlapSymmetric(cw, x, y);
  }

  /** Letter i of u equals letter j of w (false when either index is out of range). */
  predicate Fits(u: Word, i: nat, w: Word, j: nat) {
    i < |u| && j < |w| && u[i] == w[j]
  }

  /** Every candidate has the length of its slot. */
  ghost predicate NodeConsistent(D: Domains) {
    forall v, w :: v in D && w in D[v] ==> |w| == v.length
  }

  /** Each domain of D2 is a subset of the same domain of D1. */
  ghost predicate Shrunk(D2: Domains, D1: Domains) {
    D2.Keys == D1.Keys && forall v :: v in D2 ==> D2[v] <= D1[v]
  }

  /** wx, a candidate of x, has a partner in y's domain at their overlap (or x and y do not overlap). */
  ghost predicate Supported(cw: Crossword, D: Domains, x: Variable, y: Variable, wx: Word) {
    match OverlapOf(cw, x, y)
    case None => true
    case Some(ov) => y in D && exists wy :: wy in D[y] && Fits(wx, ov.0, wy, ov.1)
  }

  /** The arc (x, y) is consistent: every candidate of x is supported in y. */
  ghost predicate ArcConsistent(cw: Crossword, D: Domains, x: Variable, y: Variable) {
    x in D ==> forall wx :: wx in D[x] ==> Supported(cw, D, x, y, wx)
  }

  /** What `revise(x, y)` leaves: x keeps exactly its supported candidates. */
  ghost function Pruned(cw: Crossword, D: Domains, x: Variable, y: Variable): (r: Domains)
    requires x in D && x != y
    ensures Shrunk(r, D)
    ensures forall v :: v in D && v != x ==> r[v] == D[v]
    ensures ArcConsistent(cw, r, x, y)
  {
    D[x := set wx | wx in D[x] && Supported(cw, D, x, y, wx)]
  }

  /** Revising x against y cannot break a consistent arc, except an arc (n, x) with n != y after x shrank. */
  lemma PrunedKeepsArc(cw: Crossword, D: Domains, x: Variable, y: Variable, a: Variable, b: Variable)
    requires WellFormed(cw) && x in D && y in D && x != y
    requires ArcConsistent(cw, D, a, b)
    requires b != x || a == y || Pruned(cw, D, x, y)[x] == D[x]
    ensures ArcConsistent(cw, Pruned(cw, D, x, y), a, b)
  {
    var r := Pruned(cw, D, x, y);
    if b != x {
      forall wa | a in r && wa in r[a] ensures Supported(cw, r, a, b, wa) {
        assert Supported(cw, D, a, b, wa);
      }
    } else if r[x] == D[x] {
      assert r == D;
    } else {
      // b == x and a == y: a partner of y's word in x supports itself back
      OverlapSymmetric(cw, x, y);
      forall wy | wy in r[y] ensures Supported(cw, r, y, x, wy) {
        assert Supported(cw, D, y, x, wy);
        if OverlapOf(cw, y, x).Some? {
          var ov := OverlapOf(cw, y, x).value;
          var wx :| wx in D[x] && Fits(wy, ov.0, wx, ov.1);
          assert Fits(wx, ov.1, wy, ov.0);
          assert Supported(cw, D, x, y, wx);
          assert wx in r[x];
        }
      }
    }
  }

  /** Keys are exactly the puzzle's slots. */
  ghost predicate Covers(cw: Crossword, D: Domains) {
    D.Keys == cw.variables
  }

  /** `assignment_complete`: every slot has a word. */
  function Complete(cw: Crossword, a: Bindings): (r: bool)
    ensures r <==> cw.variables <= a.Keys
  {
    forall v :: v in cw.variables ==> v in a
  }

  /** Two bound neighbours agree at their overlap. */
  ghost predicate Agree(cw: Crossword, a: Bindings, v: Variable, w: Variable)
    requires v in a && w in a
  {
    match OverlapOf(cw, v, w)
    case None => true
    case Some(ov) => Fits(a[v], ov.0, a[w], ov.1)
  }

  /**
   * `consistent`: every bound word has its slot's length, no word is bound
   * twice, and bound neighbours agree at their overlap.
   */
  ghost predicate IsConsistent(cw: Crossword, a: Bindings) {
    && (forall v :: v in a ==> |a[v]| == v.length)
    && (forall v, w :: v in a && w in a && v != w ==> a[v] != a[w])
    && (forall v, w :: v in a && w in a && w in Neighbors(cw, v) ==> Agree(cw, a, v, w))
  }

  /** s keeps every binding of a. */
  ghost predicate Extends(s: Bindings, a: Bindings) {
    forall v :: v in a ==> v in s && s[v] == a[v]
  }

  /** s solves the puzzle using only candidates from D. */
  ghost predicate SolutionWithin(cw: Crossword, s: Bindings, D: Domains) {
    && s.Keys == cw.variables
    && IsConsistent(cw, s)
    && forall v :: v in s ==> v in D && s[v] in D[v]
  }

  /** Every solution inside D1 is still inside D2. */
  ghost predicate KeepsSolutions(cw: Crossword, D1: Domains, D2: Domains) {
    forall s :: SolutionWithin(cw, s, D1) ==> SolutionWithin(cw, s, D2)
  }

  /** No solution inside D keeps every binding of a. */
  ghost predicate NoSolutionExtends(cw: Crossword, D: Domains, a: Bindings) {
    forall s :: SolutionWithin(cw, s, D) ==> !Extends(s, a)
  }

  /** Binding an unbound slot leaves fewer unbound slots. */
  lemma BindingShrinksUnbound(vars: set<Variable>, a: Bindings, x: Variable, w: Word)
    requires x in vars && x !in a
    ensures |vars - a[x := w].Keys| < |vars - a.Keys|
  {
    var after := vars - a[x := w].Keys;
    assert vars - a.Keys == after + {x};
    assert x !in after;
  }

  /** Whatever keeps a with x bound to w keeps a, and binds x to w. */
  lemma ExtendsBound(s: Bindings, a: Bindings, x: Variable, w: Word)
    requires x !in a && Extends(s, a[x := w])
    ensures Extends(s, a) && x in s && s[x] == w
  {
    forall v | v in a ensures v in s && s[v] == a[v] {
      assert v in a[x := w];
    }
  }

  /** Popping the slot just bound gives back the assignment before it. */
  lemma UnbindRestores(a: Bindings, x: Variable, w: Word)
    requires x !in a
    ensures a[x := w] - {x} == a
  {
  }

  /**
   * s completes the partial assignment a: every slot is bound, a's bindings
   * are kept, every slot s adds took a word from D, and s is consistent
   * whenever a was.
   */
  ghost predicate CompletedFrom(cw: Crossword, D: Domains, a: Bindings, s: Bindings) {
    && Complete(cw, s)
    && Extends(s, a)
    && (forall v :: v in s && v !in a ==> v in cw.variables && v in D && s[v] in D[v])
    && (IsConsistent(cw, a) ==> IsConsistent(cw, s))
  }

  /**
   * A consistent completion found below the binding x := w, drawing on the
   * domains Dn of that moment, completes `a` from the earlier, larger D0.
   */
  lemma CompletedBelow(cw: Crossword, s: Bindings, a: Bindings, x: Variable, w: Word, D0: Domains, Dn: Domains)
    requires x !in a && Extends(s, a[x := w]) && Complete(cw, s) && IsConsistent(cw, s)
    requires Shrunk(Dn, D0) && Dn.Keys == cw.variables && x in cw.variables && w in D0[x]
    requires forall v :: v in s && v !in a && v != x ==> v in cw.variables && s[v] in Dn[v]
    ensures CompletedFrom(cw, D0, a, s)
  {
    ExtendsBound(s, a, x, w);
  }

  lemma ShrunkTransitive(D0: Domains, D1: Domains, D2: Domains)
    requires Shrunk(D1, D0) && Shrunk(D2, D1)
    ensures Shrunk(D2, D0)
  {
  }

  lemma KeepsTransitive(cw: Crossword, D0: Domains, D1: Domains, D2: Domains)
    requires KeepsSolutions(cw, D0, D1) && KeepsSolutions(cw, D1, D2)
    ensures KeepsSolutions(cw, D0, D2)
  {
  }

  /** What has no solution inside the pruned domains had none before pruning. */
  lemma NoSolutionBack(cw: Crossword, D0: Domains, D1: Domains, a: Bindings)
    requires KeepsSolutions(cw, D0, D1) && NoSolutionExtends(cw, D1, a)
    ensures NoSolutionExtends(cw, D0, a)
  {
  }

  /** A slot without candidates leaves nothing to solve. */
  lemma EmptyDomainHasNoSolution(cw: Crossword, D: Domains, x: Variable, a: Bindings)
    requires Covers(cw, D) && x in D && D[x] == {}
    ensures NoSolutionExtends(cw, D, a)
  {
    forall s ensures !SolutionWithin(cw, s, D) {
      if s.Keys == cw.variables {
        assert x in s && s[x] !in D[x];
      }
    }
  }

  /** With nothing bound yet, "no solution extends it" means no solution at all. */
  lemma NoSolutionAtAll(cw: Crossword, D: Domains)
    requires NoSolutionExtends(cw, D, map[])
    ensures forall s :: !SolutionWithin(cw, s, D)
  {
    forall s ensures !SolutionWithin(cw, s, D) {
      assert Extends(s, map[]);
    }
  }

  /** Dropping only words of the wrong length loses no solution. */
  lemma LengthFilterKeepsSolutions(cw: Crossword, D: Domains, D1: Domains)
    requires D1.Keys == D.Keys
    requires forall v, w :: v in D1 && w in D[v] && |w| == v.length ==> w in D1[v]
    ensures KeepsSolutions(cw, D, D1)
  {
    forall s | SolutionWithin(cw, s, D) ensures SolutionWithin(cw, s, D1) {
      forall v | v in s ensures v in D1 && s[v] in D1[v] {
        assert |s[v]| == v.length;
      }
    }
  }

  /** Part of a consistent assignment is consistent. */
  lemma {:induction false} ConsistentPart(cw: Crossword, s: Bindings, a: Bindings)
    requires IsConsistent(cw, s) && Extends(s, a)
    ensures IsConsistent(cw, a)
  {
    forall v, w | v in a && w in a && w in Neighbors(cw, v) ensures Agree(cw, a, v, w) {
      assert Agree(cw, s, v, w);
    }
  }

  /** An inconsistent partial assignment has no completion. */
  lemma InconsistentHasNoSolution(cw: Crossword, D: Domains, a: Bindings)
    requires !IsConsistent(cw, a)
    ensures NoSolutionExtends(cw, D, a)
  {
    forall s | SolutionWithin(cw, s, D) && Extends(s, a) ensures false {
      ConsistentPart(cw, s, a);
    }
  }

  /**
   * Trying every candidate of an unbound slot x is exhaustive: if no
   * solution extends a with any word of D[x] at x, none extends a.
   */
  lemma {:induction false} TriedAll(cw: Crossword, D: Domains, a: Bindings, x: Variable)
    requires x in cw.variables && x in D && x !in a
    requires forall w :: w in D[x] ==> NoSolutionExtends(cw, D, a[x := w])
    ensures NoSolutionExtends(cw, D, a)
  {
    forall s | SolutionWithin(cw, s, D) ensures !Extends(s, a) {
      assert s[x] in D[x];
      assert !Extends(s, a[x := s[x]]);
    }
  }

  /** TriedAll, for a list of candidates that holds every word of D[x]. */
  lemma TriedEvery(cw: Crossword, D: Domains, a: Bindings, x: Variable, values: seq<Word>)
    requires x in cw.variables && x in D && x !in a
    requires multiset(values) == multiset(D[x])
    requires forall m :: 0 <= m < |values| ==> NoSolutionExtends(cw, D, a[x := values[m]])
    ensures NoSolutionExtends(cw, D, a)
  {
    forall w | w in D[x] ensures NoSolutionExtends(cw, D, a[x := w]) {
      assert w in multiset(values);
      var m :| 0 <= m < |values| && values[m] == w;
    }
    TriedAll(cw, D, a, x);
  }

  /** Some letter of some bound word lands in `cell`. */
  ghost predicate Covered(a: Bindings, cell: (int, int)) {
    exists v, k :: v in a && 0 <= k < |a[v]| && CellOf(v, k) == cell
  }

  /** Some bound word puts letter `ch` in `cell`. */
  ghost predicate LetterAt(a: Bindings, cell: (int, int), ch: char) {
    exists v, k :: v in a && 0 <= k < |a[v]| && CellOf(v, k) == cell && a[v][k] == ch
  }

  /** Two letters that land in the same cell are the same letter. */
  ghost predicate Coherent(a: Bindings) {
    forall v, w, k, l :: v in a && w in a && 0 <= k < |a[v]| && 0 <= l < |a[w]| && CellOf(v, k) == CellOf(w, l) ==>
      a[v][k] == a[w][l]
  }

  /** A consistent assignment of the puzzle's slots never puts two letters in one cell. */
  lemma ConsistentIsCoherent(cw: Crossword, a: Bindings)
    requires WellFormed(cw) && a.Keys <= cw.variables && IsConsistent(cw, a)
    ensures Coherent(a)
  {
    forall v, w, k, l | v in a && w in a && 0 <= k < |a[v]| && 0 <= l < |a[w]| && CellOf(v, k) == CellOf(w, l)
      ensures a[v][k] == a[w][l]
    {
      if v != w {
        assert OverlapOf(cw, v, w) == Some((k, l));
        OverlapSymmetric(cw, v, w);
        assert w in Neighbors(cw, v);
        assert Agree(cw, a, v, w);
      }
    }
  }

  /** Revising never drops a word that some solution inside the domains uses. */
  lemma PrunedKeepsSolutions(cw: Crossword, D: Domains, x: Variable, y: Variable)
    requires WellFormed(cw) && x in D && x != y
    ensures KeepsSolutions(cw, D, Pruned(cw, D, x, y))
  {
    var r := Pruned(cw, D, x, y);
    forall s | SolutionWithin(cw, s, D) ensures SolutionWithin(cw, s, r) {
      if OverlapOf(cw, x, y).Some? {
        var ov := OverlapOf(cw, x, y).value;
        OverlapSymmetric(cw, x, y);
        assert x in Neighbors(cw, y);
        assert Agree(cw, s, x, y) by {
          NeighborsSymmetric(cw, x, y);
        }
        assert Fits(s[x], ov.0, s[y], ov.1);
        assert Supported(cw, D, x, y, s[x]);
      }
    }
  }

  /** The set of (slot, word) candidates; it shrinks strictly whenever a revision removes a word. */
  ghost function Candidates(D: Domains): set<(Variable, Word)> {
    set v, w | v in D && w in D[v] :: (v, w)
  }

  lemma CandidatesShrink(D2: Domains, D1: Domains, x: Variable)
    requires Shrunk(D2, D1) && x in D1 && D2[x] != D1[x]
    ensures Candidates(D2) < Candidates(D1)
  {
    var w :| w in D1[x] && w !in D2[x];
    assert (x, w) in Candidates(D1);
    assert (x, w) !in Candidates(D2);
  }

  /** Words of neighbour n that choosing `value` for x would rule out (none for bound or non-overlapping n). */
  function ConflictsWith(cw: Crossword, D: Domains, x: Variable, value: Word, n: Variable, a: Bindings): nat {
    if n in a || n !in D then 0
    else match OverlapOf(cw, x, n)
      case None => 0
      case Some(ov) => |set w | w in D[n] && !Fits(value, ov.0, w, ov.1)|
  }

  /** Sum of ConflictsWith over the slots in ns. */
  ghost function RuledOutOver(cw: Crossword, D: Domains, x: Variable, value: Word, a: Bindings, ns: set<Variable>): nat
  {
    if ns == {} then 0
    else
      var n :| n in ns;
      ConflictsWith(cw, D, x, value, n, a) + RuledOutOver(cw, D, x, value, a, ns - {n})
  }

  /** The least-constraining-value key of `value` for slot x. */
  ghost function RuledOut(cw: Crossword, D: Domains, x: Variable, value: Word, a: Bindings): nat {
    RuledOutOver(cw, D, x, value, a, Neighbors(cw, x))
  }

  /** The sum does not depend on which slot is taken out first. */
  lemma {:induction false} RuledOutOverRemove(cw: Crossword, D: Domains, x: Variable, value: Word, a: Bindings,
                                              ns: set<Variable>, m: Variable)
    requires m in ns
    ensures RuledOutOver(cw, D, x, value, a, ns)
         == ConflictsWith(cw, D, x, value, m, a) + RuledOutOver(cw, D, x, value, a, ns - {m})
    decreases |ns|
  {
    var n :| n in ns && RuledOutOver(cw, D, x, value, a, ns)
      == ConflictsWith(cw, D, x, value, n, a) + RuledOutOver(cw, D, x, value, a, ns - {n});
    if n != m {
      RuledOutOverRemove(cw, D, x, value, a, ns - {n}, m);
      RuledOutOverRemove(cw, D, x, value, a, ns - {m}, n);
      assert ns - {n} - {m} == ns - {m} - {n};
    }
  }
}

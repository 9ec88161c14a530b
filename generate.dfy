/**
 * The crossword generator (CrosswordCreator in generate.py): node
 * consistency, AC-3 arc consistency, and backtracking search that
 * maintains arc consistency, over a domain map it updates in place.
 */
module Generate {
  import opened Optional
  import opened Puzzle
  import opened Collections

  type Arc = (Variable, Variable)

  /** The arc (x, y) was in the initial work list of `ac3` (every arc when none was given). */
  predicate Seeded(arcs: Option<seq<Arc>>, x: Variable, y: Variable) {
    arcs.None? || (x, y) in arcs.value
  }

  /** An arc `ac3` must leave consistent: a real arc that was seeded or already consistent. */
  ghost predicate Tracked(cw: Crossword, D0: Domains, arcs: Option<seq<Arc>>, x: Variable, y: Variable) {
    y in Neighbors(cw, x) && (Seeded(arcs, x, y) || ArcConsistent(cw, D0, x, y))
  }

  /**
   * One step of AC-3: once the front arc (x, y) is revised, each tracked arc
   * is consistent or waiting in the next queue, provided the next queue keeps
   * the rest of the old one and, when x shrank, holds every (n, x), n != y.
   */
  lemma ReviseStep(cw: Crossword, D0: Domains, arcs: Option<seq<Arc>>, D: Domains,
                   x: Variable, y: Variable, queue: seq<Arc>, next: seq<Arc>)
    requires WellFormed(cw) && Covers(cw, D) && (x, y) in cw.overlaps
    requires |queue| > 0 && queue[0] == (x, y)
    requires forall v, w :: Tracked(cw, D0, arcs, v, w) ==> ArcConsistent(cw, D, v, w) || (v, w) in queue
    requires forall arc :: arc in queue[1..] ==> arc in next
    requires Pruned(cw, D, x, y)[x] != D[x] ==> forall n :: n in Neighbors(cw, x) && n != y ==> (n, x) in next
    ensures forall v, w :: Tracked(cw, D0, arcs, v, w) ==> ArcConsistent(cw, Pruned(cw, D, x, y), v, w) || (v, w) in next
  {
    var r := Pruned(cw, D, x, y);
    forall v, w | Tracked(cw, D0, arcs, v, w) ensures ArcConsistent(cw, r, v, w) || (v, w) in next {
      NeighborsSymmetric(cw, v, w);
      if ArcConsistent(cw, D, v, w) {
        if w != x || v == y || r[x] == D[x] {
          PrunedKeepsArc(cw, D, x, y, v, w);
        }
      } else if (v, w) != (x, y) {
        assert (v, w) in queue;
        assert queue == [queue[0]] + queue[1..];
      }
    }
  }

  /** The assignment dictionary that `backtrack` extends in place and hands back on success. */
  class Assignment {
    var entries: Bindings

    constructor()
      ensures entries == map[]
    {
      entries := map[];
    }
  }

  class CrosswordCreator {
    const crossword: Crossword
    var domains: Domains

    ghost predicate Valid()
      reads this
    {
      WellFormed(crossword) && Covers(crossword, domains)
    }

    /** Every slot starts with the whole word list. */
    constructor(crossword: Crossword)
      requires WellFormed(crossword)
      ensures Valid() && this.crossword == crossword
      ensures forall v :: v in crossword.variables ==> domains[v] == crossword.words
    {
      this.crossword := crossword;
      domains := map v | v in crossword.variables :: crossword.words;
    }

    /** Removes from every domain the words whose length differs from the slot's. */
    method EnforceNodeConsistency()
      requires Valid()
      modifies this
      ensures Valid() && Shrunk(domains, old(domains))
      ensures NodeConsistent(domains)
      ensures forall v, w :: v in domains && w in old(domains)[v] && |w| == v.length ==> w in domains[v]
      ensures NodeConsistent(old(domains)) ==> domains == old(domains)
      ensures KeepsSolutions(crossword, old(domains), domains)
    {
      var todo := domains.Keys;
      while todo != {}
        invariant Valid() && todo <= domains.Keys
        invariant domains.Keys == old(domains).Keys
        invariant forall v :: v in domains ==>
          domains[v] == set w | w in old(domains)[v] && (v in todo || |w| == v.length)
        decreases todo
      {
        var x :| x in todo;
        var domain := domains[x];
        var words := domain;
        while words != {}
          invariant Valid() && words <= domain
          invariant domains.Keys == old(domains).Keys
          invariant domains[x] == set w | w in domain && (w in words || |w| == x.length)
          invariant forall v :: v in domains && v != x ==>
            domains[v] == set w | w in old(domains)[v] && (v in todo || |w| == v.length)
          decreases words
        {
          var word :| word in words;
          if |word| != x.length {
            domains := domains[x := domains[x] - {word}];
          }
          words := words - {word};
        }
        todo := todo - {x};
      }
      assert NodeConsistent(old(domains)) ==> forall v :: v in domains ==> domains[v] == old(domains)[v];
      LengthFilterKeepsSolutions(crossword, old(domains), domains);
    }

    /**
     * Makes x arc consistent with y: removes every candidate of x that no
     * candidate of y matches at their overlap; reports whether x changed.
     */
    method Revise(x: Variable, y: Variable) returns (revised: bool)
      requires Valid() && NodeConsistent(domains) && (x, y) in crossword.overlaps
      modifies this
      ensures Valid()
      ensures domains == Pruned(crossword, old(domains), x, y)
      ensures revised <==> domains[x] != old(domains)[x]
      ensures crossword.overlaps[(x, y)].None? ==> !revised && domains == old(domains)
    {
      revised := false;
      var overlap := crossword.overlaps[(x, y)];
      if overlap.None? {
        assert (set wx | wx in domains[x] && Supported(crossword, domains, x, y, wx)) == domains[x];
        return;
      }
      var (i, j) := overlap.value;
      var xDomain := domains[x];
      var todo := xDomain;
      assert (set wx | wx in xDomain && (wx in todo || Supported(crossword, old(domains), x, y, wx))) == xDomain;
      while todo != {}
        invariant Valid() && todo <= xDomain
        invariant domains == old(domains)[x := set wx | wx in xDomain && (wx in todo || Supported(crossword, old(domains), x, y, wx))]
        invariant revised <==> domains[x] != xDomain
        decreases todo
      {
        var xWord :| xWord in todo;
        var hasValidY := false;
        var yTodo := domains[y];
        while yTodo != {}
          invariant yTodo <= domains[y]
          invariant forall wy :: wy in domains[y] && wy !in yTodo ==> !Fits(xWord, i, wy, j)
          decreases yTodo
        {
          var yWord :| yWord in yTodo;
          if xWord[i] == yWord[j] {
            hasValidY := true;
            assert Fits(xWord, i, yWord, j);
            break;
          }
          yTodo := yTodo - {yWord};
        }
        assert hasValidY <==> Supported(crossword, old(domains), x, y, xWord);
        ghost var kept := set wx | wx in xDomain && (wx in todo - {xWord} || Supported(crossword, old(domains), x, y, wx));
        if !hasValidY {
          assert kept == domains[x] - {xWord};
          domains := domains[x := domains[x] - {xWord}];
          revised := true;
        } else {
          assert kept == domains[x];
        }
        todo := todo - {xWord};
      }
      assert domains[x] == Pruned(crossword, old(domains), x, y)[x];
    }

    /** Every arc (v1, v2) with v2 a neighbour of v1, in some order. */
    method AllArcs() returns (arcs: seq<Arc>)
      requires Valid()
      ensures forall arc :: arc in arcs <==> arc.0 in crossword.variables && arc.1 in Neighbors(crossword, arc.0)
    {
      arcs := [];
      var vs := ListOf(crossword.variables);
      for n := 0 to |vs|
        invariant forall arc :: arc in arcs <==> arc.0 in vs[..n] && arc.1 in Neighbors(crossword, arc.0)
      {
        var ns := ListOf(Neighbors(crossword, vs[n]));
        var added := seq(|ns|, k requires 0 <= k < |ns| => (vs[n], ns[k]));
        assert forall arc: Arc :: arc in added <==> arc.0 == vs[n] && arc.1 in ns by {
          forall arc: Arc | arc.0 == vs[n] && arc.1 in ns ensures arc in added {
            var k :| 0 <= k < |ns| && ns[k] == arc.1;
            assert added[k] == arc;
          }
        }
        arcs := arcs + added;
        assert vs[..n + 1] == vs[..n] + [vs[n]];
      }
      assert vs[..|vs|] == vs;
    }

    /**
     * Appends to the work list one arc (neighbour, x) for every neighbour
     * of x other than y, in set order; the queue already there stays at
     * the front.
     */
    method Requeue(queue: seq<Arc>, x: Variable, y: Variable) returns (next: seq<Arc>)
      requires Valid()
      ensures |next| == |queue| + |Neighbors(crossword, x) - {y}|
      ensures next[..|queue|] == queue
      ensures forall arc :: arc in next[|queue|..] <==> arc.1 == x && arc.0 in Neighbors(crossword, x) && arc.0 != y
      ensures forall arc :: arc in next <==> arc in queue || (arc.1 == x && arc.0 in Neighbors(crossword, x) && arc.0 != y)
    {
      var tail: seq<Arc> := [];
      var todo := Neighbors(crossword, x) - {y};
      while todo != {}
        invariant todo <= Neighbors(crossword, x) - {y}
        invariant |tail| + |todo| == |Neighbors(crossword, x) - {y}|
        invariant forall arc :: arc in tail <==> arc.1 == x && arc.0 in Neighbors(crossword, x) - {y} - todo
        decreases todo
      {
        var neighbor :| neighbor in todo;
        tail := tail + [(neighbor, x)];
        todo := todo - {neighbor};
      }
      next := queue + tail;
      assert next[|queue|..] == tail;
    }

    /**
     * AC-3 from the given work list, or from every arc when none is given.
     * Fails only when some domain has become empty; on success every
     * seeded arc, and every arc that was consistent on entry, is consistent.
     */
    method AC3(arcs: Option<seq<Arc>>) returns (ok: bool)
      requires Valid() && NodeConsistent(domains)
      requires arcs.Some? ==> forall arc :: arc in arcs.value ==> arc in crossword.overlaps
      modifies this
      ensures Valid() && NodeConsistent(domains)
      ensures Shrunk(domains, old(domains))
      ensures KeepsSolutions(crossword, old(domains), domains)
      ensures !ok ==> exists x :: x in domains && domains[x] == {}
      ensures ok ==> forall x, y :: Tracked(crossword, old(domains), arcs, x, y) ==> ArcConsistent(crossword, domains, x, y)
    {
      var queue: seq<Arc>;
      if arcs.None? {
        queue := AllArcs();
      } else {
        queue := arcs.value;
      }
      ghost var D0 := domains;
      while |queue| > 0
        invariant Valid() && NodeConsistent(domains)
        invariant Shrunk(domains, D0) && KeepsSolutions(crossword, D0, domains)
        invariant forall arc :: arc in queue ==> arc in crossword.overlaps
        invariant forall x, y :: Tracked(crossword, D0, arcs, x, y) ==> ArcConsistent(crossword, domains, x, y) || (x, y) in queue
        decreases Candidates(domains), |queue|
      {
        var (x, y) := queue[0];
        ghost var before := domains;
        ghost var waiting := queue;
        PrunedKeepsSolutions(crossword, domains, x, y);
        queue := queue[1..];
        var revised := Revise(x, y);
        if revised {
          CandidatesShrink(domains, before, x);
          if |domains[x]| == 0 {
            return false;
          }
          queue := Requeue(queue, x, y);
        } else {
          assert domains == before;
        }
        ReviseStep(crossword, D0, arcs, before, x, y, waiting, queue);
      }
      return true;
    }

    /**
     * `consistent`: walks the bindings, rejecting a word of the wrong
     * length, a word used twice, or a bound neighbour that disagrees at
     * the shared cell. A neighbour's word too short to reach the shared
     * cell counts as a disagreement.
     */
    method Consistent(assignment: Bindings) returns (ok: bool)
      requires Valid()
      ensures ok <==> IsConsistent(crossword, assignment)
    {
      var usedWords: set<Word> := {};
      var todo := assignment.Keys;
      while todo != {}
        invariant todo <= assignment.Keys
        invariant usedWords == set v | v in assignment && v !in todo :: assignment[v]
        invariant forall v :: v in assignment && v !in todo ==> |assignment[v]| == v.length
        invariant forall v, w :: v in assignment && w in assignment && v !in todo && w !in todo && v != w ==>
          assignment[v] != assignment[w]
        invariant forall v, w :: v in assignment && v !in todo && w in assignment && w in Neighbors(crossword, v) ==>
          Agree(crossword, assignment, v, w)
        decreases todo
      {
        var x :| x in todo;
        var word := assignment[x];
        if |word| != x.length {
          return false;
        }
        if word in usedWords {
          var v :| v in assignment && v !in todo && assignment[v] == word;
          assert v != x;
          return false;
        }
        usedWords := usedWords + {word};
        var neighbors := Neighbors(crossword, x);
        while neighbors != {}
          invariant neighbors <= Neighbors(crossword, x)
          invariant forall w :: w in assignment && w in Neighbors(crossword, x) && w !in neighbors ==>
            Agree(crossword, assignment, x, w)
          decreases neighbors
        {
          var neighbor :| neighbor in neighbors;
          if neighbor in assignment {
            OverlapSymmetric(crossword, x, neighbor);
            var overlap := crossword.overlaps[(x, neighbor)];
            if overlap.Some? {
              var (i, j) := overlap.value;
              if !Fits(word, i, assignment[neighbor], j) {
                assert !Agree(crossword, assignment, x, neighbor);
                return false;
              }
            }
          }
          neighbors := neighbors - {neighbor};
        }
        todo := todo - {x};
      }
      return true;
    }

    /** The minimum-remaining-values heuristic, ties broken by larger degree. */
    predicate Preferred(v: Variable, w: Variable)
      reads this
      requires v in domains && w in domains
    {
      || |domains[v]| < |domains[w]|
      || (|domains[v]| == |domains[w]| && |Neighbors(crossword, v)| > |Neighbors(crossword, w)|)
    }

    /**
     * An unbound slot that no other unbound slot is preferred to: fewest
     * candidates left, and among those the most neighbours.
     */
    method SelectUnassignedVariable(assignment: Bindings) returns (x: Variable)
      requires Valid() && !Complete(crossword, assignment)
      ensures x in crossword.variables && x !in assignment
      ensures forall v :: v in crossword.variables && v !in assignment ==> !Preferred(v, x)
    {
      var unassigned := UnassignedEntries(assignment);
      var u :| u in crossword.variables && u !in assignment;
      assert Entry(u) in unassigned;
      var best := MinByKey(unassigned);
      x := unassigned[best].0;
      forall v | v in crossword.variables && v !in assignment ensures !Preferred(v, x) {
        var l :| 0 <= l < |unassigned| && unassigned[l] == Entry(v);
      }
    }

    /** A slot with its number of remaining values and its degree. */
    function Entry(v: Variable): (e: (Variable, nat, nat))
      reads this
      requires v in domains
      ensures e.0 == v
    {
      (v, |domains[v]|, |Neighbors(crossword, v)|)
    }

    /** The `unassigned` list of `select_unassigned_variable`: one entry per unbound slot. */
    method UnassignedEntries(assignment: Bindings) returns (unassigned: seq<(Variable, nat, nat)>)
      requires Valid()
      ensures forall e :: e in unassigned ==> e.0 in crossword.variables && e.0 !in assignment && e == Entry(e.0)
      ensures forall v :: v in crossword.variables && v !in assignment ==> Entry(v) in unassigned
    {
      unassigned := [];
      var todo := crossword.variables;
      while todo != {}
        invariant todo <= crossword.variables
        invariant forall e :: e in unassigned ==> e.0 in crossword.variables && e.0 !in assignment && e == Entry(e.0)
        invariant forall v :: v in crossword.variables && v !in todo && v !in assignment ==> Entry(v) in unassigned
        decreases todo
      {
        var v :| v in todo;
        if v !in assignment {
          unassigned := unassigned + [Entry(v)];
        }
        todo := todo - {v};
      }
    }

    /** The key `(remaining, -degree)` of one entry is smaller than the other's. */
    static predicate KeyLess(e: (Variable, nat, nat), f: (Variable, nat, nat)) {
      e.1 < f.1 || (e.1 == f.1 && e.2 > f.2)
    }

    /** `min(unassigned, key=...)`: the first entry whose key no other entry's key is below. */
    static method MinByKey(entries: seq<(Variable, nat, nat)>) returns (best: nat)
      requires |entries| > 0
      ensures best < |entries|
      ensures forall l :: 0 <= l < |entries| ==> !KeyLess(entries[l], entries[best])
      ensures forall l :: 0 <= l < best ==> KeyLess(entries[best], entries[l])
    {
      best := 0;
      for k := 1 to |entries|
        invariant best < k
        invariant forall l :: 0 <= l < k ==> !KeyLess(entries[l], entries[best])
        invariant forall l :: 0 <= l < best ==> KeyLess(entries[best], entries[l])
      {
        if KeyLess(entries[k], entries[best]) {
          best := k;
        }
      }
    }

    /**
     * The number of candidates of x's unbound neighbours that `value`
     * would rule out, counted one mismatching candidate at a time.
     */
    method CountRuledOut(x: Variable, value: Word, assignment: Bindings) returns (ruledOut: nat)
      requires Valid() && NodeConsistent(domains) && x in crossword.variables && |value| == x.length
      ensures ruledOut == RuledOut(crossword, domains, x, value, assignment)
    {
      ruledOut := 0;
      var neighbors := Neighbors(crossword, x);
      while neighbors != {}
        invariant neighbors <= Neighbors(crossword, x)
        invariant ruledOut + RuledOutOver(crossword, domains, x, value, assignment, neighbors)
               == RuledOut(crossword, domains, x, value, assignment)
        decreases neighbors
      {
        var neighbor :| neighbor in neighbors;
        RuledOutOverRemove(crossword, domains, x, value, assignment, neighbors, neighbor);
        if neighbor !in assignment {
          var overlap := crossword.overlaps[(x, neighbor)];
          if overlap.Some? {
            var (i, j) := overlap.value;
            var mismatches := CountMismatches(value, i, neighbor, j);
            ruledOut := ruledOut + mismatches;
          }
        }
        neighbors := neighbors - {neighbor};
      }
    }

    /** How many candidates of slot n differ at letter j from letter i of `value`. */
    method CountMismatches(value: Word, i: nat, n: Variable, j: nat) returns (count: nat)
      requires Valid() && NodeConsistent(domains) && n in domains && i < |value| && j < n.length
      ensures count == |set w | w in domains[n] && !Fits(value, i, w, j)|
    {
      count := 0;
      ghost var mismatched: set<Word> := {};
      var candidates := domains[n];
      while candidates != {}
        invariant candidates <= domains[n]
        invariant mismatched == set w | w in domains[n] && w !in candidates && !Fits(value, i, w, j)
        invariant count == |mismatched|
        decreases candidates
      {
        var candidate :| candidate in candidates;
        if value[i] != candidate[j] {
          mismatched := mismatched + {candidate};
          count := count + 1;
        }
        candidates := candidates - {candidate};
      }
      assert mismatched == set w | w in domains[n] && !Fits(value, i, w, j);
    }

    /**
     * `order_domain_values`: the candidates of x, least constraining
     * first (by the number of neighbour candidates each rules out).
     */
    method OrderDomainValues(x: Variable, assignment: Bindings) returns (ordered: seq<Word>)
      requires Valid() && NodeConsistent(domains) && x in crossword.variables
      ensures multiset(ordered) == multiset(domains[x])
      ensures forall p, q :: 0 <= p < q < |ordered| ==>
        RuledOut(crossword, domains, x, ordered[p], assignment) <= RuledOut(crossword, domains, x, ordered[q], assignment)
    {
      var valuesRuledOut: map<Word, nat> := map[];
      var todo := domains[x];
      while todo != {}
        invariant todo <= domains[x]
        invariant forall w :: w in valuesRuledOut <==> w in domains[x] && w !in todo
        invariant forall w :: w in valuesRuledOut ==> valuesRuledOut[w] == RuledOut(crossword, domains, x, w, assignment)
        decreases todo
      {
        var value :| value in todo;
        var ruledOut := CountRuledOut(x, value, assignment);
        valuesRuledOut := valuesRuledOut[value := ruledOut];
        todo := todo - {value};
      }
      var values := ListOf(domains[x]);
      ordered := SortByKey(values, valuesRuledOut);
      forall p | 0 <= p < |ordered| ensures ordered[p] in valuesRuledOut {
        assert ordered[p] in multiset(values);
      }
    }

    /** The arcs (neighbour, x) from every neighbour of x that the assignment leaves unbound. */
    method ArcsToward(x: Variable, assignment: Bindings) returns (arcs: seq<Arc>)
      requires Valid()
      ensures forall arc :: arc in arcs <==> arc.1 == x && arc.0 in Neighbors(crossword, x) && arc.0 !in assignment
    {
      arcs := [];
      var neighbors := ListOf(Neighbors(crossword, x));
      for k := 0 to |neighbors|
        invariant forall arc :: arc in arcs <==> arc.1 == x && arc.0 in neighbors[..k] && arc.0 !in assignment
      {
        if neighbors[k] !in assignment {
          arcs := arcs + [(neighbors[k], x)];
        }
        assert neighbors[..k + 1] == neighbors[..k] + [neighbors[k]];
      }
      assert neighbors[..|neighbors|] == neighbors;
    }

    /**
     * Backtracking search that extends `assignment` in place, choosing the
     * preferred unbound slot and trying its candidates least constraining
     * first; after each binding it runs AC-3 on the arcs into the new slot.
     * Domains pruned along the way are never put back.
     *
     * On failure the assignment is as it was and no solution inside the
     * entry domains keeps its bindings. On success the same assignment
     * object comes back, completed with words from the entry domains, and
     * consistent whenever it was consistent on entry.
     */
    method Backtrack(assignment: Assignment) returns (result: Assignment?)
      requires Valid() && NodeConsistent(domains)
      modifies this, assignment
      ensures Valid() && NodeConsistent(domains)
      ensures Shrunk(domains, old(domains)) && KeepsSolutions(crossword, old(domains), domains)
      ensures result == null ==> assignment.entries == old(assignment.entries)
      ensures result == null ==> NoSolutionExtends(crossword, old(domains), old(assignment.entries))
      ensures result != null ==> result == assignment
      ensures result != null ==> CompletedFrom(crossword, old(domains), old(assignment.entries), assignment.entries)
      decreases |crossword.variables - assignment.entries.Keys|, 2
    {
      if Complete(crossword, assignment.entries) {
        return assignment;
      }
      var x := SelectUnassignedVariable(assignment.entries);
      var values := OrderDomainValues(x, assignment.entries);
      result := TryInOrder(assignment, x, values);
    }

    /**
     * The loop of `backtrack`: tries the candidates of the unbound slot x
     * in the given order until one leads to a complete assignment. On
     * failure every candidate has been ruled out, so no solution inside
     * the entry domains keeps the assignment's bindings.
     */
    method TryInOrder(assignment: Assignment, x: Variable, values: seq<Word>) returns (result: Assignment?)
      requires Valid() && NodeConsistent(domains)
      requires x in crossword.variables && x !in assignment.entries
      requires multiset(values) == multiset(domains[x])
      modifies this, assignment
      ensures Valid() && NodeConsistent(domains)
      ensures Shrunk(domains, old(domains)) && KeepsSolutions(crossword, old(domains), domains)
      ensures result == null ==> assignment.entries == old(assignment.entries)
      ensures result == null ==> NoSolutionExtends(crossword, old(domains), old(assignment.entries))
      ensures result != null ==> result == assignment
      ensures result != null ==> CompletedFrom(crossword, old(domains), old(assignment.entries), assignment.entries)
      decreases |crossword.variables - assignment.entries.Keys|, 1
    {
      ghost var D0 := domains;
      ghost var a0 := assignment.entries;
      for n := 0 to |values|
        invariant Valid() && NodeConsistent(domains)
        invariant Shrunk(domains, D0) && KeepsSolutions(crossword, D0, domains)
        invariant assignment.entries == a0
        invariant forall m :: 0 <= m < n ==> NoSolutionExtends(crossword, D0, a0[x := values[m]])
      {
        assert values[n] in multiset(values);
        ghost var Dn := domains;
        result := TryValue(assignment, x, values[n]);
        ShrunkTransitive(D0, Dn, domains);
        KeepsTransitive(crossword, D0, Dn, domains);
        if result != null {
          CompletedBelow(crossword, assignment.entries, a0, x, values[n], D0, Dn);
          return;
        }
        NoSolutionBack(crossword, D0, Dn, a0[x := values[n]]);
        assert forall m :: 0 <= m < n + 1 ==> NoSolutionExtends(crossword, D0, a0[x := values[m]]);
      }
      TriedEvery(crossword, D0, a0, x, values);
      return null;
    }

    /**
     * One round of the loop in `backtrack`: bind x to `value` if that is
     * consistent, run AC-3 on the arcs into x, and search on; undo the
     * binding when that fails. The domains keep whatever AC-3 pruned.
     */
    method TryValue(assignment: Assignment, x: Variable, value: Word) returns (result: Assignment?)
      requires Valid() && NodeConsistent(domains)
      requires x in crossword.variables && x !in assignment.entries
      modifies this, assignment
      ensures Valid() && NodeConsistent(domains)
      ensures Shrunk(domains, old(domains)) && KeepsSolutions(crossword, old(domains), domains)
      ensures result == null ==> assignment.entries == old(assignment.entries)
      ensures result == null ==> NoSolutionExtends(crossword, old(domains), old(assignment.entries)[x := value])
      ensures result != null ==> result == assignment && Complete(crossword, assignment.entries)
      ensures result != null ==> Extends(assignment.entries, old(assignment.entries)[x := value])
      ensures result != null ==> IsConsistent(crossword, assignment.entries)
      ensures result != null ==> forall v :: v in assignment.entries && v !in old(assignment.entries) && v != x ==>
        v in crossword.variables && assignment.entries[v] in old(domains)[v]
      decreases |crossword.variables - assignment.entries.Keys|, 0
    {
      ghost var D0 := domains;
      ghost var a0 := assignment.entries;
      var newAssignment := assignment.entries[x := value];
      var ok := Consistent(newAssignment);
      if !ok {
        InconsistentHasNoSolution(crossword, D0, newAssignment);
        return null;
      }
      assignment.entries := assignment.entries[x := value];
      var propagated := MaintainArcConsistency(x, assignment.entries);
      ghost var D1 := domains;
      if propagated.None? {
        BindingShrinksUnbound(crossword.variables, a0, x, value);
        result := Backtrack(assignment);
        ShrunkTransitive(D0, D1, domains);
        KeepsTransitive(crossword, D0, D1, domains);
        if result != null {
          return;
        }
        NoSolutionBack(crossword, D0, D1, newAssignment);
      } else {
        var e := propagated.value;
        EmptyDomainHasNoSolution(crossword, domains, e, newAssignment);
        NoSolutionBack(crossword, D0, D1, newAssignment);
      }
      UnbindRestores(a0, x, value);
      assignment.entries := assignment.entries - {x};
      return null;
    }

    /**
     * AC-3 on the arcs from x's unbound neighbours into the newly bound x.
     * Returns a slot whose domain became empty when AC-3 fails.
     */
    method MaintainArcConsistency(x: Variable, assignment: Bindings) returns (emptied: Option<Variable>)
      requires Valid() && NodeConsistent(domains) && x in crossword.variables
      modifies this
      ensures Valid() && NodeConsistent(domains)
      ensures Shrunk(domains, old(domains)) && KeepsSolutions(crossword, old(domains), domains)
      ensures emptied.Some? ==> emptied.value in domains && domains[emptied.value] == {}
      ensures emptied.None? ==> forall n :: n in Neighbors(crossword, x) && n !in assignment ==> ArcConsistent(crossword, domains, n, x)
    {
      var arcs := ArcsToward(x, assignment);
      var ok := AC3(Some(arcs));
      if ok {
        forall n | n in Neighbors(crossword, x) && n !in assignment ensures ArcConsistent(crossword, domains, n, x) {
          NeighborsSymmetric(crossword, n, x);
          assert Tracked(crossword, old(domains), Some(arcs), n, x);
        }
        return None;
      }
      var e :| e in domains && domains[e] == {};
      return Some(e);
    }

    /**
     * `solve`: node consistency, then AC-3 over every arc (its verdict is
     * not looked at), then backtracking from the empty assignment. Returns
     * a solution built from the entry domains, or null exactly when there
     * is none.
     */
    method Solve() returns (result: Assignment?)
      requires Valid()
      modifies this
      ensures Valid()
      ensures result != null ==> fresh(result) && SolutionWithin(crossword, result.entries, old(domains))
      ensures result == null ==> forall s :: !SolutionWithin(crossword, s, old(domains))
    {
      EnforceNodeConsistency();
      ghost var D1 := domains;
      var consistentArcs := AC3(None);
      ghost var D2 := domains;
      ShrunkTransitive(old(domains), D1, D2);
      KeepsTransitive(crossword, old(domains), D1, D2);
      var assignment := new Assignment();
      result := Backtrack(assignment);
      if result == null {
        NoSolutionBack(crossword, old(domains), D2, map[]);
        NoSolutionAtAll(crossword, old(domains));
      } else {
        assert result.entries.Keys == crossword.variables;
        assert IsConsistent(crossword, map[]);
      }
    }

    /**
     * `letter_grid`: a height-by-width grid of the letters of the bound
     * words, written word by word. A cell stays empty exactly when no
     * word covers it, a filled cell holds a letter of a word that covers
     * it, and when no two words disagree on a cell every word can be read
     * back from the grid.
     */
    method LetterGrid(assignment: Bindings) returns (letters: array2<Option<char>>)
      requires forall v, k :: v in assignment && 0 <= k < |assignment[v]| ==> InGrid(crossword, CellOf(v, k))
      ensures fresh(letters)
      ensures letters.Length0 == crossword.height && letters.Length1 == crossword.width
      ensures forall r, c :: 0 <= r < letters.Length0 && 0 <= c < letters.Length1 ==>
        (letters[r, c].Some? <==> Covered(assignment, (r, c)))
      ensures forall r, c :: 0 <= r < letters.Length0 && 0 <= c < letters.Length1 && letters[r, c].Some? ==>
        LetterAt(assignment, (r, c), letters[r, c].value)
      ensures Coherent(assignment) ==> forall v, k :: v in assignment && 0 <= k < |assignment[v]| ==>
        Shows(letters, CellOf(v, k), assignment[v][k])
    {
      letters := new Option<char>[crossword.height, crossword.width]((_, _) => None);
      ghost var grid: map<(int, int), char> := map[];
      var variables := ListOf(assignment.Keys);
      for n := 0 to |variables|
        invariant Mirrors(letters, grid)
        invariant Drawn(assignment, variables[..n], grid)
      {
        var variable := variables[n];
        var word := assignment[variable];
        ghost var before := grid;
        grid := WriteWord(letters, variable, word, grid);
        DrawnStep(assignment, variables[..n], variable, before, grid);
        assert variables[..n + 1] == variables[..n] + [variable];
      }
      assert variables[..|variables|] == variables;
      forall r, c | 0 <= r < letters.Length0 && 0 <= c < letters.Length1 && Covered(assignment, (r, c))
        ensures (r, c) in grid
      {
        var v, k :| v in assignment && 0 <= k < |assignment[v]| && CellOf(v, k) == (r, c);
        assert v in variables;
      }
      if Coherent(assignment) {
        forall v, k | v in assignment && 0 <= k < |assignment[v]| ensures Shows(letters, CellOf(v, k), assignment[v][k]) {
          assert v in variables;
        }
      }
    }
  }

  /** Cell `cell` is one of the first `len` cells of slot v. */
  predicate Along(v: Variable, len: nat, cell: (int, int)) {
    if v.direction == Down then cell.1 == v.j && v.i <= cell.0 < v.i + len
    else cell.0 == v.i && v.j <= cell.1 < v.j + len
  }

  /** The letter position of slot v that lands in `cell`. */
  function Offset(v: Variable, cell: (int, int)): (k: int)
    ensures forall len: nat :: Along(v, len, cell) ==> 0 <= k < len && CellOf(v, k) == cell
  {
    if v.direction == Down then cell.0 - v.i else cell.1 - v.j
  }

  /**
   * The inner loop of `letter_grid`: writes the letters of `word` along
   * slot v; `grid` records the filled cells before, the result after.
   */
  method WriteWord(letters: array2<Option<char>>, v: Variable, word: Word, ghost grid: map<(int, int), char>)
    returns (ghost after: map<(int, int), char>)
    requires forall k :: 0 <= k < |word| ==> 0 <= CellOf(v, k).0 < letters.Length0 && 0 <= CellOf(v, k).1 < letters.Length1
    requires Mirrors(letters, grid)
    modifies letters
    ensures Mirrors(letters, after)
    ensures forall cell :: Along(v, |word|, cell) ==> cell in after && after[cell] == word[Offset(v, cell)]
    ensures forall cell :: !Along(v, |word|, cell) ==> (cell in after <==> cell in grid)
    ensures forall cell :: !Along(v, |word|, cell) && cell in grid ==> after[cell] == grid[cell]
  {
    after := grid;
    for k := 0 to |word|
      invariant Mirrors(letters, after)
      invariant forall cell :: Along(v, k, cell) ==> cell in after && after[cell] == word[Offset(v, cell)]
      invariant forall cell :: !Along(v, k, cell) ==> (cell in after <==> cell in grid)
      invariant forall cell :: !Along(v, k, cell) && cell in grid ==> after[cell] == grid[cell]
    {
      var i := v.i + (if v.direction == Down then k else 0);
      var j := v.j + (if v.direction == Across then k else 0);
      assert (i, j) == CellOf(v, k);
      letters[i, j] := Some(word[k]);
      after := after[(i, j) := word[k]];
    }
  }

  /**
   * The cells `grid` fills are those of the words of `vs`: each holds a
   * letter of some bound word, every letter of the words of `vs` has its
   * cell filled, and with coherent bindings filled with that very letter.
   */
  ghost predicate Drawn(a: Bindings, vs: seq<Variable>, grid: map<(int, int), char>) {
    && (forall cell :: cell in grid ==> LetterAt(a, cell, grid[cell]))
    && (forall v, l :: v in vs && v in a && 0 <= l < |a[v]| ==> CellOf(v, l) in grid)
    && (Coherent(a) ==> forall v, l :: v in vs && v in a && 0 <= l < |a[v]| ==> grid[CellOf(v, l)] == a[v][l])
  }

  /** Writing the word of one more slot keeps Drawn. */
  lemma DrawnStep(a: Bindings, vs: seq<Variable>, v: Variable, grid: map<(int, int), char>, after: map<(int, int), char>)
    requires v in a && Drawn(a, vs, grid)
    requires forall cell :: Along(v, |a[v]|, cell) ==> cell in after && after[cell] == a[v][Offset(v, cell)]
    requires forall cell :: !Along(v, |a[v]|, cell) ==> (cell in after <==> cell in grid)
    requires forall cell :: !Along(v, |a[v]|, cell) && cell in grid ==> after[cell] == grid[cell]
    ensures Drawn(a, vs + [v], after)
  {
    forall cell | cell in after ensures LetterAt(a, cell, after[cell]) {
      if Along(v, |a[v]|, cell) {
        var k := Offset(v, cell);
        assert CellOf(v, k) == cell && a[v][k] == after[cell];
      }
    }
    forall l | 0 <= l < |a[v]| ensures CellOf(v, l) in after {
      assert Along(v, |a[v]|, CellOf(v, l));
    }
    if Coherent(a) {
      forall w, l | w in vs + [v] && w in a && 0 <= l < |a[w]| ensures after[CellOf(w, l)] == a[w][l] {
        var cell := CellOf(w, l);
        if Along(v, |a[v]|, cell) {
          var k := Offset(v, cell);
          assert CellOf(v, k) == cell;
        }
      }
    }
  }

  /** Each cell of `letters` holds exactly what `grid` records for it. */
  ghost predicate Mirrors(letters: array2<Option<char>>, grid: map<(int, int), char>)
    reads letters
  {
    forall r, c :: 0 <= r < letters.Length0 && 0 <= c < letters.Length1 ==>
      letters[r, c] == if (r, c) in grid then Some(grid[(r, c)]) else None
  }

  /** `cell` lies inside `letters` and holds `ch`. */
  ghost predicate Shows(letters: array2<Option<char>>, cell: (int, int), ch: char)
    reads letters
  {
    0 <= cell.0 < letters.Length0 && 0 <= cell.1 < letters.Length1 && letters[cell.0, cell.1] == Some(ch)
  }
}

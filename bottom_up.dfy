/**
 * Bottom-up enumerative search over the string language: grow the list of
 * programs, keep one program per distinct output, and stop at the first
 * program whose output is the target.
 */
module BottomUp {
  import opened Wrappers
  import opened SeqUtil
  import opened StringLanguage

  // ---------------------------------------------------------------------
  // Specification functions

  /** The set of outputs of a list of programs. */
  function Outputs(ps: seq<Tree>): set<string> {
    set p | p in ps :: Interpret(p)
  }

  /** No two programs of the list have the same output. */
  predicate DistinctOutputs(ps: seq<Tree>) {
    forall i, j :: 0 <= i < j < |ps| ==> Interpret(ps[i]) != Interpret(ps[j])
  }

  /** The first program of the list whose output is `o`. */
  function FindFirst(ps: seq<Tree>, o: string): (r: Option<Tree>)
    ensures r.Some? ==> r.value in ps && Interpret(r.value) == o
  {
    if ps == [] then None
    else if Interpret(ps[0]) == o then Some(ps[0])
    else FindFirst(ps[1..], o)
  }

  /** The filter's result, started with the outputs in `seen` already seen:
      a program is kept iff its output has not been seen, and its output
      then counts as seen. */
  function FilterFrom(ps: seq<Tree>, seen: set<string>): (r: seq<Tree>)
    ensures |r| <= |ps|
  {
    if ps == [] then []
    else if Interpret(ps[0]) in seen then FilterFrom(ps[1..], seen)
    else [ps[0]] + FilterFrom(ps[1..], seen + {Interpret(ps[0])})
  }

  /** What `filter_observationally_equivalent` yields: a fresh `seen` set. */
  function Filtered(ps: seq<Tree>): seq<Tree> {
    FilterFrom(ps, {})
  }

  /** One round of the search: extend the programs by `grow`, then filter. */
  function Step(ps: seq<Tree>): seq<Tree> {
    Filtered(ps + Grow(ps))
  }

  /** The program list after `k` rounds. */
  function Frontier(k: nat): seq<Tree> {
    if k == 0 then Initial() else Step(Frontier(k - 1))
  }

  /** The answer of the search bounded to `rounds` rounds: the first match
      in the earliest round that has one. */
  function Search(target: string, rounds: nat): (r: Option<Tree>)
    ensures r.Some? ==> Interpret(r.value) == target
  {
    if rounds == 0 then None
    else
      match Search(target, rounds - 1)
      case Some(p) => Some(p)
      case None => FindFirst(Frontier(rounds), target)
  }

  // ---------------------------------------------------------------------
  // The source's two procedures

  /** `filter_observationally_equivalent`: walk the programs, keeping each
      one whose output is not yet in `seen`, and adding that output. */
  method FilterObservationallyEquivalent(programs: seq<Tree>) returns (kept: seq<Tree>)
    ensures kept == Filtered(programs)
  {
    var seen: set<string> := {};
    kept := [];
    var i := 0;
    while i < |programs|
      invariant 0 <= i <= |programs|
      invariant kept + FilterFrom(programs[i..], seen) == Filtered(programs)
    {
      var output := Interpret(programs[i]);
      assert programs[i..][1..] == programs[i + 1..];
      if output !in seen {
        seen := seen + {output};
        kept := kept + [programs[i]];
      }
      i := i + 1;
    }
  }

  /** `bottom_up_explicit` with a bound of `maxRounds` rounds: start from the
      terminals; each round extend the programs by `grow`, filter them, and
      return the first one whose output is the target. */
  method BottomUpExplicit(target: string, maxRounds: nat) returns (found: Option<Tree>)
    ensures found == Search(target, maxRounds)
  {
    var programs := Initial();
    var round := 0;
    while round < maxRounds
      invariant 0 <= round <= maxRounds
      invariant programs == Frontier(round)
      invariant Search(target, round) == None
    {
      programs := programs + Grow(programs);
      programs := FilterObservationallyEquivalent(programs);
      round := round + 1;
      var hit := FirstMatch(programs, target);
      if hit.Some? {
        SearchStable(target, round, maxRounds);
        return hit;
      }
    }
    return None;
  }

  /** The scan of one round: the first program whose output is the target. */
  method FirstMatch(programs: seq<Tree>, target: string) returns (r: Option<Tree>)
    ensures r == FindFirst(programs, target)
  {
    var i := 0;
    while i < |programs|
      invariant 0 <= i <= |programs|
      invariant FindFirst(programs, target) == FindFirst(programs[i..], target)
    {
      assert programs[i..][1..] == programs[i + 1..];
      if Interpret(programs[i]) == target {
        return Some(programs[i]);
      }
      i := i + 1;
    }
    return None;
  }

  // ---------------------------------------------------------------------
  // Properties of the search

  /** Once the search has found a program, more rounds do not change it. */
  lemma {:induction false} SearchStable(target: string, k: nat, m: nat)
    requires k <= m
    requires Search(target, k).Some?
    ensures Search(target, m) == Search(target, k)
    decreases m
  {
    if m > k {
      SearchStable(target, k, m - 1);
    }
  }

  /** The search never answers an empty target or one with a letter outside
      the alphabet: every program it builds outputs a non-empty string over
      the alphabet. */
  lemma SearchUnreachable(target: string, n: nat)
    requires target == [] || exists i :: 0 <= i < |target| && target[i] !in Terminals
    ensures Search(target, n) == None
  {
    if n > 0 {
      SearchUnreachable(target, n - 1);
      FrontierInvariant(n);
      forall p | p in Frontier(n) ensures Interpret(p) != target {
        InterpretWellFormed(p);
      }
    }
  }

  /** A bounded search that answers `p` answers a well-formed program of the
      last frontier whose output is the target, and the first such program of
      that frontier. */
  lemma SearchSound(target: string, n: nat, p: Tree)
    requires Search(target, n) == Some(p)
    ensures Interpret(p) == target
    ensures WellFormed(p) && p in Frontier(n)
    ensures FindFirst(Frontier(n), target) == Some(p)
  {
    SearchIsFirstInFrontier(target, n);
    FrontierInvariant(n);
  }

  /** After at least one round, the search answers exactly the first program
      of the current frontier whose output is the target: earlier rounds'
      frontiers are prefixes of it. */
  lemma {:induction false} SearchIsFirstInFrontier(target: string, n: nat)
    requires n >= 1
    ensures Search(target, n) == FindFirst(Frontier(n), target)
  {
    if n > 1 {
      var prev := Frontier(n - 1);
      var tail := FilterFrom(Grow(prev), Outputs(prev));
      FrontierPrefix(n - 1);
      assert Frontier(n) == prev + tail;
      FindFirstAppend(prev, tail, target);
      SearchIsFirstInFrontier(target, n - 1);
      assert Search(target, n - 1) == FindFirst(prev, target);
    }
  }

  /** After at least one round, the search answers nothing exactly when no
      program of the current frontier outputs the target. */
  lemma SearchNoneIff(target: string, n: nat)
    requires n >= 1
    ensures Search(target, n).None? <==> forall p :: p in Frontier(n) ==> Interpret(p) != target
  {
    SearchIsFirstInFrontier(target, n);
    FindFirstNone(Frontier(n), target);
  }

  /** No output is lost by filtering: a round's frontier has exactly the
      outputs of the previous frontier and of everything grown from it. */
  lemma FrontierKeepsOutputs(k: nat)
    ensures Outputs(Frontier(k + 1)) == Outputs(Frontier(k) + Grow(Frontier(k)))
  {
    FilterSound(Frontier(k) + Grow(Frontier(k)));
  }

  // ---------------------------------------------------------------------
  // Properties of the frontier

  /** Every frontier holds well-formed programs with pairwise-distinct outputs. */
  lemma {:induction false} FrontierInvariant(k: nat)
    ensures DistinctOutputs(Frontier(k))
    ensures forall p :: p in Frontier(k) ==> WellFormed(p)
  {
    if k == 0 {
      var init := Initial();
      assert forall i :: 0 <= i < |init| ==> Interpret(init[i]) == [Terminals[i]];
    } else {
      FrontierInvariant(k - 1);
      var prev := Frontier(k - 1);
      GrowWellFormed(prev);
      FilterFromProperties(prev + Grow(prev), {});
      SubsequenceMembers(Frontier(k), prev + Grow(prev));
    }
  }

  /** Each round keeps the previous frontier as its prefix and appends the
      first programs of the growth with outputs not seen before. */
  lemma FrontierPrefix(k: nat)
    ensures Frontier(k + 1) == Frontier(k) + FilterFrom(Grow(Frontier(k)), Outputs(Frontier(k)))
  {
    var prev := Frontier(k);
    FrontierInvariant(k);
    FilterAppend(prev, Grow(prev), {});
    FilterFromDistinct(prev, {});
    assert {} + Outputs(prev) == Outputs(prev);
  }

  /** The terminals a, b, c open every frontier, in that order. */
  lemma {:induction false} FrontierStartsWithTerminals(k: nat)
    ensures |Frontier(k)| >= 3
    ensures Frontier(k)[..3] == [Terminal('a'), Terminal('b'), Terminal('c')]
  {
    if k == 0 {
      assert Initial() == [Terminal('a'), Terminal('b'), Terminal('c')];
    } else {
      FrontierStartsWithTerminals(k - 1);
      FrontierPrefix(k - 1);
    }
  }

  // ---------------------------------------------------------------------
  // Properties of the filter

  /** The filter, whatever outputs it starts from, keeps a subsequence of its
      input with pairwise-distinct outputs; for every output not seen before,
      the program it keeps is the first input with that output, and it keeps
      nothing for an output seen before. */
  lemma {:induction false} FilterFromProperties(ps: seq<Tree>, seen: set<string>)
    ensures IsSubsequence(FilterFrom(ps, seen), ps)
    ensures DistinctOutputs(FilterFrom(ps, seen))
    ensures forall o :: FindFirst(FilterFrom(ps, seen), o) ==
                          (if o in seen then None else FindFirst(ps, o))
  {
    if ps != [] {
      var p, rest := ps[0], ps[1..];
      assert ps == [p] + rest;
      var out := Interpret(p);
      if out in seen {
        FilterFromProperties(rest, seen);
        SubsequenceSkip(p, FilterFrom(rest, seen), rest);
      } else {
        var tail := FilterFrom(rest, seen + {out});
        FilterFromProperties(rest, seen + {out});
        SubsequenceCons(p, tail, rest);
        var r := [p] + tail;
        assert r == FilterFrom(ps, seen);
        assert r[1..] == tail;
        assert FindFirst(tail, out) == None;
        FindFirstNone(tail, out);
        forall i, j | 0 <= i < j < |r| ensures Interpret(r[i]) != Interpret(r[j]) {
          if i == 0 {
            assert r[j] in tail;
          } else {
            assert r[i] == tail[i - 1] && r[j] == tail[j - 1];
          }
        }
      }
    }
  }

  /** `filter_observationally_equivalent` keeps a subsequence of its input
      with pairwise-distinct outputs, loses no output, and represents each
      output by the first input program that has it. */
  lemma FilterSound(ps: seq<Tree>)
    ensures IsSubsequence(Filtered(ps), ps)
    ensures DistinctOutputs(Filtered(ps))
    ensures Outputs(Filtered(ps)) == Outputs(ps)
    ensures forall o :: FindFirst(Filtered(ps), o) == FindFirst(ps, o)
  {
    var r := Filtered(ps);
    FilterFromProperties(ps, {});
    forall o ensures o in Outputs(r) <==> o in Outputs(ps) {
      assert FindFirst(r, o) == FindFirst(ps, o);
      FindFirstNone(r, o);
      FindFirstNone(ps, o);
      if o in Outputs(ps) {
        var p :| p in ps && Interpret(p) == o;
      }
      if o in Outputs(r) {
        var p :| p in r && Interpret(p) == o;
      }
    }
  }

  /** Filtering an already filtered list changes nothing. */
  lemma FilterIdempotent(ps: seq<Tree>)
    ensures Filtered(Filtered(ps)) == Filtered(ps)
  {
    FilterFromProperties(ps, {});
    FilterFromDistinct(Filtered(ps), {});
  }

  /** Two programs with the same output: the filter keeps the earlier one
      only if nothing before it shares the output, and never the later one. */
  lemma FilterDropsLaterDuplicate(ps: seq<Tree>, i: nat, j: nat)
    requires i < j < |ps|
    requires Interpret(ps[i]) == Interpret(ps[j]) && ps[i] != ps[j]
    requires forall k :: 0 <= k < i ==> Interpret(ps[k]) != Interpret(ps[i])
    ensures ps[i] in Filtered(ps)
    ensures FindFirst(Filtered(ps), Interpret(ps[j])) == Some(ps[i])
    ensures ps[j] !in Filtered(ps)
  {
    var r := Filtered(ps);
    FilterSound(ps);
    FindFirstAt(ps, i, Interpret(ps[i]));
    var a :| 0 <= a < |r| && r[a] == ps[i];
    forall b | 0 <= b < |r| ensures r[b] != ps[j] {
      if b < a {
        assert Interpret(r[b]) != Interpret(r[a]);
      } else if b > a {
        assert Interpret(r[a]) != Interpret(r[b]);
      }
    }
  }

  /** A list whose outputs are distinct and all unseen passes unchanged. */
  lemma {:induction false} FilterFromDistinct(ps: seq<Tree>, seen: set<string>)
    requires DistinctOutputs(ps)
    requires forall p :: p in ps ==> Interpret(p) !in seen
    ensures FilterFrom(ps, seen) == ps
  {
    if ps != [] {
      var out := Interpret(ps[0]);
      forall p | p in ps[1..] ensures Interpret(p) !in seen + {out} {
        var k :| 0 <= k < |ps[1..]| && ps[1..][k] == p;
        assert ps[k + 1] == p;
      }
      FilterFromDistinct(ps[1..], seen + {out});
      assert ps == [ps[0]] + ps[1..];
    }
  }

  /** Filtering a concatenation filters the second part with the first
      part's outputs already seen. */
  lemma {:induction false} FilterAppend(a: seq<Tree>, b: seq<Tree>, seen: set<string>)
    ensures FilterFrom(a + b, seen) == FilterFrom(a, seen) + FilterFrom(b, seen + Outputs(a))
  {
    if a == [] {
      assert a + b == b;
      assert seen + Outputs(a) == seen;
    } else {
      var out := Interpret(a[0]);
      assert (a + b)[0] == a[0] && (a + b)[1..] == a[1..] + b;
      assert Outputs(a) == {out} + Outputs(a[1..]) by {
        assert a == [a[0]] + a[1..];
      }
      if out in seen {
        FilterAppend(a[1..], b, seen);
        assert seen + Outputs(a[1..]) == seen + Outputs(a);
      } else {
        FilterAppend(a[1..], b, seen + {out});
        assert seen + {out} + Outputs(a[1..]) == seen + Outputs(a);
      }
    }
  }

  // ---------------------------------------------------------------------
  // Properties of the first-match scan

  /** The scan finds nothing exactly when no program outputs `o`. */
  lemma {:induction false} FindFirstNone(ps: seq<Tree>, o: string)
    ensures FindFirst(ps, o).None? <==> forall p :: p in ps ==> Interpret(p) != o
  {
    if ps != [] {
      FindFirstNone(ps[1..], o);
      assert forall p :: p in ps ==> p == ps[0] || p in ps[1..];
    }
  }

  /** The scan answers the program at the first position with output `o`. */
  lemma {:induction false} FindFirstAt(ps: seq<Tree>, i: nat, o: string)
    requires i < |ps| && Interpret(ps[i]) == o
    requires forall k :: 0 <= k < i ==> Interpret(ps[k]) != o
    ensures FindFirst(ps, o) == Some(ps[i])
  {
    if i > 0 {
      FindFirstAt(ps[1..], i - 1, o);
    }
  }

  /** Scanning a concatenation answers from the first part when it can. */
  lemma {:induction false} FindFirstAppend(a: seq<Tree>, b: seq<Tree>, o: string)
    ensures FindFirst(a + b, o) == if FindFirst(a, o).Some? then FindFirst(a, o) else FindFirst(b, o)
  {
    if a == [] {
      assert a + b == b;
    } else {
      assert (a + b)[0] == a[0] && (a + b)[1..] == a[1..] + b;
      FindFirstAppend(a[1..], b, o);
    }
  }
}

/**
 * The search's documented answers: a single symbol is found as its terminal,
 * "aaa" as 3(a) and "ababab" as 3(a(b)); a target the grammar cannot build is
 * reported as not found.
 */
module Scenarios {
  import opened Wrappers
  import opened StringLanguage
  import opened BottomUp

  /** The programs the first round grows: each terminal's block in turn. */
  lemma {:induction false} RoundOneGrowth()
    ensures Grow(Initial()) ==
      Expansions(Terminal('a')) + Expansions(Terminal('b')) + Expansions(Terminal('c'))
  {
    var init := Initial();
    assert init == [Terminal('a'), Terminal('b'), Terminal('c')];
    assert init[1..] == [Terminal('b'), Terminal('c')];
    assert init[1..][1..] == [Terminal('c')];
    assert init[1..][1..][1..] == [];
  }

  /** One terminal's block and its outputs x, xx, xxx, xxxx, ax, bx, cx. */
  lemma TerminalBlock(x: char)
    ensures Expansions(Terminal(x)) ==
      [Terminal(x), Repeat(2, Terminal(x)), Repeat(3, Terminal(x)), Repeat(4, Terminal(x)),
       Group('a', Terminal(x)), Group('b', Terminal(x)), Group('c', Terminal(x))]
    ensures Interpret(Repeat(2, Terminal(x))) == [x, x]
    ensures Interpret(Repeat(3, Terminal(x))) == [x, x, x]
    ensures Interpret(Repeat(4, Terminal(x))) == [x, x, x, x]
  {
    GrowBlock([Terminal(x)], 0);
    assert Grow([Terminal(x)]) == Expansions(Terminal(x)) + Grow([]);
  }

  /** In the first round's input, the first program for "aaa" is 3(a): the
      terminals have no "aaa", and a's block has it at its repeat by 3. */
  lemma RoundOneFirstAaa()
    ensures FindFirst(Initial() + Grow(Initial()), "aaa") == Some(Repeat(3, Terminal('a')))
  {
    var init := Initial();
    var ea, rest := Expansions(Terminal('a')), Expansions(Terminal('b')) + Expansions(Terminal('c'));
    RoundOneGrowth();
    FindFirstNone(init, "aaa");
    BlockAFindsAaa();
    FindFirstAppend(ea, rest, "aaa");
    FindFirstAppend(init, ea + rest, "aaa");
    assert Grow(init) == ea + rest;
  }

  /** a's block outputs a, aa, aaa, ...: "aaa" at 3(a). */
  lemma BlockAFindsAaa()
    ensures FindFirst(Expansions(Terminal('a')), "aaa") == Some(Repeat(3, Terminal('a')))
  {
    TerminalBlock('a');
    FindFirstAt(Expansions(Terminal('a')), 2, "aaa");
  }

  /** In the first round's input, the first program for "ab" is a(b): the
      terminals and a's block have no "ab", and b's block has it at a(b). */
  lemma RoundOneFirstAb()
    ensures FindFirst(Initial() + Grow(Initial()), "ab") == Some(Group('a', Terminal('b')))
  {
    var init := Initial();
    var ea, eb, ec := Expansions(Terminal('a')), Expansions(Terminal('b')), Expansions(Terminal('c'));
    RoundOneGrowth();
    InitialMissesAb();
    BlockAMissesAb();
    BlockBFindsAb();
    var q := Some(Group('a', Terminal('b')));
    FindFirstAppend(eb, ec, "ab");
    assert FindFirst(eb + ec, "ab") == q;
    FindFirstAppend(ea, eb + ec, "ab");
    assert FindFirst(ea + (eb + ec), "ab") == q;
    FindFirstAppend(init, ea + (eb + ec), "ab");
    assert ea + eb + ec == ea + (eb + ec);
  }

  lemma InitialMissesAb()
    ensures FindFirst(Initial(), "ab") == None
  {
    FindFirstNone(Initial(), "ab");
  }

  /** a's block outputs a, aa, aaa, aaaa, aa, ba, ca: no "ab". */
  lemma BlockAMissesAb()
    ensures FindFirst(Expansions(Terminal('a')), "ab") == None
  {
    var e := Expansions(Terminal('a'));
    TerminalBlock('a');
    forall t | t in e ensures Interpret(t) != "ab" {
      var o := Interpret(t);
      assert o[|o| - 1] == 'a';
    }
    FindFirstNone(e, "ab");
  }

  /** b's block outputs b, bb, bbb, bbbb, ab, ...: "ab" at a(b). */
  lemma BlockBFindsAb()
    ensures FindFirst(Expansions(Terminal('b')), "ab") == Some(Group('a', Terminal('b')))
  {
    TerminalBlock('b');
    FindFirstAt(Expansions(Terminal('b')), 4, "ab");
  }

  /** Scenario: a target of one alphabet symbol is answered by that symbol's
      terminal, from the first round on. */
  lemma SingleSymbolTarget(c: char, n: nat)
    requires c in Terminals && n >= 1
    ensures Search([c], n) == Some(Terminal(c))
  {
    SearchIsFirstInFrontier([c], n);
    FrontierStartsWithTerminals(n);
    var f := Frontier(n);
    var k :| 0 <= k < 3 && Terminals[k] == c;
    assert f[..3][k] == Terminal(c);
    FindFirstAt(f[..3], k, [c]);
    FindFirstAppend(f[..3], f[3..], [c]);
    assert f[..3] + f[3..] == f;
  }

  /** Scenario: "aaa" is answered by 3(a), from the first round on. */
  lemma TargetAaa(n: nat)
    requires n >= 1
    ensures Search("aaa", n) == Some(Repeat(3, Terminal('a')))
    ensures Render(Repeat(3, Terminal('a'))) == "3(a)"
  {
    RoundOneFrontierAaa();
    SearchIsFirstInFrontier("aaa", 1);
    SearchStable("aaa", 1, n);
    assert Decimal(3) == "3";
  }

  /** After one round, 3(a) is the program kept for "aaa". */
  lemma RoundOneFrontierAaa()
    ensures FindFirst(Frontier(1), "aaa") == Some(Repeat(3, Terminal('a')))
  {
    var xs := Initial() + Grow(Initial());
    RoundOneFirstAaa();
    FilterSound(xs);
    assert Frontier(1) == Filtered(xs);
  }

  /** Scenario: "ababab" is answered by 3(a(b)), from the second round on. */
  lemma TargetAbabab(n: nat)
    requires n >= 2
    ensures Search("ababab", n) == Some(Repeat(3, Group('a', Terminal('b'))))
    ensures Render(Repeat(3, Group('a', Terminal('b')))) == "3(a(b))"
  {
    var f1 := Frontier(1);
    var q := Group('a', Terminal('b'));
    RoundOneFrontier();
    SearchIsFirstInFrontier("ababab", 1);
    // the second round's first match is in the growth of the first round
    GrowFindsTripleOfAb(f1, q);
    FindFirstAppend(f1, Grow(f1), "ababab");
    FilterSound(f1 + Grow(f1));
    SearchIsFirstInFrontier("ababab", 2);
    SearchStable("ababab", 2, n);
    RenderExample();
  }

  /** After one round: distinct outputs of at most four letters, none "aba"
      or "ababab", and a(b) is the program kept for "ab". */
  lemma RoundOneFrontier()
    ensures DistinctOutputs(Frontier(1))
    ensures forall p :: p in Frontier(1) ==> |Interpret(p)| <= 4 && Interpret(p) != "aba"
    ensures FindFirst(Frontier(1), "ababab") == None
    ensures FindFirst(Frontier(1), "ab") == Some(Group('a', Terminal('b')))
  {
    var xs := Initial() + Grow(Initial());
    var f1 := Frontier(1);
    FilterSound(xs);
    FrontierInvariant(1);
    RoundOneShortOutputs();
    assert forall p :: p in f1 ==> Interpret(p) in Outputs(f1);
    FindFirstNone(f1, "ababab");
    RoundOneFirstAb();
  }

  /** Scenario: a target with a letter outside the alphabet is not found,
      however many rounds the search is given. */
  lemma ForeignLetterTarget(n: nat)
    ensures Search("z", n) == None
  {
    assert "z"[0] !in Terminals;
    SearchUnreachable("z", n);
  }

  // ---------------------------------------------------------------------
  // Helpers for the "ababab" scenario

  /** After one round every output is at most four letters long and none is
      "aba". */
  lemma RoundOneShortOutputs()
    ensures forall o :: o in Outputs(Initial() + Grow(Initial())) ==> |o| <= 4 && o != "aba"
  {
    var init := Initial();
    var ea, eb, ec := Expansions(Terminal('a')), Expansions(Terminal('b')), Expansions(Terminal('c'));
    RoundOneGrowth();
    TerminalBlockShort('a');
    TerminalBlockShort('b');
    TerminalBlockShort('c');
    var xs := init + Grow(init);
    assert xs == init + ea + eb + ec;
    forall o | o in Outputs(xs) ensures |o| <= 4 && o != "aba" {
      var p :| p in xs && Interpret(p) == o;
      assert p in init || p in ea || p in eb || p in ec;
    }
  }

  /** A terminal's block outputs at most four letters, never "aba". */
  lemma TerminalBlockShort(x: char)
    ensures forall t :: t in Expansions(Terminal(x)) ==> |Interpret(t)| <= 4 && Interpret(t) != "aba"
  {
    TerminalBlock(x);
    assert [x, x, x] != "aba" by {
      if x == 'a' { assert [x, x, x][1] != "aba"[1]; }
    }
  }

  /** One program's block has no output "ababab" unless the program outputs
      "ab" (its repeat by 3) or "aba" (its repeat by 2), for outputs of at
      most four letters. */
  lemma BlockMissesAbabab(p: Tree)
    requires |Interpret(p)| <= 4
    requires Interpret(p) != "ab" && Interpret(p) != "aba"
    ensures FindFirst(Expansions(p), "ababab") == None
  {
    var o := Interpret(p);
    var e := Expansions(p);
    ExpansionsLiteral(p);
    forall k | 0 <= k < 7 ensures Interpret(e[k]) != "ababab" {
      if k == 1 {
        DoubleMisses(o);
      } else if k == 2 {
        TripleMisses(o);
      } else if k == 3 {
        QuadrupleMisses(o);
      } else if k >= 4 {
        assert |Interpret(e[k])| == 1 + |o|;
      }
    }
    FindFirstNone(e, "ababab");
  }

  /** One program's block, written out. */
  lemma ExpansionsLiteral(p: Tree)
    ensures Expansions(p) ==
      [p, Repeat(2, p), Repeat(3, p), Repeat(4, p), Group('a', p), Group('b', p), Group('c', p)]
  {
  }

  /** A string of at most four letters doubled is "ababab" only if it is "aba". */
  lemma DoubleMisses(o: string)
    requires |o| <= 4 && o != "aba"
    ensures Times(o, 2) != "ababab"
  {
    assert Times(o, 2) == o + (o + []);
    assert (o + (o + []))[..|o|] == o;
    assert "ababab"[..3] == "aba";
  }

  /** No string repeated four times has six letters. */
  lemma QuadrupleMisses(o: string)
    ensures Times(o, 4) != "ababab"
  {
    if |o| >= 2 {
      assert |Times(o, 4)| == 4 * |o| >= 8;
    }
  }

  /** A string of at most four letters tripled is "ababab" only if it is "ab". */
  lemma TripleMisses(o: string)
    requires |o| <= 4 && o != "ab"
    ensures Times(o, 3) != "ababab"
  {
    assert Times(o, 3) == o + (o + (o + []));
    assert (o + (o + (o + [])))[..|o|] == o;
    assert "ababab"[..2] == "ab";
  }

  /** Growing a list with distinct short outputs, none "aba", that holds a
      program q for "ab": the first "ababab" is q repeated 3 times. */
  lemma {:induction false} GrowFindsTripleOfAb(ps: seq<Tree>, q: Tree)
    requires DistinctOutputs(ps)
    requires forall p :: p in ps ==> |Interpret(p)| <= 4 && Interpret(p) != "aba"
    requires q in ps && Interpret(q) == "ab"
    ensures FindFirst(Grow(ps), "ababab") == Some(Repeat(3, q))
  {
    var p := ps[0];
    var e := Expansions(p);
    FindFirstAppend(e, Grow(ps[1..]), "ababab");
    var j :| 0 <= j < |ps| && ps[j] == q;
    if Interpret(p) == "ab" {
      assert j == 0;
      assert e[..3] == [q, Repeat(2, q), Repeat(3, q)];
      assert Interpret(Repeat(2, q)) == "abab";
      assert Interpret(Repeat(3, q)) == "ababab";
      FindFirstAt(e, 2, "ababab");
    } else {
      BlockMissesAbabab(p);
      assert q in ps[1..] by {
        assert j != 0 && ps[1..][j - 1] == q;
      }
      assert DistinctOutputs(ps[1..]) by {
        forall i, j | 0 <= i < j < |ps[1..]| ensures Interpret(ps[1..][i]) != Interpret(ps[1..][j]) {
          assert ps[1..][i] == ps[i + 1] && ps[1..][j] == ps[j + 1];
        }
      }
      GrowFindsTripleOfAb(ps[1..], q);
    }
  }
}

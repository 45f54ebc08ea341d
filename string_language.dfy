/**
 * The regex-like string language of the synthesizer: its programs, their
 * meaning (Interpret), their surface syntax (Render) and the one-step
 * expansion of a list of programs by the grammar rules (Grow).
 */
module StringLanguage {
  import opened Wrappers

  /** A program: a terminal symbol, a repetition of a child, or a symbol
      prepended to a child. Subtrees are immutable values. */
  datatype Tree =
    | Terminal(sym: char)
    | Repeat(count: nat, child: Tree)
    | Group(sym: char, child: Tree)

  /** The alphabet, in the order the generators enumerate it. */
  const Terminals: string := "abc"
  /** The repetition counts, in the order the generators enumerate them. */
  const Nums: seq<nat> := [2, 3, 4]

  /** Trees whose symbols come from Terminals and whose counts from Nums:
      exactly the trees the generators can build. */
  predicate WellFormed(t: Tree) {
    match t
    case Terminal(c) => c in Terminals
    case Repeat(n, c) => n in Nums && WellFormed(c)
    case Group(s, c) => s in Terminals && WellFormed(c)
  }

  /** Python's `n * s`: the string `s` written `n` times in a row, so that
      position `i` holds the character of `s` at `i` modulo `|s|`. */
  function Times(s: string, n: nat): (r: string)
    ensures |r| == n * |s|
    ensures forall i :: 0 <= i < |r| ==> r[i] == s[Cycle(i, |s|)]
  {
    if n == 0 then [] else s + Times(s, n - 1)
  }

  /** `i` modulo `m`, counted by whole turns of `m`. */
  function Cycle(i: nat, m: nat): (k: nat)
    requires m > 0
    ensures k < m
    ensures i < m ==> k == i
  {
    if i < m then i else Cycle(i - m, m)
  }

  /** The meaning of a program. */
  function Interpret(t: Tree): string {
    match t
    case Terminal(c) => [c]
    case Repeat(n, c) => Times(Interpret(c), n)
    case Group(s, c) => [s] + Interpret(c)
  }

  /** Decimal notation of a natural number, as Python's `str` writes an int. */
  function Decimal(n: nat): (r: string)
    ensures r != []
    ensures forall i :: 0 <= i < |r| ==> '0' <= r[i] <= '9'
  {
    if n < 10 then [Digit(n)] else Decimal(n / 10) + [Digit(n % 10)]
  }

  function Digit(d: nat): char
    requires d < 10
  {
    (d + '0' as int) as char
  }

  /** The surface syntax: a terminal bare, a repeat or a group as
      `content(child)` -- the same shape for both. */
  function Render(t: Tree): (r: string)
    ensures r != []
  {
    match t
    case Terminal(c) => [c]
    case Repeat(n, c) => Decimal(n) + "(" + Render(c) + ")"
    case Group(s, c) => [s] + "(" + Render(c) + ")"
  }

  /** Reference reader of the surface syntax of well-formed programs: a digit
      in front of the parenthesis reads as a repeat, a symbol as a group. */
  function Parse(s: string): Option<Tree>
    decreases |s|
  {
    if |s| == 1 then
      if s[0] in Terminals then Some(Terminal(s[0])) else None
    else if |s| >= 4 && s[1] == '(' && s[|s| - 1] == ')' then
      match Parse(s[2..|s| - 1])
      case None => None
      case Some(c) =>
        if s[0] in Terminals then Some(Group(s[0], c))
        else if '2' <= s[0] <= '4' then Some(Repeat(s[0] as int - '0' as int, c))
        else None
    else None
  }

  /** The `repeat` rule: one Repeat of `p` per count, in count order. */
  function RepeatRule(p: Tree): (r: seq<Tree>)
    ensures |r| == |Nums|
    ensures forall k :: 0 <= k < |r| ==> |Interpret(r[k])| == Nums[k] * |Interpret(p)|
  {
    seq(|Nums|, k requires 0 <= k < |Nums| => Repeat(Nums[k], p))
  }

  /** The `group` rule: one Group of `p` per symbol, in alphabet order. */
  function GroupRule(p: Tree): (r: seq<Tree>)
    ensures |r| == |Terminals|
    ensures forall k :: 0 <= k < |r| ==> Interpret(r[k]) == [Terminals[k]] + Interpret(p)
  {
    seq(|Terminals|, k requires 0 <= k < |Terminals| => Group(Terminals[k], p))
  }

  /** The starting programs: one Terminal per symbol. */
  function Initial(): (r: seq<Tree>)
    ensures |r| == |Terminals|
    ensures forall k :: 0 <= k < |r| ==> WellFormed(r[k]) && Interpret(r[k]) == [Terminals[k]]
  {
    seq(|Terminals|, k requires 0 <= k < |Terminals| => Terminal(Terminals[k]))
  }

  /** What `grow` yields for one program: itself, then the `repeat` rule's
      programs, then the `group` rule's. */
  function Expansions(p: Tree): seq<Tree> {
    [p] + RepeatRule(p) + GroupRule(p)
  }

  /** `grow`: the expansions of every program, in input order. */
  function Grow(ps: seq<Tree>): seq<Tree> {
    if ps == [] then [] else Expansions(ps[0]) + Grow(ps[1..])
  }

  // ---------------------------------------------------------------------
  // Semantics

  /** A group is its symbol followed by its child's output. */
  lemma GroupSemantics(s: char, c: Tree)
    ensures |Interpret(Group(s, c))| == 1 + |Interpret(c)|
    ensures Interpret(Group(s, c))[0] == s && Interpret(Group(s, c))[1..] == Interpret(c)
  {
  }

  /** Every well-formed program outputs a non-empty string over the alphabet. */
  lemma {:induction false} InterpretWellFormed(t: Tree)
    requires WellFormed(t)
    ensures |Interpret(t)| >= 1
    ensures forall i :: 0 <= i < |Interpret(t)| ==> Interpret(t)[i] in Terminals
  {
    match t
    case Terminal(c) =>
    case Repeat(n, c) =>
      InterpretWellFormed(c);
      var s := Interpret(c);
      assert |Interpret(t)| == n * |s| >= |s|;
    case Group(s, c) =>
      InterpretWellFormed(c);
      forall i | 0 <= i < |Interpret(t)| ensures Interpret(t)[i] in Terminals {
        if i > 0 { assert Interpret(t)[i] == Interpret(c)[i - 1]; }
      }
  }

  // ---------------------------------------------------------------------
  // Rendering

  /** Rendering loses nothing on well-formed programs: although a repeat and a
      group share the shape `content(child)`, the count is a digit and the
      symbol a letter, so the reference reader recovers the program. */
  lemma {:induction false} ParseRender(t: Tree)
    requires WellFormed(t)
    ensures Parse(Render(t)) == Some(t)
  {
    match t
    case Terminal(c) =>
    case Repeat(n, c) =>
      ParseRender(c);
      assert Decimal(n) == [Digit(n)];
      ParseWrapped(Digit(n), Render(c));
    case Group(g, c) =>
      ParseRender(c);
      ParseWrapped(g, Render(c));
  }

  /** The reader on `x(inner)` reads `inner` and decides by `x`. */
  lemma ParseWrapped(x: char, inner: string)
    requires inner != []
    ensures Parse([x] + "(" + inner + ")") ==
      match Parse(inner)
      case None => None
      case Some(c) =>
        if x in Terminals then Some(Group(x, c))
        else if '2' <= x <= '4' then Some(Repeat(x as int - '0' as int, c))
        else None
  {
    var s := [x] + "(" + inner + ")";
    assert s[2..|s| - 1] == inner;
  }

  /** Different well-formed programs render differently. */
  lemma RenderInjective(t: Tree, u: Tree)
    requires WellFormed(t) && WellFormed(u)
    requires Render(t) == Render(u)
    ensures t == u
  {
    ParseRender(t);
    ParseRender(u);
  }

  /** The example of the module's documentation: 3(a(b)) outputs ababab. */
  lemma RenderExample()
    ensures Render(Repeat(3, Group('a', Terminal('b')))) == "3(a(b))"
    ensures Interpret(Repeat(3, Group('a', Terminal('b')))) == "ababab"
  {
    assert Decimal(3) == "3";
    assert Interpret(Group('a', Terminal('b'))) == "ab";
    assert Times("ab", 3) == "ab" + Times("ab", 2);
    assert Times("ab", 2) == "ab" + Times("ab", 1);
    assert Times("ab", 1) == "ab" + Times("ab", 0);
  }

  // ---------------------------------------------------------------------
  // Generation

  /** `grow` yields seven programs per input, block by block in input order:
      the program, its repeats by 2, 3, 4, its groups under a, b, c. */
  lemma {:induction false} GrowBlock(ps: seq<Tree>, i: nat)
    requires i < |ps|
    ensures |Grow(ps)| == 7 * |ps|
    ensures Grow(ps)[7 * i .. 7 * i + 7] ==
      [ps[i], Repeat(2, ps[i]), Repeat(3, ps[i]), Repeat(4, ps[i]),
       Group('a', ps[i]), Group('b', ps[i]), Group('c', ps[i])]
  {
    GrowLength(ps);
    if i == 0 {
      assert Grow(ps)[..7] == Expansions(ps[0]);
    } else {
      GrowBlock(ps[1..], i - 1);
      assert Grow(ps)[7 * i .. 7 * i + 7] == Grow(ps[1..])[7 * (i - 1) .. 7 * (i - 1) + 7];
    }
  }

  lemma {:induction false} GrowLength(ps: seq<Tree>)
    ensures |Grow(ps)| == 7 * |ps|
  {
    if ps != [] { GrowLength(ps[1..]); }
  }

  /** `grow` distributes over concatenation of its input. */
  lemma {:induction false} GrowAppend(a: seq<Tree>, b: seq<Tree>)
    ensures Grow(a + b) == Grow(a) + Grow(b)
  {
    if a == [] {
      assert a + b == b;
    } else {
      assert (a + b)[1..] == a[1..] + b;
      GrowAppend(a[1..], b);
    }
  }

  /** `grow` keeps well-formedness. */
  lemma {:induction false} GrowWellFormed(ps: seq<Tree>)
    requires forall p :: p in ps ==> WellFormed(p)
    ensures forall q :: q in Grow(ps) ==> WellFormed(q)
  {
    if ps != [] {
      GrowWellFormed(ps[1..]);
      assert WellFormed(ps[0]);
      forall q | q in Grow(ps) ensures WellFormed(q) {
        if q in Expansions(ps[0]) {
        } else {
          assert q in Grow(ps[1..]);
        }
      }
    }
  }
}

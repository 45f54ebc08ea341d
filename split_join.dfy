/**
 * Python's argument-less `str.split()` and `" ".join(...)`, over the ASCII
 * whitespace characters: splitting drops whitespace at both ends and treats
 * every run of whitespace as one separator.
 */
module SplitJoin {

  /** ASCII whitespace as Python's `str.isspace` sees it: tab, line feed,
      vertical tab, form feed, carriage return, the separators 0x1C-0x1F
      and space. */
  predicate IsSpace(c: char) {
    c == ' ' || '\t' <= c <= '\r' || '\U{1C}' <= c <= '\U{1F}'
  }

  /** A word: a non-empty string without whitespace. */
  predicate IsWord(w: string) {
    w != [] && forall i :: 0 <= i < |w| ==> !IsSpace(w[i])
  }

  /** `s` with its leading whitespace removed. */
  function TrimStart(s: string): (r: string)
    ensures |r| <= |s|
    ensures r == [] || !IsSpace(r[0])
  {
    if s != [] && IsSpace(s[0]) then TrimStart(s[1..]) else s
  }

  /** The longest prefix of `s` without whitespace. */
  function WordPrefix(s: string): (w: string)
    ensures |w| <= |s|
    ensures forall i :: 0 <= i < |w| ==> !IsSpace(w[i])
    ensures s != [] && !IsSpace(s[0]) ==> w != []
  {
    if s == [] || IsSpace(s[0]) then [] else [s[0]] + WordPrefix(s[1..])
  }

  /** `s.split()`: the words of `s`, in order. */
  function Split(s: string): (ws: seq<string>)
    ensures forall i :: 0 <= i < |ws| ==> IsWord(ws[i])
    decreases |s|
  {
    var t := TrimStart(s);
    if t == [] then []
    else
      var w := WordPrefix(t);
      [w] + Split(t[|w|..])
  }

  /** `" ".join(ws)`. */
  function Join(ws: seq<string>): string {
    if ws == [] then []
    else if |ws| == 1 then ws[0]
    else ws[0] + " " + Join(ws[1..])
  }

  /** Splitting what was joined from words gives the words back. */
  lemma {:induction false} SplitOfJoin(ws: seq<string>)
    requires forall i :: 0 <= i < |ws| ==> IsWord(ws[i])
    ensures Split(Join(ws)) == ws
  {
    if |ws| == 1 {
      SplitOfWord(ws[0]);
    } else if |ws| > 1 {
      var w, tail := ws[0], Join(ws[1..]);
      assert Join(ws) == w + (" " + tail);
      SplitOfWord(w);
      SplitBeforeSpace(w, " " + tail);
      SplitSpace(" " + tail);
      assert (" " + tail)[1..] == tail;
      SplitOfJoin(ws[1..]);
    }
  }

  /** A single word splits into itself. */
  lemma SplitOfWord(w: string)
    requires IsWord(w)
    ensures Split(w) == [w]
  {
    WordPrefixOfWord(w, []);
    assert w + [] == w;
    SplitWord(w);
    assert w[|w|..] == [];
  }

  /** A run of whitespace is one separator, and whitespace at either end is
      dropped: splitting `a + spaces + b` splits `a` and `b` apart. With
      `SplitOfJoin([w])` for a single word this fixes `Split` everywhere. */
  lemma SplitRun(a: string, spaces: string, b: string)
    requires spaces != [] && forall i :: 0 <= i < |spaces| ==> IsSpace(spaces[i])
    ensures Split(a + spaces + b) == Split(a) + Split(b)
  {
    assert a + spaces + b == a + (spaces + b);
    SplitBeforeSpace(a, spaces + b);
    SplitSpaces(spaces, b);
  }

  /** Words never run across whitespace: splitting `a + rest`, where `rest`
      starts with whitespace, splits `a` and `rest` apart. */
  lemma {:induction false} SplitBeforeSpace(a: string, rest: string)
    requires rest != [] && IsSpace(rest[0])
    ensures Split(a + rest) == Split(a) + Split(rest)
    decreases |a|
  {
    if a == [] {
      assert a + rest == rest;
    } else if IsSpace(a[0]) {
      SplitStepSpace(a, rest);
      SplitBeforeSpace(a[1..], rest);
    } else {
      var w := WordPrefix(a);
      var a2 := a[|w|..];
      SplitWord(a);
      SplitStepWord(a, rest);
      SplitBeforeSpace(a2, rest);
      ConsAssoc(w, Split(a2), Split(rest));
    }
  }

  lemma ConsAssoc(w: string, xs: seq<string>, ys: seq<string>)
    ensures [w] + xs + ys == [w] + (xs + ys)
  {
  }

  /** One step of SplitBeforeSpace past a leading whitespace character. */
  lemma SplitStepSpace(a: string, rest: string)
    requires a != [] && IsSpace(a[0])
    ensures Split(a + rest) == Split(a[1..] + rest)
    ensures Split(a) == Split(a[1..])
  {
    SplitSpace(a + rest);
    SplitSpace(a);
    assert (a + rest)[1..] == a[1..] + rest;
  }

  /** One step of SplitBeforeSpace past a leading word, when whitespace follows. */
  lemma SplitStepWord(a: string, rest: string)
    requires a != [] && !IsSpace(a[0])
    requires rest != [] && IsSpace(rest[0])
    ensures Split(a + rest) == [WordPrefix(a)] + Split(a[|WordPrefix(a)|..] + rest)
  {
    var w := WordPrefix(a);
    WordPrefixAppend(a, rest);
    SplitWordAt(a + rest, w);
    DropAppend(a, rest, |w|);
  }

  /** Dropping a prefix of `a` from `a + b`. */
  lemma DropAppend<T>(a: seq<T>, b: seq<T>, n: nat)
    requires n <= |a|
    ensures (a + b)[n..] == a[n..] + b
  {
  }

  lemma SplitWordAt(s: string, w: string)
    requires s != [] && !IsSpace(s[0]) && WordPrefix(s) == w
    ensures Split(s) == [w] + Split(s[|w|..])
  {
    SplitWord(s);
  }

  /** Leading whitespace is skipped. */
  lemma {:induction false} SplitSpaces(spaces: string, b: string)
    requires forall i :: 0 <= i < |spaces| ==> IsSpace(spaces[i])
    ensures Split(spaces + b) == Split(b)
  {
    if spaces == [] {
      assert spaces + b == b;
    } else {
      SplitSpace(spaces + b);
      assert (spaces + b)[1..] == spaces[1..] + b;
      SplitSpaces(spaces[1..], b);
    }
  }

  /** A leading whitespace character does not change the words. */
  lemma SplitSpace(s: string)
    requires s != [] && IsSpace(s[0])
    ensures Split(s) == Split(s[1..])
  {
    assert TrimStart(s) == TrimStart(s[1..]);
  }

  /** A string starting with a word character splits into its first word
      and the words of the rest. */
  lemma SplitWord(s: string)
    requires s != [] && !IsSpace(s[0])
    ensures Split(s) == [WordPrefix(s)] + Split(s[|WordPrefix(s)|..])
  {
    assert TrimStart(s) == s;
  }

  /** The first word of `x + y` is the first word of `x` when that word ends
      inside `x` or `y` starts with whitespace. */
  lemma {:induction false} WordPrefixAppend(x: string, y: string)
    requires |WordPrefix(x)| < |x| || (y != [] && IsSpace(y[0]))
    ensures WordPrefix(x + y) == WordPrefix(x)
  {
    if x == [] {
      assert x + y == y;
    } else if !IsSpace(x[0]) {
      assert (x + y)[0] == x[0] && (x + y)[1..] == x[1..] + y;
      WordPrefixAppend(x[1..], y);
    }
  }

  /** The first word of `w + rest`, when `rest` is empty or starts with a
      space, is `w`. */
  lemma {:induction false} WordPrefixOfWord(w: string, rest: string)
    requires IsWord(w)
    requires rest == [] || rest[0] == ' '
    ensures TrimStart(w + rest) == w + rest
    ensures WordPrefix(w + rest) == w
  {
    if |w| > 1 {
      WordPrefixOfWord(w[1..], rest);
      assert (w + rest)[1..] == w[1..] + rest;
    } else {
      assert (w + rest)[1..] == rest;
    }
  }
}

/**
 * The table of building-block string transforms: each entry is a pure
 * function from a string to a string built from deletions, replacements and
 * slices of its characters.
 */
module SyntheticGrammar {
  import opened SeqUtil
  import opened SplitJoin

  // ---------------------------------------------------------------------
  // Python string primitives the transforms are written with

  /** The characters of `s` that are not in `banned`, in order: a one-letter
      `str.replace(x, "")`, or a comprehension keeping `c not in banned`. */
  function Without(s: string, banned: string): (r: string)
    ensures IsSubsequence(r, s)
    ensures forall i :: 0 <= i < |r| ==> r[i] !in banned
    ensures |r| == |s| - CountIn(s, banned)
  {
    if s == [] then []
    else
      var rest := Without(s[1..], banned);
      assert s == [s[0]] + s[1..];
      if s[0] in banned then
        SubsequenceSkip(s[0], rest, s[1..]);
        rest
      else
        SubsequenceCons(s[0], rest, s[1..]);
        [s[0]] + rest
  }

  /** `str.replace(c, w)` for a one-character pattern `c`: every `c` in `s`
      becomes `w`, every other character stays. */
  function ReplaceChar(s: string, c: char, w: string): (r: string)
    ensures |r| == |s| - CountIn(s, [c]) + CountIn(s, [c]) * |w|
  {
    if s == [] then []
    else (if s[0] == c then w else [s[0]]) + ReplaceChar(s[1..], c, w)
  }

  /** A slice bound as Python normalises it for a string of length `n`:
      negative bounds count from the end, and out-of-range bounds clamp. */
  function SliceBound(i: int, n: nat): (k: nat)
    ensures k <= n
  {
    if i < 0 then (if i + n < 0 then 0 else i + n)
    else if i > n then n
    else i
  }

  /** Python's `s[start:stop]`. */
  function Slice(s: string, start: int, stop: int): (r: string)
    ensures |r| <= |s|
    ensures var a, b := SliceBound(start, |s|), SliceBound(stop, |s|);
      |r| == (if a < b then b - a else 0) &&
      forall k :: 0 <= k < |r| ==> r[k] == s[a + k]
  {
    var a, b := SliceBound(start, |s|), SliceBound(stop, |s|);
    if a < b then s[a..b] else []
  }

  // ---------------------------------------------------------------------
  // The transforms

  /** remove_all: delete every letter e. */
  function RemoveAll(s: string): (r: string)
    ensures 'e' !in r
    ensures IsSubsequence(r, s)
    ensures |r| == |s| - CountIn(s, "e")
  {
    Without(s, "e")
  }

  /** replace_spaces: every space becomes an exclamation mark. */
  function ReplaceSpaces(s: string): (r: string)
    ensures |r| == |s|
    ensures ' ' !in r
    ensures forall i :: 0 <= i < |s| ==> r[i] == if s[i] == ' ' then '!' else s[i]
  {
    ReplaceOneChar(s, ' ', '!');
    ReplaceChar(s, ' ', "!")
  }

  /** remove_first_two_chars: `s[2:-2]`, which drops two characters at each
      end (the name says only the first two). */
  function RemoveFirstTwoChars(s: string): (r: string)
    ensures |s| <= 4 ==> r == []
    ensures |s| > 4 ==> |r| == |s| - 4 && forall k :: 0 <= k < |r| ==> r[k] == s[k + 2]
  {
    Slice(s, 2, -2)
  }

  /** remove_vowels: delete every character of "aeiouAEIOU". */
  function RemoveVowels(s: string): (r: string)
    ensures forall i :: 0 <= i < |r| ==> r[i] !in "aeiouAEIOU"
    ensures IsSubsequence(r, s)
    ensures |r| == |s| - CountIn(s, "aeiouAEIOU")
  {
    Without(s, "aeiouAEIOU")
  }

  /** remove_every_third: keep the characters whose index is not a multiple
      of 3 (so indices 0, 3, 6, ... go). */
  function RemoveEveryThird(s: string): (r: string)
    ensures |r| == |s| - (|s| + 2) / 3
    ensures forall k :: 0 <= k < |r| ==> r[k] == s[k + k / 2 + 1]
    decreases |s|
  {
    if s == [] then []
    else
      var n := |s| - 1;
      RemoveEveryThird(s[..n]) + (if n % 3 != 0 then [s[n]] else [])
  }

  /** drop_last_half: `s[:len(s) // 2]`. */
  function DropLastHalf(s: string): (r: string)
    ensures |r| + |r| <= |s| <= |r| + |r| + 1
    ensures r == s[..|r|]
  {
    Slice(s, 0, |s| / 2)
  }

  /** replace_spaces_with_triple_space: every space becomes three. */
  function ReplaceSpacesWithTripleSpace(s: string): (r: string)
    ensures |r| == |s| + 2 * CountIn(s, " ")
    ensures Without(r, " ") == Without(s, " ")
  {
    ReplaceByRun(s, ' ', "   ");
    ReplaceChar(s, ' ', "   ")
  }

  /** delete_punctuation: delete every '.', '!' and '?'. */
  function DeletePunctuation(s: string): (r: string)
    ensures forall i :: 0 <= i < |r| ==> r[i] !in ".!?"
    ensures IsSubsequence(r, s)
    ensures |r| == |s| - CountIn(s, ".!?")
  {
    Without(s, ".!?")
  }

  /** reverse_word_order: `" ".join(s.split()[::-1])`. */
  function ReverseWordOrder(s: string): (r: string)
    ensures Split(r) == Reversed(Split(s))
    ensures Join(Split(r)) == r
  {
    var ws := Reversed(Split(s));
    SplitOfJoin(ws);
    Join(ws)
  }

  /** drop_first_half_by_words: the words from index `n // 2` on, where `n`
      is the number of words. */
  function DropFirstHalfByWords(s: string): (r: string)
    ensures |Split(r)| == |Split(s)| - |Split(s)| / 2
    ensures Split(r) == Split(s)[|Split(s)| / 2..]
    ensures Join(Split(r)) == r
  {
    var ws := Split(s)[|Split(s)| / 2..];
    SplitOfJoin(ws);
    Join(ws)
  }

  /** add_apples_after_each_words: every word followed by " apples". */
  function AddApplesAfterEachWord(s: string): (r: string)
    ensures |Split(r)| == 2 * |Split(s)|
    ensures forall i :: 0 <= i < |Split(s)| ==>
      Split(r)[2 * i] == Split(s)[i] && Split(r)[2 * i + 1] == "apples"
    ensures Join(Split(r)) == r
  {
    var ws := Split(s);
    JoinWithApples(ws);
    WithApplesAt(ws);
    WithApplesWords(ws);
    SplitOfJoin(WithApples(ws));
    Join(AppleItems(ws))
  }

  /** Python's `ws[::-1]`. */
  function Reversed(ws: seq<string>): (r: seq<string>)
    ensures |r| == |ws|
    ensures forall i :: 0 <= i < |ws| ==> r[i] == ws[|ws| - 1 - i]
  {
    seq(|ws|, i requires 0 <= i < |ws| => ws[|ws| - 1 - i])
  }

  /** The generator `word + " apples" for word in ws`. */
  function AppleItems(ws: seq<string>): (r: seq<string>)
    ensures |r| == |ws|
    ensures forall i :: 0 <= i < |ws| ==> r[i] == ws[i] + " apples"
  {
    if ws == [] then [] else [ws[0] + " apples"] + AppleItems(ws[1..])
  }

  /** The words interleaved with "apples": w0, apples, w1, apples, ... */
  function WithApples(ws: seq<string>): (r: seq<string>)
    ensures |r| == 2 * |ws|
  {
    if ws == [] then [] else [ws[0], "apples"] + WithApples(ws[1..])
  }

  /** Position 2i of the interleaving holds word i, position 2i+1 "apples". */
  lemma {:induction false} WithApplesAt(ws: seq<string>)
    ensures forall i :: 0 <= i < |ws| ==>
      WithApples(ws)[2 * i] == ws[i] && WithApples(ws)[2 * i + 1] == "apples"
  {
    if ws != [] {
      WithApplesAt(ws[1..]);
      var r, tail := WithApples(ws), WithApples(ws[1..]);
      assert r == [ws[0], "apples"] + tail;
      forall i | 1 <= i < |ws| ensures r[2 * i] == ws[i] && r[2 * i + 1] == "apples" {
        assert r[2 * i] == tail[2 * (i - 1)] && r[2 * i + 1] == tail[2 * (i - 1) + 1];
      }
    }
  }

  /** Interleaving words with "apples" gives words. */
  lemma {:induction false} WithApplesWords(ws: seq<string>)
    requires forall i :: 0 <= i < |ws| ==> IsWord(ws[i])
    ensures forall j :: 0 <= j < |WithApples(ws)| ==> IsWord(WithApples(ws)[j])
  {
    if ws != [] {
      WithApplesWords(ws[1..]);
      assert IsWord("apples");
      var r, tail := WithApples(ws), WithApples(ws[1..]);
      assert r == [ws[0], "apples"] + tail;
      forall j | 2 <= j < |r| ensures IsWord(r[j]) {
        assert r[j] == tail[j - 2];
      }
    }
  }

  /** Joining "w apples" items is joining the interleaved words. */
  lemma {:induction false} JoinWithApples(ws: seq<string>)
    ensures Join(AppleItems(ws)) == Join(WithApples(ws))
  {
    if ws != [] {
      var tail := WithApples(ws[1..]);
      assert WithApples(ws) == [ws[0]] + (["apples"] + tail);
      JoinCons(ws[0], ["apples"] + tail);
      assert AppleItems(ws) == [ws[0] + " apples"] + AppleItems(ws[1..]);
      if ws[1..] == [] {
        assert Join(["apples"] + tail) == "apples";
      } else {
        JoinWithApples(ws[1..]);
        JoinCons("apples", tail);
        JoinCons(ws[0] + " apples", AppleItems(ws[1..]));
      }
    }
  }

  /** `" ".join` of a word and a non-empty rest. */
  lemma JoinCons(w: string, rest: seq<string>)
    requires rest != []
    ensures Join([w] + rest) == w + " " + Join(rest)
  {
    assert ([w] + rest)[1..] == rest;
  }

  // ---------------------------------------------------------------------
  // Properties

  /** Deleting characters that do not occur changes nothing. */
  lemma {:induction false} WithoutAbsent(s: string, banned: string)
    requires forall i :: 0 <= i < |s| ==> s[i] !in banned
    ensures Without(s, banned) == s
  {
    if s != [] {
      WithoutAbsent(s[1..], banned);
    }
  }

  /** `str.replace` of a one-character pattern works character by
      character: a concatenation is replaced part by part. With
      ReplaceCharSingle this fixes the result on every input. */
  lemma {:induction false} ReplaceCharAppend(a: string, b: string, c: char, w: string)
    ensures ReplaceChar(a + b, c, w) == ReplaceChar(a, c, w) + ReplaceChar(b, c, w)
  {
    if a == [] {
      assert a + b == b;
    } else {
      assert (a + b)[0] == a[0] && (a + b)[1..] == a[1..] + b;
      ReplaceCharAppend(a[1..], b, c, w);
    }
  }

  /** The pattern character alone becomes the replacement; any other
      character alone stays. */
  lemma ReplaceCharSingle(x: char, c: char, w: string)
    ensures ReplaceChar([x], c, w) == if x == c then w else [x]
  {
    assert [x][1..] == [];
  }

  /** replace_spaces_with_triple_space, character by character: each space
      becomes three spaces in place, every other character stays. */
  lemma TripleSpaceByParts(a: string, b: string)
    ensures ReplaceSpacesWithTripleSpace(a + b) ==
      ReplaceSpacesWithTripleSpace(a) + ReplaceSpacesWithTripleSpace(b)
    ensures ReplaceSpacesWithTripleSpace(" ") == "   "
    ensures forall x :: x != ' ' ==> ReplaceSpacesWithTripleSpace([x]) == [x]
  {
    ReplaceCharAppend(a, b, ' ', "   ");
    ReplaceCharSingle(' ', ' ', "   ");
    forall x | x != ' ' ensures ReplaceSpacesWithTripleSpace([x]) == [x] {
      ReplaceCharSingle(x, ' ', "   ");
    }
  }

  /** The space of "a b" becomes three spaces between the letters. */
  lemma TripleSpaceExample()
    ensures ReplaceSpacesWithTripleSpace("a b") == "a   b"
  {
    assert "a b" == "a" + " b" && " b" == " " + "b";
    TripleSpaceByParts("a", " b");
    TripleSpaceByParts(" ", "b");
    assert ReplaceSpacesWithTripleSpace(" b") == "   " + "b";
  }

  /** Replacing a character that does not occur changes nothing. */
  lemma {:induction false} ReplaceAbsent(s: string, c: char, w: string)
    requires c !in s
    ensures ReplaceChar(s, c, w) == s
  {
    if s != [] {
      ReplaceAbsent(s[1..], c, w);
    }
  }

  /** Replacing by a single character works position by position. */
  lemma {:induction false} ReplaceOneChar(s: string, c: char, d: char)
    ensures |ReplaceChar(s, c, [d])| == |s|
    ensures forall i :: 0 <= i < |s| ==>
      ReplaceChar(s, c, [d])[i] == if s[i] == c then d else s[i]
  {
    if s != [] {
      ReplaceOneChar(s[1..], c, d);
      var r := ReplaceChar(s, c, [d]);
      assert r == [if s[0] == c then d else s[0]] + ReplaceChar(s[1..], c, [d]);
      forall i | 0 <= i < |s| ensures r[i] == if s[i] == c then d else s[i] {
        if i > 0 {
          assert r[i] == ReplaceChar(s[1..], c, [d])[i - 1];
        }
      }
    }
  }

  /** Replacing `c` by a run of `c`s leaves the other characters, in order. */
  lemma {:induction false} ReplaceByRun(s: string, c: char, w: string)
    requires forall i :: 0 <= i < |w| ==> w[i] == c
    ensures Without(ReplaceChar(s, c, w), [c]) == Without(s, [c])
  {
    if s != [] {
      ReplaceByRun(s[1..], c, w);
      var head := if s[0] == c then w else [s[0]];
      WithoutAppend(head, ReplaceChar(s[1..], c, w), [c]);
      if s[0] == c {
        WithoutAbsentAll(w, c);
      }
    }
  }

  lemma {:induction false} WithoutAbsentAll(w: string, c: char)
    requires forall i :: 0 <= i < |w| ==> w[i] == c
    ensures Without(w, [c]) == []
  {
    if w != [] {
      WithoutAbsentAll(w[1..], c);
    }
  }

  /** Deleting from a concatenation deletes from each part. */
  lemma {:induction false} WithoutAppend(a: string, b: string, banned: string)
    ensures Without(a + b, banned) == Without(a, banned) + Without(b, banned)
  {
    if a == [] {
      assert a + b == b;
    } else {
      assert (a + b)[0] == a[0] && (a + b)[1..] == a[1..] + b;
      WithoutAppend(a[1..], b, banned);
    }
  }

  /** remove_all, remove_vowels and delete_punctuation are idempotent. */
  lemma DeletionsIdempotent(s: string)
    ensures RemoveAll(RemoveAll(s)) == RemoveAll(s)
    ensures RemoveVowels(RemoveVowels(s)) == RemoveVowels(s)
    ensures DeletePunctuation(DeletePunctuation(s)) == DeletePunctuation(s)
  {
    WithoutAbsent(RemoveAll(s), "e");
    WithoutAbsent(RemoveVowels(s), "aeiouAEIOU");
    WithoutAbsent(DeletePunctuation(s), ".!?");
  }

  /** Reversing the word order twice gives the words back, joined by single
      spaces. */
  lemma ReverseWordOrderTwice(s: string)
    ensures ReverseWordOrder(ReverseWordOrder(s)) == Join(Split(s))
  {
    var ws := Split(s);
    assert Reversed(Reversed(ws)) == ws;
  }

  /** replace_spaces is idempotent. */
  lemma ReplaceSpacesIdempotent(s: string)
    ensures ReplaceSpaces(ReplaceSpaces(s)) == ReplaceSpaces(s)
  {
    ReplaceAbsent(ReplaceSpaces(s), ' ', "!");
  }
}

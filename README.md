# Bottom-up string synthesizer, modelled in Dafny

This project models the enumerative synthesizer of `string_compress.py`. It
also models the string-transform catalogue of `openai_comp_lang.py`.

The synthesizer works over a small regex-like string language. A program
(`StringTree`) is one of three kinds:

- a terminal symbol `a`, `b` or `c`;
- a repetition `n(child)`, with `n` one of 2, 3 or 4;
- a group `s(child)`, which puts the symbol `s` in front of the child's
  output.

`StringLanguage` starts from the three terminals. Its `grow` yields, for each
program in turn, the program itself, its three repeats and its three groups.
`filter_observationally_equivalent` keeps the first program for each distinct
output. `bottom_up_explicit` repeats "extend by `grow`, filter, scan for the
target" until some program outputs the target string.

`openai_comp_lang.py:61-120` is a verbatim copy of
`string_compress.py:26-85`. It is modelled once; a few table rows cite the
copy.

Files:

- `wrappers.dfy`: `Option`.
- `seq_util.dfy`: subsequence and character-count helpers.
- `string_language.dfy` (module `StringLanguage`): the program tree as a
  datatype, and `interpret`, `render`, the two rules, `initial` and `grow`
  as functions. `StringLanguage` has no state that changes after
  construction, so it is a module with the constants `Terminals` and `Nums`.
- `bottom_up.dfy` (module `BottomUp`): the filter and the search as methods
  with loops. Each is proved equal to a specification function. The
  properties are proved about those functions.
- `scenarios.dfy`: the documented answers. `"aaa"` gives `3(a)`,
  `"ababab"` gives `3(a(b))`, and a letter outside the alphabet is never
  found.
- `split_join.dfy` and `synthetic_grammar.dfy`: the transform lambdas, with
  Python's `str.split()` and `" ".join`.

On rendering: a repeat and a group both render as `content(child)`. The count
is a digit and the symbol is a letter, so well-formed programs still render
unambiguously. `Parse` is a reference reader that inverts `Render` on them.

## Model

| member | source | states |
|---|---|---|
| StringLanguage.Times | string_compress.py:57 | `n * s` has length `n*|s|`; position `i` holds `s[i mod |s|]` |
| StringLanguage.Decimal | string_compress.py:66 | the count's decimal text is non-empty and made of digits |
| StringLanguage.Render | string_compress.py:61-68 | a rendering is never empty |
| StringLanguage.GroupSemantics | string_compress.py:58-59 | a group's output is its symbol followed by the child's output |
| StringLanguage.InterpretWellFormed | string_compress.py:52-59 | every program the generators can build outputs a non-empty string over `abc` |
| StringLanguage.ParseRender | string_compress.py:61-68 | the reader recovers every well-formed program from its rendering |
| StringLanguage.RenderInjective | openai_comp_lang.py:96-103 | two well-formed programs with the same rendering are equal |
| StringLanguage.RenderExample | string_compress.py:61-68 | `3(a(b))` renders as "3(a(b))" and outputs "ababab" |
| StringLanguage.Interpret | string_compress.py:52-59 | a terminal outputs its symbol, a repeat its count times the child's output, a group its symbol before the child's output; Times, GroupSemantics and InterpretWellFormed state its properties |
| StringLanguage.RepeatRule | string_compress.py:34-36 | three programs, the k-th outputting `Nums[k]` times as many characters as the child (counts 2, 3, 4) |
| StringLanguage.GroupRule | string_compress.py:38-40 | three programs, the k-th outputting the k-th symbol of `abc` followed by the child's output |
| StringLanguage.Initial | string_compress.py:42-44 | the three terminals in alphabet order, each well-formed and outputting its symbol |
| StringLanguage.Expansions | string_compress.py:47-50 | what `grow` yields for one program: the program, then the repeat rule's, then the group rule's; GrowBlock writes it out |
| StringLanguage.Grow | string_compress.py:46-50 | the expansions of each program in input order; GrowBlock, GrowLength and GrowAppend state its shape |
| StringLanguage.GrowBlock | string_compress.py:46-50 | `grow` yields 7 programs per input; block `i` is input `i`, its repeats by 2, 3, 4, then its groups under a, b, c |
| StringLanguage.GrowLength | string_compress.py:46-50 | `grow` yields exactly seven times as many programs as it is given |
| StringLanguage.GrowAppend | string_compress.py:46-50 | growing a concatenation is concatenating the growths |
| StringLanguage.GrowWellFormed | string_compress.py:46-50 | growing well-formed programs yields well-formed programs |
| BottomUp.FindFirst | string_compress.py:83-85 | a found program is in the list and outputs the target |
| BottomUp.FindFirstNone | string_compress.py:83-85 | nothing is found iff no program in the list outputs the target |
| BottomUp.FindFirstAt | string_compress.py:83-85 | the program at `i` is found when it is the first with that output |
| BottomUp.FindFirstAppend | string_compress.py:83-85 | the scan of `a + b` answers from `a` if it can, otherwise from `b` |
| BottomUp.FilterFrom | string_compress.py:71-76 | the filter with a given `seen` set; never longer than its input, and FilterFromProperties states what it keeps |
| BottomUp.Filtered | string_compress.py:70-76 | the filter with an empty `seen` set; FilterSound and FilterIdempotent state its properties |
| BottomUp.FilterObservationallyEquivalent | string_compress.py:70-76 | the loop with its `seen` set returns exactly the filter's specification `Filtered` |
| BottomUp.FilterFromProperties | string_compress.py:70-76 | starting from any `seen` set: a subsequence, distinct outputs, the first program per unseen output and none for a seen output |
| BottomUp.FilterSound | string_compress.py:70-76 | a subsequence, distinct outputs, every output kept, and each output's first program kept |
| BottomUp.FilterIdempotent | openai_comp_lang.py:105-111 | filtering twice is filtering once |
| BottomUp.FilterDropsLaterDuplicate | string_compress.py:73-76 | of two programs with the same output, the earlier is kept and answers for that output, and the later is dropped |
| BottomUp.FilterFromDistinct | string_compress.py:70-76 | programs with distinct outputs, none already seen, all pass |
| BottomUp.FilterAppend | string_compress.py:70-76 | filtering `a + b` filters `b` with `a`'s outputs already seen |
| BottomUp.Step | string_compress.py:81-82 | one round: extend the list by its growth, then filter; FrontierPrefix and FrontierKeepsOutputs state its effect |
| BottomUp.Frontier | string_compress.py:79-82 | the list after k rounds, starting from the terminals; FrontierInvariant and FrontierStartsWithTerminals state its properties |
| BottomUp.Search | string_compress.py:80-85 | the bounded search's answer; an answer always outputs the target, and SearchSound and SearchIsFirstInFrontier say which program it is |
| BottomUp.FirstMatch | string_compress.py:83-85 | the scan loop returns the first program of the list whose output is the target |
| BottomUp.BottomUpExplicit | string_compress.py:78-85 | the round-bounded loop returns exactly `Search(target, maxRounds)` |
| BottomUp.SearchStable | string_compress.py:83-85 | once found, more rounds give the same answer |
| BottomUp.SearchUnreachable | string_compress.py:78-85 | an empty target, or one with a letter outside `abc`, is never found |
| BottomUp.SearchSound | openai_comp_lang.py:113-120 | an answer outputs the target, is well-formed, lies in the last frontier and is its first match |
| BottomUp.SearchIsFirstInFrontier | string_compress.py:80-85 | after at least one round, the answer is the first match in the current program list |
| BottomUp.SearchNoneIff | string_compress.py:80-85 | after at least one round, nothing is found iff no program of the current list outputs the target |
| BottomUp.FrontierInvariant | string_compress.py:79-82 | every round's program list is well-formed with pairwise-distinct outputs |
| BottomUp.FrontierPrefix | string_compress.py:81-82 | each round keeps the previous list as a prefix and appends the newly grown programs with unseen outputs |
| BottomUp.FrontierKeepsOutputs | string_compress.py:81-82 | filtering loses no output: the new list has every output of the old list and its growth |
| BottomUp.FrontierStartsWithTerminals | string_compress.py:79-82 | every round's list begins with the terminals a, b, c |
| Scenarios.RoundOneGrowth | string_compress.py:79-81 | the first growth is the blocks of a, b, c in turn |
| Scenarios.TerminalBlock | string_compress.py:46-50 | a terminal's block, and the outputs of its repeats |
| Scenarios.RoundOneFirstAaa | string_compress.py:81-85 | in the first round, `3(a)` is the first program for "aaa" |
| Scenarios.RoundOneFirstAb | string_compress.py:81-85 | in the first round, `a(b)` is the first program for "ab" |
| Scenarios.SingleSymbolTarget | string_compress.py:78-85 | a one-symbol target is answered by its terminal from round 1 on |
| Scenarios.TargetAaa | string_compress.py:94 | "aaa" is answered by `3(a)`, rendered "3(a)", from round 1 on |
| Scenarios.TargetAbabab | string_compress.py:95-97 | "ababab" is answered by `3(a(b))`, rendered "3(a(b))", from round 2 on |
| Scenarios.RoundOneFrontier | string_compress.py:81-82 | after one round: distinct outputs of at most four letters, no "ababab", and `a(b)` kept for "ab" |
| Scenarios.ForeignLetterTarget | string_compress.py:80-85 | "z" is not found in any number of rounds |
| Scenarios.GrowFindsTripleOfAb | string_compress.py:46-50 | growing a list that holds the program for "ab" finds "ababab" first at that program repeated 3 times |
| Scenarios.BlockMissesAbabab | string_compress.py:46-50 | a short program's block misses "ababab" unless the program outputs "ab" or "aba" |
| SplitJoin.Split | openai_comp_lang.py:40 | `str.split()` yields non-empty words without whitespace; SplitRun and SplitOfWord fix its result on every input |
| SplitJoin.SplitRun | openai_comp_lang.py:40 | a run of whitespace is one separator and whitespace at either end is dropped: `a + spaces + b` splits into the words of `a` then those of `b` |
| SplitJoin.SplitBeforeSpace | openai_comp_lang.py:40 | no word runs across whitespace: `a + rest`, with `rest` starting with whitespace, splits into the words of `a` then those of `rest` |
| SplitJoin.SplitSpaces | openai_comp_lang.py:40 | leading whitespace does not change the words |
| SplitJoin.SplitOfWord | openai_comp_lang.py:40 | a single word splits into itself |
| SplitJoin.Join | openai_comp_lang.py:40 | `" ".join`: the words separated by single spaces; SplitOfJoin is its inverse |
| SplitJoin.SplitOfJoin | openai_comp_lang.py:40 | splitting the space-joined words gives the words back |
| SyntheticGrammar.Without | openai_comp_lang.py:28 | keeps, in order, exactly the characters not banned; the length drops by the banned count |
| SyntheticGrammar.ReplaceChar | openai_comp_lang.py:37 | each occurrence of the character grows into the replacement's length; ReplaceCharAppend and ReplaceCharSingle fix its result |
| SyntheticGrammar.ReplaceCharAppend | openai_comp_lang.py:19 | replacing in a concatenation replaces in each part |
| SyntheticGrammar.ReplaceCharSingle | openai_comp_lang.py:19 | the pattern character alone becomes the replacement; any other character alone stays |
| SyntheticGrammar.Slice | openai_comp_lang.py:25 | Python's `s[start:stop]`: `b - a` characters from normalised bound `a` on when `a < b`, otherwise empty |
| SyntheticGrammar.SliceBound | openai_comp_lang.py:25 | a normalised slice bound lies within the string |
| SyntheticGrammar.RemoveAll | openai_comp_lang.py:16 | no `e` remains; the rest is kept in order; the length drops by the number of `e`s |
| SyntheticGrammar.ReplaceSpaces | openai_comp_lang.py:19 | same length; each space becomes `!` and every other character stays |
| SyntheticGrammar.RemoveFirstTwoChars | openai_comp_lang.py:25 | empty for up to four characters; otherwise the string without its first two and last two |
| SyntheticGrammar.RemoveVowels | openai_comp_lang.py:28 | no vowel of either case remains; the rest is kept in order |
| SyntheticGrammar.RemoveEveryThird | openai_comp_lang.py:31 | drops indices 0, 3, 6, ...; result `k` is input `k + k/2 + 1` |
| SyntheticGrammar.DropLastHalf | openai_comp_lang.py:34 | a prefix of length `len // 2` |
| SyntheticGrammar.ReplaceSpacesWithTripleSpace | openai_comp_lang.py:37 | two characters longer per space; the non-space characters unchanged; TripleSpaceByParts fixes its result |
| SyntheticGrammar.TripleSpaceByParts | openai_comp_lang.py:37 | each space becomes three spaces in place and every other character stays, part by part |
| SyntheticGrammar.TripleSpaceExample | openai_comp_lang.py:35-37 | "a b" becomes "a   b" |
| SyntheticGrammar.ReverseWordOrder | openai_comp_lang.py:40 | the input's words in reverse order, separated by single spaces with none at the ends |
| SyntheticGrammar.Reversed | openai_comp_lang.py:40 | `ws[::-1]`: same length, position i holds the input's position `n - 1 - i` |
| SyntheticGrammar.DropFirstHalfByWords | openai_comp_lang.py:43 | the input's words from index `n // 2` on, separated by single spaces with none at the ends |
| SyntheticGrammar.AddApplesAfterEachWord | openai_comp_lang.py:46 | each input word followed by "apples", all separated by single spaces with none at the ends |
| SyntheticGrammar.AppleItems | openai_comp_lang.py:46 | the generator `word + " apples"`: one item per word, in order |
| SyntheticGrammar.DeletePunctuation | openai_comp_lang.py:52 | no `.`, `!` or `?` remains; the rest is kept in order |
| SyntheticGrammar.JoinWithApples | openai_comp_lang.py:46 | joining the "w apples" items equals joining the words interleaved with "apples" |
| SyntheticGrammar.WithoutAbsent | openai_comp_lang.py:28 | deleting characters that do not occur changes nothing |
| SyntheticGrammar.ReplaceAbsent | openai_comp_lang.py:19 | replacing a character that does not occur changes nothing |
| SyntheticGrammar.ReplaceOneChar | openai_comp_lang.py:19 | replacing by one character works position by position |
| SyntheticGrammar.ReplaceByRun | openai_comp_lang.py:37 | replacing a character by a run of itself leaves the other characters in order |
| SyntheticGrammar.WithoutAppend | openai_comp_lang.py:52 | deleting from a concatenation deletes from each part |
| SyntheticGrammar.DeletionsIdempotent | openai_comp_lang.py:14-16 | remove_all, remove_vowels and delete_punctuation are idempotent |
| SyntheticGrammar.ReplaceSpacesIdempotent | openai_comp_lang.py:17-19 | replace_spaces is idempotent |
| SyntheticGrammar.ReverseWordOrderTwice | openai_comp_lang.py:38-40 | reversing twice gives the input's words joined by single spaces |

## Left out

- The `main()` driver (`string_compress.py:87-100`) and its printing: output is I/O. Its two targets are the `Scenarios.TargetAaa` and `Scenarios.TargetAbabab` lemmas.
- BottomUp.BottomUpExplicit: the source loops with `while True`. The model takes a round bound `maxRounds` and returns `None` when no round up to the bound finds the target; see Findings.
- The `inputs` parameter of `filter_observationally_equivalent` and `bottom_up_explicit` is never read, so it is dropped.
- Object identity: `StringTree` namedtuples share child objects. The model uses immutable datatype values, so sharing and `is` comparisons are not captured.
- `StringTree`'s string tags (`'terminal'`, `'repeat'`, `'group'`) become a closed datatype. A tree with an unknown tag, for which `interpret` would return `None`, cannot be written.
- The generator laziness of `grow`, `initial`, the rules and the filter: each is modelled as the list it would yield. The search consumes each one in full.
- The grammar in the module docstring (`string_compress.py:1-22`) is commentary that no code implements.
- `lower` and `every_other_uppercase` (`openai_comp_lang.py:20-22`, `47-49`) depend on Unicode case tables, which are not modelled.
- SplitJoin.Split: treats only the ASCII whitespace characters as separators. It leaves out U+0085, U+00A0, U+1680, U+2000-U+200A, U+2028, U+2029, U+202F, U+205F and U+3000, which Python's `str.split()` also splits on.
- The `synthetic_grammar` dict and the `Element` descriptions (`openai_comp_lang.py:11-52`): only the lambdas are modelled, as standalone functions. As written, the first entry lacks a comma between its description and its lambda (`openai_comp_lang.py:15-16`), so the table does not parse.
- Running time and memory of the search.

## Findings

| source | as written | input that shows it | evidently intended | confidence | as-written member | corrected member |
|---|---|---|---|---|---|---|
| string_compress.py:80-85 | `while True` never exits when no program outputs the target | target `"z"`: no round ever holds a program for it, so the loop never returns | stop after a bound and report not found | proved for every round count; not executed | Scenarios.ForeignLetterTarget | BottomUp.BottomUpExplicit |

# nicky-wordtools text generators, modelled in Dafny

This project models the three word-list generators of `nicky-wordtools`:

- **fill_interstices** puts generated separators between the two words of each input line.
  - The separators come from a small mask language:
    - `?d` is a digit slot.
    - `?^` refers back to the earliest unreferenced digit and prints its shift-row symbol.
    - `{...}` is a group; a trailing `-` reverses the group's text.
    - Any other character is a literal.
  - A mask is parsed into a tree (`Mask`).
  - The tree is expanded over a worklist of (output, state) branches (`Expansion`).
  - Every two-word line is then combined with every separator of every mask (`Interstices`).
  - `src/nicky-wordtools/fill_interstices.py` is a byte-identical copy of `src/fill_interstices.py`, so one model covers both.
- **morph_caps** recognises capitalisation specs `w<start>[-<end>]<^|$><pos>{<min>-<max>}` and uppercases every allowed span of the selected words (`MorphCaps`).
- **permute.py** reads `word weight` lines and lists every ordered pair of distinct words. The pairs are stably sorted, descending, by (total weight, first weight).
  - `src/permute.py` is modelled in `Permute`.
  - The variant in `src/nicky-wordtools/permute.py` is modelled in `WeightedPermute`. It adds an unweighted mode that keeps input order.
  - Both share the pair building, the sort and its specification (`PairOrder`).

Two support modules are shared by all three:

- `Text` models Python's `str.split()`, `' '.join`, `[::-1]` and ASCII `str.upper`.
- `Numeric` models decimal digit runs and the `int()` recogniser.

The imperative parts are written as Dafny methods with loops, each proved equal to a specification function:

- the `parse_mask` scan;
- the `expand_elements` worklist;
- the separator cache and line loop;
- the `apply_to_line` loops;
- the pair loops;
- the in-place `list.sort`.

The properties are proved as lemmas about those functions.

Each program's output is modelled as the sequence of lines it would print.

- A `ValueError` becomes the `Err` case of a `Result`.
- For fill_interstices, a generator that yields lazily is modelled by the complete list it yields.

## Model

| member | source | states |
|---|---|---|
| Text.Split | src/fill_interstices.py:157 | `strip().split()` yields only non-empty tokens free of whitespace |
| Text.SplitJoin | src/morph_caps.py:70-72 | splitting the single-space join of whitespace-free tokens gives those tokens back |
| Text.SplitBlank | src/permute.py:33-35 | a line splits into no tokens exactly when every character is whitespace |
| Text.Reverse | src/fill_interstices.py:123-124 | `[::-1]` keeps the length and puts character k at position n-1-k |
| Text.Upper | src/morph_caps.py:68 | `upper()` changes each character separately and keeps the length |
| Text.UpperKeepsTokens | src/morph_caps.py:68 | uppercasing never turns a character into whitespace or out of it, so word boundaries stay put |
| Numeric.ParseInt | src/permute.py:38 | `int(tok)` succeeds exactly when the token, after an optional sign, is a non-empty run of decimal digits |
| Numeric.ParseIntStr | src/permute.py:38 | every integer's decimal spelling parses back to that integer |
| Numeric.NatStrValue | src/permute.py:38 | the digit string of n has value n |
| Numeric.DigitRunEnd | src/morph_caps.py:27 | a `\d+` scan stops at the first non-digit: everything before is a digit |
| Numeric.DigitRunOf | src/morph_caps.py:27 | a run of n digits followed by a non-digit or the end is scanned to exactly its end |
| Numeric.DecimalExtendsInt | src/nicky-wordtools/permute.py:51 | support for the worked examples only: the sample parser that stands in for `float()` agrees with `int()` on every integer token |
| Mask.ParseFrom | src/fill_interstices.py:43-77 | defines parse_mask from index i: `?d` is a digit slot, `?^` a back-reference, `{` starts a group whose body ends at the matching `}` and which is reversed when `-` follows, anything else is a one-character literal; an unclosed `{` is the unmatched-brace error |
| Mask.Parse | src/fill_interstices.py:39-77 | defines parse_mask on the whole mask |
| Mask.Scan | src/fill_interstices.py:55-60 | the depth scan stops either at the end of the mask or at a depth of 0 just after a `}` |
| Mask.ParseMask | src/fill_interstices.py:39-77 | the `while` loop over the mask computes `Parse`, with the same marker priority and group recursion |
| Mask.DepthScan | src/fill_interstices.py:55-60 | the inner `while j < n and depth` loop ends where the depth scan `Scan` ends, with the same depth |
| Mask.ParseUnparse | src/fill_interstices.py:47-76 | a successful parse loses nothing: printing the tree back gives the mask, including a stray `}`, a lone `?` and a `-` that is not after a group |
| Mask.ParseFromUnparse | src/fill_interstices.py:46-76 | from any position, a successful parse prints back to the rest of the mask |
| Mask.MarkerUnparse | src/fill_interstices.py:47-52 | a `?d` or `?^` marker prints back as the two characters it consumed |
| Mask.LiteralUnparse | src/fill_interstices.py:73-76 | a literal prints back as the one character it consumed |
| Mask.GroupUnparse | src/fill_interstices.py:53-72 | a group prints back as `{`, its body, `}` and the `-` it consumed, if any |
| Mask.GroupStep | src/fill_interstices.py:53-72 | at a `{`, the parse is an unmatched-brace error if the scan ends with depth not 0; otherwise it is a group whose body is the parse of `mask[i+1:j-1]`, reversed exactly when the next character is `-` (which is consumed), followed by the parse of the rest |
| Mask.ParseFails | src/fill_interstices.py:61-62 | parsing fails exactly when some `{` is never closed, and the error names the whole mask |
| Mask.ParseFromFails | src/nicky-wordtools/fill_interstices.py:55-62 | from any position, the parse fails exactly when the remainder holds an unclosed `{` |
| Mask.GroupFails | src/fill_interstices.py:53-72 | at a `{`, the parse fails exactly when the remainder holds an unclosed `{`, and the error names the whole mask |
| Mask.GroupClosed | src/fill_interstices.py:61-72 | once the group closes, the parse fails exactly when the text after it holds an unclosed `{` |
| Mask.BodyParses | src/fill_interstices.py:63-70 | a group that closes spans at least its two braces, and the text between them always parses |
| Mask.ScanUnclosed | src/fill_interstices.py:55-62 | the depth left by the scan is the number of braces the remainder leaves open |
| Expansion.Expand | src/fill_interstices.py:92-133 | defines expand_elements: the worklist starts as the one empty branch on the given state and is rewritten by each element in turn |
| Expansion.ExpandFrom | src/fill_interstices.py:97-132 | defines the element loop over a given worklist |
| Expansion.Step | src/fill_interstices.py:98-132 | defines one element's rewrite of the worklist: the children of every branch, branch by branch |
| Expansion.Children | src/fill_interstices.py:100-129 | defines one element's children of one branch: ten digits in order, one shift symbol or none, the group body's results on the branch's state (reversed text when marked), or the literal appended |
| Expansion.Shift | src/fill_interstices.py:28-31 | every digit maps to a symbol of the shift row |
| Expansion.ShiftTable | src/fill_interstices.py:28-31 | the shift symbol of each digit is the one in `_SHIFT_MAP` |
| Expansion.DigitFan | src/fill_interstices.py:102-106 | a digit slot gives 10 children, digit d at position d, each appending d to the output and to the digits and keeping `next_ref` |
| Expansion.Attach | src/fill_interstices.py:122-125 | each group result is appended to the branch's output, reversed if the group is, and keeps the group's final state |
| Expansion.ExpandElements | src/fill_interstices.py:92-133 | the worklist loops compute `Expand`, element by element and branch by branch in order |
| Expansion.BranchChildren | src/fill_interstices.py:100-129 | one pass of the inner loops, for one element and one branch, computes `Children` |
| Expansion.AttachAll | src/fill_interstices.py:122-125 | the loop over a group's results computes `Attach`, reversing the text when the group is reversed |
| Expansion.DigitStep | src/fill_interstices.py:100-106 | over a whole worklist, a digit slot makes child k from branch k/10 with digit k%10, so the order is branch-major and digits are ascending |
| Expansion.CaretChildren | src/fill_interstices.py:107-116 | a back-reference prunes the branch when `next_ref >= len(digits)`; otherwise it makes exactly one child with the shift symbol of `digits[next_ref]` and `next_ref` one higher |
| Expansion.PrunedReference | src/nicky-wordtools/fill_interstices.py:107-116 | a mask starting with an unresolvable `?^` expands to nothing, whatever follows |
| Expansion.StepConcat | src/fill_interstices.py:97-132 | each element handles the branches independently and in order |
| Expansion.ExpandFromConcat | src/fill_interstices.py:97-132 | expanding the concatenation of two worklists is the concatenation of their expansions |
| Expansion.ExpandFromCompose | src/fill_interstices.py:97-132 | expanding `es1 + es2` is expanding `es2` over the results of `es1` |
| Expansion.ExpandFromNothing | src/fill_interstices.py:97-132 | an empty worklist stays empty |
| Expansion.ExpandSingle | src/fill_interstices.py:96-133 | a one-element mask gives the children of the start branch |
| Expansion.ExpandFromCount | src/fill_interstices.py:100-129 | a worklist grows at most by 10 per digit slot, and exactly by that when there is no `?^`; the exact count with back-references is `Expansion.ExpandExact` |
| Expansion.StepCount | src/fill_interstices.py:100-129 | the same bound holds for one element over a worklist |
| Expansion.ExpandExact | src/fill_interstices.py:92-133 | the expansion of a mask from any state has exactly `FanSeq` results, which is either 0 or 10^(digit slots) |
| Expansion.ExpandFromFan | src/fill_interstices.py:96-132 | on a worklist whose branches all share the digit count and reference index, the result has `|ws| × FanSeq` branches, which again share one shape |
| Expansion.StepFan | src/fill_interstices.py:97-132 | the same holds for one element over such a worklist |
| Expansion.ChildrenFan | src/fill_interstices.py:100-129 | one branch has `Fan` children: 1 per literal, 10 per digit slot, 1 or 0 per reference depending on whether a digit is left, and all children have the same shape |
| Expansion.FanValue | src/fill_interstices.py:100-129 | the fan-out of one element is 0 or 10^(its digit slots) |
| Expansion.FanSeqValue | src/fill_interstices.py:97-132 | the fan-out of a sequence of elements is 0 or 10^(its digit slots) |
| Expansion.CaretStep | src/fill_interstices.py:107-116 | when every branch has a digit to reference, a `?^` keeps every branch in order, appending its shift symbol and moving `next_ref` on by one |
| Expansion.ChildrenCount | src/fill_interstices.py:100-129 | the same bound holds for one element over one branch; literals have exactly one child |
| Expansion.ExpandDescends | src/fill_interstices.py:79-116 | along every branch, `digits` only grows (by one per digit slot), `next_ref` only grows (by one per `?^`), `next_ref <= len(digits)` holds, and the output grows by one character per leaf |
| Expansion.ExpandFromDescends | src/fill_interstices.py:96-132 | the same holds over a whole worklist |
| Expansion.StepDescends | src/fill_interstices.py:96-132 | the same holds for one element over a worklist |
| Expansion.ChildrenDescends | src/fill_interstices.py:100-129 | the same holds for one element over one branch |
| Expansion.DescendsTrans | src/fill_interstices.py:96-132 | descent composes, adding lengths, digit counts and reference counts |
| Expansion.FirstResultBound | src/fill_interstices.py:107-116 | if any result survives, the references do not outnumber the digits available |
| Expansion.TooManyReferences | src/fill_interstices.py:107-116 | more `?^` than available digits prunes every branch |
| Expansion.GroupTransparent | src/fill_interstices.py:117-125 | an unreversed group expands exactly like its body |
| Expansion.GroupReversed | src/fill_interstices.py:117-125 | a reversed group gives the body's results in the same order, each with reversed text and the same state |
| Expansion.ReverseKeepsStates | src/nicky-wordtools/fill_interstices.py:117-125 | over any worklist, reversal changes no state: the reversed and unreversed group give the same sequence of states |
| Expansion.AttachStates | src/fill_interstices.py:122-125 | attaching group results keeps their states in order |
| Expansion.StatesConcat | src/fill_interstices.py:122-125 | the states of a concatenation are the concatenated states |
| Interstices.Separators | src/fill_interstices.py:136-144 | defines generate_separators: the outputs of expanding the parsed mask from the initial state, or the parse error |
| Interstices.LineOf | src/fill_interstices.py:157-163 | defines one line's outputs: `w1 + sep + w2` per mask and separator when the line splits into exactly two words, nothing otherwise |
| Interstices.Fill | src/fill_interstices.py:156-163 | defines the line loop: each line's outputs after those of the lines before it |
| Interstices.FillSpec | src/fill_interstices.py:147-163 | defines fill_interstices: the cache of every mask's separators, then the line loop, or the first mask's error |
| Interstices.Outs | src/fill_interstices.py:144 | the separators are the outputs of the expansion, in order |
| Interstices.GenerateSeparators | src/fill_interstices.py:136-144 | parse, expand from the initial state, and keep the outputs |
| Interstices.SeparatorsFail | src/fill_interstices.py:136-144 | generating separators fails exactly when the mask has an unclosed `{` |
| Interstices.SeparatorsShape | src/fill_interstices.py:136-144 | every separator is as long as the tree has leaves; for k digit slots there are either none or exactly 10^k (the fan-out `FanSeq` from the initial state), and always 10^k with no `?^` |
| Interstices.SeparatorsPruned | src/fill_interstices.py:107-116 | a mask with more `?^` than `?d` generates no separator |
| Interstices.SeparatorsOf | src/fill_interstices.py:152-154 | filling the cache succeeds exactly when every mask parses; on failure the error is that of the first failing mask |
| Interstices.Wrap | src/fill_interstices.py:162-163 | each output of a mask is `w1 + sep + w2`, in separator order |
| Interstices.BuildCache | src/fill_interstices.py:152-154 | the cache maps every mask to its separators, or fails with the first mask's error |
| Interstices.FillInterstices | src/fill_interstices.py:147-163 | the generator's output, line by line, is `FillSpec` |
| Interstices.FillLines | src/fill_interstices.py:156-163 | the line loop over the filled cache computes `Fill` over the cached separator table |
| Interstices.FillLine | src/fill_interstices.py:157-163 | one line is filled against every mask when it splits into two words, and skipped otherwise |
| Interstices.LineCombos | src/nicky-wordtools/fill_interstices.py:161-163 | for one line, masks in the given order, then separators in cached order |
| Interstices.FillSnoc | src/fill_interstices.py:156-163 | each new line appends its own outputs after those of the lines before it |
| Interstices.FillConcat | src/fill_interstices.py:156-163 | the output for two blocks of lines is the concatenation of their outputs |
| Interstices.FillLineByLine | src/fill_interstices.py:156-163 | the first line's outputs come before all others |
| Interstices.SkippedLine | src/fill_interstices.py:157-159 | a line whose split does not have exactly two tokens adds nothing |
| Interstices.TwoWordLine | src/fill_interstices.py:157-163 | the line `w1 w2` yields the combinations for exactly those two words |
| Interstices.LineOutputsCount | src/fill_interstices.py:161-163 | a two-word line yields one output per cached separator over all masks |
| Interstices.LineOfCount | src/fill_interstices.py:157-163 | a line yields that many outputs if it has two words, and none otherwise |
| Interstices.FillCount | src/fill_interstices.py:156-163 | the total output is (number of two-word lines) × (number of separators) |
| Interstices.LineOutputsMembers | src/fill_interstices.py:161-163 | an output of a line is exactly `w1 + s + w2` for some separator s of some mask |
| Interstices.WrapMembers | src/fill_interstices.py:162-163 | an output of one mask is exactly `w1 + s + w2` for some separator s of that mask |
| Interstices.StepMember | src/fill_interstices.py:97-132 | every child of every branch on the worklist is in the next worklist |
| Interstices.ExampleDigitSlot | src/fill_interstices.py:100-106 | `?d` generates `0` … `9` in order |
| Interstices.ParseDigitSlot | src/fill_interstices.py:47-49 | `?d` parses as one digit slot |
| Interstices.DigitOuts | src/fill_interstices.py:102-106 | a digit slot on the start branch outputs `0` … `9` in order |
| Interstices.ParseReversedGroup | src/fill_interstices.py:64-71 | `{AB}-` parses as one reversed group of two literals |
| Interstices.ExpandLiterals | src/fill_interstices.py:126-129 | literals append themselves and leave the state alone |
| Interstices.ExampleReversedGroup | src/fill_interstices.py:117-125 | `{AB}-` generates only `BA` |
| Interstices.ExampleUnmatched | src/fill_interstices.py:61-62 | `x{?d` fails with the unmatched-brace error naming the mask |
| Interstices.ExampleDocumented | src/fill_interstices.py:15-17 | `?d?d{?^?^}-` generates `56^%`: digits 5 and 6, then `%^` reversed |
| Interstices.ParseDocumented | src/fill_interstices.py:47-72 | `?d?d{?^?^}-` parses as two digit slots and a reversed group of two back-references |
| Interstices.ExpandDocumented | src/fill_interstices.py:96-133 | the branch with output `56^%` and digits 5, 6 fully referenced is among the results |
| Interstices.TwoDigits | src/fill_interstices.py:100-106 | two digit slots give 100 branches, branch 56 being `56` |
| Interstices.PairsAt | src/fill_interstices.py:100-106 | two digit slots on the start branch give 100 branches, branch k holding the two digits of k |
| Interstices.PairsShape | src/fill_interstices.py:100-106 | after two digit slots every branch has a digit left to reference |
| Interstices.ReferenceAt | src/fill_interstices.py:107-116 | a `?^` on branch `hi lo` with index 0 appends the shift of `hi` |
| Interstices.TrailingAt | src/fill_interstices.py:96-133 | `?d?d?^` expands to 100 branches, branch k being the digits of k followed by the shift of its first digit |
| Interstices.ParseTrailingReference | src/fill_interstices.py:47-56 | `?d?d?^` parses as two digit slots and a back-reference |
| Interstices.ExampleTrailingReference | src/fill_interstices.py:136-144 | `?d?d?^` generates exactly 100 separators, the first `00)` and the last `99(` |
| Interstices.GroupOnDigits | src/fill_interstices.py:117-125 | on branch `56`, the reversed group of two references yields only `56^%` |
| Interstices.TwoCarets | src/fill_interstices.py:107-116 | two references over digits 5, 6 output `%^` and use both digits |
| Interstices.FirstCaret | src/fill_interstices.py:107-116 | the first reference over digits 5, 6 outputs `%` and moves `next_ref` to 1 |
| Interstices.SecondCaret | src/fill_interstices.py:107-116 | the second reference outputs `^` and moves `next_ref` to 2 |
| Interstices.OneCaret | src/fill_interstices.py:107-116 | a reference over a branch with an unreferenced digit gives exactly one child |
| MorphCaps.Lex | src/morph_caps.py:27 | defines the full-string match of SPEC_RE, stage by stage, with its captures |
| MorphCaps.ApplySpec | src/morph_caps.py:39-73 | defines apply_to_line: the word-range error, no results for an empty range, else the word loop |
| MorphCaps.Collect | src/morph_caps.py:47-51 | defines the word loop: each word's results in order, or the position error of the first word too short for pos |
| MorphCaps.Lengths | src/morph_caps.py:60-61 | defines the span-length loop from min_span to max_span |
| MorphCaps.Offsets | src/morph_caps.py:61-67 | defines the offset loop from 0 to max_span - span_len, skipping spans that run past the word |
| MorphCaps.Variant | src/morph_caps.py:68-72 | defines one result line: the words joined by single spaces, the chosen word replaced by its mutation |
| MorphCaps.Mutate | src/morph_caps.py:52-58 | defines the mutation: uppercase the span in the word, or in the reversed word and reverse back, for `$` |
| MorphCaps.Num | src/morph_caps.py:27 | a `\d+` group splits its input into a digit run and a rest that does not start with a digit |
| MorphCaps.NumOf | src/morph_caps.py:27 | a digit run followed by a non-digit is captured whole |
| MorphCaps.Char | src/morph_caps.py:27 | a fixed character of the pattern is matched only at the front |
| MorphCaps.CharOf | src/morph_caps.py:27 | a fixed character is matched when it is present |
| MorphCaps.LexSpell | src/morph_caps.py:27 | the recogniser accepts the spelling of every capture and returns exactly those groups |
| MorphCaps.LexSound | src/morph_caps.py:27 | everything the recogniser accepts is the spelling of the groups it returns |
| MorphCaps.StartSpell | src/morph_caps.py:27 | the text after `w` is recognised back to its groups |
| MorphCaps.RangeSpell | src/morph_caps.py:27 | the optional `-<end>` and the rest are recognised back to their groups |
| MorphCaps.StartSound | src/morph_caps.py:27 | what the stage after `w` accepts is the spelling of its groups |
| MorphCaps.RangeSound | src/morph_caps.py:27 | the optional `-<end>` stage keeps the start, captures only digit runs and a direction of `^` or `$`, and consumes exactly the spelling |
| MorphCaps.EndSound | src/morph_caps.py:27 | the `<end>` stage captures a digit run and consumes exactly its spelling |
| MorphCaps.MaxSpell | src/morph_caps.py:27 | the `{<min>-<max>}` tail is recognised back to its groups |
| MorphCaps.MinSpell | src/morph_caps.py:27 | the `<min>-<max>}` tail is recognised back to its groups |
| MorphCaps.PosSpell | src/morph_caps.py:27 | the `<pos>{...}` tail is recognised back to its groups |
| MorphCaps.DirSpell | src/morph_caps.py:27 | the `<dir><pos>{...}` tail is recognised back to its groups |
| MorphCaps.MaxSound | src/morph_caps.py:27 | what the last stage accepts is the spelling of its groups |
| MorphCaps.MinSound | src/morph_caps.py:27 | what the span stage accepts is the spelling of its groups |
| MorphCaps.PosSound | src/morph_caps.py:27 | what the position stage accepts is the spelling of its groups |
| MorphCaps.DirSound | src/morph_caps.py:27 | what the direction stage accepts has direction `^` or `$` and spells its groups |
| MorphCaps.ParseSpec | src/morph_caps.py:76-88 | a string the pattern rejects is an invalid-spec error; an accepted spec always has `1 <= min <= max` |
| MorphCaps.FormatParse | src/morph_caps.py:80-88 | a spec written out, with or without `-<end>`, parses back to itself (end defaulting to start), or to the span-range error exactly when `min < 1` or `max < min` |
| MorphCaps.ParseSpecInvalid | src/morph_caps.py:77-79 | the invalid-spec error is raised exactly for strings that spell no capture of the pattern |
| MorphCaps.LexedNotInvalid | src/morph_caps.py:77-79 | a string the pattern accepts is never the invalid-spec error |
| MorphCaps.UnlexedSpells | src/morph_caps.py:77-79 | a string the pattern rejects is the spelling of no capture |
| MorphCaps.UpperSpan | src/morph_caps.py:68 | `rep[:start] + rep[start:end].upper() + rep[end:]` keeps the length |
| MorphCaps.UpperSpanAt | src/morph_caps.py:68 | exactly the characters in `[start, end)` are uppercased; all others are unchanged |
| MorphCaps.MutateBack | src/morph_caps.py:56-69 | with `$`, mutating the reversed word at offset a and reversing back uppercases `[len-a-n, len-a)` of the word |
| MorphCaps.MutateToken | src/morph_caps.py:68-69 | the mutated word is still one whitespace-free word of the same length |
| MorphCaps.MutateInSteps | src/morph_caps.py:52-69 | choosing `rep` and `rev_flag` from the direction and mutating gives `Mutate` |
| MorphCaps.ApplyToLine | src/morph_caps.py:39-73 | the three nested loops compute `ApplySpec`, including both errors |
| MorphCaps.SelectedVariants | src/morph_caps.py:47-72 | the loop over the selected words computes the word-loop result `Collect`, stopping at the first word too short for `pos` |
| MorphCaps.WordVariants | src/morph_caps.py:60-72 | for one word, span lengths min..max in ascending order |
| MorphCaps.SpanVariants | src/morph_caps.py:61-72 | for one span length, offsets 0..max-L ascending, skipping spans that run past the word |
| MorphCaps.SpanLine | src/morph_caps.py:68-72 | for a span that fits, uppercasing `rep`, flipping back and joining gives the line with only that word mutated |
| MorphCaps.OffsetsTake | src/morph_caps.py:63-72 | an offset whose span fits adds the line with that word replaced by the mutated word |
| MorphCaps.OffsetsSkip | src/morph_caps.py:66-67 | an offset whose span runs past the word adds nothing |
| MorphCaps.ApplyFails | src/morph_caps.py:43-51 | the result is an error exactly when `start < 1`, `end > len(words)`, or some selected word has `pos` outside `1..len(word)`; the range error takes precedence, and otherwise the error names the first such word, with all-or-nothing output |
| MorphCaps.CollectFails | src/morph_caps.py:47-51 | the word loop fails exactly when some selected word misfits, naming the first such word |
| MorphCaps.CollectStopsAt | src/morph_caps.py:50-51 | once a word has failed, later words do not change the outcome |
| MorphCaps.EmptyRange | src/morph_caps.py:43-47 | a valid range with `end < start` selects no word and yields `[]` without error |
| MorphCaps.ApplyMembers | src/morph_caps.py:47-72 | a line is in the output exactly when it is the input's words with one selected word having one chosen span (length in min..max, start in pos-1..pos-1+max-L, counted from the chosen end, fitting the word) uppercased; how many, in which order and with which duplicates is `MorphCaps.ApplyEnumerates` |
| MorphCaps.Variants | src/morph_caps.py:68-72 | the result lines of a listing of span choices, one per choice, in the listing's order |
| MorphCaps.VariantsConcat | src/morph_caps.py:72 | the lines of two listings one after the other are the two listings' lines one after the other |
| MorphCaps.OffsetChoices | src/morph_caps.py:63-67 | the offset loop's choices for one word and length lie inside the word, with offsets from pos - 1 for the given number of steps |
| MorphCaps.LengthChoices | src/morph_caps.py:60-67 | the span-length loop's choices for one word are all choices apply_to_line makes for that word, with lengths below the bound |
| MorphCaps.WordChoices | src/morph_caps.py:47-67 | the word loop's choices are all selected choices |
| MorphCaps.OffsetChoicesIncreasing | src/morph_caps.py:63-67 | the offset loop lists its choices by strictly increasing offset |
| MorphCaps.LengthChoicesIncreasing | src/morph_caps.py:60-67 | the span-length loop lists them by length, then offset, strictly increasing |
| MorphCaps.WordChoicesIncreasing | src/morph_caps.py:47-67 | the word loop lists them by word, then length, then offset, strictly increasing, so none twice |
| MorphCaps.OffsetChoicesComplete | src/morph_caps.py:63-67 | every offset in range whose span fits the word is listed |
| MorphCaps.LengthChoicesComplete | src/morph_caps.py:60-67 | every choice the spec allows for the word is listed |
| MorphCaps.WordChoicesComplete | src/morph_caps.py:47-67 | every choice for every selected word is listed |
| MorphCaps.WordChoicesExact | src/morph_caps.py:47-67 | the word loop lists a choice exactly when it is selected |
| MorphCaps.OffsetsEnumerate | src/morph_caps.py:63-72 | the offset loop's results are the lines of its choices, one each, in order |
| MorphCaps.LengthsEnumerate | src/morph_caps.py:60-72 | the span-length loop's results are the lines of its choices, one each, in order |
| MorphCaps.CollectEnumerate | src/morph_caps.py:47-72 | a successful word loop's results are the lines of its choices, one each, in order |
| MorphCaps.CollectSnoc | src/morph_caps.py:47-72 | a successful word loop extends the earlier words' results by the last word's |
| MorphCaps.IncreasingUnique | src/morph_caps.py:47-67 | two strictly increasing listings with the same members are equal |
| MorphCaps.LoopListing | src/morph_caps.py:47-67 | the loops' own listing is the only strictly increasing listing of the selected choices |
| MorphCaps.SelectedFit | src/morph_caps.py:49-51 | a successful call over a non-empty range has pos inside the first selected word |
| MorphCaps.ApplyEnumerates | src/morph_caps.py:39-73 | a successful call returns, for any strictly increasing listing of the choices of a selected word, a span length and a fitting offset, exactly one line per choice in that order, duplicates kept; its length is the number of choices |
| MorphCaps.ApplyLoopChoices | src/morph_caps.py:47-72 | the same over a non-empty range with the words given |
| MorphCaps.ApplyChoices | src/morph_caps.py:47-67 | such a listing exists for every successful call over a non-empty range |
| MorphCaps.ApplyOnWords | src/morph_caps.py:40-47 | on a line split into the given words with a range inside it, apply_to_line is the word loop |
| MorphCaps.CollectFirst | src/morph_caps.py:47-51 | the word loop over the first word alone gives its results |
| MorphCaps.CollectNext | src/morph_caps.py:47-51 | one more fitting word appends its results |
| MorphCaps.TwoWords | src/morph_caps.py:40 | a line of two words and one space splits into those words |
| MorphCaps.JoinTwo | src/morph_caps.py:72 | joining two words puts one space between them |
| MorphCaps.VariantFirst | src/morph_caps.py:70-72 | replacing the first of two words gives the new word, a space and the second |
| MorphCaps.VariantSecond | src/morph_caps.py:70-72 | replacing the second of two words gives the first, a space and the new word |
| MorphCaps.FrontSpansOf | src/morph_caps.py:39-73 | `w1^2{1-2}` on a two-word line with a first word of at least three characters gives its three span choices in order |
| MorphCaps.ExampleFrontSpans | src/morph_caps.py:39-73 | `w1^2{1-2}` on `capital word` gives `cApital word`, `caPital word`, `cAPital word` |
| MorphCaps.CapitalSpans | src/morph_caps.py:68 | the three uppercased spans of `capital` |
| MorphCaps.CapitalWordLines | src/morph_caps.py:72 | the result lines of that example, joined |
| MorphCaps.FirstLettersOf | src/morph_caps.py:47-73 | `w1-2^1{1-1}` on a two-word line uppercases the first letter of the first word, then of the second |
| MorphCaps.ExampleWordRange | src/morph_caps.py:47-73 | `w1-2^1{1-1}` on `foo bar` gives `Foo bar`, `foo Bar` |
| MorphCaps.FirstLetters | src/morph_caps.py:68 | the first letters of `foo` and `bar` uppercased |
| MorphCaps.FooBarLines | src/morph_caps.py:72 | the result lines of that example, joined |
| MorphCaps.ExampleDuplicates | src/morph_caps.py:60-72 | `w1^1{1-2}` on `a1` gives `A1`, `a1`, `A1`: one line per choice, equal lines kept, and the unchanged line when the span holds no letter |
| MorphCaps.ShortSpans | src/morph_caps.py:68 | the three uppercased spans of `a1` |
| MorphCaps.RangeMembers | src/morph_caps.py:47-72 | over a non-empty word range, the lines are exactly those with one selected word mutated at one chosen span |
| MorphCaps.ProducedCollected | src/morph_caps.py:47-72 | every such choice is present in the output |
| MorphCaps.OffsetsMembers | src/morph_caps.py:63-72 | the lines from one span length are exactly the mutations at fitting offsets |
| MorphCaps.OffsetsSound | src/morph_caps.py:63-72 | every line of one span length comes from an offset whose span fits |
| MorphCaps.OffsetsComplete | src/morph_caps.py:63-72 | every fitting offset produces its line |
| MorphCaps.LengthsSound | src/morph_caps.py:60-72 | every line from one word comes from a chosen span length and offset |
| MorphCaps.LengthsComplete | src/morph_caps.py:60-72 | every chosen span length and offset of that word produces its line |
| MorphCaps.CollectSound | src/morph_caps.py:47-72 | every line from the word loop comes from some selected word's chosen span |
| MorphCaps.CollectComplete | src/morph_caps.py:47-72 | every selected word's chosen span produces its line |
| MorphCaps.CollectIncludes | src/morph_caps.py:47-72 | the word loop keeps every line of every selected word |
| MorphCaps.VariantSplit | src/morph_caps.py:70-72 | splitting an output line gives the input's words with only word wi replaced |
| MorphCaps.ExampleBackSpan | src/morph_caps.py:53-72 | `w1$3{1-1}` on `capital` yields only `capiTal` |
| MorphCaps.BackSpanOfCapital | src/morph_caps.py:53-72 | with `$`, offset 2 and length 1 on `capital` uppercase the fourth letter from the end |
| MorphCaps.OneWord | src/morph_caps.py:40 | a whitespace-free word splits into itself |
| PairOrder.Pairs | src/permute.py:44-50 | defines the pair loops: for each entry, for each entry with a different word, the pair (wt1 + wt2, wt1, word1, word2) |
| PairOrder.Ge | src/permute.py:53 | defines the sort key comparison: total first, then first-word weight |
| PairOrder.Insert | src/permute.py:53 | defines inserting a pair into a descending run behind every pair whose key is at least its own |
| PairOrder.SortDesc | src/permute.py:53 | defines the stable descending sort by (total, first weight) as repeated insertion |
| PairOrder.BuildPairs | src/permute.py:44-50 | the nested loops compute `Pairs`, row-major over the entries |
| PairOrder.PairsMembers | src/permute.py:44-50 | a pair is generated exactly when it is `(wt1+wt2, wt1, w1, w2)` for two entries whose words differ (compared by word, not by index); no pair has equal words |
| PairOrder.RowMembers | src/permute.py:46-50 | one row pairs an entry with exactly the entries whose word differs |
| PairOrder.RowSound | src/permute.py:46-50 | every pair of a row pairs the entry with an entry of a different word |
| PairOrder.RowComplete | src/permute.py:46-50 | every entry of a different word contributes its pair to the row |
| PairOrder.PairsFromMembers | src/nicky-wordtools/permute.py:72-76 | the rows of a prefix of entries hold exactly their distinct-word pairs |
| PairOrder.PairsFromSound | src/permute.py:44-50 | every pair of the rows comes from two entries with different words |
| PairOrder.PairsFromComplete | src/permute.py:44-50 | every two entries with different words contribute their pair |
| PairOrder.RowCount | src/permute.py:46-48 | a row skips exactly the entries with the same word |
| PairOrder.PairsCount | src/permute.py:44-50 | with n distinct words there are n·(n−1) pairs |
| PairOrder.PairsFromCount | src/permute.py:44-50 | the first i rows hold i·(n−1) pairs when words are distinct |
| PairOrder.OccurrencesDistinct | src/permute.py:47-48 | with distinct words, each entry's word is skipped once in its row |
| PairOrder.OccurrencesAbsent | src/permute.py:47-48 | a word that is not in the entries is skipped nowhere |
| PairOrder.Lines | src/permute.py:55-56 | each printed line is `w1 + " " + w2` of the pair in the same position |
| PairOrder.LinesConcat | src/permute.py:55-56 | printing two blocks prints their lines in order |
| PairOrder.PrintPairs | src/permute.py:55-56 | the print loop produces `Lines` |
| PairOrder.WordRowOfRow | src/nicky-wordtools/permute.py:64-67 | printing a weighted row gives the unweighted row of its words |
| PairOrder.WordRowsOfPairs | src/nicky-wordtools/permute.py:64-76 | printing the weighted rows gives the unweighted listing |
| PairOrder.LinesOfPairs | src/nicky-wordtools/permute.py:64-76 | the unsorted weighted pairs print exactly as the unweighted listing |
| PairOrder.WordRowMembers | src/nicky-wordtools/permute.py:65-67 | one unweighted row is `w1 w2` for exactly the w2 different from w1 |
| PairOrder.WordRowsMembers | src/nicky-wordtools/permute.py:64-67 | the unweighted rows hold exactly the distinct-word pairs |
| PairOrder.WordPairsMembers | src/nicky-wordtools/permute.py:64-67 | the unweighted listing has a line exactly for every ordered pair of different words |
| PairOrder.WordRowSound | src/nicky-wordtools/permute.py:65-67 | every line of an unweighted row pairs w1 with a different word |
| PairOrder.WordRowComplete | src/nicky-wordtools/permute.py:65-67 | every different word appears paired with w1 in its row |
| PairOrder.WordRowsSound | src/nicky-wordtools/permute.py:64-67 | every line of the unweighted rows pairs two different words |
| PairOrder.WordRowsComplete | src/nicky-wordtools/permute.py:64-67 | every ordered pair of different words is printed |
| PairOrder.PrintWordPairs | src/nicky-wordtools/permute.py:63-67 | the nested print loops produce `WordPairs` |
| PairOrder.PrintWordRow | src/nicky-wordtools/permute.py:65-67 | the inner print loop for one word computes `WordRow` |
| PairOrder.Words | src/nicky-wordtools/permute.py:63 | the word list keeps the entries' words in order |
| PairOrder.SortPairs | src/permute.py:53 | the in-place sort leaves the array holding `SortDesc` of its old contents |
| PairOrder.InsertLast | src/nicky-wordtools/permute.py:78 | one insertion pass places the next pair behind every pair of greater or equal key |
| PairOrder.Placed | src/nicky-wordtools/permute.py:78 | the prefix left by the shifting loop, with the pair written into the gap, is `Insert` of it into the sorted prefix |
| PairOrder.InsertAt | src/permute.py:53 | in a sorted sequence, the place behind the run of pairs with key at least x's is where `Insert` puts x |
| PairOrder.SortDescSpec | src/permute.py:52-53 | the sort's output is non-increasing by (total, first), is a permutation of the pairs, keeps pairs with equal keys in generation order, and is the only sequence with those properties |
| PairOrder.SortDescSorted | src/permute.py:53 | the output is non-increasing by (total, first) |
| PairOrder.SortDescMultiset | src/permute.py:53 | the output is a permutation of the input |
| PairOrder.SortDescLength | src/permute.py:53 | sorting keeps the number of pairs |
| PairOrder.SortDescStable | src/permute.py:53 | for each key, the pairs with that key appear in input order |
| PairOrder.SortedUnique | src/permute.py:53 | two sorted sequences with the same pairs per key, in the same order, are equal |
| PairOrder.InsertSorted | src/permute.py:53 | inserting into a sorted sequence keeps it sorted |
| PairOrder.InsertMultiset | src/permute.py:53 | inserting adds exactly the inserted pair |
| PairOrder.InsertFilter | src/permute.py:53 | inserting x appends it to its own key's pairs and leaves other keys alone |
| PairOrder.FilterBelow | src/permute.py:53 | in a sorted sequence headed by a smaller key, no pair has x's key |
| PairOrder.FilterConcat | src/permute.py:53 | per-key selection distributes over concatenation |
| PairOrder.FilterMembers | src/permute.py:53 | a selected pair carries the key and came from the sequence |
| PairOrder.FilterHead | src/permute.py:53 | the first pair's key selects at least that pair |
| PairOrder.LinesMultiset | src/permute.py:55-56 | printing permuted pairs prints a permutation of the lines |
| PairOrder.SortedLines | src/permute.py:53-56 | the sorted output prints the same lines as the unsorted pairs, in some order |
| PairOrder.SortedMembers | src/permute.py:44-56 | a printed line is `w1 w2` exactly for two entries with different words |
| Permute.LineEntry | src/permute.py:33-42 | defines one line's entry: none when blank, else the leading tokens joined by single spaces weighted by `int()` of the last, or the invalid-weight error naming the line number and token |
| Permute.EntriesOf | src/permute.py:31-42 | defines the entry loop over lines numbered from 1, stopping at the first invalid weight |
| Permute.PermuteSpec | src/permute.py:19-56 | defines permute_by_value: the entries' pairs, sorted, printed as `w1 w2`, or the error |
| Permute.PermuteByValue | src/permute.py:19-56 | the entry loop, pair loops, in-place sort and print loop compute `PermuteSpec`, stopping at the first bad line |
| Permute.ErrorStops | src/permute.py:39-40 | the first invalid line ends the run; later lines do not matter |
| Permute.BlankLine | src/permute.py:33-35 | a whitespace-only line is skipped without error |
| Permute.LineRoundTrip | src/permute.py:36-42 | a line of words followed by an integer's spelling gives the entry (words joined by single spaces, that integer) |
| Permute.IntStrToken | src/permute.py:36-38 | an integer's spelling is one whitespace-free token |
| Permute.LineEntryFails | src/permute.py:37-40 | a line fails exactly when it is not blank and its last token is not an integer; the error carries the line number and that token |
| Permute.EntriesStep | src/permute.py:32-42 | each line either keeps an earlier error, fails itself with its own number, or adds its entry |
| Permute.EntriesFailSome | src/permute.py:37-40 | a failure comes from some bad line |
| Permute.EntriesFailEach | src/permute.py:37-40 | any bad line makes the parse fail |
| Permute.EntriesFailIff | src/permute.py:32-42 | parsing fails exactly when some line is bad |
| Permute.EntriesFailFirst | src/permute.py:32-42 | the error names the first bad line, by its 1-based number, and its last token |
| Permute.PermuteFails | src/permute.py:31-42 | the program fails exactly when some line is bad, and reports the first one by number and token |
| Permute.PermuteOutput | src/permute.py:44-56 | on success, the output is the sorted pairs printed: non-increasing by (total, first), ties in generation order, a line for exactly each pair of different words, and n·(n−1) lines for n distinct words |
| Permute.ExampleTwoWords | src/permute.py:44-56 | input `a 1`, `b 2` prints `b a` then `a b` |
| Permute.ExampleSort | src/permute.py:53 | equal totals are ordered by the first weight, descending |
| Permute.ExampleLines | src/permute.py:55-56 | two pairs print as their word pairs |
| Permute.ExampleEntries | src/permute.py:31-42 | `a 1`, `b 2` parse to the entries (a, 1) and (b, 2) |
| Permute.ExampleFirstEntry | src/permute.py:31-42 | `a 1` alone parses to the entry (a, 1) |
| Permute.ExampleLineA | src/permute.py:36-42 | `a 1` parses to (a, 1) |
| Permute.ExampleLineB | src/permute.py:36-42 | `b 2` parses to (b, 2) |
| Permute.ExampleLine | src/permute.py:36-42 | a word followed by one digit parses to that word and that digit's value |
| Permute.EntriesSnoc | src/permute.py:42 | a good line appends its entry after the earlier entries |
| Permute.ExamplePairs | src/permute.py:44-50 | entries (a, 1) and (b, 2) give the pairs (3, 1, a, b) and (3, 2, b, a) in that order |
| WeightedPermute.LineEntry | src/nicky-wordtools/permute.py:38-56 | defines one line's entry: none when blank, the word without weight for one token, else the leading tokens joined with `float()` of the last, no weight when that fails |
| WeightedPermute.EntriesOf | src/nicky-wordtools/permute.py:33-56 | defines the entry loop over the lines, in order |
| WeightedPermute.Unweighted | src/nicky-wordtools/permute.py:34-56 | defines unweighted mode: some entry has no weight |
| WeightedPermute.PermuteEntries | src/nicky-wordtools/permute.py:58-80 | defines the output: nothing without entries, the pairs of distinct words in input order in unweighted mode, else the sorted weighted pairs |
| WeightedPermute.PermuteSpec | src/nicky-wordtools/permute.py:19-80 | defines permute_by_value on the lines |
| WeightedPermute.PermuteByValue | src/nicky-wordtools/permute.py:19-80 | the entry loop with its unweighted-mode flag, then whichever output branch applies, computes `PermuteSpec` |
| WeightedPermute.UnweightedSnoc | src/nicky-wordtools/permute.py:34-56 | the flag is set exactly when some entry so far has no weight |
| WeightedPermute.WordsOf | src/nicky-wordtools/permute.py:63 | the words of the entries, in input order |
| WeightedPermute.Weighed | src/nicky-wordtools/permute.py:72-76 | in weighted mode every entry's weight is the parsed value |
| WeightedPermute.WordWithoutWeight | src/nicky-wordtools/permute.py:43-46 | a single-token line is an entry with that word and no weight |
| WeightedPermute.LineRoundTrip | src/nicky-wordtools/permute.py:47-56 | a line of words and a final token gives the joined words and the token's parse, which is absent when the token is not a number |
| WeightedPermute.BlankEntries | src/nicky-wordtools/permute.py:38-40 | whitespace-only lines give no entries |
| WeightedPermute.EmptyInput | src/nicky-wordtools/permute.py:58-59 | input with only blank lines prints nothing |
| WeightedPermute.WeighedWords | src/nicky-wordtools/permute.py:72-76 | weighing keeps the words in order |
| WeightedPermute.PermuteMembers | src/nicky-wordtools/permute.py:62-80 | in both modes, a line is printed exactly when it is `w1 w2` for two entries with different words |
| WeightedPermute.SortedSameLines | src/nicky-wordtools/permute.py:62-80 | the weighted mode prints the same lines as the unweighted listing would, in sorted order |
| WeightedPermute.WeightedMode | src/nicky-wordtools/permute.py:71-80 | in weighted mode the output is the sorted pairs printed: non-increasing by (total, first), ties in generation order, and a permutation of the unweighted listing |
| WeightedPermute.UnweightedMode | src/nicky-wordtools/permute.py:62-68 | in unweighted mode the output is the row-major listing of word pairs, unsorted |
| WeightedPermute.PermuteCount | src/nicky-wordtools/permute.py:62-80 | with n distinct words, either mode prints n·(n−1) lines |
| WeightedPermute.EntriesCount | src/nicky-wordtools/permute.py:62-80 | over n entries with distinct words, the chosen output branch has n·(n−1) lines |
| WeightedPermute.UnweightedCount | src/nicky-wordtools/permute.py:62-68 | the unweighted listing of n distinct words has n·(n−1) lines |
| WeightedPermute.SortedCount | src/nicky-wordtools/permute.py:70-80 | the sorted weighted listing of n distinct words has n·(n−1) lines |
| WeightedPermute.WordPairsCount | src/nicky-wordtools/permute.py:64-67 | n distinct words give n·(n−1) ordered pairs of different words |
| WeightedPermute.WordsDistinct | src/nicky-wordtools/permute.py:63 | distinct entry words stay distinct in the word list |
| WeightedPermute.WeighedDistinct | src/nicky-wordtools/permute.py:72-76 | distinct entry words stay distinct after weighing |
| WeightedPermute.ExampleUnweighted | src/nicky-wordtools/permute.py:43-68 | `a`, `b 2` switch to unweighted mode and print `a b` then `b a` |
| WeightedPermute.ExampleEntriesOf | src/nicky-wordtools/permute.py:37-56 | `a`, `b 2` parse to a without weight and b with the parsed 2 |
| WeightedPermute.ExampleWordPairs | src/nicky-wordtools/permute.py:64-67 | the words a, b list as `a b`, `b a` |

## Left out

- Standard input and output, `print`, `sys.argv`, `sys.exit` and the `__main__` blocks and `main()` of all three programs. Each stage is modelled as a function from input lines (and masks or specs) to output lines. `main()` of morph_caps, which prints errors to stderr and continues, is not part of this model.
- Laziness of the fill_interstices generator. The model returns the whole output, and a mask error is returned instead of being raised at the first `next()`.
- Regex details of `SPEC_RE`: `\d` matching non-ASCII Unicode digits, and `$` matching before a trailing newline. The recogniser accepts ASCII digits only and requires the spec to end exactly after `}`.
- `int()` accepting `_` separators and non-ASCII digits. `Numeric.ParseInt` accepts an optional sign followed by ASCII digits.
- `float()` in the nicky permute variant. It is the parameter `toFloat: string -> Option<real>`, so every result holds for any parser. IEEE behaviour, `inf`, `nan`, exponents and rounding of `wt1 + wt2` are not modelled. `Numeric.ParseDecimal` is only a sample parser for the concrete example.
- `str.upper` and `str.split` on non-ASCII text. `Text.UpperChar` maps only `a`..`z`. Whitespace is the set Python's `str.split()` uses, written out as a set of characters.
- The `Unknown element type` branch of `expand_elements`, which cannot be reached because the mask tree is a closed datatype.
- `State` objects and `clone()`. `State` is a value. In the source every mutation happens on a fresh clone, and states that are shared are never mutated, so value semantics gives the same results.
- `Spec` fields are natural numbers. The pattern only matches digit runs, so no negative value can arise.
- The `!r` quoting of the bad token in permute.py's error message. The error carries the raw token and the line number.
- Materialising large expansions such as `?d?d?d?d` element by element. Their sizes are stated exactly by `Expansion.ExpandExact` and `Interstices.SeparatorsShape`, and `?d?d?^` is pinned at index level by `Interstices.TrailingAt`.

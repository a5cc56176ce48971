# Bash 5.2: verified models of its algorithmic cores

GNU Bash contains several pieces of code whose hard properties depend on nothing but the code itself. This
project models nine of them in Dafny and proves what they are for. Routines that work by changing things in
place are methods and classes with the same loops and fields, proved equal to a function or a relation that
says what they compute; what that function means is then proved about it.

| part | source | files |
|---|---|---|
| brace expansion, sequences, and the compression of names into a brace word | `braces.c`, `bracecomp.c`, `lib/sh/shquote.c` | `BraceSequence`, `Braces`, `BraceTree`, `BraceCompletion`, `BraceLaws` |
| the arithmetic evaluator | `expr.c` | `ArithTokens`, `ArithEval`, `ArithText`, `ArithSyntax`, `ArithResults`, `ArithLaws`, `ArithErrors`, `ArithMachine` |
| indexed arrays, as a linked ring and as a vector | `array.c`, `array2.c` | `SparseEntries`, `IndexedArray`, `VectorArray` |
| loops, `break`, `continue`, `return`, functions and `set -e` | `execute_cmd.c`, `builtins/break.def` | `ControlSemantics`, `ControlLaws`, `CommandTree`, `Executor` |
| copying and disposing of commands | `copy_cmd.c`, `dispose_cmd.c` | `CommandTree`, `CommandStorage` |
| hash tables | `hashlib.c` | `HashTable` |
| the search of `$PATH` and its memory | `findcmd.c`, `hashcmd.c`, `general.c` | `PathSearch` |
| buffered input that others may share | `input.c` | `InputBuffer` |
| alias expansion of a line | `alias.c` | `AliasExpansion`, `AliasCommands` |

## Main results

- `BraceTree.ExpandPrint`: brace expansion of the text of any brace tree is the tree's ordered denotation.
  `BraceCompletion.MungeRoundTrip`: expansion undoes the compression of a sorted list of names, for all names.
- `ArithSyntax.Simulate` and `ArithResults.EvaluatesTree`: the evaluator, which computes while it parses, gives
  every expression tree its value. `ArithMachine.Evaluator` is the same program with its state and its loops.
- `IndexedArray.Array.Replay` and `VectorArray.Vector.Replay`: both forms of arrays are one finite map.
- `Executor.Shell.Execute`: counters and flags in the tree refine `ControlSemantics.Exec`, which has neither.
  `ControlSemantics.ExitsExactly`: where `set -e` leaves the shell.
- `CommandStorage.Memory.CopyAndDispose`, `HashTable.Table.Replay`, `PathSearch.RememberingIsInvisible`,
  `InputBuffer.Stream.Replay`, `AliasExpansion.AliasExpand` with `AliasCommands.LookedUpExactly`.

What these results are stated by, such as the value of an operator, the reach of a signal or the text of a term, is
told again by itself, in terms of what a user sees: in `ArithLaws` (every operator, its precedence and its effect, for
texts of expressions), `ControlLaws` (how far `break n` and `continue n` reach, what each construct runs), `BraceLaws`,
and in the laws beside the other parts (`PathSearch.SearchLaw`, `AliasCommands.TwoWordsLaw`, `HashTable.BucketLaw`,
`CommandStorage.SameIsAll`).

## Where the code does less than it seems to promise

Each of these is stated with an input at which it shows and with the exact condition under which the code does what
is expected.

- `mkseq` checks the difference of its bounds with a macro that says nothing when the start is 0
  (`include/typemax.h:131-139`). For start 0, end INTMAX_MIN and a step other than INTMAX_MIN it then asks for too
  few slots or for a negative number of them; all other inputs that pass its checks are right
  (`BraceSequence.MkSeq`, `BraceSequence.LeastSequences`).
- Whether an amble is split at commas is decided by a search that minds neither quotes nor braces, and the split itself
  by a scanner that does; where only the first finds a comma the braces vanish, as from `{"a,b"..c}`
  (`Braces.CommasAgree`, `Braces.QuotedCommaTakesBraces`).
- A negative exponent is an error in an operand that is passed over too, and variables there read as 0, so that
  `1 || 2 ** (x - 1)` fails for every x (`ArithResults.ShortCircuit`, `ArithResults.NegativeExponentIsNotSkipped`).
- A compound assignment to `l % name` is not refused but assigns to that name, when the values are INTMAX_MIN and -1
  (`ArithResults.NotAVariableExactly`, `ArithResults.RemainderIsAssigned`).
- A name right before `=` is not looked up and counts as 0 even where it is no target, so that `l % name = e` is
  refused as a division by zero (`ArithResults.EvaluatesPlainNonVariable`, `ArithResults.NameCountsAsZero`).
- When the last element of the vector form of an array is removed, `first_index` becomes 0 and not -1
  (`array2.c:727-728`), and it stays 0 until element 0 is set; it is always a lower bound, and no result depends on
  more than that (`VectorArray.FirstIndexExactly`, `VectorArray.EmptiedAndRefilled`).
- A `continue` with a count that is not positive breaks out of all loops (`Executor.Shell.ContinueBuiltin`), and an
  `until` loop ends on a `continue` in its test, unless the test is negated (`ControlSemantics.ContinueAsTest`,
  `ControlSemantics.UntilContinueEnds`).
- A command found through a relative directory other than `.` is remembered with `./` in front
  (`PathSearch.RememberedAnswer`, `PathSearch.RelativeDirectoryIsAltered`).
- `extract_colon_unit` loses fields where an empty one follows an empty one; the search does not notice
  (`PathSearch.UnitsExactly`, `PathSearch.FieldsLost`, `PathSearch.SearchesFields`).
- The alias scanner looks up some tokens that are arguments or parts of words, and misses some commands
  (`AliasCommands.LookedUpExactly`, with the inputs of `QuotedCommand`, `HalfWord` and `MissedCommand`).

## Model

| member | source | states |
|---|---|---|
| `BraceSequence.MkSeq` | bash/braces.c:359-469 | for all 64-bit start, end and step: which inputs pass the checks (Accepted), that those that pass give exactly the terms from start to end in order, except for one family, a difference of INTMAX_MIN with start 0, which the range check misses (include/typemax.h:131-139); and which inputs of that family ask for a negative number of slots and which for too few |
| `BraceSequence.SlotsOfLeast` | bash/braces.c:383-409 | two inputs of that family: two slots for 2 to the 63rd and one terms, and -2 slots for five |
| `BraceSequence.LeastSequences` | bash/braces.c:359-469 | what the routine comes to at those two: a store past the slots, and no memory |
| `BraceSequence.FillTerms` | bash/braces.c:411-469 | the loop stores term after term and a null into nelem + 1 slots: it stays inside them if and only if nelem is at least the number of terms |
| `BraceSequence.TermInRange` | bash/braces.c:386-402 | start + k * step lies between start and end if and only if k <= floor(abs(end - start) / abs(step)) |
| `BraceSequence.LastTerm` | bash/braces.c:457-465 | the loop's three exit tests together hold after exactly the last term, so that an overflow of the index can only happen there |
| `BraceSequence.QuotientFacts` | bash/braces.c:383-402 | difference, step and quotient of accepted inputs are 64-bit integers, and the quotient is the number of terms less one except in the family that the range check misses |
| `BraceSequence.ExpandSeqTerm` | bash/braces.c:471-582 | where the text reads as a request, the routine delivers the request's terms, and it delivers nothing elsewhere; that printed requests are read right is ReadPrintedSequence |
| `BraceSequence.ReadPrintedSequence` | bash/braces.c:471-582 | a sequence expression printed from any two 64-bit integers (or letters) and any increment is read back as the same bounds and increment |
| `BraceLaws.LettersLaw` | bash/braces.c:411-469 | for letters and any increment but the least integer from a smaller to a larger letter: word k of `{first..last..incr}` is the one character of code first + k * step, as far as last |
| `BraceLaws.LettersExactly` | bash/braces.c:411-469 | `{first..last}` for letters is the characters from first to last, each once, in order |
| `BraceLaws.IntegersLaw` | bash/braces.c:411-469 | word k of `{lo..hi..incr}` is the decimal text of lo + k * step, as far as hi, for all bounds and increments that pass the checks |
| `BraceLaws.PaddedLaw` | bash/braces.c:558-575 | where a bound has a leading zero: the integers between the bounds, in order, each written with as many characters as the longer bound has |
| `Braces.BraceGobbler` | bash/braces.c:593-725 | the scanning loop with its level, quoting and pass-next variables stops where the scanner Find says |
| `Braces.CommaScanInBounds` | bash/braces.c:214-234 | the search for a comma, which skips what follows a backslash and minds neither quotes nor braces, never passes the end of the amble that the scanner has found |
| `Braces.FindComma` | bash/braces.c:214-234 | the search finds a comma if and only if some comma has an even number of backslashes right before it |
| `Braces.HasCommaExactly` | bash/braces.c:214-234 | what the search finds, in terms of backslashes alone |
| `Braces.FindsCommaExactly` | bash/braces.c:593-725 | the scanner finds a comma to split at if and only if one stands outside quotes, inner braces and backslashes |
| `Braces.CommasAgree` | bash/braces.c:214-243 | the search that decides whether an amble is split and the scanner that splits it agree if and only if such a comma exists or every comma is after a backslash that is for it |
| `Braces.BracesLost` | bash/braces.c:214-262 | where they do not agree the amble is expanded as one part, and its braces are lost |
| `Braces.QuotedCommaTakesBraces` | bash/braces.c:214-243 | `{"a,b"..c}` expands to `"a,b"..c`, although its comma is quoted and it is no sequence |
| `Braces.FindPreamble` | bash/braces.c:118-150 | the first loop stops at the first `{` that may open an expression |
| `Braces.ArrayConcat` | bash/braces.c:731-781 | the product of two vectors, left operand first, also through the short cuts for a single empty string |
| `Braces.ProductUnitRight` | bash/braces.c:744-754 | the list of one empty string is neutral on the right of a product, which justifies one short cut |
| `Braces.ProductUnitLeft` | bash/braces.c:744-751 | the same on the left |
| `Braces.ExpandAmbleParts` | bash/braces.c:284-352 | the loop over the comma-separated parts, each expanded and appended |
| `Braces.BraceExpand` | bash/braces.c:103-275 | the routine computes Expand on every text, balanced or not, and terminates; after `$(`, `<(` and `>(`, where the code calls extract_command_subst (`braces.c:671-681`), it goes on as over ordinary characters |
| `BraceTree.ExpandPrint` | bash/braces.c:103-352 | for every tree of text, alternations (nested, with empty branches), sequences and juxtaposition, with commas and closing braces as plain text outside all alternations, in which no alternation begins with a blank right after a blank or at the start of a scanned part (Noticed; the code ignores such a brace): expanding its text gives the tree's ordered denotation, union for alternation and left-major product for juxtaposition |
| `BraceTree.ProductAssoc` | bash/braces.c:731-781 | products of lists are associative |
| `BraceLaws.ProductAt` | bash/braces.c:731-781 | where each pair of words of two lists stands in their product |
| `BraceLaws.AlternationLaw` | bash/braces.c:103-352 | an alternation with what follows it expands to every word of its branches, in the order of the branches, with every word of the rest, the rest changing fastest, told by the expansions of the parts |
| `BraceLaws.QuotesLaw` | bash/braces.c:648-672 | inside quotes of each of the three kinds commas, braces and dots are plain characters |
| `BraceLaws.BlankLaw` | bash/braces.c:693-700 | `{ a,b}` with a blank, tab or newline after the brace stays as it is |
| `BraceLaws.ParameterLaw` | bash/braces.c:637-646 | `${a,b}` stays as it is |
| `BraceTree.ExpandWord` | bash/braces.c:103-275 | the same for the routine itself |
| `BraceCompletion.ShBackslashQuote` | bash/lib/sh/shquote.c:261-312 | the quoting loop puts a backslash before each character of the table and before a leading `#` |
| `BraceLaws.QuotingLaw` | bash/lib/sh/shquote.c:45-103 | a name is written without any backslash if and only if it has only ordinary characters, which are listed, and does not begin with `#` |
| `BraceCompletion.StringGcd` | bash/bracecomp.c:47-63 | the length of the longest common prefix |
| `BraceCompletion.FindGroup` | bash/bracecomp.c:86-100 | the inner loop finds the longest run of names with a common prefix beyond the given one |
| `BraceCompletion.MungeGroup` | bash/bracecomp.c:112-144 | one group is written as its common prefix and a brace list of the rests |
| `BraceCompletion.ReallyMungeBraces` | bash/bracecomp.c:65-150 | the buffer that is built holds the text of the tree of the names' prefixes, at every depth of the recursion, which terminates |
| `BraceLaws.OrderLaw` | bash/bracecomp.c:152-163 | the order of strcmp: the first difference decides, and a prefix is before what it begins |
| `BraceLaws.FirstByteLaw` | bash/bracecomp.c:152-163 | the comparison is that order, except that a name that begins with a byte above 127 comes before all that do not |
| `BraceCompletion.NameLePrefix` | bash/bracecomp.c:86-100 | in a sorted list a common prefix of two names is shared by all names between them |
| `BraceCompletion.MungeRoundTrip` | bash/bracecomp.c:65-150 | for every sorted list of names: expanding the compressed word gives back the list, in order, with duplicates and with names that are prefixes of others; exactly the names where nothing needs quoting, and the names after removal of backslashes otherwise |
| `BraceCompletion.CompressAndExpand` | bash/bracecomp.c:65-150 | the two routines one after the other, with the same result |
| `ArithEval.StrEval` | bash/expr.c:1140-1244 | while evaluation is suppressed a variable reads as 0 and nothing changes |
| `ArithEval.ReadTok` | bash/expr.c:1308-1514 | the lexer, its look-ahead included, returns with the suppression counter and the expression of its caller; while suppressed it changes no variable and reports no division by zero; a token always consumes text |
| `ArithEval.Level` | bash/expr.c:489-1112 | the same for the sixteen levels of the grammar; and all of it terminates, for every text and every store, also when variables hold expressions that mention themselves, by (1024 - depth, characters left, level) |
| `ArithEval.TailCond` | bash/expr.c:623-669 | the counter is back at its entry value on both branches of `?:` |
| `ArithEval.TailLogical` | bash/expr.c:671-724 | the same for the skipped operands of `&#124;&#124;` and `&&` |
| `ArithSyntax.Simulate` | bash/expr.c:489-1112 | for every expression tree, level, state and following operator: the level reads the tree's text with the tree's value and assignments, and stops at the operator, or fails with the tree's error |
| `ArithSyntax.SimulateInfix` | bash/expr.c:671-978 | left-associative operators chain in the loops of their levels, and `**` recurses to the right |
| `ArithSyntax.SimulateNonVariable` | bash/expr.c:504-544 | for every tree that is not a variable, followed by `=` or a compound assignment operator and a right side: the error, unless the tree is `l % name` with the values INTMAX_MIN and -1, which assigns to that name; a name right before `=` counts as 0 |
| `ArithSyntax.Descend` | bash/expr.c:489-978 | an operand that a tighter level reads is read the same way by every looser level |
| `ArithResults.EvaluatesTree` | bash/expr.c:28-45 | evaluating the text of any well-formed tree, printed under the precedence table, gives the tree's 64-bit value and final variables, or its first error |
| `ArithText.CutIsPlaced` | bash/expr.c:1369-1391 | in Cut of a tree the name right before a following `=`, if there is one, and no other is marked as not looked up |
| `ArithResults.EvaluatesNonVariable` | bash/expr.c:504-620 | the same for the text as a whole, for the compound operators |
| `ArithResults.EvaluatesPlainNonVariable` | bash/expr.c:504-544 | `e = rhs` is an error for every tree that is not a variable: the one that the tree gives with a name right before the `=` as 0, and if it gives none, that it is no variable |
| `ArithResults.NameCountsAsZero` | bash/expr.c:902-914 | `l / name = rhs` and `l % name = rhs` are divisions by zero, whatever the name holds |
| `ArithResults.NotAVariableExactly` | bash/expr.c:919-923 | a compound assignment to a tree that is not a variable is refused if and only if the tree is not that remainder |
| `ArithResults.RemainderIsAssigned` | bash/expr.c:919-923 | `a % b += 7` assigns 7 to b, where a holds INTMAX_MIN and b holds -1 |
| `ArithResults.ConstantForms` | bash/expr.c:1543-1628 | decimal, octal and hexadecimal constants are positional numbers modulo 2 to the 64th |
| `ArithResults.BasedConstant` | bash/expr.c:1543-1628 | `base#digits` for every base from 2 to 64 |
| `ArithResults.IntegerEvaluates` | bash/expr.c:1543-1628 | the decimal text of every 64-bit integer evaluates to it, also the least one, whose digits alone are out of range |
| `ArithResults.AssignedReadsBack` | bash/expr.c:607-612 | a variable reads back as the value that was assigned to it |
| `ArithResults.SkippedOperandsMatter` | bash/expr.c:966-977 | short circuits are those of C if and only if no operand that is passed over holds a negative exponent (with variables read as 0) or a malformed constant; otherwise evaluation fails |
| `ArithResults.SkippableExactly` | bash/expr.c:966-977 | an operand can be passed over if and only if its constants are well formed and its exponents are not negative when every variable is 0, as told by its tree alone |
| `ArithResults.ShortCircuit` | bash/expr.c:623-724 | the same for the evaluation of a tree's text |
| `ArithResults.HarmlessIsQuiet` | bash/expr.c:966-977 | a check on the tree alone that rules the difference out for every store |
| `ArithResults.NegativeExponentIsNotSkipped` | bash/expr.c:966-977 | `1 &#124;&#124; 2 ** (x - 1)` is an error for every store |
| `ArithLaws.BinaryLaw` | bash/expr.c:729-978 | for any two expressions in parentheses and every binary operator, by its text: the value is what the mathematics of the operator says of the operands' values (sums, products and powers modulo 2 to the 64th, truncated quotients, bits, shifts, comparisons), the store is that after the right operand, and division by 0 and negative exponents are errors |
| `ArithLaws.UnaryLaw` | bash/expr.c:980-1012 | the same for the prefix operators |
| `ArithLaws.PrecedenceLaw` | bash/expr.c:28-45 | for any two binary operators between three expressions: the text evaluates as the one with parentheses around the tighter operator, or among equals around the left one, or the right one for `**` |
| `ArithLaws.NameLaw` | bash/expr.c:1141-1240 | a name evaluates to what its text does, and to 0 if it has none |
| `ArithLaws.SelfReferenceLaw` | bash/expr.c:257-263 | a variable that names itself is an error of the recursion's depth |
| `ArithLaws.StepLaw` | bash/expr.c:1025-1098 | `++` and `--` before and after a name: the variable goes up or down by 1, and the value is the new or the old one |
| `ArithLaws.StepIsAssignment` | bash/expr.c:1025-1046 | `++ x` is `x += 1` and `-- x` is `x -= 1`, in value, in effect and in error |
| `ArithLaws.AssignmentLaw` | bash/expr.c:504-620 | an assignment sets its variable to the value of its right side, and yields it |
| `ArithLaws.CompoundLaw` | bash/expr.c:541-606 | `x op= (b)` is `x = (x op (b))` for all ten operators, in value, in effect and in error |
| `ArithLaws.ConditionalLaw` | bash/expr.c:623-669 | `x ? y : z` evaluates x and then only y or only z |
| `ArithLaws.LogicalLaw` | bash/expr.c:672-727 | in `x && (y = z)` and `x &#124;&#124; (y = z)` the assignment is made only where x leaves the result open |
| `ArithLaws.DigitLaw` | bash/expr.c:1598-1618 | the value of each of the 64 digits, in each base that has it |
| `ArithLaws.BlankLaw` | bash/expr.c:1316-1320 | blanks, tabs and newlines before a token do not matter |
| `ArithErrors.OpeningLaw` | bash/expr.c:1048-1062 | an expression with a parenthesis that is not closed: the missing one is noticed after the expression has been evaluated |
| `ArithErrors.ClosingLaw` | bash/expr.c:478-479 | an expression with a closing parenthesis too many is a syntax error, after it has been evaluated |
| `ArithErrors.EmptyParensLaw` | bash/expr.c:1105-1109 | parentheses with nothing in them lack an operand |
| `ArithErrors.OperandLaw` | bash/expr.c:1105-1109 | each of sixteen binary operators with nothing after it lacks an operand, after the left one has been evaluated |
| `ArithErrors.ColonLaw` | bash/expr.c:645-652 | a conditional without a colon: it is missed after the branch has been evaluated |
| `ArithErrors.BranchLaw` | bash/expr.c:639-641 | a `?` with nothing after it lacks an expression |
| `ArithErrors.DigitTooLargeLaw` | bash/expr.c:1612-1613 | a digit that is too large for its base makes the constant invalid |
| `ArithMachine.IntegerPower` | bash/expr.c:943-958 | squaring with reduction at each step gives base to the power exp modulo 2 to the 64th, for every base and every exponent that is not negative |
| `ArithMachine.WrapPower` | bash/expr.c:943-958 | a base may be reduced before it is raised to a power |
| `ArithMachine.ReadConstant` | bash/expr.c:1543-1628 | the loop of strlong reads what StrLong says, with the same errors |
| `ArithMachine.Evaluator.ReadToken` | bash/expr.c:1308-1514 | the routine, which saves and restores the token state around its look-ahead, does what ArithEval.ReadTok says |
| `ArithMachine.Evaluator.SubExpression` | bash/expr.c:450-487 | a variable's expression is evaluated with the context pushed, and the context is back afterwards |
| `ArithMachine.Evaluator.ExpAssign` | bash/expr.c:504-620 | the routine does what its level says, compound assignments included |
| `ArithMachine.Evaluator.ExpCond` | bash/expr.c:623-669 | the routine does what its level says, with the counter raised on the branch that is not taken |
| `ArithMachine.Evaluator.ExpMulDiv` | bash/expr.c:882-941 | the routine does what its level says; after its checks no quotient or remainder is out of range; INTMAX_MIN % -1 leaves a turn of the loop early, with the last token of its right operand still in lasttok |
| `ArithMachine.Evaluator.Exp0` | bash/expr.c:1025-1112 | primary expressions, with the token after a variable read twice unless it is `++` or `--` |
| `ArithMachine.Evaluator.Evaluate` | bash/expr.c:405-448 | the whole evaluator computes SubExpr, and leaves an empty stack and no suppression behind, also after an error |
| `SparseEntries.PutIsUpdate` | bash/array.c:550-633 | setting an element is a map update and keeps the entries in strictly increasing order |
| `SparseEntries.DropIsRemoval` | bash/array.c:639-691 | taking an element out removes its key and keeps the order |
| `SparseEntries.IndexAtLeast` | bash/array.c:200-253 | the k-th index is at least k and at most max_index |
| `SparseEntries.ShiftLeftOrdered` | bash/array.c:200-253 | after a shift by n the indices are those of the remaining elements less n, none negative, still strictly increasing |
| `SparseEntries.ShiftRightLaw` | bash/array.c:261-302 | after a shift by n to the right every index is n more, behind a new element 0 if one is given |
| `SparseEntries.ShiftInverse` | bash/array.h:155-158 | a push and then a pop change nothing |
| `IndexedArray.Array.PushAndPop` | bash/array.h:155-158 | the same for the two routines on the ring, with all its bookkeeping |
| `SparseEntries.ListRoundTrip` | bash/array.c:750-828 | a list assigned to an empty array reads back as the list |
| `IndexedArray.Array.Insert` | bash/array.c:550-633 | keeps the ring linked both ways and ordered, max_index and num_elements exact and lastref null or an element; the `problem` return happens for no index from 0 on |
| `IndexedArray.Array.FindPlace` | bash/array.c:583-632 | the search from either end or from lastref stops at the index or at its place |
| `IndexedArray.Array.Reference` | bash/array.c:696-745 | the value of the map, whatever lastref is, and lastref never becomes the dummy head |
| `IndexedArray.Array.Remove` | bash/array.c:639-691 | the element leaves the ring, and the bookkeeping stays exact |
| `IndexedArray.Array.Shift` | bash/array.c:200-253 | the first n elements come out as a null-terminated list in order, and the others are renumbered |
| `IndexedArray.Array.RightShift` | bash/array.c:260-294 | every index grows by n, after a new element 0 if there is a value for it |
| `IndexedArray.Array.Copy` | bash/array.c:126-145 | the copy has the same entries in a ring of its own |
| `IndexedArray.Array.ToWordList` | bash/array.c:750-763 | the values in order, through a list built backwards and reversed |
| `IndexedArray.Array.Replay` | bash/array.c:550-745 | any run of insert, remove and reference with indices from 0 on gives the results and the contents of a finite map |
| `IndexedArray.FromWordList` | bash/array.c:765-775 | an array made from a list holds it at 0, 1, ... |
| `VectorArray.Vector.Expand` | bash/array2.c:92-107 | the vector grows past the index that is asked for, to exactly the size that the doubling and its limit give, and the contents stay |
| `VectorArray.Vector.Insert` | bash/array2.c:675-705 | a map update; the return value is 0 for an element that was there and -1 for a new one |
| `VectorArray.Vector.Remove` | bash/array2.c:711-743 | a map removal; max_index stays exact; first_index stays, or moves to the least index left when its element goes, or becomes 0 and not -1 when the array becomes empty (array2.c:727-728) |
| `VectorArray.Vector.Reference` | bash/array2.c:748-762 | the value of the map |
| `VectorArray.Vector.Replay` | bash/array2.c:675-762 | any run of operations gives the same results as on a finite map, and so as on the linked form, and leaves the first_index that FirstAfter says step by step |
| `VectorArray.FirstIndexExactly` | bash/array2.c:675-743 | after any run from the empty array first_index is exact (-1 if empty, the least index otherwise) if and only if each time that the last element was taken out element 0 was set later on |
| `VectorArray.EmptiedAndRefilled` | bash/array2.c:727-728 | element 5 set, element 5 removed, element 7 set: first_index is 0 |
| `ControlSemantics.Exec` | bash/execute_cmd.c:572-1165 | every outcome is sane: a signal is for one of the loops around the command, only a function is returned from, the shell is left only under `-e` and never where failures are ignored, and `$?` is the status |
| `ControlSemantics.ContinueFromTest` | bash/execute_cmd.c:3700-3738 | after a `continue` from its test a loop goes on if and only if the signal is for it alone and the test's status does not end it; what becomes of the status and the signal otherwise |
| `ControlSemantics.ContinueAsTest` | bash/execute_cmd.c:3700-3738 | for the builtin as the test, with any count, negated or not: `while continue` and `until ! continue` go on, the others end |
| `ControlSemantics.UntilContinueEnds` | bash/execute_cmd.c:3713-3720 | `until continue` ends at once, and `while continue` never does |
| `ControlLaws.BreakLaw` | bash/execute_cmd.c:2984-2988 | `break n` in d nested loops of any kind leaves exactly min(n, d) of them: nothing that follows a loop further in is run, what follows the min(n, d)-th from within is run next, and no signal is left |
| `ControlLaws.ContinueLaw` | bash/execute_cmd.c:2990-2996 | `continue n` in d nested loops leaves all but one of the min(n, d) innermost ones in the same way, and the last of them goes on with its next turn |
| `ControlLaws.BadCountLaw` | bash/builtins/break.def:62-129 | a count that is not positive leaves all loops, with status 1, for both builtins |
| `ControlLaws.NoLoopLaw` | bash/builtins/break.def:62-143 | outside all loops both builtins do nothing |
| `ControlLaws.BreakInTestLaw` | bash/execute_cmd.c:3700-3732 | a `break n` as the test of a loop leaves min(n, d) loops too |
| `ControlLaws.ConnectiveLaw` | bash/execute_cmd.c:2800-2844 | what `&&`, `&#124;&#124;`, `if` and `!` run and with which status, by whether the first command has status 0 |
| `ControlLaws.ForLaw` | bash/execute_cmd.c:2935-3000 | a for loop runs its body for every word, in order |
| `ControlLaws.WhileLaw` | bash/execute_cmd.c:3698-3738 | a while loop goes on as long as its test succeeds, an until loop as long as it fails; the status is the last body's, or 0 |
| `ControlLaws.CaseLaw` | bash/execute_cmd.c:3599-3645 | the first clause with a fitting pattern is run, and what `;;`, `;&` and `;;&` do after it |
| `ControlLaws.NoCaseLaw` | bash/execute_cmd.c:3599-3645 | where no pattern fits nothing is run and the status is 0 |
| `ControlLaws.ReturnLaw` | bash/builtins/return.def:57-71 | return leaves every loop of a function, and nothing after them is run |
| `ControlLaws.FunctionLaw` | bash/execute_cmd.c:5029-5287 | a call has the status that the body ends with or returns, and the body is outside the caller's loops |
| `ControlLaws.DefinitionLaw` | bash/execute_cmd.c:6108-6155 | a definition stores the body under the name, or fails with status 1 |
| `ControlLaws.MisuseLaw` | bash/shell.h:56-66 | status 127 for a command that is not found, and 2 for a return outside of functions |
| `ControlSemantics.ErrexitStops` | bash/execute_cmd.c:915-1036 | with `-e` a run does what it does without, up to the first failure of a command outside tests, first operands and negations, and there it leaves the shell |
| `ControlSemantics.ExitsExactly` | bash/execute_cmd.c:930-946 | it leaves the shell if and only if there is such a failure, and with its status |
| `ControlLaws.FailureLaw` | bash/execute_cmd.c:930-946 | under `-e` a simple command exits if and only if it fails and its failure is not ignored |
| `ControlLaws.SparedLaw` | bash/execute_cmd.c:2801-2844 | a negated command never exits, and where `&&`, `&#124;&#124;` or `if` exits it is the command after the test |
| `ControlLaws.TestSpared` | bash/execute_cmd.c:3698-3720 | a loop exits only in its body |
| `ControlSemantics.EnoughFuel` | bash/execute_cmd.c:3698-3738 | once a run ends, more fuel changes nothing |
| `CommandTree.ClearIsSound` | bash/execute_cmd.c:5067-5069 | a tree with no flag set may be run where failures are ignored and where they are not |
| `CommandTree.EraseIsAll` | bash/command.h:178-202 | the description that copies and the semantics go by leaves out the flags and nothing else |
| `CommandTree.Copy` | bash/copy_cmd.c:362-459 | a copy consists of new cells, none shared, with the structure and the flags of the original, which is not touched |
| `Executor.Shell.Execute` | bash/execute_cmd.c:572-1165 | counters checked at entry and flags set in the tree give the outcome of the structured semantics, from every state; the tree stays fit to be run again, so that a loop's body takes the same decision each time |
| `Executor.Shell.ExecuteList` | bash/execute_cmd.c:2738-2764 | `;` with the flag passed to both sides |
| `Executor.Shell.ExecuteAndOr` | bash/execute_cmd.c:2801-2844 | `&&` and `&#124;&#124;` with the first operand's failure ignored |
| `Executor.Shell.ExecuteIf` | bash/execute_cmd.c:3747-3776 | the test's failure is ignored, and a signal from the test reaches the loop around |
| `Executor.Shell.ExecuteWhile` | bash/execute_cmd.c:3680-3742 | while and until, with break and continue from body and test; loop_level is back at the end |
| `Executor.Shell.LeaveLoop` | bash/execute_cmd.c:2984-2996 | the counters after a body: which loops go on and what is left of the signal |
| `Executor.Shell.ExecuteFor` | bash/execute_cmd.c:2867-3020 | for loops, also when the variable cannot be assigned |
| `Executor.Shell.ExecuteCase` | bash/execute_cmd.c:3530-3654 | case with `;;`, `;&` and `;;&` |
| `Executor.Shell.ExecuteFunction` | bash/execute_cmd.c:5029-5287 | a function runs on a copy of its body outside all loops; the stored body has no flag set afterwards, and loop_level is back |
| `Executor.Shell.BreakBuiltin` | bash/builtins/break.def:62-87 | break n counts at most the loops there are; a count that is not positive breaks out of all of them |
| `Executor.Shell.ContinueBuiltin` | bash/builtins/break.def:104-129 | the same for continue, where a count that is not positive also breaks |
| `Executor.Shell.DefineFunction` | bash/execute_cmd.c:6108-6155 | a definition stores a copy |
| `Executor.Shell.Run` | bash/execute_cmd.c:572-1165 | after a command of the top level both counters are 0 and loop_level is 0 |
| `Executor.SuffixKept` | bash/execute_cmd.c:3625-3640 | running one clause's action leaves the clauses fit to be run again |
| `CommandStorage.Memory.CopyCommand` | bash/copy_cmd.c:362-459 | for every type of command and redirection: the blocks of the copy are new, each allocated once, nothing else is, and the structure is the same |
| `CommandStorage.Memory.CopyRedirect` | bash/copy_cmd.c:117-162 | a redirection's words are copied exactly where its instruction and flag say that there are words |
| `CommandStorage.Memory.AddedIsNew` | bash/copy_cmd.c:362-459 | none of the blocks of a copy was allocated before |
| `CommandStorage.SameIsAll` | bash/copy_cmd.c:362-459 | the description that a copy shares with the original leaves out the blocks and nothing else |
| `CommandStorage.BlocksAreNodes` | bash/copy_cmd.c:362-459 | a command has one block for each structure and each string that it is made of |
| `CommandStorage.TargetLaw` | bash/copy_cmd.c:133-160 | the fifteen instructions whose target is a word, and the two with a here-document |
| `CommandStorage.Memory.DisposeCommand` | bash/dispose_cmd.c:35-204 | exactly the blocks of the command are freed, each once and each allocated when it is freed; no field is read from a block that has been freed |
| `CommandStorage.Memory.DisposeRedirect` | bash/dispose_cmd.c:302-342 | the same for a redirection |
| `CommandStorage.Memory.CopyAndDispose` | bash/execute_cmd.c:5067-5097 | a copy that is disposed of leaves memory as it was |
| `HashTable.HashString` | bash/hashlib.c:214-231 | the shifts and additions are the multiplication by the FNV prime modulo 2 to the 32nd |
| `HashTable.HashLaw` | bash/hashlib.c:205-231 | the published FNV-1 values of the empty text and of `a` |
| `HashTable.BitLaw` | bash/hashlib.c:219-231 | the exclusive or and the mask work bit by bit |
| `HashTable.BucketLaw` | bash/hashlib.c:49-51 | among 2 to the k buckets an item's bucket is the remainder of its hash |
| `HashTable.LoadLaw` | bash/hashlib.c:41-42 | there are at most two items to a bucket after an item is added, if there were before, while the number of buckets stays an int |
| `HashTable.Table.Rehash` | bash/hashlib.c:124-155 | every item is moved to the front of its chain among the new buckets; entries, data and counts stay |
| `HashTable.Table.Search` | bash/hashlib.c:247-293 | the item of the key with its count raised, or a new one on request, with the number of buckets that follows from the items there were |
| `HashTable.Table.Insert` | bash/hashlib.c:333-369 | the item of the key, new only if there was none; HASH_NOSRCH is for absent keys |
| `HashTable.Table.Remove` | bash/hashlib.c:299-329 | the item is unlinked from its chain, wherever it stands |
| `HashTable.Table.Scan` | bash/hashlib.c:262-270 | the scan of one chain finds the key if it is anywhere in the table |
| `HashTable.Table.EntriesAreChained` | bash/hashlib.c:247-369 | nentries is the length of all chains together |
| `HashTable.Table.Copy` | bash/hashlib.c:178-196 | a table that shares no item or bucket with the original, with the same keys, data and counts; the original is not touched |
| `HashTable.CopyChain` | bash/hashlib.c:85-122 | a chain of new items that hold what those of the original hold, in the same order |
| `HashTable.Table.Replay` | bash/hashlib.c:124-369 | any run of look-ups, look-ups that create, stores, stores without a search for keys that are absent, and deletions gives the results of a finite map |
| `HashTable.ItemsOfLess` | bash/hashlib.c:142-152 | an item taken off its chain is in no other chain |
| `PathSearch.ExtractColonUnit` | bash/general.c:1011-1053 | the loop finds the unit at the index and where to go on |
| `PathSearch.UnitsAreFields` | bash/general.c:1028-1050 | the units are the fields between colons, once empty ones that follow an empty one are left out of both |
| `PathSearch.UnitsExactly` | bash/general.c:1028-1050 | the units are the fields if and only if no empty field follows an empty one |
| `PathSearch.FieldsLost` | bash/general.c:1040-1043 | `:` and `::` have one unit less than they have fields |
| `PathSearch.SearchesFields` | bash/findcmd.c:609-684 | a search of the units is a search of the fields: the empty ones that are lost make no difference |
| `PathSearch.FindUserCommandInPath` | bash/findcmd.c:609-684 | the loop finds what SearchPath says, with the flag for the current directory |
| `PathSearch.FirstExecutable` | bash/findcmd.c:522-588 | the first executable file wins |
| `PathSearch.NothingExecutable` | bash/findcmd.c:577-592 | without one the first file that is not ignored is the result, unless it is a directory |
| `PathSearch.SearchLaw` | bash/findcmd.c:555-684 | by file_status alone: a search finds the first field of the path whose candidate is an executable file, and says so, if and only if there is one; without one the first candidate that is there and not ignored, unless that is a directory |
| `PathSearch.CandidateLaw` | bash/lib/sh/makepath.c:69-125 | the pathname that is tried for a field, character by character |
| `PathSearch.DotLaw` | bash/findcmd.c:535-540 | the flag for the current directory is set if and only if a field that stands for it is among those that were searched |
| `PathSearch.FieldsLaw` | bash/general.c:1011-1053 | the fields have no colons, and with colons between them they are the path |
| `PathSearch.CommandTable.SearchForCommand` | bash/findcmd.c:335-415 | every entry of the table is what a search finds, over any run of searches; the answer is the remembered one or that of a search, and which entry is added or thrown away |
| `PathSearch.RememberedAnswer` | bash/hashcmd.c:126-195 | a remembered command is the one that a search finds, except that an executable one whose pathname begins with neither `/` nor `./` gets a `./` in front |
| `PathSearch.RecallLaw` | bash/hashcmd.c:146-192 | what is answered for a remembered file, whatever has become of the files since |
| `PathSearch.RememberingIsInvisible` | bash/findcmd.c:335-415 | with every directory of $PATH absolute or `.` remembering changes no answer, the non-executable fallback included |
| `PathSearch.SearchAll` | bash/findcmd.c:335-415 | the same for any run of searches |
| `PathSearch.RelativeDirectoryIsAltered` | bash/hashcmd.c:152-170 | with `bin` in $PATH, `bin/ls` is remembered as `./bin/ls` |
| `InputBuffer.Stream.FillBuffer` | bash/input.c:487-534 | a short read, the end of the file and an error leave the position right |
| `InputBuffer.Stream.Getc` | bash/input.c:529-533 | the next byte of the rest of the buffer and the rest of the file |
| `InputBuffer.Stream.Ungetc` | bash/input.c:535-546 | a byte put back is the next one, and the buffer still agrees with the file if it is the byte that was read |
| `InputBuffer.Stream.Sync` | bash/input.c:548-565 | afterwards the offset of the file is the place that the shell has come to |
| `InputBuffer.Stream.Replay` | bash/input.c:487-565 | any run of reads, of bytes put back after being read, and of synchronisations delivers the file's bytes in order, whatever the system grants |
| `InputBuffer.InOrder` | bash/input.c:487-534 | reads without errors deliver the bytes of the file, each once, in order |
| `InputBuffer.ReadAgain` | bash/input.c:535-546 | a byte that has been put back is read again |
| `AliasExpansion.SkipQuotes` | bash/alias.c:321-344 | the loop stops at the closing quote that no backslash is before, or at the end of the line, as QuoteEnd says |
| `AliasExpansion.SkipWhite` | bash/alias.c:350-428 | the loop with its two counters stops, within the line, where Skip says, and hints at a new command after the same separators |
| `AliasExpansion.ReadToken` | bash/alias.c:437-475 | the loop stops, within the line, at the next delimiter that is not quoted, as TokenEnd says |
| `AliasExpansion.AliasExpand` | bash/alias.c:478-592 | for every line the output is that of its pieces, each copied or, where it is an alias to be expanded, replaced; the scan terminates |
| `AliasExpansion.PiecesCover` | bash/alias.c:510-548 | the pieces cover the line without gaps, so that every character outside replaced tokens is copied in order |
| `AliasExpansion.ReplacedAreAliases` | bash/alias.c:528-577 | a replaced token is an alias without a backslash, and is the first token, or a separator is in the text skipped before it, or it follows a value that ends in a blank; or alias_expand_all is set; and every such token that is looked up is replaced |
| `AliasCommands.LookedUpExactly` | bash/alias.c:510-548 | for every piece of every line: its token is looked up if and only if it has no backslash and either is the first one, or was asked for by the value before it, or has a separator that skipws counts before it; and it is a word where a command begins if and only if it is no delimiter and only blanks are between it and the last separator, or the start of the line |
| `AliasCommands.AskedForExactly` | bash/alias.c:566-580 | where nothing else makes it one, a token is looked up if and only if the token before it was looked up, is an alias, and has a value whose last character is a blank or a tab |
| `AliasCommands.TwoWordsLaw` | bash/alias.c:478-592 | two words with one character between them, for each blank, separator and parenthesis: which of them are replaced |
| `AliasCommands.SudoLs` | bash/alias.c:574-576 | `sudo ls` with `sudo` as an alias for `sudo` and a blank: both words are replaced |
| `AliasCommands.QuotesLaw` | bash/alias.c:435-470 | what is inside quotes of either kind is left alone |
| `AliasCommands.SkipCounts` | bash/alias.c:350-428 | skipws counts exactly the separators that are outside quotes and backslashes and not in a word with a quoted beginning |
| `AliasCommands.CommandPositionExactly` | bash/alias.c:510-536 | whether a command begins at a place can be told from the text that was skipped before it |
| `AliasCommands.QuotedCommand` | bash/alias.c:396-409 | `'f' ls`: the argument is replaced |
| `AliasCommands.QuotedCommandAfterSeparator` | bash/alias.c:396-409 | `;'f' ls`: the argument is replaced |
| `AliasCommands.HalfWord` | bash/alias.c:380-390 | `\;ls`: the second half of a word is replaced |
| `AliasCommands.MissedCommand` | bash/alias.c:411-414 | `a \f; ls`: a command is not replaced |
| `AliasExpansion.Unaffected` | bash/alias.c:558-589 | a line in which no alias is a token stays as it is |
| `AliasExpansion.ExpandWithoutAliases` | bash/alias.c:478-592 | without aliases every line stays as it is, unbalanced quotes and a trailing backslash included |

## Left out

- Brace expansion: multibyte characters, and `extract_command_subst`: after `$(`, `<(` and `>(` the scanner goes on as
  over ordinary characters, and trees whose text holds them are not among the proper ones. Failures of memory; where
  `mkseq` overruns or gets no memory, `Expand` takes the expression as no sequence.
- BraceSequence.MkSeq: the formatting of a number is `Itos` with zero padding; `asprintf` is not part of this model.
- BraceCompletion.MungeRoundTrip: the sorting of the names by `qsort` (`bracecomp.c:152-160`) is not modelled; the list
  comes sorted by bytes.
- Arithmetic: a build without ARRAY_VARS, so a `[` after a name is not part of it. Shift counts are taken modulo 64,
  where C leaves other counts undefined. Unset variables under `set -u`, readonly variables and namerefs, and the text
  of error messages. Errors are results instead of `longjmp`.
- ArithResults.EvaluatesTree: tokens are printed with one blank before each.
- Indexed arrays: indices are unbounded integers; `array_rshift` has the precondition that no index passes the largest
  64-bit integer, which C needs too. `array_slice`, quoting, pattern and string functions, `array_from_argv`. Of
  `array2.c` only the five routines for expansion, insertion, removal and reference.
- VectorArray.Vector.Expand: with unbounded indices the doubling always ends; in C `nsize <<= 1` (`array2.c:100`)
  overflows for indices of 2 to the 62nd and more, and the loop does not end; no memory could hold such a vector.
- IndexedArray.Array.Insert: negative indices, which the callers turn away, except for -1 on an empty array; and which
  element `lastref` points at afterwards, which no result depends on.
- Executor: forks, pipes, redirections, job control, traps, coprocesses, timing, `select`, arithmetic `for` and
  subshells. Simple commands, the expansion of words and the matching of patterns are an oracle; patterns have no side
  effects. `-e` is constant during a run. Functions start outside all loops, as with a compatibility level above 43.
- Executor.Shell.Execute: every call of a function and every turn of a while loop takes one from a fuel counter, and a
  run may end for want of it; `ControlSemantics.EnoughFuel` says that this is all it does.
- ControlLaws.BadCountLaw: stated where failures are ignored, as FunctionLaw, DefinitionLaw and MisuseLaw are; elsewhere a
  status other than 0 is a failure that counts, which `ControlSemantics.ExitsExactly` is about.
- BraceLaws.PaddedLaw: without an increment, and for the term expression and not the word around it.
- CommandTree.Copy: lists of clauses are copied by recursion, where `copy_cmd.c:101-115` uses a loop and a reversal;
  the same in CommandStorage for lists of words and redirections.
- CommandStorage.Memory.CopyCommand: commands are values that name the blocks they are in, so that the original is
  unchanged by construction; the caches for word structures behind `ocache_alloc` are taken as `malloc` and `free`.
- ArithEval.StrEval: the contract is about suppressed evaluation only; otherwise the value is that of SubExpr.
- HashTable.Table.Copy: without a function that copies the data; every caller passes a null one.
- HashTable: `hash_flush`, `hash_walk`. Keys are strings of bytes.
- PathSearch: a `$PATH` in the temporary environment, `command -p`, and names with a slash in
  `find_user_command_in_path`; the file system stays as it is during a run.
- InputBuffer: text mode, unbuffered streams, duplicated and moved descriptors.
- AliasExpansion: lines with null characters; `alias_expand_word`.
- `arrayfunc.c`, `assoc.c`, `bashline.c`, `bashhist.c`, `eval.c`, `error.c`, `flags.c`: thin wrappers, user interface and
  option tables, which would add only easy members.

# Verified models of TOL's parser, matcher, allocator, lists, arrays and image header

The project models the parts of TOL whose correctness is hardest to see from
one function: the operator-precedence parser with its printer, the glob
matcher, the fixed-size memory allocator, the reference-counted cons lists, the
growing array, and the search-path section of the OIS image header.  Each part
has an independent definition of what is to be computed, methods in the form of
the C++ code that are proved to compute it, and theorems about the definition.

**Parser** (`SyntaxTree`, `Precedence`, `Level`, `Phrase`, `Machine`,
`Acceptance`, `Canonical`, `Grouping`, `SaneTree`, `ConsTree`, `Parser`,
`TolTable`, `TolGrouping`).
`Precedence` defines the tree of an operator sequence by its rightmost loosest
operator and proves that no other tree has that yield and obeys the
precedences.  `Phrase` defines the language: operands and operators alternate,
brackets match and hold something, calls are headed by identifiers, no brace
group stands alone between other brackets.  `Machine` is the parser's left to
right pass as a function.  `Acceptance` proves that the pass accepts exactly
the phrases and returns exactly their trees.  `ConsTree` and `Parser` are the
cells, the tree with its pointer to the open slot, and the parser object that
rewires them; every method is proved to do what the pass does.  `Grouping`
states from the numbers of the symbol table alone how operators, prefixes,
calls and lists group and what is refused.  `TolTable` is TOL's own symbol
table, and `TolGrouping` the same for its symbols by name.

**Printer** (`Unparse`, `Reparse`, `RoundTrip`, `Lexing`, `PrintedText`,
`Rescan`, `Tally`, `Fading`, `Rereading`, `LostTexts`, `WrittenTexts`,
`LexTexts`, `TolWords`).  `Unparse` gives the
words of a tree, `PrintedText` the text that is written, with its blanks.
`Lexing` and `Rescan` are what the filter and the scanner read in a text: the
bodies of `AddNewChar`, `Inseparable` and `Clean` at `fil.cpp:181-266` and
`466-539`, of which the table below cites the declarations because `fil.cpp` is
not UTF-8.  Parsing the text a tree is printed as gives the tree back exactly
when no name is respelt (`!` prints as `Not`, `Pow` as `^`), none of the
filter's own brackets is printed, and no two words written without a blank
between them stick together; whether they do is decided by the characters
around the place where they meet.  Restoring square brackets in the printer is
not the filter's inverse: an index operator and its bracket are both written
`[`, and a set literal of one element keeps the head that the filter adds
again.  `LostTexts` has a text for each way to be lost, and TOL's table has
them all; `WrittenTexts` gives the texts written, blank by blank, and those
that come back, `LexTexts` and `TolWords` the words that stay whole, sign by
sign.  The proof that nothing else comes back counts: brackets are paired
in what is written and in what is read, no letter `E` or `y` is touched by
printing, and a weight on characters tells every change but that of separators.

**Glob matcher** (`Glob`, `StringMatch`, `GlobLaws`, `GlobTexts`).  The meaning of a pattern
follows the code inside sets: a backslash means nothing there, items are read
up to the first that fits, and an unterminated set can still match.  The
comment on `BText::Match` says that `*l*f*` does not match `Alfa`; the code,
which this model follows, treats a star alike anywhere in a pattern.

**Allocator** (`Bitmap`, `Page`, `Growth`, `BlockHandler`).  Pages keep a stack
of free indices and a packed map that agree; the handler keeps totals, a
threshold and two page hints.  The address at which the system would place a
new page is a parameter of `New`, assumed to be unused memory.

**Lists** (`Cells`, `Memory`, `ListSpecs`, `ListAlgebra`, `ListPlaces`,
`ListTrees`, `ListWalks`).  Cells and atoms live in an explicit store from which they are really removed, so a
read or a second removal of something freed cannot be proved.  The store's
invariant is that every atom counts the cells that hold it and the references
from outside.  Ghost paths and shapes name the cells of a list; `ListPlaces`
and `ListWalks` say the same by places in sequences and by walks along cars and
cdrs.

**Array** (`BArray`) and **header** (`Alias`, `Header`, `HeaderTexts`,
`HeaderReader`).  `HeaderTexts` gives the written section literally and the
texts that are read as a section, no others.

## Model

| member | source | states |
|---|---|---|
| Precedence.CanonAt | tol/bparser/par.cpp:945-975 | at the root of the canonical tree stands the rightmost binary operator of least precedence, with the canonical trees of both sides below |
| Precedence.ObeysIsCanon | tol/bparser/par.cpp:945-975 | any operator tree whose operators bind as their precedences demand is the canonical tree of its in-order yield |
| Precedence.YieldDeterminesTree | tol/bparser/par.cpp:945-975 | two such trees with the same yield are equal |
| Precedence.CanonObeys | tol/bparser/par.cpp:945-975 | every alternating sequence has such a tree, and it is the canonical one |
| Precedence.CanonBinary | tol/bparser/par.cpp:945-975 | inserting a binary operator by descending the last branches gives the canonical tree of the longer sequence |
| Precedence.CanonFill | tol/bbasic/tree.cpp:110-136 | putting an operand in the open slot gives the canonical tree of the finished sequence |
| Precedence.CanonPrefix | tol/bparser/par.cpp:843-866 | putting a prefix node in the open slot gives the canonical tree of the longer sequence |
| Canonical.BuildsCanonicalTree | tol/bparser/par.cpp:877-981 | for a phrase without separators at its level the parser returns the canonical tree of its operators and operands, and this is the only tree that obeys the precedences |
| Grouping.NumbersOfTable | tol/bparser/par.cpp:843-863 | in every phrase a binary operator binds by its number in the table, a type by 9, a word that is only a prefix by 20, `Static` by 1, and a sign by its number as a binary operator |
| Grouping.TypeScope | tol/bparser/par.cpp:1216-1216 | `t a w b` with a type `t`: the root is `w` over `t a` if the number of `w` is at most 9, else `t` over `a w b` |
| Grouping.MonaryScope | tol/bparser/par.cpp:851-863 | the same with a word that is only a prefix, by 20 and for `Static` by 1; `!` is respelt `Not` |
| Grouping.SignScope | tol/bparser/par.cpp:845-850 | the same with a sign that is also binary, by its number; its name is set between blanks |
| Grouping.TwoPrefixes | tol/bparser/par.cpp:843-866 | prefixes in a row each take what is behind them |
| Grouping.InfixScope | tol/bparser/par.cpp:945-975 | `a v b w c` groups to the left if and only if the number of `v` is at least that of `w`; `**` is respelt `^` |
| Grouping.SeparatorScope | tol/bparser/par.cpp:943-977 | behind a separator a binary operator of any number takes the last operand only |
| Grouping.ListOfThree | tol/bparser/par.cpp:1045-1074 | a list has one root, its first separator, with all operands in order |
| Grouping.CallOfOne | tol/bparser/par.cpp:686-702 | in a call of one argument the name, three of them respelt, goes on top of the argument, which remembers its bracket |
| Grouping.CallOfTwo | tol/bparser/par.cpp:686-702 | in a call of two the name takes the place of the separator |
| Grouping.BracketedList | tol/bparser/par.cpp:704-771 | without a head the separator at the root remembers the bracket |
| Grouping.BracketsKept | tol/bparser/par.cpp:755-771 | so does a lone operand |
| Grouping.OperandMissing | tol/bparser/par.cpp:579-636 | the empty text, and one that ends in an operator or separator, are refused |
| Grouping.OperatorFirst | tol/bparser/par.cpp:920-934 | so is an operator that is no prefix, or a separator, without operand before it |
| Grouping.PrefixBehind | tol/bparser/par.cpp:828-842 | so is a prefix behind an operand, unless it is also binary |
| Grouping.PrefixAlone | tol/bparser/par.cpp:579-636 | so is a prefix without operand |
| Grouping.TwoArguments | tol/bparser/par.cpp:1376-1386 | so are two arguments in a row |
| Grouping.OperandBehind | tol/bparser/par.cpp:665-674 | so is an argument or a bracket right behind a group |
| Grouping.EmptyBrackets | tol/bparser/par.cpp:728-737 | so are brackets around nothing |
| Grouping.BracketsDiffer | tol/bparser/par.cpp:728-737 | so is a bracket never closed or closed by another |
| Grouping.StrayBracket | tol/bparser/par.cpp:728-737 | so is a closing bracket that nothing has opened |
| Grouping.NoName | tol/bparser/par.cpp:665-674 | so is a call of something that is no name |
| Grouping.BraceInside | tol/bparser/par.cpp:755-771 | so is a brace group alone in other brackets, but not in braces |
| Grouping.BraceCalled | tol/bparser/par.cpp:755-771 | nor may it be alone in the brackets of a call other than braces |
| Grouping.WordAlone | tol/bparser/par.cpp:1376-1391 | a word outside the table, or a quoted one, is an argument; one that begins with `@` is refused |
| Level.LevelSlots | tol/bparser/par.cpp:814-1080 | a level's tree has one open slot, last on the right spine, while an operand is missing, and none when complete |
| Level.LevelInfix | tol/bparser/par.cpp:877-981 | a binary operator after a separator list goes into the last segment only |
| Level.LevelPrefix | tol/bparser/par.cpp:843-866 | a prefix operator goes into the open slot of the last segment |
| Level.LevelFill | tol/bbasic/tree.cpp:110-136 | an operand goes into the open slot of the last segment |
| Level.LevelSep | tol/bparser/par.cpp:1045-1076 | a separator starts a flat list or lengthens the one it finds, keeping the first separator's token |
| Level.RootUnclosed | tol/bparser/par.cpp:755-771 | only a lone operand leaves a closing mark at the root of a level |
| Phrase.PhraseSound | tol/bparser/par.cpp:1240-1323 | the tree of every finished phrase is rooted and has no open slot |
| Machine.Read | tol/bparser/par.cpp:1328-1392 | a reading is an optional argument and a symbol, and consumes exactly those words |
| Acceptance.AdvanceIsItems | tol/bparser/par.cpp:785-1080 | a symbol is accepted exactly when the phrase read so far can be continued by it, and the new state is the one of the longer phrase |
| Acceptance.BraceRule | tol/bparser/par.cpp:755-770 | the mark tested before closing says exactly whether a brace group stands alone |
| Acceptance.RunIsSound | tol/bparser/par.cpp:1240-1323 | whatever the parser accepts at a level is a well-formed phrase followed by its closing symbol, and the tree is that phrase's tree |
| Acceptance.RunIsComplete | tol/bparser/par.cpp:1240-1323 | every well-formed phrase is accepted from every state reached on the way, with its tree |
| Acceptance.AcceptsExactlyPhrases | tol/bparser/par.cpp:105-169 | a text is accepted with a given tree if and only if it is the text of a well-formed phrase with that tree |
| Acceptance.ParsingKeepsOneSlot | tol/bparser/par.cpp:1240-1323 | in every state met while parsing any text, accepted or not, a tree waiting for an operand has exactly one open slot, and a complete one none |
| SaneTree.SaneDown | tol/bparser/par.cpp:956-975 | below a root looser than the new operator there is a branch to descend into, and it is smaller: the descent never enters a leaf |
| SaneTree.SupplyThenInsert | tol/bparser/par.cpp:956-975 | supplying the pending argument inside the detached branch is the same as supplying it before the descent |
| SaneTree.BinInsSane | tol/bparser/par.cpp:943-976 | inserting a binary operator keeps the shape that makes descents safe |
| ConsTree.Tree.create | tol/bbasic/tol_tree.h:117-130 | a new node over the given branches; its free position is unset, so it is sound exactly when it has no open slot |
| ConsTree.Tree.createMonary | tol/bbasic/tol_tree.h:135-153 | a prefix node whose missing branch is the open slot |
| ConsTree.Tree.createBinary | tol/bbasic/tol_tree.h:157-170 | a binary node whose missing right branch is the open slot |
| ConsTree.Tree.getMostRightBranch | tol/bbasic/tree.cpp:88-106 | the loop ends at the last cell of the top-level chain |
| ConsTree.Tree.putMostRight | tol/bbasic/tree.cpp:110-136 | the value of the tree is the old one with the slot filled, and the pointer again names the open slot, if any |
| ConsTree.Tree.setNode | tol/bbasic/tol_tree.h:50-53 | only the token at the root changes |
| ConsTree.Tree.takeRight | tol/bparser/par.cpp:969-973 | the last branch is detached with its open slot, and its place becomes the open slot of the rest |
| ConsTree.Tree.addBranch | tol/bparser/par.cpp:1060-1070 | the top-level chain is lengthened by one open slot |
| ConsTree.treToken | tol/bparser/par.cpp:416-441 | the token found down the cars is the root's |
| Parser.Parser.ReadNextSymbol | tol/bparser/par.cpp:1328-1452 | the words, argument and symbol read, and a message exactly when the reading is refused |
| Parser.Parser.ParseDelayed | tol/bparser/par.cpp:1186-1226 | a delayed type symbol becomes a prefix in the open slot |
| Parser.Parser.ParseBinary | tol/bparser/par.cpp:877-981 | wrapping or descending on cells gives the value of the insertion function, with the open slot pointed at; an operator without operand gives a message |
| Parser.Parser.DescendRight | tol/bparser/par.cpp:967-975 | detaching, inserting and reattaching the last branch gives the value of the insertion function |
| Parser.Parser.ParseMonary | tol/bparser/par.cpp:814-868 | behind an operand a monary symbol is its binary twin or an error, elsewhere a prefix in the open slot |
| Parser.Parser.ParseType | tol/bparser/par.cpp:785-799 | the step of a type symbol, or a message when it is out of place |
| Parser.Parser.ParseSeparator | tol/bparser/par.cpp:990-1080 | the step of a separator, or a message when no operand precedes it |
| Parser.Parser.ParseNone | tol/bparser/par.cpp:579-635 | the end is accepted exactly when no bracket is open and an operand is there |
| Parser.Parser.ParseClose | tol/bparser/par.cpp:723-775 | a closing symbol is accepted exactly when it is the expected one, an operand is there and the brace rule holds; the root remembers it |
| Parser.Parser.ParseOpen | tol/bparser/par.cpp:647-712 | a group is accepted exactly when an operand is due, its head is an identifier and its inside is accepted; it fills the open slot |
| Parser.Parser.HeadGroup | tol/bparser/par.cpp:685-707 | a call's name replaces an outermost separator or goes on top, three names are respelt, and the root binds tightest |
| Parser.Parser.ParseSymbol | tol/bparser/par.cpp:1240-1323 | the loop over symbols accepts, builds and consumes exactly what the pass does, and restores the count of open brackets |
| Parser.Parser.Parsing | tol/bparser/par.cpp:105-169 | a text is accepted without message exactly when the pass accepts it, with its tree and no open bracket; otherwise the tree is empty |
| TolTable.TolIsPrintable | tol/bparser/scn.cpp:260-370 | TOL's own table of brackets, separators, operators and types meets every assumption of the theorems on parser and printer |
| TolGrouping.TolInfixScope | tol/bparser/scn.cpp:284-336 | TOL's binary operators in fourteen classes from `=` to the index operator: of two the one of the later class takes the operand between them, of one class the left one |
| TolGrouping.TolTypeScope | tol/bparser/scn.cpp:284-380 | a type takes products and what is tighter, and stays below sums, comparisons and assignments |
| TolGrouping.TolMonaryScope | tol/bparser/scn.cpp:338-352 | `~`, `!`, `$` and `Do` take the next operand only, `Static` everything |
| TolGrouping.TolSignScope | tol/bparser/scn.cpp:338-352 | a leading `+` or `-` takes products and what is tighter |
| Unparse.PrintCanon | tol/bparser/par.cpp:273-350 | the words written for the canonical tree of a sequence are those of the sequence, from left to right |
| Reparse.PrintIsYield | tol/bparser/par.cpp:216-351 | the words written for a phrase's tree are those of a phrase: the same one but for collapsed double brackets, uniform separators and respelt names |
| RoundTrip.PrintedPhraseTree | tol/bparser/par.cpp:216-351 | without respelt names the phrase of the words written is well-formed and has the same tree, closing marks included, up to stored precedences |
| RoundTrip.NamesKept | tol/bparser/par.cpp:683-707 | the tokens in the parser's tree are those of the phrase |
| Lexing.Clean | tol/bparser/tol_bfilter.h:108 | the filter's loop, which keeps numbers with a signed exponent together after a look back, cuts a stretch of text at the places the definition names |
| Lexing.LexFlat | tol/bparser/tol_bfilter.h:83 | cutting loses no character |
| Lexing.LexIffSeparate | tol/bparser/tol_bfilter.h:83-86 | words that stand alone come back from the text they make side by side if and only if none sticks to the one before it |
| Lexing.GluedInside | tol/bparser/tol_bfilter.h:108 | between two cuts the text around makes no difference to what sticks together |
| LexTexts.LexMeans | tol/bparser/tol_bfilter.h:83-86 | in a text without signed exponents a cut is exactly between two characters that are neither both of names nor one of the sixteen signs of two characters, which are listed |
| LexTexts.PairRead | tol/bparser/tol_bfilter.h:83-86 | two such characters are one word, and any other two are two words |
| LexTexts.SignedExponent | tol/bparser/tol_bfilter.h:108 | figures, `e`, a sign and figures are one word |
| LexTexts.NamedExponent | tol/bparser/tol_bfilter.h:108 | if a letter comes first the sign is a word of its own |
| LexTexts.OverlappingExponent | tol/bparser/tol_bfilter.h:108 | `1e-5e-3` is read as `1e-5e`, `-` and `3` |
| LexTexts.SquaresRead | tol/bparser/tol_bfilter.h:108 | two square brackets in a row, from the left, are a set literal with its head, one alone is an index |
| LexTexts.SquaresWritten | tol/bparser/par.cpp:352-358 | which square brackets are written for each of the filter's own words |
| TolWords.SymbolsRead | tol/bparser/scn.cpp:260-380 | every symbol of TOL's table that the filter does not put itself is read as one word |
| Rescan.RereadDelivers | tol/bparser/tol_bfilter.h:108 | every word read in any text is quoted, one of the filter's own, or stands alone |
| Rescan.TextWritesSquares | tol/bparser/par.cpp:352-358 | the square brackets in a text are one for each index operator and index bracket and two for each set bracket |
| Rescan.ReadsText | tol/bparser/tol_bfilter.h:108 | the brackets read are counted by the square brackets, and each adds its operator or its head |
| Rescan.FilterKeeps | tol/bparser/tol_bfilter.h:108 | a text without square brackets keeps all characters, and is read as the words written if and only if no word sticks to its neighbour |
| PrintedText.SpelledWritten | tol/bparser/par.cpp:216-351 | blanks and line ends aside, the text written for a tree is its words |
| WrittenTexts.TypeText | tol/bparser/par.cpp:340-349 | a type and an argument are written with a blank between |
| WrittenTexts.MonaryText | tol/bparser/par.cpp:273-285 | so are a prefix of letters and an argument; a sign that is no binary one stands next to it |
| WrittenTexts.SignText | tol/bparser/par.cpp:273-285 | a sign that is also binary stands between blanks |
| WrittenTexts.PrefixComesBack | tol/bparser/par.cpp:273-349 | so these texts, but for signs that are only prefixes, are read as the words that were parsed |
| WrittenTexts.PrefixWordsEnd | tol/bparser/par.cpp:273-349 | in the text of any accepted input a blank stands behind every prefix word of letters, so it sticks to no word behind it |
| WrittenTexts.InfixWritten | tol/bparser/par.cpp:307-339 | a binary operator stands between its operands without blanks |
| WrittenTexts.CallWritten | tol/bparser/par.cpp:286-306 | the text of a call of one argument and of two, with a blank behind the comma |
| WrittenTexts.ListWritten | tol/bparser/par.cpp:234-257 | a list stands on lines of its own, with its brackets if it has them |
| WrittenTexts.AssignedList | tol/bparser/par.cpp:328-332 | a list assigned with `=` begins a new line |
| WrittenTexts.ClosedListText | tol/bparser/par.cpp:234-257 | inside a list the brackets of a list are indented |
| WrittenTexts.GroupText | tol/bparser/par.cpp:258-349 | brackets around anything but a list are written close to it |
| Fading.ItemsFade | tol/bparser/par.cpp:216-351 | printing adds no weight of characters, keeps it only where nothing but separators changes, keeps the letters `E` and `y`, and writes the filter's brackets in pairs |
| Rereading.ReadsItself | tol/bparser/par.cpp:216-364 | a text that is read as words that are printed as this text was read as the words written, without respelt names and square brackets |
| Rereading.ReparseExactly | tol/bparser/par.cpp:216-364 | for any text the filter delivers and the parser accepts, parsing the text its tree is printed as gives the tree back if and only if no name is respelt, no bracket of the filter's own is printed and no two words stick together |
| LostTexts.NegationIsLost | tol/bparser/par.cpp:825-825 | `!a` prints as `Not a`, which is refused |
| LostTexts.PowIsLost | tol/bparser/par.cpp:687-691 | `Pow(a)` prints as `^(a)`, which is refused |
| LostTexts.SetIsLost | tol/bparser/par.cpp:352-358 | `[[a]]` prints as `SetOfAnything[[a]]`, in which the head is read twice, which is refused |
| LostTexts.IndexIsLost | tol/bparser/par.cpp:352-358 | `a[i]` prints as `a[[i]`, in which a set literal is opened, which is refused |
| LostTexts.NamedOperatorIsLost | tol/bparser/par.cpp:335-335 | `a Of b` prints as `aOfb`, one word, and so does any operator of letters between words of letters |
| LostTexts.ExponentIsLost | tol/bparser/par.cpp:335-335 | `1e - 5` prints as `1e-5`, one number |
| TolTable.TolLosesTexts | tol/bparser/scn.cpp:260-370 | TOL has an operator of letters, the index operator and a binary minus, and takes the head of set literals and numbers for arguments |
| StringMatch.StringCaseMatch | tol/bbasic/StringMatch.cpp:22-203 | the matcher returns true exactly when the string matches the pattern's meaning |
| StringMatch.MatchStar | tol/bbasic/StringMatch.cpp:55-112 | collapsing stars, cruising to the next candidate and trying every place lose no match and find no false one |
| StringMatch.MatchSet | tol/bbasic/StringMatch.cpp:132-172 | a character is in the set exactly when the meaning says so, and the pattern continues where it says |
| Glob.StarStep | tol/bbasic/StringMatch.cpp:72-111 | a star takes nothing, or one character and then matches again |
| Glob.StarStar | tol/bbasic/StringMatch.cpp:57-64 | stars in a row mean one star |
| Glob.MatchesIffSplits | tol/bbasic/StringMatch.cpp:32-202 | a string matches exactly when it splits into consecutive pieces that the parts of the pattern match |
| GlobLaws.MatchesIffAtoms | tol/bbasic/StringMatch.cpp:32-202 | for patterns that hold no range ending in `]`, the parts are the atoms of the parsed pattern: any run, any character, set, literal; an unterminated set is a set, a final backslash an empty one |
| GlobLaws.SetEndVaries | tol/bbasic/StringMatch.cpp:138-170 | a set with a range ending in `]` ends in different places for different characters |
| GlobLaws.IgnoringCase | tol/bbasic/StringMatch.cpp:136-200 | ignoring case is matching the lowered string against the lowered pattern, whenever lowering keeps special characters special and others not |
| GlobLaws.EscapePrefix | tol/bbasic/StringMatch.cpp:179-200 | an escaped prefix takes itself off the front and leaves the rest to the rest |
| GlobLaws.EscapeMatchesExactly | tol/bbasic/StringMatch.cpp:179-200 | the escaped pattern of s matches t exactly when t is s |
| GlobLaws.EscapeFinds | tol/bbasic/StringMatch.cpp:55-112 | between stars it matches exactly the strings that contain s |
| GlobTexts.RangeAlone | tol/bbasic/StringMatch.cpp:132-177 | `[x-y]` matches `c` if and only if x <= c <= y or y <= c <= x |
| GlobTexts.SinglesAlone | tol/bbasic/StringMatch.cpp:132-177 | a set of single characters matches `c` if and only if one of them is `c` |
| GlobTexts.SetTakes | tol/bbasic/StringMatch.cpp:132-177 | a set of single characters and ranges, in any order and number, takes one character that is or lies in one of them, bounds included |
| GlobTexts.Wildcards | tol/bbasic/StringMatch.cpp:55-124 | `*` takes any run of characters and `?` any one |
| GlobTexts.Itself | tol/bbasic/StringMatch.cpp:179-203 | any other character takes itself, and behind a backslash any character does |
| GlobTexts.EndOfPattern | tol/bbasic/StringMatch.cpp:41-46 | the empty pattern matches the empty string only; a final backslash and a final `[` match nothing |
| GlobTexts.OpenSet | tol/bbasic/StringMatch.cpp:132-177 | a set that is not closed ends with the pattern; one that begins with `]`, or a range without end, matches nothing |
| Bitmap.BitWith | tol/bbasic/bfsmem.cpp:67-73 | setting a bit in the packed map sets that bit and no other |
| Bitmap.BitWithout | tol/bbasic/bfsmem.cpp:76-82 | clearing a bit clears that bit and no other |
| Bitmap.BitMeans | tol/bbasic/bfsmem.cpp:51-64 | bit k is that of byte k / 8 with the weight 128 >> k % 8 |
| Bitmap.GetBit | tol/bbasic/bfsmem.cpp:58-64 | the bit read is that bit of the map |
| Bitmap.AgreeMeans | tol/bbasic/bfsmem.cpp:271-303 | the page invariant says: the stacked indices are distinct, below the page size, and exactly those whose bit is clear |
| Bitmap.AgreePop | tol/bbasic/bfsmem.cpp:326-347 | popping an index and setting its bit keeps the invariant |
| Bitmap.AgreePush | tol/bbasic/bfsmem.cpp:350-377 | clearing a set bit and pushing its index keeps the invariant |
| Bitmap.AgreeCount | tol/bbasic/bfsmem.cpp:271-377 | stacked indices and set bits add up to the page size |
| Page.IndexOfBlock | tol/bbasic/bfsmem.cpp:354-354 | dividing a block's offset by the block size gives its index back |
| Page.BPage.constructor | tol/bbasic/bfsmem.cpp:271-303 | a new page is sound, has all its blocks free, stacked by index, and ends a block size for each behind its begin |
| Page.BPage.New | tol/bbasic/bfsmem.cpp:326-347 | the address returned is that of the block on top of the stack, was not live, lies in the pool, and is live now |
| Page.BPage.Delete | tol/bbasic/bfsmem.cpp:350-377 | exactly that block is freed, and goes on top of the stack |
| Page.BPage.IsAssigned | tol/bbasic/bfsmem.cpp:403-411 | true exactly for the addresses of live blocks, whatever address is asked |
| Page.BPage.BlocksApart | tol/bbasic/bfsmem.cpp:326-347 | two live blocks of a page do not overlap |
| Growth.PageSizeIsPower | tol/bbasic/bfsmem.cpp:511-517 | page i holds min(65535, init * 4^i) blocks |
| Growth.PageSizeStep | tol/bbasic/bfsmem.cpp:511-517 | a page has four times the blocks of the one before, or 65535 if that is not less |
| Growth.ThresholdBounds | tol/bbasic/bfsmem.cpp:519-520 | capacity * percent < 100 * (threshold + pages), and every page keeps a block above the threshold |
| Growth.FivefoldAtMost | tol/bbasic/bfsmem.cpp:511-520 | a new page makes the capacity at most five times as large |
| Growth.TotalsFit | tol/bbasic/bfsmem.cpp:519-520 | with 32768 pages at most the totals fit 32-bit integers |
| BlockHandler.BFixedSizeMemoryHandler.constructor | tol/bbasic/bfsmem.cpp:414-452 | the first page has as many blocks as fit 64 bytes, or one if none does; a percentage from 50 to 95 is kept, a lower one becomes 50 and a higher one 95; nothing is live |
| BlockHandler.BFixedSizeMemoryHandler.FullestPage | tol/bbasic/bfsmem.cpp:486-497 | the search finds a page with free blocks whenever there is one: the last with as many as there are pages, else the last of those with most |
| BlockHandler.BFixedSizeMemoryHandler.ChoosePage | tol/bbasic/bfsmem.cpp:475-500 | the request is counted; the current page is chosen if it has free blocks, else that of the last deletion, else the fullest; none exactly when the live count has reached the threshold and both hinted pages are full |
| BlockHandler.BFixedSizeMemoryHandler.AddPage | tol/bbasic/bfsmem.cpp:501-522 | a page of the next size is appended, all its blocks free, the others untouched |
| BlockHandler.BFixedSizeMemoryHandler.New | tol/bbasic/bfsmem.cpp:462-529 | one new live block, from the top of the stack of the page reported, and no other change; that page is the one the hints and the search name, or an added one exactly when the live count has reached the threshold and both hinted pages are full, and then capacity * percent < 100 * (live + pages) and capacity grows at most fivefold |
| BlockHandler.BFixedSizeMemoryHandler.Delete | tol/bbasic/bfsmem.cpp:532-548 | exactly that block of that page is freed and is the next one that page gives out |
| BlockHandler.BFixedSizeMemoryHandler.IsAssigned | tol/bbasic/bfsmem.cpp:596-604 | true exactly for live blocks of that page, for any number and address |
| BlockHandler.BFixedSizeMemoryHandler.NoOverlap | tol/bbasic/bfsmem.cpp:462-548 | in every valid state no two live blocks overlap, on one page or two |
| BlockHandler.BFixedSizeMemoryHandler.AssignedIsLive | tol/bbasic/bfsmem.cpp:474-543 | `assigned_` is the number of live blocks |
| BlockHandler.BFixedSizeMemoryHandler.TotalsAreSums | tol/bbasic/bfsmem.cpp:451-520 | the capacity is the number of blocks on all pages, the threshold the sum of the pages' percents, each rounded down |
| BlockHandler.BFixedSizeMemoryHandler.NumbersFit | tol/bbasic/bfsmem.cpp:483-526 | totals and page hints stay within their types |
| Memory.Store.Cons | tol/bbasic/lst.cpp:51-66 | a new cell counts its atom; every count stays right |
| Memory.Store.Delete | tol/bbasic/lst.cpp:70-83 | a freed cell no longer counts its atom; every count stays right |
| Memory.Store.PutCar | tol/bbasic/tol_blist.h:75-80 | the count moves from the old atom to the new one, also when they are the same |
| Memory.Store.PutCdr | tol/bbasic/tol_blist.h:83-83 | relinking changes no count |
| Memory.Store.DestroyAtom | tol/bbasic/atm.cpp:82-134 | an atom goes exactly when its count is zero, and then no cell holds it |
| Cells.HeldUpdate | tol/bbasic/tol_blist.h:75-80 | how the number of holding cells changes when a cell is rewritten |
| ListAlgebra.LstFind | tol/bbasic/lstalgeb.cpp:155-167 | the first cell with that car, or none exactly when there is none |
| ListAlgebra.LstLastCdr | tol/bbasic/lstalgeb.cpp:364-374 | the last cell of the list |
| ListAlgebra.LstAppend | tol/bbasic/lstalgeb.cpp:35-48 | the old cells and one new cell, with the old cars and the new one; other cells untouched, counts right |
| ListAlgebra.LstAppendUnique | tol/bbasic/lstalgeb.cpp:52-65 | the same unless the car is there already |
| ListAlgebra.LstFastAppend | tol/bbasic/tol_blist.h:185-189 | does what `LstAppend` does, step after step, because the kept cell is the last one |
| ListAlgebra.LstRemoveAtom | tol/bbasic/lst.cpp:87-114 | exactly the cells holding the atom are freed, the others stay linked in order; a null atom removes nothing |
| ListPlaces.RemovedPlaces | tol/bbasic/lst.cpp:104-113 | the cars left are those of the places with another car, in order; removing null leaves all |
| ListPlaces.KeptPathPlaces | tol/bbasic/lst.cpp:104-113 | the cells left are those whose car is another one, in order |
| ListAlgebra.LstCompact | tol/bbasic/lstalgeb.cpp:69-85 | the list keeps first occurrences in order; exactly its other cells are freed |
| ListSpecs.CompactedSnoc | tol/bbasic/lstalgeb.cpp:79-83 | removing later copies from the front keeps a car exactly when it is new, or null |
| ListSpecs.CompactedIsGathered | tol/bbasic/lstalgeb.cpp:69-85 | on lists with at most one null car compacting gives what appending each car once gives; each further null car is one cell more |
| ListSpecs.GatheredFirst | tol/bbasic/lstalgeb.cpp:411-432 | appending each car once keeps the first occurrences, in order |
| ListPlaces.CompactedPlaces | tol/bbasic/lstalgeb.cpp:69-85 | compacting keeps exactly the first place of each car, and every null car, in order |
| ListPlaces.OntoPlaces | tol/bbasic/lstalgeb.cpp:112-128 | appending the missing cars leaves the first list as it is and takes exactly the first place of each car of the second that the first does not have, in order |
| ListPlaces.JointPlaces | tol/bbasic/lstalgeb.cpp:411-432 | joining takes exactly the first place of each car in the one list followed by the other, in order |
| ListAlgebra.LstConcatUnique | tol/bbasic/lstalgeb.cpp:112-128 | the missing cars of the second list are appended once each, in new cells, also when the lists share cells and the second grows while it is walked |
| ListAlgebra.LstJoint | tol/bbasic/lstalgeb.cpp:411-432 | a list of new cells with each car of both lists once; no old cell changes |
| ListAlgebra.JointIsCompacted | tol/bbasic/lstalgeb.cpp:411-432 | joining is compacting a copy of one list followed by the other, exactly when at most one car is null |
| ListAlgebra.LstAdd | tol/bbasic/lstalgeb.cpp:198-235 | the atom is put behind the leading names before its own, unless its name stands there, which the flag tells |
| ListAlgebra.AddKeepsSorted | tol/bbasic/lstalgeb.cpp:198-235 | a list strictly sorted by name stays so, and the flag is set exactly when the name was in it |
| ListSpecs.PlaceInSorted | tol/bbasic/lstalgeb.cpp:219-222 | in a sorted list the first name not before a given one decides whether that is there, and is where it belongs |
| ListSpecs.BeforeMeans | tol/bbasic/tol_btext.h:73 | a name is before another if and only if, where they first differ, it has ended or has the smaller character, a negative one being more than a positive one |
| ListPlaces.AddedWhere | tol/bbasic/lstalgeb.cpp:219-231 | an atom is added behind all leading atoms whose names are before its own, unless the next has its name |
| ListAlgebra.LstMatch | tol/bbasic/lstalgeb.cpp:524-544 | a list of new cells with exactly the atoms whose names match the pattern, in order |
| ListPlaces.MatchingPlaces | tol/bbasic/lstalgeb.cpp:524-544 | the atoms listed are those of exactly the places whose name matches, in order |
| ListTrees.LstDuplicate | tol/bbasic/lstalgeb.cpp:132-151 | a copy of lists within lists in new, unshared cells; each atom counts one reference more for each of its occurrences |
| ListTrees.Destroy | tol/bbasic/lst.cpp:186-216 | exactly the list's cells are freed; each atom loses its occurrences and goes exactly when these were all its references; the result is true exactly when every atom occurred once and had no other reference |
| ListTrees.DestroyUndoesDuplicate | tol/bbasic/lst.cpp:186-216 | destroying a fresh copy leaves all cells and counts as they were before copying |
| ListWalks.CopyMeans | tol/bbasic/lstalgeb.cpp:132-151 | any walk along cars and cdrs ends in the copy at the same atom, at null or at a list as in the original; the copy's cells are exactly the new ones; each atom has a reference more for each cell met that holds it |
| ListWalks.DestroyMeans | tol/bbasic/lst.cpp:186-216 | exactly the cells that walks meet are gone; an atom goes exactly if these held all its references and else loses as many; the result is true exactly if each atom met had this one reference only |
| ListWalks.UntilMeans | tol/bbasic/lst.cpp:164-182 | what is left is the list from the given cell on, or nothing, and no cell in front of it is that one |
| ListWalks.FrontIsRest | tol/bbasic/lst.cpp:164-182 | the cells destroyed and those left make up the list, and so do the atoms they hold |
| ListTrees.LstDestroyUntil | tol/bbasic/lst.cpp:164-182 | exactly the cells in front of the given one are destroyed, with the atoms that lose all their references; the rest of the list stays |
| ListTrees.LstConcat | tol/bbasic/lstalgeb.cpp:89-108 | the second list is linked behind the first, and a list behind itself is a fresh copy of it; exactly when two different lists share cells the link closes a cycle |
| ListTrees.ReleasedBoth | tol/bbasic/atm.cpp:82-134 | giving up two bags of references one after the other is giving up both, whatever atoms they share |
| BArray.BArray.ReallocBuffer | tol/bbasic/tol_barray.h:462-487 | the kept items stay, the capacity grows only when needed, and growing copies the old items once |
| BArray.BArray.Add | tol/bbasic/tol_barray.h:190-196 | the item is appended; if that leaves no room the capacity becomes six fifths of the new size, rounded down, and the old items are moved once, else nothing moves; the bound on copies is kept |
| BArray.GrowthIsPaidFor | tol/bbasic/tol_barray.h:193-193 | growing by six fifths keeps the bound on copies in terms of the capacity |
| BArray.BArray.AddAll | tol/bbasic/tol_barray.h:190-196 | n additions to an empty array leave the n items in order and copy at most 9n items in all |
| BArray.BArray.Find | tol/bbasic/tol_barray.h:595-613 | the index of the first item that compares equal, or -1 exactly when there is none |
| BArray.BArray.AddUnique | tol/bbasic/tol_barray.h:219-224 | the item is appended exactly when none compares equal |
| BArray.BArray.AutoConcat | tol/bbasic/tol_barray.h:529-545 | the items of the other array are appended, also when it is the same array |
| Alias.BAlias.CodeDecode | tol/OIS/tol_ois.h:221-237 | the text is overwritten exactly when the first text is a prefix of it, and only this prefix changes |
| Alias.CodePath | tol/OIS/oisxml.cpp:209-215 | the first alias whose value begins the path codes it |
| Alias.DecodePath | tol/OIS/oisxml.cpp:560-567 | the first alias whose coded name begins the path decodes it |
| Alias.CodedByFirst | tol/OIS/oisxml.cpp:209-215 | a path that begins with some value has the first such value, no earlier one beginning it, replaced by `{$` alias `}` |
| Alias.DecodedByFirst | tol/OIS/oisxml.cpp:560-567 | a path that begins with some `{$` alias `}` has the first such one, no earlier one beginning it, replaced by its value |
| Alias.NotCoded | tol/OIS/oisxml.cpp:209-215 | other paths stay as they are |
| Alias.PathRoundTrip | tol/OIS/tol_ois.h:242-255 | with distinct aliases without `}`, coding then decoding gives the path back exactly when some value begins it or no coded alias does |
| Alias.PlainPathRoundTrip | tol/OIS/tol_ois.h:242-255 | so every path that does not begin with `{$` comes back |
| HeaderReader.BOisLoader.XMLGoToNextTag | tol/OIS/oisxml.cpp:279-289 | the cursor stands behind the next `<`, or there is none |
| HeaderReader.BOisLoader.XMLGetNextTagTitle | tol/OIS/oisxml.cpp:292-308 | the title up to the next `>`, if short enough and the one expected |
| HeaderReader.BOisLoader.XMLEnsureEndTag | tol/OIS/oisxml.cpp:311-322 | the cursor stands behind the expected end tag, or it is not there |
| HeaderReader.BOisLoader.XMLGetNextTagValue | tol/OIS/oisxml.cpp:325-341 | a tag's value with the cursor behind its end tag |
| HeaderReader.BOisLoader.ReadSearchPaths | tol/OIS/oisxml.cpp:450-460 | the loop over the entries reads the section as the definition says |
| HeaderReader.BOisCreator.WriteSearchPaths | tol/OIS/oisxml.cpp:116-127 | the loop over the entries writes the section |
| HeaderTexts.EmptySection | tol/OIS/oisxml.cpp:116-127 | the text written for no pair, literally |
| HeaderTexts.SectionOfOne | tol/OIS/oisxml.cpp:116-127 | the text written for one pair, literally |
| HeaderTexts.SectionText | tol/OIS/oisxml.cpp:116-127 | the text written for any number: count, and one line for each pair, numbered from one |
| HeaderTexts.RootText | tol/OIS/oisxml.cpp:121-125 | the line of a pair, literally |
| HeaderTexts.DigitsMean | tol/OIS/oisxml.cpp:117-117 | numbers are written in decimal digits, the last one last |
| Header.ReadsTag | tol/OIS/oisxml.cpp:325-341 | a written tag is read back, with the cursor right behind it |
| HeaderTexts.OpenMeans | tol/OIS/oisxml.cpp:292-308 | a begin tag is read exactly where it stands behind text without `<` |
| HeaderTexts.AnyTitle | tol/OIS/oisxml.cpp:292-308 | without a title to expect, any that is short enough |
| HeaderTexts.CloseMeans | tol/OIS/oisxml.cpp:311-322 | an end tag is read exactly where it stands behind text without `<` |
| HeaderTexts.TagMeans | tol/OIS/oisxml.cpp:325-341 | a tag with its value is read exactly where it stands whole behind text without `<`, with a value without `<` that is short enough |
| Header.ScansDigits | tol/OIS/oisxml.cpp:117-117 | a written count is scanned back |
| HeaderTexts.ScansNumber | tol/OIS/oisxml.cpp:451-451 | a count is the number made of the digits it begins with; without any the variable keeps its value |
| Header.SectionRoundTrip | tol/OIS/oisxml.cpp:450-460 | the written section gives back all its pairs, with the cursor right behind its end tag, exactly when no alias or path holds a `<` or is too long |
| HeaderTexts.SectionMeans | tol/OIS/oisxml.cpp:450-460 | the texts read as a section with given pairs are exactly those made of its tags in order, each behind any text without `<`, with a count of as many pairs and with aliases and paths without `<` that are short enough |

## Left out

- The filter's comments, blocks and quoting: a quoted text is one word; the quotes and backslashes that printing doubles inside it, and names of square brackets that it replaces there, are not modelled.  Words that hold `#` or begin with `@`, other than the filter's own, are not delivered; `) {`, which the filter reads as the function operator, and the limit of 255 characters of a word are not modelled.
- PrintedText.SpelledWritten: the text is written with the default indent and line end; where a bracket of the filter's own stands next to a variable `E` and an index operator, `UnReplace` may find its marks overlapping, which is not modelled.
- Rereading.ReparseExactly: compares trees up to the precedences stored in tokens, because a bracket inside a collapsed pair leaves its mark on the inner root.
- TolTable.TolIsPrintable: without `::`, `#::#`, `#F#`, `Class`, `Struct`, `#Require` and `#Embed`; for the alias `Ration` the scanner finds the token of `Ratio`, so it is delivered here as the word `Ratio`.
- `::`, `#::#`, `#F#`, `Class`, `Struct`, `#Embed`, `#Require` and class inheritance: they register symbols or read files while parsing, and words starting with `@` are therefore refused.
- Parser.Parser.ReadNextSymbol: does not register user types, because words starting with `@`, `Struct` and `Class` are left out.
- Parser.Parser.ParseDelayed: loads no file for `#Require` and knows no `::`.
- Parser.Parser.ParseBinary: without static members and class inheritance.
- Parser.Parser.ParseMonary: without `::`, `Class` and `Struct`.
- Parser.Parser.ParseSeparator: without class inheritance and `#Embed`.
- Parser.Parser.ParseNone: does not clean up after `#Embed`.
- Parser.Parser.ParseClose: without `#Embed` and user types.
- Parser.Parser.ParseOpen: without `Struct` and class inheritance.
- Parser.Parser.ParseSymbol: without macros, of which `#Embed` is the only one.
- The texts of messages and the error position; a message is its kind.  What handlers still do after a refused reading only adds further messages.
- Tokens are values in the parser's tree: the reference counts of the parser's own cells, and the text that `Unparse` stores in a token, are not modelled.
- `List::insert`, `List::duplicate` and `toBList` of the parser's cells.
- GlobLaws.IgnoringCase: lower case is any function on characters; the locale that decides it is not modelled.
- `BFixedSizeMemoryHandler::Search` and the one-argument `IsAssigned`, which read beyond the pages in use.
- BlockHandler.BFixedSizeMemoryHandler.New: demands fewer than 32768 pages when a page must be added, because doubling the 16-bit room for pages then wraps to zero; the copying of page pointers on doubling is not modelled.
- The table of handlers by block size, the fallback to `malloc` for large blocks, and running out of memory, in allocator and arrays alike.
- `LstInsert`, `LstSort`, `LstReverse`, `LstSublist` and searching by name: they would add easier members to those above.
- ListTrees.Destroy: a null car elsewhere than at the start of a list is a null pointer call in the code and is demanded to be absent, as are cells shared within the list.
- BArray.BArray.AddAll: the factor 1.2 is taken exactly; rounding of the floating point product is not modelled.
- `Copy`, `Concat`, `Replicate`, sorting and binary search of arrays.
- Alias.BAlias.CodeDecode: only the form that replaces at the beginning, which is the one the header uses.
- The header's other sections, dates and sizes, and what the reader does with them; paths are written as given, after `GetStandardAbsolutePath`.
- HeaderReader.BOisLoader.XMLGetNextTagTitle: a text that is too long counts as a failed reading, where the code stops at an assertion; end of file is noticed before reading, not after.
- HeaderReader.BOisLoader.XMLGetNextTagValue: always expects a title, as all its uses on search paths do.
- Header.ScansDigits: counts are digits; blanks and signs that `sscanf` would skip are not modelled.

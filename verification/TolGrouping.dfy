/** How TOL's operators group, in the order of their tightness. */
module TolGrouping {
  import opened Options
  import opened SyntaxTree
  import opened Phrase
  import opened Reparse
  import opened TolTable
  import opened Grouping

  const TIGHTEST := 13

  /** The binary operators, from the loosest to the tightest. */
  function Operation(k: nat): set<Word>
    requires k <= TIGHTEST
  {
    if k == 0 then {"=", ":="}
    else if k == 1 then {"|"}
    else if k == 2 then {"&"}
    else if k == 3 then {"Of"}
    else if k == 4 then {">", "<", "==", ">=", "<=", ":>", "<:", "!="}
    else if k == 5 then {"+", "-"}
    else if k == 6 then {"*", "$*"}
    else if k == 7 then {"/", "$/", "%"}
    else if k == 8 then {"^", "**"}
    else if k == 9 then {"&&", "||"}
    else if k == 10 then {":"}
    else if k == 11 then {"<<", ">>"}
    else if k == 12 then {"->"}
    else {"#E#"}
  }

  /** Their numbers in the table. */
  function Number(k: nat): int
    requires k <= TIGHTEST
  {
    if k == 0 then 3 else if k <= 7 then k + 4 else if k == 8 then 12 else k + 4
  }

  // ----- the words in their layers

  lemma NotOpener(w: Word)
    requires w[0] != '(' && w[0] != '[' && w[0] != '{' && (w[0] != '#' || w == "#E#")
    ensures w !in Openers()
  {}

  lemma NotCloser(w: Word)
    requires w[0] != ')' && w[0] != ']' && w[0] != '}' && (w[0] != '#' || w == "#E#")
    ensures w !in Closers()
  {}

  lemma NotMonary(w: Word)
    requires w[0] != '~' && w != "!" && w != "$" && w[0] != 'D' && w[0] != 'S' && w != "+" && w != "-"
    ensures w !in Monaries()
  {}

  /** Neither separator nor bracket. */
  predicate Inner(w: Word) { w !in Separators() && w !in Brackets() }

  lemma IsInner(w: Word)
    requires w[0] !in "()[]{};," && (w[0] != '#' || w == "#E#")
    ensures Inner(w)
  {
    NotOpener(w);
    NotCloser(w);
  }

  lemma NotAbove(w: Word)
    requires !Tight(w)
    ensures w !in Above()
  {}

  lemma NotArithmetic(w: Word)
    requires !Multiplying(w) && w[0] != '#'
    ensures w !in Arithmetic()
  {}

  lemma NotComparison(w: Word)
    requires !Comparing(w)
    ensures w !in Comparisons()
  {}

  // ----- merged tables

  lemma HeldBefore(w: Word, s: Symbol, a: Table, b: Table)
    requires Held(w, s, a) && w !in b
    ensures Held(w, s, a + b)
  {}

  lemma HeldAfter(w: Word, s: Symbol, a: Table, b: Table)
    requires Held(w, s, b)
    ensures Held(w, s, a + b)
  {}

  lemma HeldByAll(w: Word, s: Symbol, words: set<Word>)
    ensures w in words ==> Held(w, s, All(words, s))
    ensures w !in words ==> w !in All(words, s)
  {}

  /** Of five layers the last that has the word tells what it is. */
  lemma HeldOfFive(w: Word, s: Symbol, a: Table, b: Table, c: Table, d: Table, e: Table)
    requires
      || Held(w, s, e) || (w !in e && Held(w, s, d)) || (w !in e && w !in d && Held(w, s, c))
      || (w !in e && w !in d && w !in c && Held(w, s, b))
      || (w !in e && w !in d && w !in c && w !in b && Held(w, s, a))
    ensures Held(w, s, a + b + c + d + e)
  {}

  lemma HeldOfFour(w: Word, s: Symbol, a: Table, b: Table, c: Table, d: Table)
    requires
      || Held(w, s, d) || (w !in d && Held(w, s, c)) || (w !in d && w !in c && Held(w, s, b))
      || (w !in d && w !in c && w !in b && Held(w, s, a))
    ensures Held(w, s, a + b + c + d)
  {}

  predicate Tight(w: Word) {
    w == "&&" || w == "||" || w == ":" || w == "<<" || w == ">>" || w == "->" || w == "#E#"
  }

  function TightNumber(w: Word): int {
    if w == ":" then 14 else if w == "<<" || w == ">>" then 15 else if w == "->" then 16
    else if w == "#E#" then 17 else 13
  }

  lemma AboveHeld(w: Word)
    requires Tight(w)
    ensures Held(w, Binary(TightNumber(w)), Above())
  {
    HeldByAll(w, Binary(13), {"&&", "||"});
    HeldByAll(w, Binary(14), {":"});
    HeldByAll(w, Binary(15), {"<<", ">>"});
    HeldByAll(w, Binary(16), {"->"});
    HeldByAll(w, Binary(17), {"#E#"});
    HeldOfFive(w, Binary(TightNumber(w)), All({"&&", "||"}, Binary(13)), All({":"}, Binary(14)),
               All({"<<", ">>"}, Binary(15)), All({"->"}, Binary(16)), All({"#E#"}, Binary(17)));
  }

  predicate Loosest(w: Word) { w == "=" || w == ":=" || w == "|" || w == "&" || w == "Of" }

  function LooseNumber(w: Word): int { if w == "|" then 5 else if w == "&" then 6 else if w == "Of" then 7 else 3 }

  lemma LooseHeld(w: Word)
    requires Loosest(w)
    ensures Held(w, Binary(LooseNumber(w)), Loose())
  {
    HeldByAll(w, Binary(3), {"=", ":="});
    HeldByAll(w, Binary(5), {"|"});
    HeldByAll(w, Binary(6), {"&"});
    HeldByAll(w, Binary(7), {"Of"});
    HeldOfFour(w, Binary(LooseNumber(w)), All({"=", ":="}, Binary(3)), All({"|"}, Binary(5)),
               All({"&"}, Binary(6)), All({"Of"}, Binary(7)));
  }

  predicate Comparing(w: Word) {
    w == ">" || w == "<" || w == "==" || w == ">=" || w == "<=" || w == ":>" || w == "<:" || w == "!="
  }

  lemma ComparisonHeld(w: Word)
    requires Comparing(w)
    ensures Held(w, Binary(8), Comparisons())
  {
    HeldByAll(w, Binary(8), {">", "<", "==", ">=", "<=", ":>", "<:", "!="});
  }

  predicate Multiplying(w: Word) { w == "*" || w == "$*" || w == "/" || w == "$/" || w == "%" }

  function ProductNumber(w: Word): int { if w == "*" || w == "$*" then 10 else 11 }

  lemma ArithmeticHeld(w: Word)
    requires Multiplying(w)
    ensures Held(w, Binary(ProductNumber(w)), Arithmetic())
  {
    HeldByAll(w, Binary(10), {"*", "$*"});
    HeldByAll(w, Binary(11), {"/", "$/", "%"});
  }

  function InfixNumber(w: Word): int {
    if Tight(w) then TightNumber(w) else if Loosest(w) then LooseNumber(w) else if Comparing(w) then 8
    else if Multiplying(w) then ProductNumber(w) else 12
  }

  lemma InLoose(w: Word, s: Symbol)
    requires Held(w, s, Loose()) && !Comparing(w) && !Multiplying(w) && !Tight(w) && w[0] != '#'
    ensures Held(w, s, Operators())
  {
    NotComparison(w);
    NotArithmetic(w);
    NotAbove(w);
    HeldOfFour(w, s, Loose(), Comparisons(), Arithmetic(), Above());
  }

  lemma InComparisons(w: Word, s: Symbol)
    requires Held(w, s, Comparisons()) && !Multiplying(w) && !Tight(w) && w[0] != '#'
    ensures Held(w, s, Operators())
  {
    NotArithmetic(w);
    NotAbove(w);
    HeldOfFour(w, s, Loose(), Comparisons(), Arithmetic(), Above());
  }

  lemma InArithmetic(w: Word, s: Symbol)
    requires Held(w, s, Arithmetic()) && !Tight(w)
    ensures Held(w, s, Operators())
  {
    NotAbove(w);
    HeldOfFour(w, s, Loose(), Comparisons(), Arithmetic(), Above());
  }

  lemma InAbove(w: Word, s: Symbol)
    requires Held(w, s, Above())
    ensures Held(w, s, Operators())
  {
    HeldOfFour(w, s, Loose(), Comparisons(), Arithmetic(), Above());
  }

  predicate IsOperator(w: Word) { Tight(w) || Loosest(w) || Comparing(w) || Multiplying(w) }

  lemma LooseApart(w: Word)
    requires Loosest(w)
    ensures !Comparing(w) && !Multiplying(w) && !Tight(w) && w[0] != '#'
  {}

  lemma ComparisonApart(w: Word)
    requires Comparing(w)
    ensures !Multiplying(w) && !Tight(w) && w[0] != '#'
  {}

  lemma OperatorHeld(w: Word)
    requires IsOperator(w)
    ensures Held(w, Binary(InfixNumber(w)), Operators())
  {
    if Tight(w) {
      AboveHeld(w);
      InAbove(w, Binary(TightNumber(w)));
    } else if Loosest(w) {
      LooseHeld(w);
      LooseApart(w);
      InLoose(w, Binary(LooseNumber(w)));
    } else if Comparing(w) {
      ComparisonHeld(w);
      ComparisonApart(w);
      InComparisons(w, Binary(8));
    } else {
      ArithmeticHeld(w);
      InArithmetic(w, Binary(ProductNumber(w)));
    }
  }

  predicate IsPower(w: Word) { w == "^" || w == "**" }

  lemma NotPower(w: Word)
    requires !IsPower(w)
    ensures w !in Powers()
  {}

  lemma InnerLast(w: Word, s: Symbol, t: Table, tol: Table)
    requires Held(w, s, t) && Inner(w) && tol == t + Separators() + Brackets()
    ensures Held(w, s, tol)
  {}

  /** No prefix word, and not a sign. */
  predicate NoPrefix(w: Word) {
    w[0] != '~' && w != "!" && w != "$" && w[0] != 'D' && w[0] != 'S' && w != "+" && w != "-"
  }

  lemma InOperators(w: Word, s: Symbol)
    requires Held(w, s, Operators()) && !IsPower(w) && NoPrefix(w)
    ensures Held(w, s, Types() + Operators() + Powers() + Monaries())
  {
    NotPower(w);
    NotMonary(w);
    HeldOfFour(w, s, Types(), Operators(), Powers(), Monaries());
  }

  lemma InPowers(w: Word, s: Symbol)
    requires Held(w, s, Powers()) && NoPrefix(w)
    ensures Held(w, s, Types() + Operators() + Powers() + Monaries())
  {
    NotMonary(w);
    HeldOfFour(w, s, Types(), Operators(), Powers(), Monaries());
  }

  predicate IsSign(w: Word) { w == "+" || w == "-" }

  lemma InMonaries(w: Word, s: Symbol)
    requires Held(w, s, Monaries())
    ensures Held(w, s, Types() + Operators() + Powers() + Monaries())
  {
    HeldOfFour(w, s, Types(), Operators(), Powers(), Monaries());
  }

  // ----- grouping

  lemma OperationKind(k: nat, w: Word)
    requires k <= TIGHTEST && w in Operation(k)
    ensures if k == 5 then IsSign(w) else if k == 8 then IsPower(w) else IsOperator(w) && InfixNumber(w) == Number(k)
  {}

  /** First characters of operators. */
  predicate OperatorStart(w: Word) { w[0] !in "()[]{};,\"" && (w[0] != '#' || w == "#E#") && w != "!" }

  lemma OperatorWord(w: Word)
    requires IsOperator(w)
    ensures OperatorStart(w) && NoPrefix(w) && !IsPower(w)
  {}

  lemma SignOrPower(w: Word)
    requires IsSign(w) || IsPower(w)
    ensures OperatorStart(w) && (IsPower(w) ==> NoPrefix(w))
  {}

  lemma OperationWords(k: nat, w: Word)
    requires k <= TIGHTEST && w in Operation(k)
    ensures OperatorStart(w) && (k != 5 ==> NoPrefix(w)) && (k != 8 ==> !IsPower(w))
  {
    OperationKind(k, w);
    if k == 5 || k == 8 { SignOrPower(w); } else { OperatorWord(w); }
  }

  lemma OuterLayers(k: nat, w: Word)
    requires k <= TIGHTEST && w in Operation(k)
    ensures Held(w, if k == 5 then Monary(Some(9)) else Binary(Number(k)),
                 Types() + Operators() + Powers() + Monaries())
  {
    OperationKind(k, w);
    OperationWords(k, w);
    if k == 5 {
      HeldByAll(w, Monary(Some(9)), {"+", "-"});
      InMonaries(w, Monary(Some(9)));
    } else if k == 8 {
      HeldByAll(w, Binary(12), {"^", "**"});
      InPowers(w, Binary(12));
    } else {
      OperatorHeld(w);
      InOperators(w, Binary(Number(k)));
    }
  }

  /** The number of a binary operator in TOL's table. */
  lemma TolBinds(k: nat, w: Word)
    requires k <= TIGHTEST && w in Operation(k)
    ensures Binds(TolSymbols(), w, Number(k)) && w != "!"
  {
    var s := if k == 5 then Monary(Some(9)) else Binary(Number(k));
    OperationWords(k, w);
    IsInner(w);
    OuterLayers(k, w);
    InnerLast(w, s, Types() + Operators() + Powers() + Monaries(), TolSymbols());
  }

  /** How two operators group in a table. */
  predicate Groups(tab: Table, a: Word, i: nat, v: Word, b: Word, j: nat, w: Word, c: Word) {
    IsArgument(tab, a) && IsArgument(tab, b) && IsArgument(tab, c) ==>
      Gives(tab, [a, v, b, w, c],
        if i >= j then Binary2(Power(w), Binary2(Power(v), Word1(a), Word1(b)), Word1(c))
        else Binary2(Power(v), Word1(a), Binary2(Power(w), Word1(b), Word1(c))))
  }

  lemma GroupsByNumber(tab: Table, a: Word, i: nat, v: Word, b: Word, j: nat, w: Word, c: Word)
    requires PrintableTable(tab) && i <= TIGHTEST && j <= TIGHTEST && v != "!" && w != "!"
    requires Binds(tab, v, Number(i)) && Binds(tab, w, Number(j))
    ensures Groups(tab, a, i, v, b, j, w, c)
  {
    if IsArgument(tab, a) && IsArgument(tab, b) && IsArgument(tab, c) {
      InfixScope(tab, a, v, b, w, c, Number(i), Number(j));
    }
  }

  /** Of two binary operators of TOL the one further down the list takes the
      operand between them, and of two at one place the left one. */
  lemma TolInfixScope(a: Word, i: nat, v: Word, b: Word, j: nat, w: Word, c: Word)
    requires i <= TIGHTEST && v in Operation(i) && j <= TIGHTEST && w in Operation(j)
    ensures Groups(TolSymbols(), a, i, v, b, j, w, c)
  {
    TolIsPrintable();
    TolBinds(i, v);
    TolBinds(j, w);
    GroupsByNumber(TolSymbols(), a, i, v, b, j, w, c);
  }

  // ----- prefixes

  function TypeNames(): set<Word> {
    {"Anything", "Set", "Date", "CTime", "Real"} + {"Complex", "Matrix", "VMatrix", "Polyn"}
    + {"Ratio", "Text", "TimeSet", "CTimeSet"} + {"Serie", "CSeries", "Code", "NameBlock", "PolMatrix"}
  }

  lemma TypeHeld(t: Word)
    requires t in TypeNames()
    ensures Held(t, Type, Types())
  {
    HeldByAll(t, Type, {"Anything", "Set", "Date", "CTime", "Real"});
    HeldByAll(t, Type, {"Complex", "Matrix", "VMatrix", "Polyn"});
    HeldByAll(t, Type, {"Ratio", "Text", "TimeSet", "CTimeSet"});
    HeldByAll(t, Type, {"Serie", "CSeries", "Code", "NameBlock", "PolMatrix"});
    TypeLayers(t, All({"Anything", "Set", "Date", "CTime", "Real"}, Type),
               All({"Complex", "Matrix", "VMatrix", "Polyn"}, Type),
               All({"Ratio", "Text", "TimeSet", "CTimeSet"}, Type),
               All({"Serie", "CSeries", "Code", "NameBlock", "PolMatrix"}, Type));
  }

  lemma TypeLayers(t: Word, a: Table, b: Table, c: Table, d: Table)
    requires t in a || t in b || t in c || t in d
    requires forall x :: x in a ==> a[x] == Type
    requires forall x :: x in b ==> b[x] == Type
    requires forall x :: x in c ==> c[x] == Type
    requires forall x :: x in d ==> d[x] == Type
    ensures Held(t, Type, a + b + c + d)
  {}

  predicate Capital(c: char) { 'A' <= c <= 'Z' }

  lemma TypeInitials(t: Word)
    requires t in TypeNames()
    ensures Capital(t[0]) && t != "Of" && t != "Do" && t != "Static"
  {}

  lemma NoOperatorName(t: Word)
    requires Capital(t[0]) && t != "Of"
    ensures t !in Operators()
  {
    NameNotLoose(t);
    assert t !in Comparisons();
    NameNotProduct(t);
    NameNotTight(t);
  }

  lemma NameNotLoose(t: Word)
    requires Capital(t[0]) && t != "Of"
    ensures t !in Loose()
  {}

  lemma NameNotProduct(t: Word)
    requires Capital(t[0])
    ensures t !in Arithmetic()
  {}

  lemma NameNotTight(t: Word)
    requires Capital(t[0])
    ensures t !in Above()
  {}

  lemma NameNotMonary(t: Word)
    requires Capital(t[0]) && t != "Do" && t != "Static"
    ensures t !in Monaries() && t !in Powers()
  {
    assert t !in Monaries();
  }

  lemma TolType(t: Word)
    requires t in TypeNames()
    ensures Lookup(TolSymbols(), t) == Some(Type)
  {
    TypeHeld(t);
    TypeInitials(t);
    NoOperatorName(t);
    NameNotMonary(t);
    IsInner(t);
    HeldOfFour(t, Type, Types(), Operators(), Powers(), Monaries());
    InnerLast(t, Type, Types() + Operators() + Powers() + Monaries(), TolSymbols());
  }

  predicate IsMonary(t: Word) { t == "~" || t == "!" || t == "$" || t == "Do" || t == "Static" }

  lemma MonaryHeld(t: Word)
    requires IsMonary(t)
    ensures Held(t, Monary(None), Monaries())
  {
    HeldByAll(t, Monary(None), {"~", "!", "$", "Do", "Static"});
    HeldByAll(t, Monary(Some(9)), {"+", "-"});
    HeldBefore(t, Monary(None), All({"~", "!", "$", "Do", "Static"}, Monary(None)), All({"+", "-"}, Monary(Some(9))));
  }

  lemma MonaryInner(t: Word)
    requires IsMonary(t)
    ensures Inner(t) && t[0] != '\"'
  {
    IsInner(t);
  }

  lemma TolMonary(t: Word)
    requires IsMonary(t)
    ensures Lookup(TolSymbols(), t) == Some(Monary(None))
  {
    MonaryHeld(t);
    InMonaries(t, Monary(None));
    MonaryInner(t);
    InnerLast(t, Monary(None), Types() + Operators() + Powers() + Monaries(), TolSymbols());
  }

  lemma TolSign(t: Word)
    requires IsSign(t)
    ensures Lookup(TolSymbols(), t) == Some(Monary(Some(9)))
  {
    HeldByAll(t, Monary(Some(9)), {"+", "-"});
    InMonaries(t, Monary(Some(9)));
    SignOrPower(t);
    IsInner(t);
    InnerLast(t, Monary(Some(9)), Types() + Operators() + Powers() + Monaries(), TolSymbols());
  }

  function PlainName(t: Word): Word { if t == "!" then "Not" else t }

  function SignName(t: Word): Word { " " + t + " " }

  /** `t a w b` with a prefix named `name`: it takes `a` alone, or `a w b`. */
  predicate Takes(tab: Table, kind: Kind, name: Word, t: Word, a: Word, alone: bool, w: Word, b: Word) {
    IsArgument(tab, a) && IsArgument(tab, b) ==>
      Gives(tab, [t, a, w, b],
        if alone then Binary2(Power(w), Prefix1(kind, name, Word1(a)), Word1(b))
        else Prefix1(kind, name, Binary2(Power(w), Word1(a), Word1(b))))
  }

  lemma TypeTakes(tab: Table, t: Word, a: Word, k: nat, w: Word, b: Word)
    requires PrintableTable(tab) && k <= TIGHTEST && Binds(tab, w, Number(k)) && w != "!"
    requires Lookup(tab, t) == Some(Type)
    ensures Takes(tab, TYPE, t, t, a, k <= 5, w, b)
  {
    if IsArgument(tab, a) && IsArgument(tab, b) { TypeScope(tab, t, a, w, b, Number(k)); }
  }

  lemma MonaryTakes(tab: Table, t: Word, a: Word, k: nat, w: Word, b: Word)
    requires PrintableTable(tab) && k <= TIGHTEST && Binds(tab, w, Number(k)) && w != "!"
    requires Lookup(tab, t) == Some(Monary(None))
    ensures Takes(tab, MONARY, PlainName(t), t, a, t != "Static", w, b)
  {
    if IsArgument(tab, a) && IsArgument(tab, b) { MonaryScope(tab, t, a, w, b, Number(k)); }
  }

  lemma SignTakes(tab: Table, t: Word, a: Word, k: nat, w: Word, b: Word)
    requires PrintableTable(tab) && k <= TIGHTEST && Binds(tab, w, Number(k)) && w != "!" && t != "!"
    requires Lookup(tab, t) == Some(Monary(Some(9)))
    ensures Takes(tab, MONARY, SignName(t), t, a, k <= 5, w, b)
  {
    if IsArgument(tab, a) && IsArgument(tab, b) { SignScope(tab, t, a, w, b, Number(k), 9); }
  }

  /** A type of TOL takes products and what is tighter, not sums. */
  lemma TolTypeScope(t: Word, a: Word, k: nat, w: Word, b: Word)
    requires t in TypeNames() && k <= TIGHTEST && w in Operation(k)
    ensures Takes(TolSymbols(), TYPE, t, t, a, k <= 5, w, b)
  {
    TolIsPrintable();
    TolType(t);
    TolBinds(k, w);
    TypeTakes(TolSymbols(), t, a, k, w, b);
  }

  /** `~`, `!`, `$` and `Do` take the next operand only, `Static` everything. */
  lemma TolMonaryScope(t: Word, a: Word, k: nat, w: Word, b: Word)
    requires IsMonary(t) && k <= TIGHTEST && w in Operation(k)
    ensures Takes(TolSymbols(), MONARY, PlainName(t), t, a, t != "Static", w, b)
  {
    TolIsPrintable();
    TolMonary(t);
    TolBinds(k, w);
    MonaryTakes(TolSymbols(), t, a, k, w, b);
  }

  /** A leading `+` or `-` takes products and what is tighter, not sums. */
  lemma TolSignScope(t: Word, a: Word, k: nat, w: Word, b: Word)
    requires IsSign(t) && k <= TIGHTEST && w in Operation(k)
    ensures Takes(TolSymbols(), MONARY, SignName(t), t, a, k <= 5, w, b)
  {
    TolIsPrintable();
    TolSign(t);
    TolBinds(k, w);
    SignTakes(TolSymbols(), t, a, k, w, b);
  }
}

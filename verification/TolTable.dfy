/** TOL's own symbols.  They meet what the parser and the printer rely on, and
    with them all the texts that cannot be read back do occur. */
module TolTable {
  import opened Options
  import opened SyntaxTree
  import opened Phrase
  import opened Reparse

  function All(words: set<Word>, s: Symbol): Table { map w | w in words :: s }

  function Loose(): Table {
    All({"=", ":="}, Binary(3)) + All({"|"}, Binary(5)) + All({"&"}, Binary(6)) + All({"Of"}, Binary(7))
  }

  function Comparisons(): Table { All({">", "<", "==", ">=", "<=", ":>", "<:", "!="}, Binary(8)) }

  function Arithmetic(): Table {
    All({"#+#", "#-#"}, Binary(9)) + All({"*", "$*"}, Binary(10)) + All({"/", "$/", "%"}, Binary(11))
  }

  function Above(): Table {
    All({"&&", "||"}, Binary(13)) + All({":"}, Binary(14)) + All({"<<", ">>"}, Binary(15))
    + All({"->"}, Binary(16)) + All({"#E#"}, Binary(17))
  }

  function Types(): Table {
    All({"Anything", "Set", "Date", "CTime", "Real"}, Type) + All({"Complex", "Matrix", "VMatrix", "Polyn"}, Type)
    + All({"Ratio", "Text", "TimeSet", "CTimeSet"}, Type)
    + All({"Serie", "CSeries", "Code", "NameBlock", "PolMatrix"}, Type)
  }

  function Monaries(): Table {
    All({"~", "!", "$", "Do", "Static"}, Monary(None)) + All({"+", "-"}, Monary(Some(9)))
  }

  function Openers(): Table {
    map["(" := Open(Paren), "[" := Open(Square), "{" := Open(Brace), "#{#" := Open(SetOf), "#(#" := Open(Index)]
  }

  function Closers(): Table {
    map[")" := Close(Paren), "]" := Close(Square), "}" := Close(Brace), "#}#" := Close(SetOf), "#)#" := Close(Index)]
  }

  function Brackets(): Table { Openers() + Closers() }

  function Separators(): Table { All({";"}, Separator(1)) + All({","}, Separator(2)) }

  function Operators(): Table { Loose() + Comparisons() + Arithmetic() + Above() }

  function Powers(): Table { All({"^", "**"}, Binary(12)) }

  function TolSymbols(): Table {
    Types() + Operators() + Powers() + Monaries() + Separators() + Brackets()
  }

  /** Initial and length tell the names that parser and filter invent, and
      numbers, from all symbols. */
  predicate Invented(w: Word) {
    || (w[0] == 'N' && |w| == 3) || (w[0] == 'E' && |w| == 2) || (w[0] == 'S' && (|w| == 4 || |w| == 13))
    || (w[0] == 'P' && |w| == 3) || '0' <= w[0] <= '9'
  }

  predicate SymbolOk(w: Word, s: Symbol) {
    && w[0] != ' ' && w[0] != '\"' && !Invented(w)
    && match s
       case Open(b) => w == OpenName(b)
       case Close(b) => w == CloseName(b)
       case Separator(p) => p < 3 && (w == ";" || w == ",")
       case Binary(p) => 3 <= p <= MAX_PRECEDENCE
       case Monary(Some(p)) => 3 <= p <= MAX_PRECEDENCE
       case _ => true
  }

  predicate TableOk(t: Table) { forall w :: w in t ==> SymbolOk(w, t[w]) }

  /** A symbol that is no bracket is right for any words. */
  lemma AllOk(words: set<Word>, s: Symbol)
    requires forall w :: w in words ==> w[0] != ' ' && w[0] != '\"' && !Invented(w)
    requires match s
             case Open(_) => false
             case Close(_) => false
             case Separator(p) => p < 3 && words <= {";", ","}
             case Binary(p) => 3 <= p <= MAX_PRECEDENCE
             case Monary(Some(p)) => 3 <= p <= MAX_PRECEDENCE
             case _ => true
    ensures TableOk(All(words, s))
  {}

  lemma LooseOk()
    ensures TableOk(Loose())
  {
    AllOk({"=", ":="}, Binary(3));
    AllOk({"|"}, Binary(5));
    AllOk({"&"}, Binary(6));
    AllOk({"Of"}, Binary(7));
  }

  lemma ComparisonsOk()
    ensures TableOk(Comparisons())
  {
    AllOk({">", "<", "==", ">=", "<=", ":>", "<:", "!="}, Binary(8));
  }

  lemma ArithmeticOk()
    ensures TableOk(Arithmetic())
  {
    AllOk({"#+#", "#-#"}, Binary(9));
    AllOk({"*", "$*"}, Binary(10));
    AllOk({"/", "$/", "%"}, Binary(11));
  }

  lemma AboveOk()
    ensures TableOk(Above())
  {
    AllOk({"&&", "||"}, Binary(13));
    AllOk({":"}, Binary(14));
    AllOk({"<<", ">>"}, Binary(15));
    AllOk({"->"}, Binary(16));
    AllOk({"#E#"}, Binary(17));
  }

  lemma FirstTypesOk()
    ensures TableOk(All({"Anything", "Set", "Date", "CTime", "Real"}, Type))
  {
    AllOk({"Anything", "Set", "Date", "CTime", "Real"}, Type);
  }

  lemma SecondTypesOk()
    ensures TableOk(All({"Complex", "Matrix", "VMatrix", "Polyn"}, Type))
  {
    AllOk({"Complex", "Matrix", "VMatrix", "Polyn"}, Type);
  }

  lemma ThirdTypesOk()
    ensures TableOk(All({"Ratio", "Text", "TimeSet", "CTimeSet"}, Type))
  {
    AllOk({"Ratio", "Text", "TimeSet", "CTimeSet"}, Type);
  }

  lemma LastTypesOk()
    ensures TableOk(All({"Serie", "CSeries", "Code", "NameBlock", "PolMatrix"}, Type))
  {
    AllOk({"Serie", "CSeries", "Code", "NameBlock", "PolMatrix"}, Type);
  }

  lemma TypesOk()
    ensures TableOk(Types())
  {
    FirstTypesOk();
    SecondTypesOk();
    ThirdTypesOk();
    LastTypesOk();
  }

  lemma MonariesOk()
    ensures TableOk(Monaries())
  {
    AllOk({"~", "!", "$", "Do", "Static"}, Monary(None));
    AllOk({"+", "-"}, Monary(Some(9)));
  }

  lemma OpenersOk()
    ensures TableOk(Openers())
  {}

  lemma ClosersOk()
    ensures TableOk(Closers())
  {}

  lemma BracketsOk()
    ensures TableOk(Brackets())
  {
    OpenersOk();
    ClosersOk();
    MergeOk(Openers(), Closers());
  }

  lemma MergeOk(a: Table, b: Table)
    requires TableOk(a) && TableOk(b)
    ensures TableOk(a + b)
  {}

  lemma OperatorsOk()
    ensures TableOk(Operators())
  {
    LooseOk();
    ComparisonsOk();
    ArithmeticOk();
    AboveOk();
    MergeOk(Loose(), Comparisons());
    MergeOk(Loose() + Comparisons(), Arithmetic());
    MergeOk(Loose() + Comparisons() + Arithmetic(), Above());
  }

  lemma SeparatorsOk()
    ensures TableOk(Separators())
  {
    AllOk({";"}, Separator(1));
    AllOk({","}, Separator(2));
  }

  lemma PowersOk()
    ensures TableOk(Powers())
  {
    AllOk({"^", "**"}, Binary(12));
  }

  // ----- the words the parser and the printer rely on

  predicate BracketLayer(brackets: Table) {
    && (forall b: Bracket :: OpenName(b) in brackets && brackets[OpenName(b)] == Open(b))
    && (forall b: Bracket :: CloseName(b) in brackets && brackets[CloseName(b)] == Close(b))
  }

  predicate CommaLayer(separators: Table, brackets: Table) {
    "," in separators && separators[","] == Separator(2) && "," !in brackets
  }

  predicate NotLayer(monaries: Table, separators: Table, brackets: Table) {
    "!" in monaries && monaries["!"] == Monary(None) && "!" !in separators && "!" !in brackets
  }

  predicate PowerLayer(w: Word, powers: Table, monaries: Table, separators: Table, brackets: Table) {
    w in powers && powers[w] == Binary(12) && w !in monaries && w !in separators && w !in brackets
  }

  // The words the printer relies on are each in their layer and in no later one.

  predicate PowerLayers(powers: Table, monaries: Table, separators: Table, brackets: Table) {
    PowerLayer("^", powers, monaries, separators, brackets) && PowerLayer("**", powers, monaries, separators, brackets)
  }

  lemma OpenLookup(b: Bracket)
    ensures OpenName(b) in Openers() && Openers()[OpenName(b)] == Open(b) && OpenName(b) !in Closers()
  {}

  lemma CloseLookup(b: Bracket)
    ensures CloseName(b) in Closers() && Closers()[CloseName(b)] == Close(b)
  {}

  lemma BracketLookup()
    ensures BracketLayer(Brackets())
  {
    forall b: Bracket
      ensures OpenName(b) in Brackets() && Brackets()[OpenName(b)] == Open(b)
      ensures CloseName(b) in Brackets() && Brackets()[CloseName(b)] == Close(b)
    {
      OpenLookup(b);
      CloseLookup(b);
    }
  }

  lemma CommaLookup()
    ensures CommaLayer(Separators(), Brackets())
  {}

  /** Not a prefix sign, a separator or a bracket. */
  lemma Elsewhere(w: Word)
    requires w == "^" || w == "**" || w == "Of" || w == "#E#"
    ensures w !in Monaries() && w !in Separators() && w !in Brackets()
  {
    assert w !in Openers();
    assert w !in Closers();
  }

  lemma SignElsewhere(w: Word)
    requires w == "!" || w == "-"
    ensures w !in Separators() && w !in Brackets()
  {
    assert w !in Openers();
    assert w !in Closers();
  }

  lemma NotLookup()
    ensures NotLayer(Monaries(), Separators(), Brackets())
  {
    assert "!" !in All({"+", "-"}, Monary(Some(9)));
    SignElsewhere("!");
  }

  lemma PowerLookup()
    ensures PowerLayers(Powers(), Monaries(), Separators(), Brackets())
  {
    Elsewhere("^");
    Elsewhere("**");
  }

  lemma OkMeansValid(t: Table)
    requires TableOk(t)
    requires forall b :: Lookup(t, OpenName(b)) == Some(Open(b)) && Lookup(t, CloseName(b)) == Some(Close(b))
    ensures ValidTable(t) && forall w :: w in t ==> w[0] != ' ' && (t[w].Separator? ==> w == ";" || w == ",")
    ensures forall w :: Invented(w) ==> Lookup(t, w) == None
  {}

  lemma InventedWords()
    ensures forall w: Word :: w == "Not" || w == "Eq" || w == "SqRt" || w == "Pow" ==> Invented(w) && w[0] != '@'
  {}

  lemma PartsOk(a: Table, b: Table, c: Table, d: Table, e: Table)
    requires TableOk(a) && TableOk(b) && TableOk(c) && TableOk(d) && TableOk(e)
    ensures TableOk(a + b + c + d + e)
  {
    MergeOk(a, b);
    MergeOk(a + b, c);
    MergeOk(a + b + c, d);
    MergeOk(a + b + c + d, e);
  }

  lemma IsPrintable(t: Table)
    requires TableOk(t)
    requires forall b :: Lookup(t, OpenName(b)) == Some(Open(b)) && Lookup(t, CloseName(b)) == Some(Close(b))
    requires Lookup(t, ",") == Some(Separator(2)) && Lookup(t, "!") == Some(Monary(None))
    requires Lookup(t, "^") == Lookup(t, "**") == Some(Binary(12))
    ensures PrintableTable(t)
  {
    OkMeansValid(t);
    InventedWords();
  }

  /** Later layers of a merged table win. */
  lemma Layered(t: Table, powers: Table, monaries: Table, separators: Table, brackets: Table, all: Table)
    requires all == t + powers + monaries + separators + brackets && TableOk(all)
    requires BracketLayer(brackets) && CommaLayer(separators, brackets) && NotLayer(monaries, separators, brackets)
    requires PowerLayers(powers, monaries, separators, brackets)
    ensures PrintableTable(all)
  {
    forall b: Bracket ensures Lookup(all, OpenName(b)) == Some(Open(b)) && Lookup(all, CloseName(b)) == Some(Close(b)) {
      assert OpenName(b) in all && CloseName(b) in all;
    }
    assert "," in all && "!" in all && "^" in all && "**" in all;
    IsPrintable(all);
  }

  lemma TolSymbolsOk()
    ensures TableOk(TolSymbols())
  {
    TypesOk();
    OperatorsOk();
    PowersOk();
    MonariesOk();
    SeparatorsOk();
    BracketsOk();
    MergeOk(Types(), Operators());
    PartsOk(Types() + Operators(), Powers(), Monaries(), Separators(), Brackets());
  }

  /** TOL's table is one the theorems on the parser and the printer apply to. */
  lemma TolIsPrintable()
    ensures PrintableTable(TolSymbols())
  {
    TolSymbolsOk();
    BracketLookup();
    CommaLookup();
    NotLookup();
    PowerLookup();
    Layered(Types() + Operators(), Powers(), Monaries(), Separators(), Brackets(), TolSymbols());
  }

  // ----- the words of the texts that are lost

  lemma OfHeld()
    ensures "Of" in Loose() && Loose()["Of"] == Binary(7)
  {}

  lemma OfNoComparison()
    ensures "Of" !in Comparisons()
  {}

  lemma OfNotAbove()
    ensures "Of" !in Arithmetic() && "Of" !in Above()
  {
    assert "Of" !in Arithmetic();
  }

  lemma OfLookup()
    ensures Held("Of", Binary(7), Operators())
  {
    OfHeld();
    OfNoComparison();
    OfNotAbove();
  }

  lemma IndexLookup()
    ensures Held("#E#", Binary(17), Operators())
  {
    assert "#E#" in Above() && Above()["#E#"] == Binary(17);
  }

  predicate Held(w: Word, s: Symbol, t: Table) { w in t && t[w] == s }

  lemma MinusLookup()
    ensures Held("-", Monary(Some(9)), Monaries())
  {}

  lemma NotPower(w: Word)
    requires w == "Of" || w == "#E#"
    ensures w !in Powers()
  {}

  /** An operator named by letters, the index operator and a binary sign; the
      head of set literals and numbers are arguments. */
  predicate LosesTexts(t: Table) {
    && IsInfixWord(t, "Of") && IsInfixWord(t, "#E#") && IsInfixWord(t, "-")
    && IsArgument(t, "SetOfAnything") && IsArgument(t, "1e") && IsArgument(t, "5")
  }

  lemma LayersLose(t: Table, ops: Table, powers: Table, monaries: Table, separators: Table, brackets: Table, all: Table)
    requires all == t + ops + powers + monaries + separators + brackets && TableOk(all)
    requires Held("Of", Binary(7), ops) && Held("#E#", Binary(17), ops) && Held("-", Monary(Some(9)), monaries)
    requires forall w :: w == "Of" || w == "#E#" ==>
      w !in powers && w !in monaries && w !in separators && w !in brackets
    requires "-" !in separators && "-" !in brackets
    ensures LosesTexts(all)
  {
    assert "Of" in all && "#E#" in all && "-" in all;
    InventedArguments(all);
  }

  lemma InventedArguments(t: Table)
    requires TableOk(t)
    ensures IsArgument(t, "SetOfAnything") && IsArgument(t, "1e") && IsArgument(t, "5")
  {
    assert Invented("SetOfAnything") && Invented("1e") && Invented("5");
  }

  /** All the texts that are lost can be written in TOL. */
  lemma TolLosesTexts()
    ensures LosesTexts(TolSymbols())
  {
    OfLookup();
    IndexLookup();
    MinusLookup();
    SignElsewhere("-");
    forall w | w == "Of" || w == "#E#"
      ensures w !in Powers() && w !in Monaries() && w !in Separators() && w !in Brackets()
    {
      NotPower(w);
      Elsewhere(w);
    }
    TolSymbolsOk();
    LayersLose(Types(), Operators(), Powers(), Monaries(), Separators(), Brackets(), TolSymbols());
  }
}

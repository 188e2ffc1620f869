/** Every symbol of TOL that the filter reads from the text is one word. */
module TolWords {
  import opened Options
  import opened SyntaxTree
  import opened Lexing
  import opened LostTexts
  import opened LexTexts
  import opened TolTable

  /** A sign of one character or two, or a name. */
  predicate OneWord(w: Word) {
    (|w| == 1 && w[0] in SIGNS) || w in PAIRS || forall i :: 0 <= i < |w| ==> IsAlpha(w[i])
  }

  lemma OneWordRead(w: Word)
    requires OneWord(w)
    ensures Solid(w) && Lex(w) == [w]
  {
    if w in PAIRS {
      PairParts(w);
      assert w == [w[0], w[1]];
      PairRead(w[0], w[1]);
      Sorts(w[0]);
      Sorts(w[1]);
    } else {
      if |w| == 1 { Sorts(w[0]); }
      LexOrdinary(w);
      FlatSnoc([], w);
      assert [] + [w] == [w] && Flat([w]) == w;
    }
  }

  lemma PairParts(w: Word)
    requires w in PAIRS
    ensures |w| == 2 && w[0] in SIGNS && w[1] in SIGNS
  {
    SignsAre(w[0]);
    SignsAre(w[1]);
  }

  /** Put by the filter, or read as part of what it puts. */
  predicate Own(w: Word) { '#' in w || w == "[" || w == "]" }

  predicate Fine(w: Word) { Own(w) || OneWord(w) }

  predicate AllWords(t: Table) { forall w :: w in t ==> Fine(w) }

  lemma Merged(a: Table, b: Table)
    requires AllWords(a) && AllWords(b)
    ensures AllWords(a + b)
  {}

  lemma SetWords(words: set<Word>, s: Symbol)
    requires forall w :: w in words ==> Fine(w)
    ensures AllWords(All(words, s))
  {}

  lemma FirstNames()
    ensures OneWord("Anything") && OneWord("Set") && OneWord("Date") && OneWord("CTime") && OneWord("Real")
  {}

  lemma SecondNames()
    ensures OneWord("Complex") && OneWord("Matrix") && OneWord("VMatrix") && OneWord("Polyn")
  {}

  lemma ThirdNames()
    ensures OneWord("Ratio") && OneWord("Text") && OneWord("TimeSet") && OneWord("CTimeSet")
  {}

  lemma FourthNames()
    ensures OneWord("Serie") && OneWord("CSeries") && OneWord("Code") && OneWord("NameBlock") && OneWord("PolMatrix")
  {}

  lemma OtherNames()
    ensures OneWord("Of") && OneWord("Do") && OneWord("Static")
  {}

  lemma FirstTypes()
    ensures AllWords(All({"Anything", "Set", "Date", "CTime", "Real"}, Type))
  {
    FirstNames();
    SetWords({"Anything", "Set", "Date", "CTime", "Real"}, Type);
  }

  lemma SecondTypes()
    ensures AllWords(All({"Complex", "Matrix", "VMatrix", "Polyn"}, Type))
  {
    SecondNames();
    SetWords({"Complex", "Matrix", "VMatrix", "Polyn"}, Type);
  }

  lemma ThirdTypes()
    ensures AllWords(All({"Ratio", "Text", "TimeSet", "CTimeSet"}, Type))
  {
    ThirdNames();
    SetWords({"Ratio", "Text", "TimeSet", "CTimeSet"}, Type);
  }

  lemma FourthTypes()
    ensures AllWords(All({"Serie", "CSeries", "Code", "NameBlock", "PolMatrix"}, Type))
  {
    FourthNames();
    SetWords({"Serie", "CSeries", "Code", "NameBlock", "PolMatrix"}, Type);
  }

  lemma TypeWords()
    ensures AllWords(Types())
  {
    FirstTypes();
    SecondTypes();
    ThirdTypes();
    FourthTypes();
    Merged(All({"Anything", "Set", "Date", "CTime", "Real"}, Type),
           All({"Complex", "Matrix", "VMatrix", "Polyn"}, Type));
  }

  lemma Marked(w: Word)
    requires w[0] == '#'
    ensures Fine(w)
  {}

  lemma SingleSign(c: char)
    requires IsSymbol(c) && c != '\''
    ensures Fine([c])
  {
    Sorts(c);
  }

  lemma Pair(w: Word)
    requires |w| == 2 && Inseparable(w[0], w[1])
    ensures Fine(w)
  {
    PairsAre(w[0], w[1]);
    assert w == [w[0], w[1]];
  }

  lemma One(a: Word, s: Symbol)
    requires Fine(a)
    ensures AllWords(All({a}, s))
  {}

  lemma Two(a: Word, b: Word, s: Symbol)
    requires Fine(a) && Fine(b)
    ensures AllWords(All({a, b}, s))
  {}

  lemma Three(a: Word, b: Word, c: Word, s: Symbol)
    requires Fine(a) && Fine(b) && Fine(c)
    ensures AllWords(All({a, b, c}, s))
  {}

  lemma Five(a: Word, b: Word, c: Word, d: Word, e: Word, s: Symbol)
    requires Fine(a) && Fine(b) && Fine(c) && Fine(d) && Fine(e)
    ensures AllWords(All({a, b, c, d, e}, s))
  {}

  lemma Eight(a: Word, b: Word, c: Word, d: Word, e: Word, f: Word, g: Word, h: Word, s: Symbol)
    requires Fine(a) && Fine(b) && Fine(c) && Fine(d) && Fine(e) && Fine(f) && Fine(g) && Fine(h)
    ensures AllWords(All({a, b, c, d, e, f, g, h}, s))
  {}

  lemma Assignments()
    ensures AllWords(All({"=", ":="}, Binary(3)))
    ensures AllWords(All({"|"}, Binary(5)))
    ensures AllWords(All({"&"}, Binary(6)))
    ensures AllWords(All({"Of"}, Binary(7)))
  {
    OtherNames();
    SingleSign('=');
    Pair(":=");
    Two("=", ":=", Binary(3));
    SingleSign('|');
    One("|", Binary(5));
    SingleSign('&');
    One("&", Binary(6));
    One("Of", Binary(7));
  }

  lemma PowersAndSeparators()
    ensures AllWords(All({"^", "**"}, Binary(12)))
    ensures AllWords(All({";"}, Separator(1)))
    ensures AllWords(All({","}, Separator(2)))
  {
    SingleSign('^');
    Pair("**");
    Two("^", "**", Binary(12));
    SingleSign(';');
    One(";", Separator(1));
    SingleSign(',');
    One(",", Separator(2));
  }

  lemma Compared()
    ensures AllWords(All({">", "<", "==", ">=", "<=", ":>", "<:", "!="}, Binary(8)))
  {
    SingleSign('>');
    SingleSign('<');
    Pair("==");
    Pair(">=");
    Pair("<=");
    Pair(":>");
    Pair("<:");
    Pair("!=");
    Eight(">", "<", "==", ">=", "<=", ":>", "<:", "!=", Binary(8));
  }

  lemma Sums()
    ensures AllWords(All({"#+#", "#-#"}, Binary(9)))
    ensures AllWords(All({"*", "$*"}, Binary(10)))
    ensures AllWords(All({"/", "$/", "%"}, Binary(11)))
  {
    Marked("#+#");
    Marked("#-#");
    Two("#+#", "#-#", Binary(9));
    SingleSign('*');
    Pair("$*");
    Two("*", "$*", Binary(10));
    SingleSign('/');
    Pair("$/");
    SingleSign('%');
    Three("/", "$/", "%", Binary(11));
  }

  lemma Joined()
    ensures AllWords(All({"&&", "||"}, Binary(13)))
    ensures AllWords(All({":"}, Binary(14)))
    ensures AllWords(All({"<<", ">>"}, Binary(15)))
    ensures AllWords(All({"->"}, Binary(16)))
    ensures AllWords(All({"#E#"}, Binary(17)))
  {
    Pair("&&");
    Pair("||");
    Two("&&", "||", Binary(13));
    SingleSign(':');
    One(":", Binary(14));
    Pair("<<");
    Pair(">>");
    Two("<<", ">>", Binary(15));
    Pair("->");
    One("->", Binary(16));
    Marked("#E#");
    One("#E#", Binary(17));
  }

  lemma Prefixes()
    ensures AllWords(All({"~", "!", "$", "Do", "Static"}, Monary(None)))
    ensures AllWords(All({"+", "-"}, Monary(Some(9))))
  {
    OtherNames();
    SingleSign('~');
    SingleSign('!');
    SingleSign('$');
    Five("~", "!", "$", "Do", "Static", Monary(None));
    SingleSign('+');
    SingleSign('-');
    Two("+", "-", Monary(Some(9)));
  }

  lemma LooseWords()
    ensures AllWords(TolTable.Loose()) && AllWords(Powers()) && AllWords(Separators())
  {
    Assignments();
    PowersAndSeparators();
    AllMerged(All({"=", ":="}, Binary(3)), All({"|"}, Binary(5)), All({"&"}, Binary(6)), All({"Of"}, Binary(7)),
              map[], map[]);
    Merged(All({";"}, Separator(1)), All({","}, Separator(2)));
  }

  lemma ArithmeticWords()
    ensures AllWords(Arithmetic()) && AllWords(Comparisons())
  {
    Compared();
    Sums();
    Merged(All({"#+#", "#-#"}, Binary(9)), All({"*", "$*"}, Binary(10)));
    Merged(All({"#+#", "#-#"}, Binary(9)) + All({"*", "$*"}, Binary(10)), All({"/", "$/", "%"}, Binary(11)));
  }

  lemma AboveWords()
    ensures AllWords(Above())
  {
    Joined();
    AllMerged(All({"&&", "||"}, Binary(13)), All({":"}, Binary(14)), All({"<<", ">>"}, Binary(15)),
              All({"->"}, Binary(16)), map[], map[]);
    Merged(All({"&&", "||"}, Binary(13)) + All({":"}, Binary(14)) + All({"<<", ">>"}, Binary(15))
           + All({"->"}, Binary(16)), All({"#E#"}, Binary(17)));
  }

  lemma MonaryWords()
    ensures AllWords(Monaries())
  {
    Prefixes();
    Merged(All({"~", "!", "$", "Do", "Static"}, Monary(None)), All({"+", "-"}, Monary(Some(9))));
  }

  lemma FiveBrackets(a: Word, r: Symbol, b: Word, s: Symbol, c: Word, t: Symbol, d: Word, u: Symbol, e: Word, v: Symbol)
    requires Fine(a) && Fine(b) && Fine(c) && Fine(d) && Fine(e)
    ensures AllWords(map[a := r, b := s, c := t, d := u, e := v])
  {}

  lemma OpenerWords()
    ensures AllWords(Openers())
  {
    SingleSign('(');
    SingleSign('{');
    Marked("#{#");
    Marked("#(#");
    FiveBrackets("(", Symbol.Open(Paren), "[", Symbol.Open(Square), "{", Symbol.Open(Brace),
                 "#{#", Symbol.Open(SetOf), "#(#", Symbol.Open(Index));
  }

  lemma CloserWords()
    ensures AllWords(Closers())
  {
    SingleSign(')');
    SingleSign('}');
    Marked("#}#");
    Marked("#)#");
    FiveBrackets(")", Symbol.Close(Paren), "]", Symbol.Close(Square), "}", Symbol.Close(Brace),
                 "#}#", Symbol.Close(SetOf), "#)#", Symbol.Close(Index));
  }

  lemma BracketWords()
    ensures AllWords(Brackets())
  {
    OpenerWords();
    CloserWords();
    Merged(Openers(), Closers());
  }

  lemma AllMerged(a: Table, b: Table, c: Table, d: Table, e: Table, f: Table)
    requires AllWords(a) && AllWords(b) && AllWords(c) && AllWords(d) && AllWords(e) && AllWords(f)
    ensures AllWords(a + b + c + d + e + f) && AllWords(a + b + c + d)
  {
    Merged(a, b);
    Merged(a + b, c);
    Merged(a + b + c, d);
    Merged(a + b + c + d, e);
    Merged(a + b + c + d + e, f);
  }

  lemma TableWords()
    ensures AllWords(TolSymbols())
  {
    TypeWords();
    LooseWords();
    ArithmeticWords();
    AboveWords();
    MonaryWords();
    BracketWords();
    AllMerged(TolTable.Loose(), Comparisons(), Arithmetic(), Above(), map[], map[]);
    AllMerged(Types(), Operators(), Powers(), Monaries(), Separators(), Brackets());
  }

  /** Whatever symbol the filter does not put itself comes back as one word. */
  lemma SymbolsRead(w: Word)
    requires w in TolSymbols() && '#' !in w && w != "[" && w != "]"
    ensures Solid(w) && Lex(w) == [w]
  {
    TableWords();
    OneWordRead(w);
  }
}

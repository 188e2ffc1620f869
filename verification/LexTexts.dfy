/** Which characters the filter keeps together, by their names. */
module LexTexts {
  import opened SyntaxTree
  import opened Lexing
  import opened PrintedText
  import opened Rescan
  import opened LostTexts

  /** Letters, digits and the other characters of names. */
  predicate NameChar(c: char) {
    || 'a' <= c <= 'z' || 'A' <= c <= 'Z' || '0' <= c <= '9'
    || c == '_' || c == '.' || c == '\'' || c == '\U{00F1}' || c == '\U{00D1}'
  }

  const SIGNS := "(){};,:-!+*/%^&|<=>\\?~$"

  /** The signs of two characters. */
  const PAIRS: set<string> :=
    {"&&", "||", "$*", "$/", "->", "<:", ":>", "<<", ">>", "**", "!=", ":=", "::", "==", "<=", ">="}

  /** Characters of names stay together, and so do the two of a sign. */
  predicate Together(c: char, d: char) { (NameChar(c) && NameChar(d)) || [c, d] in PAIRS }

  lemma Sorts(c: char)
    ensures IsSolid(c) <==> NameChar(c) || c in SIGNS
    ensures IsIdentifier(c) <==> NameChar(c)
    ensures IsSymbol(c) <==> c in SIGNS || c == '\''
  {
    SignsAre(c);
  }

  lemma SignsAre(c: char)
    ensures c in SIGNS <==>
      || c == '(' || c == ')' || c == '{' || c == '}' || c == ';' || c == ',' || c == ':'
      || c == '-' || c == '!' || c == '+' || c == '*' || c == '/' || c == '%' || c == '^' || c == '&'
      || c == '|' || c == '<' || c == '=' || c == '>' || c == '\\' || c == '?' || c == '~' || c == '$'
  {
    assert SIGNS[0] == '(' && SIGNS[1] == ')' && SIGNS[2] == '{' && SIGNS[3] == '}' && SIGNS[4] == ';';
    assert SIGNS[5] == ',' && SIGNS[6] == ':' && SIGNS[7] == '-' && SIGNS[8] == '!' && SIGNS[9] == '+';
    assert SIGNS[10] == '*' && SIGNS[11] == '/' && SIGNS[12] == '%' && SIGNS[13] == '^' && SIGNS[14] == '&';
    assert SIGNS[15] == '|' && SIGNS[16] == '<' && SIGNS[17] == '=' && SIGNS[18] == '>' && SIGNS[19] == '\\';
    assert SIGNS[20] == '?' && SIGNS[21] == '~' && SIGNS[22] == '$';
  }

  lemma PairIs(c: char, d: char, w: string)
    requires |w| == 2
    ensures [c, d] == w <==> c == w[0] && d == w[1]
  {}

  lemma PairsAre(c: char, d: char)
    ensures [c, d] in PAIRS <==> Inseparable(c, d)
  {
    PairIs(c, d, "&&");
    PairIs(c, d, "||");
    PairIs(c, d, "$*");
    PairIs(c, d, "$/");
    PairIs(c, d, "->");
    PairIs(c, d, "<:");
    PairIs(c, d, ":>");
    PairIs(c, d, "<<");
    PairIs(c, d, ">>");
    PairIs(c, d, "**");
    PairIs(c, d, "!=");
    PairIs(c, d, ":=");
    PairIs(c, d, "::");
    PairIs(c, d, "==");
    PairIs(c, d, "<=");
    PairIs(c, d, ">=");
  }

  lemma JoinsMeans(c: char, d: char)
    requires IsSolid(c)
    ensures Joins(c, d) <==> Together(c, d)
  {
    Sorts(c);
    Sorts(d);
    PairsAre(c, d);
  }

  // ----- texts without signed exponents

  /** A digit or point, `e` or `E`, a plus or minus and a digit. */
  predicate ExponentAt(s: string, i: int) {
    && 0 <= i < |s| - 3 && ('0' <= s[i] <= '9' || s[i] == '.') && (s[i + 1] == 'e' || s[i + 1] == 'E')
    && (s[i + 2] == '+' || s[i + 2] == '-') && '0' <= s[i + 3] <= '9'
  }

  predicate NoExponents(s: string) { forall i :: 0 <= i < |s| ==> !ExponentAt(s, i) }

  /** Where a word ends and the next begins. */
  predicate EndsAt(ws: seq<Word>, i: nat) { exists k :: 0 < k < |ws| && At(ws, k) == i }

  lemma {:induction false} CutEnds(s: string, stuck: set<nat>, n: nat, i: nat)
    requires n <= |s| && 0 < i < n
    ensures EndsAt(Cut(s, stuck, n), i) <==> i !in stuck
  {
    var us := Cut(s, stuck, n - 1);
    CutFlat(s, stuck, n - 1);
    if i < n - 1 { CutEnds(s, stuck, n - 1, i); } else { NoEndBehind(us, i); }
    if n - 1 in stuck {
      GrownEnds(us, s[n - 1], i);
    } else {
      OneEndMore(us, [s[n - 1]], i);
    }
  }

  lemma SameEnds(ws: seq<Word>, us: seq<Word>, i: nat)
    requires |ws| == |us| && forall k :: 0 <= k < |us| ==> ws[..k] == us[..k]
    ensures EndsAt(ws, i) <==> EndsAt(us, i)
  {
    forall k | 0 < k < |us| ensures At(ws, k) == At(us, k) { assert ws[..k] == us[..k]; }
  }

  lemma GrownEnds(us: seq<Word>, c: char, i: nat)
    requires us != []
    ensures EndsAt(Grown(us, c), i) <==> EndsAt(us, i)
  {
    SameEnds(Grown(us, c), us, i);
  }

  lemma NoEndBehind(us: seq<Word>, i: nat)
    requires |Flat(us)| <= i
    ensures !EndsAt(us, i)
  {
    forall k | 0 < k < |us| ensures At(us, k) < i {
      FlatPrefix(us, k, |us|);
      assert us[..|us|] == us;
    }
  }

  lemma OneEndMore(us: seq<Word>, w: Word, i: nat)
    requires i <= |Flat(us)| && (us == [] ==> i > 0)
    ensures EndsAt(us + [w], i) <==> EndsAt(us, i) || i == |Flat(us)|
  {
    var ws := us + [w];
    forall k | 0 < k < |us| ensures At(ws, k) == At(us, k) { assert ws[..k] == us[..k]; }
    assert ws[..|us|] == us;
    if i == |Flat(us)| && us != [] { assert At(ws, |us|) == i; }
  }

  /** Text is cut exactly between characters that are not kept together. */
  lemma LexMeans(s: string, i: nat)
    requires Solid(s) && NoExponents(s) && 0 < i < |s|
    ensures Flat(Lex(s)) == s && (EndsAt(Lex(s), i) <==> !Together(s[i - 1], s[i]))
  {
    LexFlat(s);
    CutEnds(s, Stuck(s), |s|, i);
    NoneKept(s, i);
    assert IsSolid(s[i - 1]);
    JoinsMeans(s[i - 1], s[i]);
  }

  lemma NoneKept(s: string, i: nat)
    requires NoExponents(s) && 0 < i < |s|
    ensures Glued(s, i) <==> Joins(s[i - 1], s[i])
  {
    forall j: nat ensures !Exponent(s, j) {
      if ExponentShape(s, j) { assert ExponentAt(s, j); }
    }
  }

  /** Two characters are one word or two. */
  lemma PairRead(c: char, d: char)
    requires (NameChar(c) || c in SIGNS) && (NameChar(d) || d in SIGNS)
    ensures Lex([c, d]) == if Together(c, d) then [[c, d]] else [[c], [d]]
  {
    var s := [c, d];
    Sorts(c);
    Sorts(d);
    assert Solid(s) && NoExponents(s);
    NoneKept(s, 1);
    JoinsMeans(c, d);
    assert 1 in Stuck(s) <==> Glued(s, 1);
    assert Cut(s, Stuck(s), 0) == [];
    assert Cut(s, Stuck(s), 1) == [[c]] && Grown([[c]], d) == [[c] + [d]];
    assert [c] + [d] == s && [[c]] + [[d]] == [[c], [d]];
  }

  // ----- numbers

  predicate Digit(c: char) { '0' <= c <= '9' }

  /** Digits and points. */
  predicate Figures(a: string) { a != "" && forall i :: 0 <= i < |a| ==> Digit(a[i]) || a[i] == '.' }

  predicate ExponentLetter(c: char) { c == 'e' || c == 'E' }

  predicate Sign(c: char) { c == '+' || c == '-' }

  lemma {:induction false} NoSymbolBefore(s: string, i: nat)
    requires i < |s| && forall j :: 0 <= j <= i ==> !IsSymbol(s[j])
    ensures Stretch(s, i) == 0
  {
    if i > 0 { NoSymbolBefore(s, i - 1); }
  }

  /** The one place of an exponent in a text with one `e` and one sign. */
  lemma OneExponent(a: string, e: char, g: char, b: string, i: nat)
    requires a != "" && b != "" && ExponentLetter(e) && Sign(g)
    requires forall j :: 0 <= j < |a| ==> NameChar(a[j]) && a[j] != '\''
    requires forall j :: 0 <= j < |b| ==> NameChar(b[j]) && b[j] != '\''
    ensures var s := a + [e, g] + b;
      ExponentShape(s, i) <==> i == |a| - 1 && (Digit(a[i]) || a[i] == '.') && Digit(b[0])
    ensures forall j :: 0 <= j <= |a| ==> !IsSymbol((a + [e, g] + b)[j])
  {
    var s, n := a + [e, g] + b, |a|;
    assert s[n] == e && s[n + 1] == g && s[n + 2] == b[0] && forall j :: 0 <= j < n ==> s[j] == a[j];
    assert forall j :: n + 2 <= j < |s| ==> s[j] == b[j - n - 2];
    if i + 2 < |s| && i + 2 != n + 1 { assert !Sign(s[i + 2]); }
  }

  /** A number keeps its signed exponent. */
  lemma SignedExponent(a: string, e: char, g: char, b: string)
    requires Figures(a) && ExponentLetter(e) && Sign(g) && Figures(b) && Digit(b[0])
    ensures Lex(a + [e, g] + b) == [a + [e, g] + b]
  {
    var s, n := a + [e, g] + b, |a|;
    OneExponent(a, e, g, b, n - 1);
    NoSymbolBefore(s, n - 1);
    assert s[0] == a[0] && !IsAlpha(s[0]);
    forall i: nat ensures Exponent(s, i) <==> i == n - 1 { OneExponent(a, e, g, b, i); }
    assert s[n] == e && s[n + 1] == g && forall j :: n + 2 <= j < |s| ==> s[j] == b[j - n - 2];
    assert Solid(s);
    forall j | 0 < j < |s| ensures Glued(s, j) {
      if j == n { assert Covers(s, j, 1); }
      if j == n + 1 { assert Covers(s, j, 2); }
      if j == n + 2 { assert Covers(s, j, 3); }
    }
    LexOrdinary(s);
    FlatSnoc([], s);
    assert [] + [s] == [s] && Flat([s]) == s;
  }

  /** A name that ends like a number does not: its sign is an operator. */
  lemma NamedExponent(a: string, e: char, g: char, b: string)
    requires a != "" && ExponentLetter(e) && Sign(g) && Figures(b)
    requires IsAlpha(a[0]) && forall j :: 0 <= j < |a| ==> NameChar(a[j]) && a[j] != '\''
    ensures Lex(a + [e, g] + b) == [a + [e], [g], b]
  {
    var s, n := a + [e, g] + b, |a|;
    var ws: seq<Word> := [a + [e], [g], b];
    ThreeFlat(a + [e], [g], b);
    assert Flat(ws) == s by { assert a + [e] + [g] + b == s; }
    OneExponent(a, e, g, b, n - 1);
    NoSymbolBefore(s, n - 1);
    assert s[0] == a[0];
    forall i: nat ensures !Exponent(s, i) { OneExponent(a, e, g, b, i); }
    NamedParts(a, e, g, b, s);
    LexIffSeparate(ws);
  }

  lemma ThreeFlat(a: Word, b: Word, c: Word)
    ensures Flat([a, b, c]) == a + b + c && At([a, b, c], 1) == |a| && At([a, b, c], 2) == |a| + |b|
  {
    FlatSnoc([], a);
    FlatSnoc([a], b);
    FlatSnoc([a, b], c);
    assert [] + [a] == [a] && [a] + [b] == [a, b] && [a, b] + [c] == [a, b, c];
    assert [a, b, c][..1] == [a] && [a, b, c][..2] == [a, b];
  }

  lemma NamedParts(a: string, e: char, g: char, b: string, s: string)
    requires a != "" && ExponentLetter(e) && Sign(g) && Figures(b) && s == a + [e, g] + b
    requires forall j :: 0 <= j < |a| ==> NameChar(a[j]) && a[j] != '\''
    requires Flat([a + [e], [g], b]) == s && forall i: nat :: !Exponent(s, i)
    ensures Solid(s) && AllAlone([a + [e], [g], b]) && NoneStick([a + [e], [g], b])
  {
    var ws: seq<Word>, n := [a + [e], [g], b], |a|;
    ThreeFlat(a + [e], [g], b);
    assert s[n] == e && s[n + 1] == g && forall j :: n + 2 <= j < |s| ==> s[j] == b[j - n - 2];
    assert !Glued(s, n + 1) && !Glued(s, n + 2);
    NameAlone(a + [e]);
    NameAlone(b);
  }

  lemma NameAlone(w: Word)
    requires forall j :: 0 <= j < |w| ==> NameChar(w[j]) && w[j] != '\''
    ensures Solid(w) && Alone(w)
  {
    forall j | 0 < j < |w| ensures Glued(w, j) {
      forall i: nat ensures !Exponent(w, i) {
        assert i + 2 < |w| ==> NameChar(w[i + 2]);
      }
    }
  }

  /** Four characters kept together do not start again inside. */
  lemma OverlappingExponent()
    ensures Lex("1e-5e-3") == ["1e-5e", "-", "3"]
  {
    var s := "1e-5e-3";
    OneKept(s);
    OneKept("1e-5e");
    ThreeFlat("1e-5e", "-", "3");
    assert "1e-5e" + "-" + "3" == s;
    KeptWord("1e-5e");
    KeptParts(s, ["1e-5e", "-", "3"]);
    LexIffSeparate(["1e-5e", "-", "3"]);
  }

  /** Beginning with a kept exponent, and `e` behind it. */
  predicate Overlapping(s: string) {
    && 5 <= |s| <= 7 && s[0] == '1' && s[1] == 'e' && s[2] == '-' && s[3] == '5' && s[4] == 'e'
    && (|s| > 5 ==> s[5] == '-') && (|s| > 6 ==> s[6] == '3')
  }

  lemma OneKept(s: string)
    requires Overlapping(s)
    ensures forall i: nat :: Exponent(s, i) <==> i == 0
  {
    assert Stretch(s, 0) == 0;
    assert Exponent(s, 0);
    forall i: nat | i > 0 ensures !Exponent(s, i) {}
  }

  lemma KeptWord(w: Word)
    requires Overlapping(w) && |w| == 5 && forall i: nat :: Exponent(w, i) <==> i == 0
    ensures Solid(w) && Alone(w)
  {
    assert Covers(w, 1, 1) && Covers(w, 2, 2) && Covers(w, 3, 3);
  }

  lemma KeptParts(s: string, ws: seq<Word>)
    requires Overlapping(s) && |s| == 7 && forall i: nat :: Exponent(s, i) <==> i == 0
    requires |ws| == 3 && |ws[1]| == |ws[2]| == 1 && At(ws, 1) == 5 && At(ws, 2) == 6 && Flat(ws) == s
    ensures Solid(s) && NoneStick(ws) && Alone(ws[1]) && Alone(ws[2])
  {
    assert !Glued(s, 5) && !Glued(s, 6);
  }

  // ----- square brackets

  /** Two square brackets in a row are taken together, from the left; one alone
      is an index. */
  lemma SquaresRead(cs: seq<Chunk>)
    ensures Reread([Left, Left] + cs) == ["SetOfAnything", "#{#"] + Reread(cs)
    ensures Reread([Right, Right] + cs) == ["#}#"] + Reread(cs)
    ensures cs == [] || cs[0] != Left ==> Reread([Left] + cs) == ["#E#", "#(#"] + Reread(cs)
    ensures cs == [] || cs[0] != Right ==> Reread([Right] + cs) == ["#)#"] + Reread(cs)
    ensures Reread([Gap] + cs) == Reread(cs)
  {
    assert ([Left, Left] + cs)[2..] == cs && ([Right, Right] + cs)[2..] == cs;
    assert ([Left] + cs)[1..] == cs && ([Right] + cs)[1..] == cs && ([Gap] + cs)[1..] == cs;
  }

  /** The square brackets written for a list literal, an index and themselves. */
  lemma SquaresWritten(b: seq<Bit>, w: Word)
    ensures w == "#{#" ==> Chunks(b + [Spell(w)]) == Chunks(b) + [Left, Left]
    ensures w == "#}#" ==> Chunks(b + [Spell(w)]) == Chunks(b) + [Right, Right]
    ensures w == "#E#" || w == "#(#" || w == "[" ==> Chunks(b + [Spell(w)]) == Chunks(b) + [Left]
    ensures w == "#)#" || w == "]" ==> Chunks(b + [Spell(w)]) == Chunks(b) + [Right]
  {
    ChunksSnoc(b, Spell(w));
    SquaresOf(w);
  }

  lemma SquaresOf(w: Word)
    ensures w == "#{#" ==> Squares(w) == [Left, Left] && !Quoted(w)
    ensures w == "#}#" ==> Squares(w) == [Right, Right] && !Quoted(w)
    ensures w == "#E#" || w == "#(#" || w == "[" ==> Squares(w) == [Left] && !Quoted(w)
    ensures w == "#)#" || w == "]" ==> Squares(w) == [Right] && !Quoted(w)
  {}
}

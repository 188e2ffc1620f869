/** How the filter cuts a stretch of text without blanks, quotes and square
    brackets into words. */
module Lexing {
  import opened SyntaxTree

  // ----- characters

  predicate IsAlpha(c: char) { 'a' <= c <= 'z' || 'A' <= c <= 'Z' }

  predicate IsDigit(c: char) { '0' <= c <= '9' }

  predicate IsIdentifier(c: char) {
    IsAlpha(c) || IsDigit(c) || c == '_' || c == '.' || c == '\'' || c == '\U{00F1}' || c == '\U{00D1}'
  }

  /** The characters of operators, separators and brackets, and the apostrophe. */
  predicate IsSymbol(c: char) {
    || c == '\'' || c == '(' || c == ')' || c == '{' || c == '}' || c == ';' || c == ',' || c == ':'
    || c == '-' || c == '!' || c == '+' || c == '*' || c == '/' || c == '%' || c == '^' || c == '&'
    || c == '|' || c == '<' || c == '=' || c == '>' || c == '\\' || c == '?' || c == '~' || c == '$'
  }

  predicate IsSolid(c: char) { IsIdentifier(c) || IsSymbol(c) }

  predicate Solid(s: string) { forall i :: 0 <= i < |s| ==> IsSolid(s[i]) }

  /** Two symbol characters that are one sign. */
  predicate Inseparable(c: char, d: char) {
    || (c == '&' && d == '&') || (c == '$' && d == '*') || (c == '$' && d == '/') || (c == '|' && d == '|')
    || (c == '-' && d == '>') || (c == '<' && d == ':') || (c == ':' && d == '>') || (c == '<' && d == '<')
    || (c == '>' && d == '>') || (c == '*' && d == '*') || (c == '!' && d == '=') || (c == ':' && d == '=')
    || (c == ':' && d == ':') || ((c == '=' || c == '<' || c == '>') && d == '=')
  }

  predicate Joins(c: char, d: char) {
    if IsIdentifier(c) then IsIdentifier(d) else Inseparable(c, d)
  }

  // ----- numbers with a signed exponent

  /** A digit or point, `e`, a sign and a digit. */
  predicate ExponentShape(s: string, i: nat) {
    && i + 3 < |s| && (IsDigit(s[i]) || s[i] == '.') && (s[i + 1] == 'e' || s[i + 1] == 'E')
    && (s[i + 2] == '+' || s[i + 2] == '-') && IsDigit(s[i + 3])
  }

  /** Where the stretch of characters that are no symbols begins. */
  function Stretch(s: string, i: nat): (k: nat)
    requires i < |s|
    ensures k <= i + 1
  {
    if IsSymbol(s[i]) then i + 1 else if i == 0 then 0 else Stretch(s, i - 1)
  }

  predicate InName(s: string, i: nat)
    requires i < |s|
  {
    Stretch(s, i) < |s| && IsAlpha(s[Stretch(s, i)])
  }

  /** The four characters from `i` on are kept together, unless the stretch
      they end is a name, or they overlap four kept before. */
  predicate Exponent(s: string, i: nat) {
    ExponentShape(s, i) && !InName(s, i) && !(i >= 3 && Exponent(s, i - 3))
  }

  /** `i` is the `d`th character after the start of four kept together. */
  predicate Covers(s: string, i: nat, d: nat) { i >= d && Exponent(s, i - d) }

  predicate InExponent(s: string, i: nat) { Covers(s, i, 1) || Covers(s, i, 2) || Covers(s, i, 3) }

  // ----- words

  /** No blank is put between the characters `i - 1` and `i`. */
  predicate Glued(s: string, i: nat)
    requires 0 < i < |s|
  {
    InExponent(s, i) || if Exponent(s, i) then !IsSymbol(s[i - 1]) else Joins(s[i - 1], s[i])
  }

  /** The last word takes one more character. */
  function Grown(ws: seq<Word>, c: char): (r: seq<Word>)
    requires ws != []
    ensures |r| == |ws| && forall k :: 0 <= k < |ws| ==> r[..k] == ws[..k]
  {
    ws[..|ws| - 1] + [ws[|ws| - 1] + [c]]
  }

  /** The words up to `n` when the characters in `stuck` stick to those before. */
  function Cut(s: string, stuck: set<nat>, n: nat): (ws: seq<Word>)
    requires n <= |s|
    ensures n > 0 ==> ws != []
  {
    if n == 0 then []
    else if n > 1 && n - 1 in stuck then Grown(Cut(s, stuck, n - 1), s[n - 1])
    else Cut(s, stuck, n - 1) + [[s[n - 1]]]
  }

  function Stuck(s: string): set<nat> { set i: nat | 0 < i < |s| && Glued(s, i) }

  /** The words of a stretch of text. */
  function Lex(s: string): seq<Word> { Cut(s, Stuck(s), |s|) }

  function Flat(ws: seq<Word>): string {
    if ws == [] then "" else Flat(ws[..|ws| - 1]) + ws[|ws| - 1]
  }

  // ----- cutting loses nothing

  lemma FlatSnoc(ws: seq<Word>, w: Word)
    ensures Flat(ws + [w]) == Flat(ws) + w
  {
    assert (ws + [w])[..|ws|] == ws;
  }

  lemma {:induction false} FlatConcat(a: seq<Word>, b: seq<Word>)
    ensures Flat(a + b) == Flat(a) + Flat(b)
    decreases |b|
  {
    if b == [] {
      assert a + b == a;
    } else {
      var n := |b| - 1;
      FlatConcat(a, b[..n]);
      FlatSnoc(a + b[..n], b[n]);
      assert a + b == (a + b[..n]) + [b[n]];
    }
  }

  lemma GrownFlat(ws: seq<Word>, c: char)
    requires ws != []
    ensures Flat(Grown(ws, c)) == Flat(ws) + [c]
  {
    var m := |ws| - 1;
    FlatSnoc(ws[..m], ws[m]);
    FlatSnoc(ws[..m], ws[m] + [c]);
    assert ws[..m] + [ws[m]] == ws;
  }

  lemma {:induction false} CutFlat(s: string, stuck: set<nat>, n: nat)
    requires n <= |s|
    ensures Flat(Cut(s, stuck, n)) == s[..n]
  {
    if n > 0 {
      CutFlat(s, stuck, n - 1);
      var ws := Cut(s, stuck, n - 1);
      assert s[..n - 1] + [s[n - 1]] == s[..n];
      FlatSnoc(ws, [s[n - 1]]);
      if ws != [] { GrownFlat(ws, s[n - 1]); }
    }
  }

  /** The words hold all the characters, in order. */
  lemma LexFlat(s: string)
    ensures Flat(Lex(s)) == s
  {
    CutFlat(s, Stuck(s), |s|);
  }

  // ----- the words are cut exactly where characters do not stick together

  lemma {:induction false} FlatPrefix(ws: seq<Word>, k: nat, m: nat)
    requires k <= m <= |ws|
    ensures |Flat(ws[..k])| + (m - k) <= |Flat(ws[..m])|
    ensures Flat(ws[..k]) <= Flat(ws[..m])
    decreases m
  {
    if k < m {
      FlatPrefix(ws, k, m - 1);
      assert ws[..m] == ws[..m - 1] + [ws[m - 1]];
      FlatSnoc(ws[..m - 1], ws[m - 1]);
    }
  }

  /** Where word `k` of several side by side begins. */
  function At(ws: seq<Word>, k: nat): nat
    requires k <= |ws|
  {
    |Flat(ws[..k])|
  }

  predicate Unstuck(stuck: set<nat>, ws: seq<Word>) { forall k :: 0 < k < |ws| ==> At(ws, k) !in stuck }

  /** No word sticks to the one before it. */
  predicate NoneStick(ws: seq<Word>) { Unstuck(Stuck(Flat(ws)), ws) }

  lemma {:induction false} CutsOutside(s: string, stuck: set<nat>, n: nat, k: nat)
    requires n <= |s| && 0 < k < |Cut(s, stuck, n)|
    ensures At(Cut(s, stuck, n), k) !in stuck
  {
    var ws, us := Cut(s, stuck, n), Cut(s, stuck, n - 1);
    if n > 1 && n - 1 in stuck {
      assert ws[..k] == us[..k];
      CutsOutside(s, stuck, n - 1, k);
    } else if k < |us| {
      assert ws[..k] == us[..k];
      CutsOutside(s, stuck, n - 1, k);
    } else {
      assert ws[..k] == us;
      CutFlat(s, stuck, n - 1);
    }
  }

  /** `s[a..b]` sticks to nothing around it. */
  predicate Piece(s: string, a: nat, b: nat) { a < b <= |s| && Solid(s) && a !in Stuck(s) && b !in Stuck(s) }

  /** Neither a name nor four characters kept together run over a cut. */
  ghost predicate Loose(s: string, a: nat, b: nat) {
    && a < b <= |s|
    && (a > 0 ==> IsSymbol(s[a - 1]) || IsSymbol(s[a]))
    && forall i: nat :: Exponent(s, i) ==> !(i < a <= i + 3) && !(i < b <= i + 3)
  }

  lemma NoExponentAcross(s: string, a: nat, i: nat)
    requires a !in Stuck(s) && Exponent(s, i)
    ensures !(i < a <= i + 3)
  {
    if i < a <= i + 3 {
      assert i + 3 < |s| && Covers(s, a, a - i);
    }
  }

  lemma SymbolAtCut(s: string, a: nat)
    requires Solid(s) && 0 < a < |s| && a !in Stuck(s)
    ensures IsSymbol(s[a - 1]) || IsSymbol(s[a])
  {
    assert IsSolid(s[a]) && IsSolid(s[a - 1]) && !Glued(s, a);
  }

  lemma PieceIsLoose(s: string, a: nat, b: nat)
    requires Piece(s, a, b)
    ensures Loose(s, a, b)
  {
    if a > 0 { SymbolAtCut(s, a); }
    forall i: nat | Exponent(s, i) ensures !(i < a <= i + 3) && !(i < b <= i + 3) {
      NoExponentAcross(s, a, i);
      NoExponentAcross(s, b, i);
    }
  }

  lemma {:induction false} StretchInside(s: string, a: nat, b: nat, i: nat)
    requires Loose(s, a, b) && i < b - a
    ensures Stretch(s, a + i) == a + Stretch(s[a..b], i)
  {
    var w := s[a..b];
    assert w[i] == s[a + i];
    if !IsSymbol(w[i]) && i > 0 {
      StretchInside(s, a, b, i - 1);
    }
  }

  lemma ShapeInside(s: string, a: nat, b: nat, i: nat)
    requires Loose(s, a, b) && i + 3 < b - a
    ensures ExponentShape(s, a + i) == ExponentShape(s[a..b], i)
    ensures ExponentShape(s, a + i) ==> InName(s, a + i) == InName(s[a..b], i)
  {
    var w := s[a..b];
    assert w[i] == s[a + i] && w[i + 1] == s[a + i + 1] && w[i + 2] == s[a + i + 2] && w[i + 3] == s[a + i + 3];
    if ExponentShape(w, i) {
      StretchInside(s, a, b, i);
      assert !IsSymbol(w[i]);
    }
  }

  lemma {:induction false} ExponentInside(s: string, a: nat, b: nat, i: nat)
    requires Loose(s, a, b) && i < b - a
    ensures Exponent(s, a + i) <==> Exponent(s[a..b], i)
    decreases i
  {
    if i + 3 < b - a {
      ShapeInside(s, a, b, i);
      if i >= 3 { ExponentInside(s, a, b, i - 3); }
    }
  }

  lemma CoversInside(s: string, a: nat, b: nat, j: nat, d: nat)
    requires Loose(s, a, b) && j < b - a && 1 <= d <= 3
    ensures Covers(s, a + j, d) <==> Covers(s[a..b], j, d)
  {
    if j >= d { ExponentInside(s, a, b, j - d); }
  }

  /** Between two cuts the surroundings make no difference. */
  lemma GluedInside(s: string, a: nat, b: nat, j: nat)
    requires Piece(s, a, b) && 0 < j < b - a
    ensures Glued(s, a + j) <==> Glued(s[a..b], j)
  {
    PieceIsLoose(s, a, b);
    CoversInside(s, a, b, j, 1);
    CoversInside(s, a, b, j, 2);
    CoversInside(s, a, b, j, 3);
    ExponentInside(s, a, b, j);
  }

  // ----- side by side and apart

  /** Nothing inside the word is cut. */
  predicate Alone(w: Word) { forall j :: 0 < j < |w| ==> Glued(w, j) }

  lemma {:induction false} CutWord(s: string, stuck: set<nat>, a: nat, j: nat)
    requires 0 < j && a + j <= |s| && a !in stuck
    requires Sticks(stuck, a, a + j)
    ensures Cut(s, stuck, a + j) == Cut(s, stuck, a) + [s[a..a + j]]
  {
    if j == 1 {
      assert s[a..a + 1] == [s[a]];
    } else {
      CutWord(s, stuck, a, j - 1);
      assert a + j - 1 in stuck;
      assert s[a..a + j] == s[a..a + j - 1] + [s[a + j - 1]];
    }
  }

  lemma WordAt(ws: seq<Word>, k: nat)
    requires k < |ws|
    ensures At(ws, k + 1) == At(ws, k) + |ws[k]| <= |Flat(ws)|
    ensures Flat(ws)[At(ws, k)..At(ws, k + 1)] == ws[k]
  {
    assert ws[..k + 1] == ws[..k] + [ws[k]];
    FlatSnoc(ws[..k], ws[k]);
    assert ws[..|ws|] == ws;
    FlatPrefix(ws, k + 1, |ws|);
    assert Flat(ws)[..At(ws, k + 1)] == Flat(ws[..k]) + ws[k];
  }

  /** All characters from `a` to `b` stick to those before. */
  predicate Sticks(stuck: set<nat>, a: nat, b: nat) { forall i: nat :: a < i < b ==> i in stuck }

  /** The characters in `stuck` are just those inside the words. */
  predicate CutsInto(stuck: set<nat>, ws: seq<Word>) {
    ws == [] ||
    var us, a := ws[..|ws| - 1], At(ws, |ws| - 1);
    CutsInto(stuck, us) && a !in stuck && Sticks(stuck, a, a + |ws[|ws| - 1]|)
  }

  lemma PrefixPart(s: string, t: string, w: string)
    requires t + w <= s
    ensures |t| + |w| <= |s| && s[|t|..|t| + |w|] == w && t <= s
  {
    assert s[..|t + w|] == t + w;
    assert s[|t|..|t| + |w|] == s[..|t + w|][|t|..];
  }

  lemma {:induction false} CutWords(s: string, stuck: set<nat>, ws: seq<Word>, t: string)
    requires CutsInto(stuck, ws) && t == Flat(ws) && t <= s
    ensures Cut(s, stuck, |t|) == ws
  {
    if ws != [] {
      var us, w := ws[..|ws| - 1], ws[|ws| - 1];
      var r := Flat(us);
      PrefixPart(s, r, w);
      CutWords(s, stuck, us, r);
      CutWord(s, stuck, |r|, |w|);
      assert ws == us + [w];
    }
  }

  predicate AllAlone(ws: seq<Word>) { forall k :: 0 <= k < |ws| ==> Alone(ws[k]) }

  lemma StuckMeans(s: string, i: nat)
    requires 0 < i < |s|
    ensures i in Stuck(s) <==> Glued(s, i)
  {}

  lemma PieceAlone(s: string, stuck: set<nat>, a: nat, b: nat, w: Word)
    requires Piece(s, a, b) && stuck == Stuck(s) && w == s[a..b]
    ensures Alone(w) <==> Sticks(stuck, a, b)
  {
    forall j: nat | 0 < j < |w| ensures a + j in stuck <==> Glued(w, j) {
      GluedInside(s, a, b, j);
      StuckMeans(s, a + j);
    }
    SticksByOffset(stuck, a, b, w);
  }

  lemma SticksByOffset(stuck: set<nat>, a: nat, b: nat, w: Word)
    requires b == a + |w| && forall j: nat :: 0 < j < |w| ==> (a + j in stuck <==> Glued(w, j))
    ensures Alone(w) <==> Sticks(stuck, a, b)
  {
    if Alone(w) {
      forall i: nat | a < i < b ensures i in stuck {
        assert Glued(w, i - a) && a + (i - a) == i;
      }
    }
    if Sticks(stuck, a, b) {
      forall j | 0 < j < |w| ensures Glued(w, j) {
        assert a + j in stuck;
      }
    }
  }

  lemma WordEnds(stuck: set<nat>, ws: seq<Word>, k: nat)
    requires Unstuck(stuck, ws) && k < |ws| && 0 !in stuck && |Flat(ws)| !in stuck
    ensures At(ws, k) !in stuck && At(ws, k) + |ws[k]| !in stuck
  {
    WordAt(ws, k);
    assert ws[..|ws|] == ws;
  }

  /** A word among words that do not stick together is alone just if it is
      not cut there. */
  lemma WordAlone(s: string, stuck: set<nat>, ws: seq<Word>, k: nat)
    requires stuck == Stuck(s) && Flat(ws) == s && Solid(s) && Unstuck(stuck, ws) && k < |ws|
    ensures Alone(ws[k]) <==> Sticks(stuck, At(ws, k), At(ws, k) + |ws[k]|)
    ensures Solid(ws[k])
  {
    var a, w := At(ws, k), ws[k];
    WordEnds(stuck, ws, k);
    WordAt(ws, k);
    PieceAlone(s, stuck, a, a + |w|, w);
    PieceSolid(s, a, a + |w|);
  }

  lemma PieceSolid(s: string, a: nat, b: nat)
    requires Solid(s) && a <= b <= |s|
    ensures Solid(s[a..b])
  {
    forall i | 0 <= i < b - a ensures IsSolid(s[a..b][i]) {
      assert s[a..b][i] == s[a + i];
    }
  }

  lemma {:induction false} SeparateCuts(stuck: set<nat>, ws: seq<Word>, k: nat)
    requires Unstuck(stuck, ws) && 0 !in stuck && k <= |ws|
    requires forall i :: 0 <= i < |ws| ==> Sticks(stuck, At(ws, i), At(ws, i) + |ws[i]|)
    ensures CutsInto(stuck, ws[..k])
  {
    if k > 0 {
      SeparateCuts(stuck, ws, k - 1);
      assert At(ws, 0) == 0;
      CutsIntoSnoc(stuck, ws, k - 1);
    }
  }

  lemma CutsIntoSnoc(stuck: set<nat>, ws: seq<Word>, k: nat)
    requires k < |ws| && CutsInto(stuck, ws[..k]) && At(ws, k) !in stuck
    requires Sticks(stuck, At(ws, k), At(ws, k) + |ws[k]|)
    ensures CutsInto(stuck, ws[..k + 1])
  {
    var us := ws[..k + 1];
    assert us[..k] == ws[..k] && At(us, k) == At(ws, k);
  }

  lemma CutBack(s: string, stuck: set<nat>, ws: seq<Word>)
    requires Unstuck(stuck, ws) && 0 !in stuck && Flat(ws) == s
    requires forall i :: 0 <= i < |ws| ==> Sticks(stuck, At(ws, i), At(ws, i) + |ws[i]|)
    ensures Cut(s, stuck, |s|) == ws
  {
    SeparateCuts(stuck, ws, |ws|);
    assert ws[..|ws|] == ws;
    CutWords(s, stuck, ws, s);
  }

  /** Words that stand alone come back from the text they make exactly when
      none sticks to the one before it. */
  lemma LexIffSeparate(ws: seq<Word>)
    requires AllAlone(ws) && Solid(Flat(ws))
    ensures Lex(Flat(ws)) == ws <==> NoneStick(ws)
  {
    var s := Flat(ws);
    if NoneStick(ws) {
      forall k | 0 <= k < |ws| ensures Sticks(Stuck(s), At(ws, k), At(ws, k) + |ws[k]|) {
        WordAlone(s, Stuck(s), ws, k);
      }
      CutBack(s, Stuck(s), ws);
    }
    if Lex(s) == ws { LexSeparate(s); }
  }

  lemma LexSeparate(s: string)
    ensures NoneStick(Lex(s))
  {
    LexFlat(s);
    forall k | 0 < k < |Lex(s)| ensures At(Lex(s), k) !in Stuck(s) {
      CutsOutside(s, Stuck(s), |s|, k);
    }
  }

  lemma {:induction false} CutInside(s: string, stuck: set<nat>, n: nat, k: nat)
    requires n <= |s| && k < |Cut(s, stuck, n)|
    ensures var ws := Cut(s, stuck, n); Sticks(stuck, At(ws, k), At(ws, k) + |ws[k]|)
  {
    var ws, us := Cut(s, stuck, n), Cut(s, stuck, n - 1);
    if n > 1 && n - 1 in stuck {
      assert ws[..k] == us[..k];
      CutInside(s, stuck, n - 1, k);
      if k == |us| - 1 {
        CutFlat(s, stuck, n - 1);
        WordAt(us, k);
        assert us[..k + 1] == us;
      }
    } else if k < |us| {
      assert ws[..k] == us[..k];
      CutInside(s, stuck, n - 1, k);
    }
  }

  /** Every word cut from a text stands alone. */
  lemma LexAlone(s: string)
    requires Solid(s)
    ensures AllAlone(Lex(s)) && forall k :: 0 <= k < |Lex(s)| ==> Solid(Lex(s)[k])
  {
    var ws := Lex(s);
    LexFlat(s);
    LexSeparate(s);
    forall k | 0 <= k < |ws| ensures Alone(ws[k]) && Solid(ws[k]) {
      CutInside(s, Stuck(s), |s|, k);
      WordAlone(s, Stuck(s), ws, k);
    }
  }

  /** Brackets, separators and `^` stick to nothing. */
  predicate IsLoner(c: char) {
    c == '(' || c == ')' || c == '{' || c == '}' || c == ';' || c == ',' || c == '^'
  }

  lemma LonerSeparates(s: string, i: nat)
    requires i < |s| && IsLoner(s[i])
    ensures i > 0 ==> !Glued(s, i)
    ensures i + 1 < |s| ==> !Glued(s, i + 1)
  {
    assert !Covers(s, i, 1) && !Covers(s, i, 2) && !Covers(s, i, 3);
    assert !Covers(s, i + 1, 1) && !Covers(s, i + 1, 2) && !Covers(s, i + 1, 3);
  }

  // ----- the filter's loop

  lemma CutStep(s: string, n: nat)
    requires n < |s|
    ensures n > 0 && Glued(s, n) ==> Cut(s, Stuck(s), n + 1) == Grown(Cut(s, Stuck(s), n), s[n])
    ensures n == 0 || !Glued(s, n) ==> Cut(s, Stuck(s), n + 1) == Cut(s, Stuck(s), n) + [[s[n]]]
  {
    assert n > 0 ==> (n in Stuck(s) <==> Glued(s, n));
  }

  /** Four characters kept together do not overlap the next ones. */
  lemma ExponentEnds(s: string, pos: nat)
    requires Exponent(s, pos) && !InExponent(s, pos)
    ensures InExponent(s, pos + 1) && InExponent(s, pos + 2) && InExponent(s, pos + 3) && !InExponent(s, pos + 4)
  {
    assert Covers(s, pos + 1, 1) && Covers(s, pos + 2, 2) && Covers(s, pos + 3, 3);
    assert !Exponent(s, pos + 3) && !Exponent(s, pos + 2) && !Exponent(s, pos + 1);
  }

  lemma NoExponentHere(s: string, pos: nat)
    requires !Exponent(s, pos) && !InExponent(s, pos)
    ensures !InExponent(s, pos + 1)
  {}

  /** The walk back to the beginning of the stretch that ends at `pos`. */
  method StretchBack(s: string, pos: nat) returns (k: nat)
    requires pos < |s|
    ensures k == Stretch(s, pos)
  {
    var i: int := pos;
    while i >= 0 && !IsSymbol(s[i])
      invariant -1 <= i <= pos
      invariant if i >= 0 then Stretch(s, i) == Stretch(s, pos) else Stretch(s, pos) == 0
    {
      i := i - 1;
    }
    k := i + 1;
  }

  /** One character, behind a blank unless it sticks to the last one. */
  function AddNewChar(ws: seq<Word>, c: char): (r: seq<Word>)
    ensures r != []
  {
    if ws == [] then [[c]]
    else
      var w := ws[|ws| - 1];
      if Joins(w[|w| - 1], c) then Grown(ws, c) else ws + [[c]]
  }

  lemma {:induction false} LastChar(s: string, stuck: set<nat>, n: nat)
    requires 0 < n <= |s|
    ensures var ws := Cut(s, stuck, n); var w := ws[|ws| - 1]; w[|w| - 1] == s[n - 1]
  {}

  /** A character, behind a blank unless the last one is no symbol. */
  function AddDigit(ws: seq<Word>, last: char, c: char): (r: seq<Word>)
    ensures r != []
  {
    if ws == [] || IsSymbol(last) then ws + [[c]] else Grown(ws, c)
  }

  lemma CutOne(s: string, pos: nat)
    requires pos < |s| && !Exponent(s, pos) && !InExponent(s, pos)
    ensures Cut(s, Stuck(s), pos + 1) == AddNewChar(Cut(s, Stuck(s), pos), s[pos])
    ensures !InExponent(s, pos + 1)
  {
    NoExponentHere(s, pos);
    CutStep(s, pos);
    if pos > 0 { LastChar(s, Stuck(s), pos); }
  }

  lemma CutFour(s: string, pos: nat)
    requires Exponent(s, pos) && !InExponent(s, pos)
    ensures !InExponent(s, pos + 4) && pos + 4 <= |s|
    ensures var ws := AddDigit(Cut(s, Stuck(s), pos), if pos > 0 then s[pos - 1] else ' ', s[pos]);
            Cut(s, Stuck(s), pos + 4) == Grown(Grown(Grown(ws, s[pos + 1]), s[pos + 2]), s[pos + 3])
  {
    ExponentEnds(s, pos);
    CutStep(s, pos);
    CutStep(s, pos + 1);
    CutStep(s, pos + 2);
    CutStep(s, pos + 3);
  }

  /** The filter's loop over a stretch of text. */
  method Clean(s: string) returns (ws: seq<Word>)
    ensures ws == Lex(s)
  {
    ws := [];
    var pos := 0;
    while pos < |s|
      invariant pos <= |s| && ws == Cut(s, Stuck(s), pos) && !InExponent(s, pos)
    {
      var kept := false;
      if ExponentShape(s, pos) {
        var k := StretchBack(s, pos);
        assert !IsSymbol(s[pos]);
        kept := !IsAlpha(s[k]);
      }
      assert kept <==> Exponent(s, pos);
      if kept {
        CutFour(s, pos);
        ws := AddDigit(ws, if pos > 0 then s[pos - 1] else ' ', s[pos]);
        ws := Grown(Grown(Grown(ws, s[pos + 1]), s[pos + 2]), s[pos + 3]);
        pos := pos + 4;
      } else {
        CutOne(s, pos);
        ws := AddNewChar(ws, s[pos]);
        pos := pos + 1;
      }
    }
  }
}

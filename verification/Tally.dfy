/** Counting words and characters: what printing and rereading must preserve. */
module Tally {
  import opened SyntaxTree
  import opened Lexing

  // ----- words

  function Count(ws: seq<Word>, w: Word): nat { multiset(ws)[w] }

  lemma CountConcat(a: seq<Word>, b: seq<Word>, w: Word)
    ensures Count(a + b, w) == Count(a, w) + Count(b, w)
  {}

  lemma CountSnoc(ws: seq<Word>, w: Word, v: Word)
    ensures Count(ws + [w], v) == Count(ws, v) + if v == w then 1 else 0
  {}

  lemma CountOne(v: Word, w: Word)
    ensures Count([v], w) == if v == w then 1 else 0
  {}

  // ----- characters

  /** What is counted: two letters that no renaming touches, and a weight that
      no renaming adds to and that each renaming but that of separators lowers. */
  datatype Measure = CapitalE | SmallY | Weight

  function Rate(m: Measure, c: char): nat {
    match m
    case CapitalE => if c == 'E' then 1 else 0
    case SmallY => if c == 'y' then 1 else 0
    case Weight =>
      if c == '[' || c == ']' || c == '{' || c == '}' then 2
      else if c == '!' || c == '*' || c == 'P' || c == 'Q' || c == 'r' || c == '#' || c == '(' || c == ')' then 1
      else 0
  }

  function Sum(m: Measure, s: string): nat {
    if s == "" then 0 else Sum(m, s[..|s| - 1]) + Rate(m, s[|s| - 1])
  }

  lemma SumSnoc(m: Measure, s: string, c: char)
    ensures Sum(m, s + [c]) == Sum(m, s) + Rate(m, c)
  {
    assert (s + [c])[..|s|] == s;
  }

  lemma {:induction false} SumConcat(m: Measure, s: string, t: string)
    ensures Sum(m, s + t) == Sum(m, s) + Sum(m, t)
    decreases |t|
  {
    if t == "" {
      assert s + t == s;
    } else {
      var n := |t| - 1;
      SumConcat(m, s, t[..n]);
      SumSnoc(m, s + t[..n], t[n]);
      assert s + t == (s + t[..n]) + [t[n]];
    }
  }

  function Load(m: Measure, ws: seq<Word>): nat { Sum(m, Flat(ws)) }

  lemma LoadConcat(m: Measure, a: seq<Word>, b: seq<Word>)
    ensures Load(m, a + b) == Load(m, a) + Load(m, b)
  {
    FlatConcat(a, b);
    SumConcat(m, Flat(a), Flat(b));
  }

  lemma LoadOne(m: Measure, w: Word)
    ensures Load(m, [w]) == Sum(m, w)
  {
    FlatSnoc([], w);
    assert [] + [w] == [w] && Flat([]) + w == w;
  }

  lemma LoadSnoc(m: Measure, ws: seq<Word>, w: Word)
    ensures Load(m, ws + [w]) == Load(m, ws) + Sum(m, w)
  {
    LoadConcat(m, ws, [w]);
    LoadOne(m, w);
  }

  lemma SumOne(m: Measure, c: char)
    ensures Sum(m, [c]) == Rate(m, c)
  {
    SumSnoc(m, "", c);
    assert "" + [c] == [c];
  }

  lemma SumTwo(m: Measure, a: char, b: char)
    ensures Sum(m, [a, b]) == Rate(m, a) + Rate(m, b)
  {
    SumOne(m, a);
    SumSnoc(m, [a], b);
    assert [a] + [b] == [a, b];
  }

  lemma SumThree(m: Measure, a: char, b: char, c: char)
    ensures Sum(m, [a, b, c]) == Rate(m, a) + Rate(m, b) + Rate(m, c)
  {
    SumTwo(m, a, b);
    SumSnoc(m, [a, b], c);
    assert [a, b] + [c] == [a, b, c];
  }
}

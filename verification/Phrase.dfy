/** The language the parser accepts, and the meaning it gives to a phrase:
    items, the words they are written with, and their syntax tree. */
module Phrase {
  import opened Options
  import opened SyntaxTree
  import opened Precedence
  import opened Level

  /** A group with a head is a call: `f(a, b)`. */
  datatype Item =
    | Prefix(word: Word)
    | Infix(word: Word)
    | Separate(word: Word)
    | Argument(word: Word)
    | Group(head: Option<Word>, br: Bracket, body: seq<Item>)

  // ----- words

  /** A quoted text is an argument whatever it contains. */
  function Lookup(tab: Table, w: Word): Option<Symbol> {
    if w[0] != '\"' && w in tab then Some(tab[w]) else None
  }

  /** The letters that may start an identifier, and `@` for user types. */
  predicate StartIdentifier(w: Word) {
    var c := w[0];
    'a' <= c <= 'z' || 'A' <= c <= 'Z' || c == '_' || c == '\U{00F1}' || c == '\U{00D1}' || c == '@'
  }

  /** Words outside the table are arguments; those starting with `@` name user
      types, of which there are none here. */
  predicate IsArgument(tab: Table, w: Word) { Lookup(tab, w).None? && w[0] != '@' }

  predicate IsPrefixWord(tab: Table, w: Word) {
    match Lookup(tab, w)
    case Some(Type) => true
    case Some(Monary(_)) => true
    case _ => false
  }

  predicate IsTypeWord(tab: Table, w: Word) { Lookup(tab, w) == Some(Type) }

  predicate IsInfixWord(tab: Table, w: Word) {
    match Lookup(tab, w)
    case Some(Binary(_)) => true
    case Some(Monary(Some(_))) => true
    case _ => false
  }

  predicate IsSeparatorWord(tab: Table, w: Word) {
    match Lookup(tab, w)
    case Some(Separator(_)) => true
    case _ => false
  }

  /** What the scanner's table guarantees. */
  predicate ValidTable(tab: Table) {
    && (forall b :: Lookup(tab, OpenName(b)) == Some(Open(b)) && Lookup(tab, CloseName(b)) == Some(Close(b)))
    && (forall w :: w in tab ==>
          match tab[w]
          case Open(b) => w == OpenName(b)
          case Close(b) => w == CloseName(b)
          case Separator(p) => p < 3
          case Binary(p) => 3 <= p <= MAX_PRECEDENCE
          case Monary(Some(p)) => 3 <= p <= MAX_PRECEDENCE
          case _ => true)
  }

  // ----- tokens, with the renamings the parser makes

  function PrefixToken(tab: Table, w: Word): Token
    requires IsPrefixWord(tab, w)
  {
    match Lookup(tab, w).value
    case Type => Token(w, TYPE, 9, None)
    case Monary(twin) =>
      var name: Word := if w == "!" then "Not" else w;
      if twin.Some? then Token(" " + name + " ", MONARY, twin.value, None)
      else Token(name, MONARY, if name == "Static" then 1 else 20, None)
  }

  function InfixToken(tab: Table, w: Word): Token
    requires IsInfixWord(tab, w)
  {
    match Lookup(tab, w).value
    case Binary(p) => Token(if w == "**" then "^" else w, BINARY, p, None)
    case Monary(twin) =>
      Token(if w == "!" then "Not" else if w == "**" then "^" else w, BINARY, twin.value, None)
  }

  function SeparatorToken(tab: Table, w: Word): Token
    requires IsSeparatorWord(tab, w)
  {
    Token(w, SEPARATOR, Lookup(tab, w).value.prec, None)
  }

  function ArgumentToken(w: Word): Token { Token(w, ARGUMENT, MAX_PRECEDENCE, None) }

  function FunctionName(w: Word): Word {
    if w == "EQ" then "Eq" else if w == "Sqrt" then "SqRt" else if w == "Pow" then "^" else w
  }

  function FunctionToken(w: Word): Token { Token(FunctionName(w), FUNCTION, MAX_PRECEDENCE, None) }

  // ----- phrases

  /** An item that completes an operand. */
  predicate Ends(x: Item) { x.Argument? || x.Group? }

  predicate StartsOperand(x: Item) { x.Prefix? || Ends(x) }

  /** A brace group without a head, alone at its level. */
  predicate BraceAlone(items: seq<Item>) {
    |items| == 1 && items[0].Group? && items[0].head == None && items[0].br == Brace
  }

  predicate ItemOk(tab: Table, x: Item)
    decreases x, 0
  {
    match x
    case Prefix(w) => IsPrefixWord(tab, w)
    case Infix(w) => IsInfixWord(tab, w)
    case Separate(w) => IsSeparatorWord(tab, w)
    case Argument(w) => IsArgument(tab, w)
    case Group(head, br, body) =>
      && (head.Some? ==> IsArgument(tab, head.value) && StartIdentifier(head.value))
      && WellFormed(tab, body)
      && (br == Brace || !BraceAlone(body))
  }

  /** Operands stand exactly where they are due, so operators and operands
      alternate; the phrase need not be finished. */
  predicate WellFormedSoFar(tab: Table, items: seq<Item>)
    decreases items, 0
  {
    && (forall i :: 0 <= i < |items| ==> ItemOk(tab, items[i]))
    && (|items| > 0 ==> StartsOperand(items[0]))
    && (forall i :: 0 < i < |items| ==> (StartsOperand(items[i]) <==> !Ends(items[i - 1])))
  }

  predicate WellFormed(tab: Table, items: seq<Item>)
    decreases items, 1
  {
    WellFormedSoFar(tab, items) && |items| > 0 && Ends(items[|items| - 1])
  }

  function Words(x: Item): seq<Word> {
    match x
    case Group(head, br, body) =>
      (if head.Some? then [head.value] else []) + [OpenName(br)] + Yield(body) + [CloseName(br)]
    case _ => [x.word]
  }

  function Yield(items: seq<Item>): seq<Word> {
    if items == [] then [] else Words(items[0]) + Yield(items[1..])
  }

  // ----- the tree of a phrase

  /** A closed group: the root remembers its bracket; a head takes the place of
      an outermost separator, or goes on top; the root then binds tightest. */
  function Closed(t: Sexp, br: Bracket): Sexp
    requires Rooted(t)
  {
    SetRoot(t, t.car.tok.(close := Some(br)))
  }

  function Headed(t: Sexp, head: Option<Word>): (r: Sexp)
    requires Rooted(t)
    ensures Rooted(r)
  {
    var h := match head
      case None => t
      case Some(f) =>
        if t.car.tok.kind == SEPARATOR then SetRoot(t, FunctionToken(f)) else Mon(FunctionToken(f), t);
    SetRoot(h, h.car.tok.(precedence := MAX_PRECEDENCE))
  }

  function PieceOf(tab: Table, x: Item): Piece
    requires ItemOk(tab, x)
    decreases x, 0
  {
    match x
    case Prefix(w) => Op(Pre(PrefixToken(tab, w)))
    case Infix(w) => Op(Inf(InfixToken(tab, w)))
    case Separate(w) => Sep(SeparatorToken(tab, w))
    case Argument(w) => Op(Operand(Leaf(ArgumentToken(w))))
    case Group(head, br, body) =>
      assert WellFormed(tab, body);
      var t := PhraseTree(tab, body);
      if Rooted(t) then Op(Operand(Headed(Closed(t, br), head))) else Op(Operand(Nil))
  }

  function Pieces(tab: Table, items: seq<Item>): (ps: seq<Piece>)
    requires WellFormedSoFar(tab, items)
    ensures |ps| == |items|
    decreases items, 0
  {
    if items == [] then [] else
      var n := |items| - 1;
      assert items[n] in items;
      Pieces(tab, items[..n]) + [PieceOf(tab, items[n])]
  }

  function PhraseTree(tab: Table, items: seq<Item>): Sexp
    requires WellFormedSoFar(tab, items)
    decreases items, 1
  {
    LevelTree(Pieces(tab, items))
  }

  // ----- phrases and levels agree

  /** A finished phrase has a complete tree: no open slot, a token at its root. */
  lemma {:induction false} PhraseSound(tab: Table, items: seq<Item>)
    requires ValidTable(tab) && WellFormedSoFar(tab, items)
    ensures Sound(Pieces(tab, items))
    ensures Complete(Pieces(tab, items)) <==> |items| > 0 && Ends(items[|items| - 1])
    ensures WellFormed(tab, items) ==>
              Rooted(PhraseTree(tab, items)) && !HasHole(PhraseTree(tab, items)) && Slots(PhraseTree(tab, items)) == 0
    decreases items, 1
  {
    if items != [] {
      var n := |items| - 1;
      PhraseSound(tab, items[..n]);
      PieceSound(tab, items[n]);
      SoundSnoc(Pieces(tab, items[..n]), PieceOf(tab, items[n]));
    }
    LevelSlots(Pieces(tab, items));
  }

  lemma {:induction false} PieceSound(tab: Table, x: Item)
    requires ValidTable(tab) && ItemOk(tab, x)
    ensures PieceOk(PieceOf(tab, x))
    ensures Follows(PieceOf(tab, x)) <==> !StartsOperand(x)
    ensures PieceOf(tab, x).Op? && PieceOf(tab, x).e.Operand? <==> Ends(x)
    decreases x, 0
  {
    match x
    case Group(head, br, body) =>
      PhraseSound(tab, body);
      GroupOperand(PhraseTree(tab, body), br, head);
    case _ =>
  }

  lemma GroupOperand(t: Sexp, br: Bracket, head: Option<Word>)
    requires Rooted(t) && !HasHole(t) && Slots(t) == 0
    ensures OperandOk(Headed(Closed(t, br), head))
  {
    var c := Closed(t, br);
    assert HasHole(c) == HasHole(t) && Slots(c) == Slots(t);
    if head.Some? && c.car.tok.kind != SEPARATOR {
      NodeSlot(FunctionToken(head.value), Nil, c, Nil);
      NodeSlots(FunctionToken(head.value), Nil, c);
    }
  }
}

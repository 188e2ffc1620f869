/** The parser object: it reads words and rewires the cells of the tree under
    construction.  Each step is proved to do to the tree's value what the
    function of the same step in `Machine` does. */
module Parser {
  import opened Options
  import opened SyntaxTree
  import opened Phrase
  import opened Machine
  import opened SaneTree
  import opened ConsTree

  datatype Message =
    | UnexpectedEnd
    | UnexpectedOpen
    | UnexpectedClose
    | InvalidSequence
    | UnexpectedType
    | UnexpectedMonary
    | UnexpectedBinary
    | ArgumentExpected
    | UnexpectedSeparator
    | UnexpectedSymbol
    | UnexpectedArgument
    | CloseExpected

  /** The scanner's token for a symbol, as duplicated into `nextSymbol_`. */
  function SymbolToken(w: Word, info: Symbol): Token {
    match info
    case Separator(p) => Token(w, SEPARATOR, p, None)
    case Binary(p) => Token(w, BINARY, p, None)
    case Type => Token(w, TYPE, MAX_PRECEDENCE, None)
    case _ => Token(w, MONARY, MAX_PRECEDENCE, None)
  }

  /** Negation is called `Not` in trees. */
  function NotName(w: Word): Word { if w == "!" then "Not" else w }

  /** What a monary symbol does, by whether an operand precedes it. */
  lemma AdvanceMonary(tab: Table, f: State, arg: Option<Word>, w: Word, twin: Option<int>)
    requires Lookup(tab, w) == Some(Monary(twin))
    ensures (arg.Some? || f.complete) && twin.None? ==> Advance(tab, f, arg, w) == None
    ensures (arg.Some? || f.complete) && twin.Some? ==>
      var t := PowerName(Token(NotName(w), BINARY, twin.value, None));
      Advance(tab, f, arg, w) == Some(State(BinIns(Supply(f.tree, arg), t), false, None))
    ensures !(arg.Some? || f.complete) ==>
      Advance(tab, f, arg, w) == Some(State(Fill(f.tree, Mon(PrefixToken(tab, w), Nil)), false, None))
  {}

  /** The power operator has one name in trees. */
  function PowerName(t: Token): Token { if t.name == "**" then t.(name := "^") else t }

  class Parser {
    const tab: Table
    var words: seq<Word>
    var openNumber_: int
    var complete_: bool
    var input_: Input
    var nextSymbol_: Token
    var nextArgument_: Option<Word>
    var delayedSymbol_: Option<Token>
    var messageError_: seq<Message>

    constructor (tab: Table)
      ensures this.tab == tab
    {
      this.tab := tab;
      words, openNumber_, complete_ := [], 0, false;
      input_, nextSymbol_ := End, Token("x", ARGUMENT, MAX_PRECEDENCE, None);
      nextArgument_, delayedSymbol_, messageError_ := None, None, [];
    }

    // ----- the state a step starts from

    ghost function StateOf(t: Sexp): State
      reads this
    {
      State(t, complete_, delayedSymbol_)
    }

    /** The tree is valid, has an open slot exactly while it is not complete,
        and a delayed symbol is waiting for that slot. */
    ghost predicate Ready(tre: Tree)
      reads this, tre, Cells(tre.shape)
    {
      && tre.Valid() && Sane(tre.Contents())
      && (complete_ <==> !HasHole(tre.Contents()))
      && (delayedSymbol_.Some? ==> !complete_)
    }

    method ReadNextSymbol()
      requires ValidTable(tab)
      modifies this`words, this`input_, this`nextSymbol_, this`nextArgument_, this`messageError_
      ensures var r := Read(tab, old(words));
              && words == r.rest && input_ == r.input
              && (!r.input.Extra? ==> nextArgument_ == r.arg)
              && (r.input.Sym? ==> nextSymbol_ == SymbolToken(r.input.word, r.input.info))
              && (messageError_ == old(messageError_) <==> !Refused(complete_, r))
              && (Refused(complete_, r) ==> messageError_ == old(messageError_) + [UnexpectedArgument])
    {
      var r := Read(tab, words);
      words, input_, nextArgument_ := r.rest, r.input, r.arg;
      if r.input.Sym? {
        nextSymbol_ := SymbolToken(r.input.word, r.input.info);
      }
      if r.input.Extra? || (r.arg.Some? && complete_) {
        messageError_ := messageError_ + [UnexpectedArgument];
      } else if r.arg.Some? && r.arg.value[0] == '@' {
        messageError_ := messageError_ + [UnexpectedArgument];
      }
    }

    /** Put the pending argument in the open slot. */
    method PutArgument(tre: Tree)
      requires tre.Valid() && nextArgument_.Some? && Sane(tre.Contents())
      modifies tre, Cells(tre.shape)
      ensures tre.Valid() && tre.Contents() == Supply(old(tre.Contents()), nextArgument_) && Sane(tre.Contents())
      ensures NewOnly(Cells(tre.shape), old(Cells(tre.shape)))
    {
      var token := ArgumentToken(nextArgument_.value);
      CellsAllocated(tre.shape);
      var leaf := Tree.create(Tok(token), null, SAtom(token), SNil);
      assert leaf.Contents() == Leaf(token) && !HasHole(Leaf(token)) && Sane(Leaf(token));
      FillSane(tre.Contents(), Leaf(token));
      tre.putMostRight(leaf);
    }

    /** Put a delayed type symbol in the open slot, as a prefix. */
    method ParseDelayed(tre: Tree)
      requires tre.Valid() && Sane(tre.Contents()) && (delayedSymbol_.Some? ==> HasHole(tre.Contents()))
      modifies this`delayedSymbol_, tre, Cells(tre.shape)
      ensures tre.Valid() && Sane(tre.Contents()) && delayedSymbol_ == None
      ensures tre.Contents() == Flush(old(StateOf(tre.Contents()))).tree
      ensures HasHole(tre.Contents()) == old(HasHole(tre.Contents()))
      ensures NewOnly(Cells(tre.shape), old(Cells(tre.shape)))
    {
      if delayedSymbol_.None? {
        return;
      }
      CellsAllocated(tre.shape);
      var branch := Tree.createMonary(delayedSymbol_.value, null, SNil);
      WrapSane(Nil, delayedSymbol_.value);
      FillSane(tre.Contents(), branch.Contents());
      FillSlots(tre.Contents(), branch.Contents());
      tre.putMostRight(branch);
      delayedSymbol_ := None;
    }

    /** Insert the pending binary symbol to the right of the tree. */
    method ParseBinary(tre0: Tree) returns (tre: Tree)
      requires Ready(tre0)
      requires 0 <= nextSymbol_.precedence <= MAX_PRECEDENCE && nextSymbol_.close == None
      requires nextArgument_.Some? ==> !complete_
      modifies this`delayedSymbol_, this`complete_, this`messageError_, this`nextSymbol_, tre0, Cells(tre0.shape)
      ensures old(nextArgument_.None? && !complete_) ==> messageError_ != []
      ensures old(nextArgument_.Some? || complete_) ==>
        && messageError_ == old(messageError_)
        && tre.Valid() && Sane(tre.Contents()) && HasHole(tre.Contents()) && !complete_ && delayedSymbol_ == None
        && tre.Contents() == BinIns(Supply(Flush(old(StateOf(tre0.Contents()))).tree, nextArgument_),
                                    PowerName(old(nextSymbol_)))
      ensures nextSymbol_ == PowerName(old(nextSymbol_))
      ensures tre == tre0 || fresh(tre)
      ensures tre.Valid() && NewOnly(Cells(tre.shape), old(Cells(tre0.shape)))
      decreases if delayedSymbol_.Some? then 1 else 0, tre0.Contents(), 2
    {
      tre := tre0;
      if nextSymbol_.name == "**" {
        nextSymbol_ := nextSymbol_.(name := "^");
      }
      ParseDelayed(tre);
      if nextArgument_.None? && !complete_ {
        messageError_ := messageError_ + [UnexpectedBinary];
      } else if tre.tree_ == null {
        tre := NewBinary();
      } else {
        tre := InsertBinary(tre);
      }
      complete_ := false;
    }

    /** Wrap the tree when its root binds at least as tightly as the symbol,
        otherwise insert further down. */
    method InsertBinary(tre0: Tree) returns (tre: Tree)
      requires tre0.Valid() && Sane(tre0.Contents()) && tre0.Contents().Cons? && delayedSymbol_ == None
      requires 0 <= nextSymbol_.precedence <= MAX_PRECEDENCE
      requires nextSymbol_.name != "**" && nextSymbol_.close == None
      requires (complete_ <==> !HasHole(tre0.Contents())) && (nextArgument_.Some? <==> !complete_)
      modifies this`delayedSymbol_, this`complete_, this`messageError_, this`nextSymbol_, tre0, Cells(tre0.shape)
      ensures messageError_ == old(messageError_) && delayedSymbol_ == None && nextSymbol_ == old(nextSymbol_)
      ensures tre.Valid() && Sane(tre.Contents()) && HasHole(tre.Contents())
      ensures tre.Contents() == BinIns(Supply(old(tre0.Contents()), nextArgument_), nextSymbol_)
      ensures NewOnly(Cells(tre.shape), old(Cells(tre0.shape))) && (tre == tre0 || fresh(tre))
      decreases 0, tre0.Contents(), 1
    {
      tre := tre0;
      SupplySane(tre.Contents(), nextArgument_);
      CellsAllocated(tre.shape);
      var tok := treToken(tre.tree_, tre.shape);
      var p1 := tok.value.precedence;
      var p2 := nextSymbol_.precedence;
      if p1 >= p2 {
        if nextArgument_.Some? {
          PutArgument(tre);
        }
        tre := WrapInBinary(tre);
      } else {
        SupplyThenInsert(tre.Contents(), nextArgument_, nextSymbol_);
        SaneDown(tre.Contents(), nextSymbol_);
        LastHolds(tre.shape);
        var rightCdr := tre.getMostRightBranch();
        CellsAllocated(tre.shape);
        if rightCdr.car_ == NIL {
          var branch := NewBinary();
          PutBranch(tre, branch);
        } else {
          DescendRight(tre);
        }
      }
    }

    /** Take the last branch off, insert into it, and put it back. */
    method DescendRight(tre: Tree)
      requires tre.Valid() && Sane(tre.Contents()) && tre.Contents().Cons? && delayedSymbol_ == None
      requires tre.Contents().car.tok.precedence < nextSymbol_.precedence <= MAX_PRECEDENCE
      requires nextSymbol_.name != "**" && nextSymbol_.close == None && 0 <= nextSymbol_.precedence
      requires (complete_ <==> !HasHole(tre.Contents())) && (nextArgument_.Some? <==> !complete_)
      requires Last(tre.Contents()).Cons?
      modifies this`delayedSymbol_, this`complete_, this`messageError_, this`nextSymbol_, tre, Cells(tre.shape)
      ensures messageError_ == old(messageError_) && delayedSymbol_ == None && nextSymbol_ == old(nextSymbol_)
      ensures tre.Valid() && Sane(tre.Contents()) && HasHole(tre.Contents())
      ensures tre.Contents() == BinIns(Supply(old(tre.Contents()), nextArgument_), nextSymbol_)
      ensures NewOnly(Cells(tre.shape), old(Cells(tre.shape)))
      decreases 0, tre.Contents(), 0
    {
      ghost var s := tre.Contents();
      SupplyThenInsert(s, nextArgument_, nextSymbol_);
      SaneDown(s, nextSymbol_);
      SetLastSane(s, Nil);
      var tAux := tre.takeRight();
      CellsAllocated(tre.shape);
      CellsAllocated(tAux.shape);
      var lower := ParseBinary(tAux);
      PutBranch(tre, lower);
    }

    method PutBranch(tre: Tree, branch: Tree)
      requires tre.Valid() && Sane(tre.Contents()) && HasHole(tre.Contents()) && tre != branch
      requires branch.Valid() && Sane(branch.Contents()) && branch.Contents().Cons?
      requires Cells(tre.shape) !! Cells(branch.shape)
      modifies tre, Cells(tre.shape)
      ensures tre.Valid() && Sane(tre.Contents())
      ensures tre.Contents() == Fill(old(tre.Contents()), old(branch.Contents()))
      ensures HasHole(tre.Contents()) == old(HasHole(branch.Contents()))
      ensures Cells(tre.shape) <= old(Cells(tre.shape)) + old(Cells(branch.shape))
    {
      FillSane(tre.Contents(), branch.Contents());
      FillSlots(tre.Contents(), branch.Contents());
      tre.putMostRight(branch);
    }

    /** A binary node over the pending argument. */
    method NewBinary() returns (tre: Tree)
      requires nextArgument_.Some?
      ensures fresh(tre) && tre.Valid() && Sane(tre.Contents()) && HasHole(tre.Contents())
      ensures tre.Contents() == Bin(nextSymbol_, Leaf(ArgumentToken(nextArgument_.value)), Nil)
      ensures NewOnly(Cells(tre.shape), {})
    {
      var token := ArgumentToken(nextArgument_.value);
      var leaf := Tree.create(Tok(token), null, SAtom(token), SNil);
      assert leaf.Contents() == Leaf(token) && Sane(Leaf(token));
      tre := WrapInBinary(leaf);
    }

    method WrapInBinary(tre0: Tree) returns (tre: Tree)
      requires tre0.Valid() && Sane(tre0.Contents()) && tre0.Contents().Cons?
      ensures fresh(tre) && tre.Valid() && tre.Contents() == Bin(nextSymbol_, tre0.Contents(), Nil)
      ensures Sane(tre.Contents()) && HasHole(tre.Contents())
      ensures NewOnly(Cells(tre.shape), Cells(tre0.shape))
    {
      WrapSane(tre0.Contents(), nextSymbol_);
      tre := Tree.createBinary(nextSymbol_, tre0.tree_, tre0.shape);
    }

    // ----- the steps for each kind of symbol

    /** The step of the symbol just read, as a function of the state. */
    ghost function Next(t: Sexp): Option<State>
      reads this
      requires input_.Sym?
      requires IsPrefixWord(tab, input_.word) || IsInfixWord(tab, input_.word) || IsSeparatorWord(tab, input_.word)
    {
      Advance(tab, Flush(StateOf(t)), nextArgument_, input_.word)
    }

    /** The symbol just read is `kind`, and its token is as scanned. */
    ghost predicate Scanned()
      reads this
    {
      && ValidTable(tab) && input_.Sym?
      && Lookup(tab, input_.word) == Some(input_.info)
      && nextSymbol_ == SymbolToken(input_.word, input_.info)
    }

    method ParseType(tre: Tree)
      requires Ready(tre) && Scanned() && input_.info.Type?
      modifies this`delayedSymbol_, this`messageError_, tre, Cells(tre.shape)
      ensures old(Next(tre.Contents())).None? ==> messageError_ != []
      ensures old(Next(tre.Contents())).Some? ==>
        messageError_ == old(messageError_) && Ready(tre)
        && StateOf(tre.Contents()) == old(Next(tre.Contents())).value
      ensures NewOnly(Cells(tre.shape), old(Cells(tre.shape)))
    {
      ParseDelayed(tre);
      if nextArgument_.Some? || complete_ {
        messageError_ := messageError_ + [UnexpectedType];
      } else {
        delayedSymbol_ := Some(nextSymbol_.(precedence := 9));
      }
    }

    /** A monary symbol is its binary twin behind an operand, else a prefix;
        `AdvanceMonary` says that this is the step of the symbol. */
    method ParseMonary(tre0: Tree) returns (tre: Tree)
      requires Ready(tre0) && Scanned() && input_.info.Monary?
      requires nextArgument_.Some? ==> !complete_
      modifies this`delayedSymbol_, this`complete_, this`messageError_, this`nextSymbol_, tre0, Cells(tre0.shape)
      ensures old(nextArgument_.Some? || complete_) && input_.info.twin.None? ==> messageError_ != []
      ensures old(nextArgument_.Some? || complete_) && input_.info.twin.Some? ==>
        messageError_ == old(messageError_) && Ready(tre)
        && StateOf(tre.Contents()) == State(
             BinIns(Supply(old(Flush(StateOf(tre0.Contents()))).tree, nextArgument_),
                    PowerName(Token(NotName(input_.word), BINARY, input_.info.twin.value, None))), false, None)
      ensures !old(nextArgument_.Some? || complete_) ==>
        messageError_ == old(messageError_) && Ready(tre)
        && StateOf(tre.Contents()) == State(
             Fill(old(Flush(StateOf(tre0.Contents()))).tree, Mon(PrefixToken(tab, input_.word), Nil)), false, None)
      ensures (tre == tre0 || fresh(tre)) && NewOnly(Cells(tre.shape), old(Cells(tre0.shape)))
    {
      tre := tre0;
      ParseDelayed(tre);
      tre := PutMonary(tre);
    }

    /** The same with no symbol delayed. */
    method PutMonary(tre0: Tree) returns (tre: Tree)
      requires Ready(tre0) && delayedSymbol_ == None && Scanned() && input_.info.Monary?
      requires nextArgument_.Some? ==> !complete_
      modifies this`delayedSymbol_, this`complete_, this`messageError_, this`nextSymbol_, tre0, Cells(tre0.shape)
      ensures old(nextArgument_.Some? || complete_) && input_.info.twin.None? ==> messageError_ != []
      ensures old(nextArgument_.Some? || complete_) && input_.info.twin.Some? ==>
        messageError_ == old(messageError_) && Ready(tre)
        && StateOf(tre.Contents()) == State(
             BinIns(Supply(old(tre0.Contents()), nextArgument_),
                    PowerName(Token(NotName(input_.word), BINARY, input_.info.twin.value, None))), false, None)
      ensures !old(nextArgument_.Some? || complete_) ==>
        messageError_ == old(messageError_) && Ready(tre)
        && StateOf(tre.Contents()) == State(
             Fill(old(tre0.Contents()), Mon(PrefixToken(tab, input_.word), Nil)), false, None)
      ensures (tre == tre0 || fresh(tre)) && NewOnly(Cells(tre.shape), old(Cells(tre0.shape)))
    {
      tre := tre0;
      if nextSymbol_.name == "!" {
        nextSymbol_ := nextSymbol_.(name := "Not");
      }
      var bin := input_.info.twin;
      if nextArgument_.Some? || complete_ {
        if bin.Some? {
          tre := ParseTwin(tre, bin.value);
        } else {
          messageError_ := messageError_ + [UnexpectedMonary];
        }
      } else {
        PutPrefix(tre, bin);
      }
    }

    method ParseTwin(tre0: Tree, twin: int) returns (tre: Tree)
      requires Ready(tre0) && delayedSymbol_ == None && 0 <= twin <= MAX_PRECEDENCE
      requires nextSymbol_.kind == MONARY && nextSymbol_.close == None
      requires nextArgument_.Some? <==> !complete_
      modifies this`delayedSymbol_, this`complete_, this`messageError_, this`nextSymbol_, tre0, Cells(tre0.shape)
      ensures messageError_ == old(messageError_) && Ready(tre) && !complete_ && delayedSymbol_ == None
      ensures tre.Contents() == BinIns(Supply(old(tre0.Contents()), nextArgument_),
                                       PowerName(Token(old(nextSymbol_.name), BINARY, twin, None)))
      ensures (tre == tre0 || fresh(tre)) && NewOnly(Cells(tre.shape), old(Cells(tre0.shape)))
    {
      nextSymbol_ := nextSymbol_.(kind := BINARY, precedence := twin);
      tre := ParseBinary(tre0);
    }

    /** The token of a prefix: a symbol that is also binary gets a name of its
        own and the precedence of its twin. */
    method NamePrefix(bin: Option<int>)
      requires ValidTable(tab) && input_.Sym? && Lookup(tab, input_.word) == Some(Monary(bin))
      requires nextSymbol_ == Token(NotName(input_.word), MONARY, MAX_PRECEDENCE, None)
      modifies this`nextSymbol_
      ensures nextSymbol_ == PrefixToken(tab, input_.word)
    {
      if bin.Some? {
        nextSymbol_ := nextSymbol_.(precedence := bin.value, name := " " + nextSymbol_.name + " ");
      } else if nextSymbol_.name == "Static" {
        nextSymbol_ := nextSymbol_.(precedence := 1);
      } else {
        nextSymbol_ := nextSymbol_.(precedence := 20);
      }
    }

    method PutPrefix(tre: Tree, bin: Option<int>)
      requires tre.Valid() && Sane(tre.Contents()) && HasHole(tre.Contents())
      requires ValidTable(tab) && input_.Sym? && Lookup(tab, input_.word) == Some(Monary(bin))
      requires nextSymbol_ == Token(NotName(input_.word), MONARY, MAX_PRECEDENCE, None)
      modifies this`nextSymbol_, tre, Cells(tre.shape)
      ensures tre.Valid() && Sane(tre.Contents()) && HasHole(tre.Contents())
      ensures tre.Contents() == Fill(old(tre.Contents()), Mon(PrefixToken(tab, input_.word), Nil))
      ensures NewOnly(Cells(tre.shape), old(Cells(tre.shape)))
    {
      CellsAllocated(tre.shape);
      NamePrefix(bin);
      var branch := Tree.createMonary(nextSymbol_, null, SNil);
      WrapSane(Nil, nextSymbol_);
      PutBranch(tre, branch);
    }

    /** A binary symbol where one is due or out of place. */
    method ParseInfix(tre0: Tree) returns (tre: Tree)
      requires Ready(tre0) && Scanned() && input_.info.Binary?
      requires nextArgument_.Some? ==> !complete_
      modifies this`delayedSymbol_, this`complete_, this`messageError_, this`nextSymbol_, tre0, Cells(tre0.shape)
      ensures old(Next(tre0.Contents())).None? ==> messageError_ != []
      ensures old(Next(tre0.Contents())).Some? ==>
        messageError_ == old(messageError_) && Ready(tre)
        && StateOf(tre.Contents()) == old(Next(tre0.Contents())).value
      ensures (tre == tre0 || fresh(tre)) && NewOnly(Cells(tre.shape), old(Cells(tre0.shape)))
    {
      tre := ParseBinary(tre0);
    }

    method ParseSeparator(tre0: Tree) returns (tre: Tree)
      requires Ready(tre0) && Scanned() && input_.info.Separator?
      requires nextArgument_.Some? ==> !complete_
      modifies this`delayedSymbol_, this`complete_, this`messageError_, tre0, Cells(tre0.shape)
      ensures old(Next(tre0.Contents())).None? ==> messageError_ != []
      ensures old(Next(tre0.Contents())).Some? ==>
        messageError_ == old(messageError_) && Ready(tre)
        && StateOf(tre.Contents()) == old(Next(tre0.Contents())).value
      ensures (tre == tre0 || fresh(tre)) && NewOnly(Cells(tre.shape), old(Cells(tre0.shape)))
    {
      tre := tre0;
      ParseDelayed(tre);
      if nextArgument_.None? && !complete_ {
        messageError_ := messageError_ + [UnexpectedSeparator];
      } else {
        tre := InsertSeparator(tre);
      }
      complete_ := false;
    }

    method InsertSeparator(tre0: Tree) returns (tre: Tree)
      requires tre0.Valid() && Sane(tre0.Contents())
      requires HasHole(tre0.Contents()) <==> nextArgument_.Some?
      modifies tre0, Cells(tre0.shape)
      ensures tre.Valid() && Sane(tre.Contents()) && HasHole(tre.Contents())
      ensures tre.Contents() == SepIns(Supply(old(tre0.Contents()), nextArgument_), nextSymbol_)
      ensures (tre == tre0 || fresh(tre)) && NewOnly(Cells(tre.shape), old(Cells(tre0.shape)))
    {
      tre := tre0;
      if tre.tree_ == null {
        tre := NewBinary();
        return;
      }
      SupplySane(tre.Contents(), nextArgument_);
      if nextArgument_.Some? {
        PutArgument(tre);
      }
      CellsAllocated(tre.shape);
      var tok := treToken(tre.tree_, tre.shape);
      if tok.value.close.None? && tok.value.kind == SEPARATOR {
        if tre.tree_.cdr_ != null {
          HoleLast(tre.Contents());
          AppendSane(tre.Contents());
          tre.addBranch();
        }
      } else {
        tre := WrapInBinary(tre);
      }
    }

    // ----- brackets, the end, and the loop over symbols

    method ParseNone(tre: Tree, close: Option<Bracket>)
      requires Ready(tre) && messageError_ == [] && (nextArgument_.Some? ==> !complete_)
      modifies this`delayedSymbol_, this`messageError_, tre, Cells(tre.shape)
      ensures messageError_ == [] <==> close.None? && (nextArgument_.Some? || complete_)
      ensures messageError_ == [] ==>
        tre.Valid() && Sane(tre.Contents()) && !HasHole(tre.Contents()) && tre.Contents().Cons?
        && delayedSymbol_ == None
        && tre.Contents() == Supply(Flush(old(StateOf(tre.Contents()))).tree, nextArgument_)
      ensures NewOnly(Cells(tre.shape), old(Cells(tre.shape)))
    {
      var ok := true;
      ParseDelayed(tre);
      SupplySane(tre.Contents(), nextArgument_);
      if close.Some? {
        messageError_ := messageError_ + [CloseExpected];
        ok := false;
      }
      if ok {
        if nextArgument_.Some? {
          PutArgument(tre);
        } else if !complete_ {
          ok := false;
        }
      }
      if !ok {
        messageError_ := messageError_ + [UnexpectedEnd];
      }
    }

    method ParseClose(tre: Tree, close: Option<Bracket>, br: Bracket)
      requires Ready(tre) && messageError_ == [] && (nextArgument_.Some? ==> !complete_)
      modifies this`delayedSymbol_, this`complete_, this`messageError_, this`openNumber_, tre, Cells(tre.shape)
      ensures messageError_ == [] <==>
        && close == Some(br) && (nextArgument_.Some? || old(complete_))
        && !(ClosedByBrace(Supply(Flush(old(StateOf(tre.Contents()))).tree, nextArgument_)) && br != Brace)
      ensures messageError_ == [] ==>
        tre.Valid() && Sane(tre.Contents()) && !HasHole(tre.Contents()) && Rooted(tre.Contents())
        && tre.Contents() == CloseTree(Supply(Flush(old(StateOf(tre.Contents()))).tree, nextArgument_), br)
      ensures complete_ && delayedSymbol_ == None && openNumber_ == old(openNumber_) - 1
      ensures NewOnly(Cells(tre.shape), old(Cells(tre.shape)))
    {
      SettleArgument(tre);
      openNumber_ := openNumber_ - 1;
      if close != Some(br) || (nextArgument_.None? && !complete_) {
        messageError_ := messageError_ + [UnexpectedClose];
      }
      if tre.tree_ != null {
        MarkClosed(tre, close, br);
      }
      complete_ := true;
    }

    /** The delayed symbol and then the pending argument go into the tree. */
    method SettleArgument(tre: Tree)
      requires Ready(tre) && (nextArgument_.Some? ==> !complete_)
      modifies this`delayedSymbol_, tre, Cells(tre.shape)
      ensures tre.Valid() && Sane(tre.Contents()) && delayedSymbol_ == None
      ensures tre.Contents() == Supply(Flush(old(StateOf(tre.Contents()))).tree, nextArgument_)
      ensures nextArgument_.Some? || complete_ ==> !HasHole(tre.Contents()) && tre.Contents().Cons?
      ensures NewOnly(Cells(tre.shape), old(Cells(tre.shape)))
    {
      ParseDelayed(tre);
      SupplySane(tre.Contents(), nextArgument_);
      if nextArgument_.Some? {
        PutArgument(tre);
      }
    }

    /** The root remembers the bracket that closes it; a brace group may not
        stand alone between other brackets. */
    method MarkClosed(tre: Tree, close: Option<Bracket>, br: Bracket)
      requires tre.Valid() && Sane(tre.Contents()) && tre.Contents().Cons?
      modifies this`messageError_, tre, Cells(tre.shape)
      ensures messageError_ == old(messageError_) +
        (if ClosedByBrace(old(tre.Contents())) && br != Brace then [InvalidSequence] else [])
      ensures tre.Valid() && Sane(tre.Contents()) && HasHole(tre.Contents()) == HasHole(old(tre.Contents()))
      ensures tre.Contents() ==
        SetRoot(old(tre.Contents()), old(tre.Contents()).car.tok.(close := close))
      ensures Cells(tre.shape) == old(Cells(tre.shape))
    {
      CellsAllocated(tre.shape);
      var tok := treToken(tre.tree_, tre.shape);
      if tok.value.close == Some(Brace) && br != Brace {
        messageError_ := messageError_ + [InvalidSequence];
      }
      SetRootSane(tre.Contents(), tok.value.(close := close));
      tre.setNode(tok.value.(close := close));
    }

    /** A group is parsed into a tree of its own and put in the open slot. */
    method ParseOpen(tre: Tree, br: Bracket)
      requires Ready(tre) && ValidTable(tab) && messageError_ == [] && (nextArgument_.Some? ==> !complete_)
      modifies this, tre, Cells(tre.shape)
      ensures messageError_ == [] <==>
        && !old(complete_) && (old(nextArgument_).Some? ==> StartIdentifier(old(nextArgument_).value))
        && Run(tab, START, Some(br), old(words)).Parsed?
      ensures messageError_ == [] ==>
        && Ready(tre) && openNumber_ == old(openNumber_) && words == Run(tab, START, Some(br), old(words)).rest
        && StateOf(tre.Contents()) ==
             State(Fill(Flush(old(StateOf(tre.Contents()))).tree,
                        HeadTree(Run(tab, START, Some(br), old(words)).tree, old(nextArgument_))), true, None)
      ensures |words| <= |old(words)|
      ensures NewOnly(Cells(tre.shape), old(Cells(tre.shape)))
      decreases |words|, 5
    {
      var arg := nextArgument_;
      ParseDelayed(tre);
      openNumber_ := openNumber_ + 1;
      if complete_ || (arg.Some? && !StartIdentifier(arg.value)) {
        messageError_ := messageError_ + [UnexpectedOpen];
      } else {
        CellsAllocated(tre.shape);
        var branch := ParseGroup(arg, br);
        if messageError_ == [] {
          PutBranch(tre, branch);
        }
      }
    }

    method ParseGroup(arg: Option<Word>, br: Bracket) returns (branch: Tree)
      requires ValidTable(tab) && messageError_ == [] && !complete_ && delayedSymbol_ == None
      modifies this
      ensures messageError_ == [] <==> Run(tab, START, Some(br), old(words)).Parsed?
      ensures messageError_ == [] ==>
        && branch.Valid() && Sane(branch.Contents()) && branch.Contents().Cons? && !HasHole(branch.Contents())
        && branch.Contents() == HeadTree(Run(tab, START, Some(br), old(words)).tree, arg)
        && words == Run(tab, START, Some(br), old(words)).rest
        && delayedSymbol_ == None && complete_ && openNumber_ == old(openNumber_) - 1
      ensures |words| <= |old(words)|
      ensures fresh(branch) && NewOnly(Cells(branch.shape), {})
      decreases |words|, 4
    {
      branch := new Tree();
      branch := ParseSymbol(branch, Some(br));
      if messageError_ == [] {
        branch := HeadGroup(branch, arg);
      }
    }

    /** Put the function's name at the root of its arguments, and make the
        root bind most tightly. */
    method HeadGroup(group: Tree, arg: Option<Word>) returns (branch: Tree)
      requires group.Valid() && Sane(group.Contents()) && Rooted(group.Contents()) && !HasHole(group.Contents())
      modifies group, Cells(group.shape)
      ensures branch.Valid() && Sane(branch.Contents()) && branch.Contents().Cons? && !HasHole(branch.Contents())
      ensures branch.Contents() == Headed(old(group.Contents()), arg)
      ensures (branch == group || fresh(branch)) && NewOnly(Cells(branch.shape), old(Cells(group.shape)))
    {
      branch := group;
      HeadedSane(group.Contents(), arg);
      CellsAllocated(group.shape);
      if arg.Some? {
        var function_ := ArgumentToken(arg.value).(kind := FUNCTION);
        if function_.name == "EQ" {
          function_ := function_.(name := "Eq");
        } else if function_.name == "Sqrt" {
          function_ := function_.(name := "SqRt");
        } else if function_.name == "Pow" {
          function_ := function_.(name := "^");
        }
        var tok := treToken(branch.tree_, branch.shape);
        if tok.value.kind == SEPARATOR {
          branch.setNode(function_);
        } else {
          branch := Tree.createMonary(function_, branch.tree_, branch.shape);
        }
      }
      CellsAllocated(branch.shape);
      var root := treToken(branch.tree_, branch.shape);
      branch.setNode(root.value.(precedence := MAX_PRECEDENCE));
    }

    /** Read symbols until the one that closes this level, or the end. */
    method ParseSymbol(tre0: Tree, close: Option<Bracket>) returns (tre: Tree)
      requires Ready(tre0) && ValidTable(tab) && messageError_ == []
      modifies this, tre0, Cells(tre0.shape)
      ensures var o := Run(tab, old(StateOf(tre0.Contents())), close, old(words));
        && (messageError_ == [] <==> o.Parsed?)
        && (messageError_ == [] ==>
              && tre.Valid() && Sane(tre.Contents()) && Rooted(tre.Contents()) && !HasHole(tre.Contents())
              && tre.Contents() == o.tree && words == o.rest && delayedSymbol_ == None
              && (close.Some? ==> complete_)
              && openNumber_ == old(openNumber_) - (if close.Some? then 1 else 0))
      ensures |words| <= |old(words)|
      ensures (tre == tre0 || fresh(tre)) && NewOnly(Cells(tre.shape), old(Cells(tre0.shape)))
      decreases |words|, 3
    {
      tre := tre0;
      ghost var o := Run(tab, StateOf(tre.Contents()), close, words);
      var more := true;
      while more
        invariant |words| <= |old(words)|
        invariant (tre == tre0 || fresh(tre)) && NewOnly(Cells(tre.shape), old(Cells(tre0.shape)))
        invariant messageError_ != [] ==> !more && o.Fail?
        invariant more ==> Ready(tre) && Run(tab, StateOf(tre.Contents()), close, words) == o
        invariant more ==> openNumber_ == old(openNumber_)
        invariant !more && messageError_ == [] ==>
          && o.Parsed? && tre.Valid() && Sane(tre.Contents()) && Rooted(tre.Contents()) && !HasHole(tre.Contents())
          && tre.Contents() == o.tree && words == o.rest && delayedSymbol_ == None
          && (close.Some? ==> complete_)
          && openNumber_ == old(openNumber_) - (if close.Some? then 1 else 0)
        decreases |words|, more
      {
        tre, more := OneSymbol(tre, close, o);
      }
    }

    /** Read one symbol and take its step.  A refused reading ends the parse. */
    method OneSymbol(tre0: Tree, close: Option<Bracket>, ghost o: Outcome) returns (tre: Tree, more: bool)
      requires Ready(tre0) && ValidTable(tab) && messageError_ == []
      requires Run(tab, StateOf(tre0.Contents()), close, words) == o
      modifies this, tre0, Cells(tre0.shape)
      ensures |words| <= |old(words)| && (more ==> |words| < |old(words)|)
      ensures (tre == tre0 || fresh(tre)) && NewOnly(Cells(tre.shape), old(Cells(tre0.shape)))
      ensures messageError_ != [] ==> !more && o.Fail?
      ensures more ==> Ready(tre) && Run(tab, StateOf(tre.Contents()), close, words) == o
                       && openNumber_ == old(openNumber_)
      ensures !more && messageError_ == [] ==>
        && o.Parsed? && tre.Valid() && Sane(tre.Contents()) && Rooted(tre.Contents()) && !HasHole(tre.Contents())
        && tre.Contents() == o.tree && words == o.rest && delayedSymbol_ == None
        && (close.Some? ==> complete_)
        && openNumber_ == old(openNumber_) - (if close.Some? then 1 else 0)
      decreases |words|, 2
    {
      tre, more := tre0, false;
      ghost var text := words;
      CellsAllocated(tre.shape);
      ReadNextSymbol();
      if messageError_ != [] {
        return;
      }
      if input_.Sym? && !input_.info.Close? {
        tre := TakeSymbol(tre, close, text, o);
        more := messageError_ == [];
      } else {
        LastSymbol(tre, close, text, o);
      }
    }

    /** What was read from `text` has been accepted and not yet used. */
    ghost predicate JustRead(tre: Tree, text: seq<Word>)
      reads this, tre, Cells(tre.shape)
    {
      && Ready(tre) && ValidTable(tab) && messageError_ == []
      && var r := Read(tab, text);
         && !Refused(complete_, r)
         && words == r.rest && input_ == r.input && nextArgument_ == r.arg
         && (r.input.Sym? ==> nextSymbol_ == SymbolToken(r.input.word, r.input.info))
    }

    /** The end of the text, or a closing symbol. */
    method LastSymbol(tre: Tree, close: Option<Bracket>, ghost text: seq<Word>, ghost o: Outcome)
      requires JustRead(tre, text) && Run(tab, StateOf(tre.Contents()), close, text) == o
      requires !input_.Sym? || input_.info.Close?
      modifies this, tre, Cells(tre.shape)
      ensures words == old(words)
      ensures NewOnly(Cells(tre.shape), old(Cells(tre.shape)))
      ensures messageError_ != [] ==> o.Fail?
      ensures messageError_ == [] ==>
        && o.Parsed? && tre.Valid() && Sane(tre.Contents()) && Rooted(tre.Contents()) && !HasHole(tre.Contents())
        && tre.Contents() == o.tree && words == o.rest && delayedSymbol_ == None
        && (close.Some? ==> complete_)
        && openNumber_ == old(openNumber_) - (if close.Some? then 1 else 0)
    {
      match input_ {
        case End => ParseNone(tre, close);
        case Sym(_, info) => ParseClose(tre, close, info.br);
      }
    }

    /** A symbol after which the level goes on. */
    method TakeSymbol(tre0: Tree, close: Option<Bracket>, ghost text: seq<Word>, ghost o: Outcome) returns (tre: Tree)
      requires JustRead(tre0, text) && Run(tab, StateOf(tre0.Contents()), close, text) == o
      requires input_.Sym? && !input_.info.Close?
      modifies this, tre0, Cells(tre0.shape)
      ensures |words| <= |old(words)|
      ensures (tre == tre0 || fresh(tre)) && NewOnly(Cells(tre.shape), old(Cells(tre0.shape)))
      ensures messageError_ != [] ==> o.Fail?
      ensures messageError_ == [] ==>
        Ready(tre) && Run(tab, StateOf(tre.Contents()), close, words) == o && openNumber_ == old(openNumber_)
      decreases |words|, 6
    {
      tre := tre0;
      ghost var st := StateOf(tre.Contents());
      if input_.info.Open? {
        var br := input_.info.br;
        ghost var inner := Run(tab, START, Some(br), words);
        ParseOpen(tre, br);
        if messageError_ == [] { RunGroup(tab, st, close, text, inner); }
      } else {
        ghost var next := Next(tre.Contents());
        tre := ParseOperator(tre);
        if messageError_ == [] { RunAdvances(tab, st, close, text, next.value); }
      }
    }

    /** The step of a separator, a type, or an operator. */
    method ParseOperator(tre0: Tree) returns (tre: Tree)
      requires Ready(tre0) && Scanned() && !input_.info.Open? && !input_.info.Close?
      requires messageError_ == [] && (nextArgument_.Some? ==> !complete_)
      modifies this`delayedSymbol_, this`complete_, this`messageError_, this`nextSymbol_, tre0, Cells(tre0.shape)
      ensures messageError_ == [] <==> old(Next(tre0.Contents())).Some?
      ensures messageError_ == [] ==> Ready(tre) && StateOf(tre.Contents()) == old(Next(tre0.Contents())).value
      ensures (tre == tre0 || fresh(tre)) && NewOnly(Cells(tre.shape), old(Cells(tre0.shape)))
    {
      tre := tre0;
      match input_.info {
        case Separator(_) => tre := ParseSeparator(tre);
        case Type => ParseType(tre);
        case Binary(_) => tre := ParseInfix(tre);
        case Monary(twin) =>
          AdvanceMonary(tab, Flush(StateOf(tre.Contents())), nextArgument_, input_.word, twin);
          tre := ParseMonary(tre);
      }
    }

    /** Parse a whole text; on an error the tree is discarded.  A text without
        any character is not even an error. */
    method Parsing(text: seq<Word>, hasName: bool) returns (tree: Tree)
      requires ValidTable(tab) && (text != [] ==> hasName)
      modifies this
      ensures fresh(tree) && tree.Valid()
      ensures hasName ==> (messageError_ == [] <==> Parse(tab, text).Parsed?)
      ensures tree.Contents() == if hasName && Parse(tab, text).Parsed? then Parse(tab, text).tree else Nil
      ensures hasName && messageError_ == [] ==> openNumber_ == 0
      ensures !hasName ==> messageError_ == old(messageError_)
    {
      tree := new Tree();
      if !hasName {
        nextArgument_, delayedSymbol_ := None, None;
        return;
      }
      words, openNumber_, complete_ := text, 0, false;
      delayedSymbol_, nextArgument_, messageError_ := None, None, [];
      tree := ParseSymbol(tree, None);
      // an accepted text has no open bracket left and a tree, so the check for
      // them that follows here adds no message
      assert messageError_ == [] ==> tree.tree_ != null && openNumber_ == 0;
      if messageError_ != [] {
        tree := new Tree();
      }
    }
  }
}

/** The parser's steps as a function on values: what one pass over the words
    does to the tree, the completeness flag and the delayed type symbol. */
module Machine {
  import opened Options
  import opened SyntaxTree
  import opened Phrase

  /** What the scanner hands over: an optional argument and the symbol after
      it; `Extra` when a second argument stands where a symbol is due. */
  datatype Input = End | Extra | Sym(word: Word, info: Symbol)

  datatype Reading = Reading(arg: Option<Word>, input: Input, rest: seq<Word>)

  function Read(tab: Table, words: seq<Word>): (r: Reading)
    ensures |r.rest| <= |words|
    ensures r.input.Sym? ==> |r.rest| < |words| && Lookup(tab, r.input.word) == Some(r.input.info)
    ensures r.arg.Some? && !r.input.Extra? ==> Lookup(tab, r.arg.value) == None
    ensures r.input.End? ==> r.rest == []
    ensures !r.input.Extra? ==>
      words == (if r.arg.Some? then [r.arg.value] else []) + (if r.input.Sym? then [r.input.word] else []) + r.rest
  {
    if words == [] then Reading(None, End, [])
    else match Lookup(tab, words[0])
      case Some(s) => Reading(None, Sym(words[0], s), words[1..])
      case None =>
        if |words| == 1 then Reading(Some(words[0]), End, [])
        else match Lookup(tab, words[1])
          case Some(s) => Reading(Some(words[0]), Sym(words[1], s), words[2..])
          case None => Reading(Some(words[1]), Extra, words[2..])
  }

  /** `delayed` is a type symbol read but not yet put in the tree. */
  datatype State = State(tree: Sexp, complete: bool, delayed: Option<Token>)

  const START := State(Nil, false, None)

  datatype Outcome = Fail | Parsed(tree: Sexp, rest: seq<Word>)

  function Flush(st: State): State {
    if st.delayed.Some? then State(Fill(st.tree, Mon(st.delayed.value, Nil)), st.complete, None) else st
  }

  function Supply(t: Sexp, arg: Option<Word>): Sexp {
    if arg.Some? then Fill(t, Leaf(ArgumentToken(arg.value))) else t
  }

  /** The reading itself is an error: two arguments in a row, an argument
      behind a complete operand, or the name of an unknown user type. */
  predicate Refused(complete: bool, r: Reading) {
    r.input.Extra? || (r.arg.Some? && (complete || r.arg.value[0] == '@'))
  }

  /** Operators, separators and types; `None` when the symbol is out of place. */
  function Advance(tab: Table, f: State, arg: Option<Word>, w: Word): Option<State>
    requires IsPrefixWord(tab, w) || IsInfixWord(tab, w) || IsSeparatorWord(tab, w)
  {
    var ready := arg.Some? || f.complete;
    if IsSeparatorWord(tab, w) then
      if ready then Some(State(SepIns(Supply(f.tree, arg), SeparatorToken(tab, w)), false, None)) else None
    else if IsTypeWord(tab, w) then
      if ready then None else Some(State(f.tree, false, Some(PrefixToken(tab, w))))
    else if ready then
      if IsInfixWord(tab, w) then Some(State(BinIns(Supply(f.tree, arg), InfixToken(tab, w)), false, None)) else None
    else
      if IsPrefixWord(tab, w) then Some(State(Fill(f.tree, Mon(PrefixToken(tab, w), Nil)), false, None)) else None
  }

  predicate ClosedByBrace(t: Sexp) { Rooted(t) && t.car.tok.close == Some(Brace) }

  function CloseTree(t: Sexp, br: Bracket): Sexp { if Rooted(t) then Closed(t, br) else t }

  function HeadTree(t: Sexp, head: Option<Word>): Sexp { if Rooted(t) then Headed(t, head) else t }

  /** Everything up to the closing symbol of this level, or to the end. */
  function Run(tab: Table, st: State, close: Option<Bracket>, words: seq<Word>): (o: Outcome)
    ensures o.Parsed? ==> |o.rest| <= |words|
    decreases |words|
  {
    var r := Read(tab, words);
    var f := Flush(st);
    if Refused(st.complete, r) then Fail
    else match r.input
      case End =>
        if close.Some? || (r.arg.None? && !f.complete) then Fail else Parsed(Supply(f.tree, r.arg), [])
      case Sym(w, Open(br)) =>
        if f.complete || (r.arg.Some? && !StartIdentifier(r.arg.value)) then Fail
        else (match Run(tab, START, Some(br), r.rest)
              case Fail => Fail
              case Parsed(t, rest) =>
                Run(tab, State(Fill(f.tree, HeadTree(t, r.arg)), true, None), close, rest))
      case Sym(w, Close(br)) =>
        var t := Supply(f.tree, r.arg);
        if close != Some(br) || (r.arg.None? && !f.complete) then Fail
        else if ClosedByBrace(t) && br != Brace then Fail
        else Parsed(CloseTree(t, br), r.rest)
      case Sym(w, _) =>
        (match Advance(tab, f, r.arg, w)
         case None => Fail
         case Some(next) => Run(tab, next, close, r.rest))
      case Extra => Fail
  }

  /** The parser on a whole text. */
  function Parse(tab: Table, words: seq<Word>): Outcome { Run(tab, START, None, words) }

  // ----- one step of `Run` whose reading is known

  lemma RunLast(tab: Table, st: State, close: Option<Bracket>, words: seq<Word>, arg: Option<Word>, rest: seq<Word>)
    requires Read(tab, words) == Reading(arg, if close.None? then End else Sym(CloseName(close.value), Close(close.value)), rest)
    requires !Refused(st.complete, Read(tab, words)) && (arg.Some? || Flush(st).complete)
    requires close.Some? && close != Some(Brace) ==> !ClosedByBrace(Supply(Flush(st).tree, arg))
    ensures Run(tab, st, close, words) ==
      if close.None? then Parsed(Supply(Flush(st).tree, arg), [])
      else Parsed(CloseTree(Supply(Flush(st).tree, arg), close.value), rest)
  {}

  lemma RunAdvances(tab: Table, st: State, close: Option<Bracket>, words: seq<Word>, next: State)
    requires var r := Read(tab, words);
             && r.input.Sym? && !Refused(st.complete, r)
             && (IsPrefixWord(tab, r.input.word) || IsInfixWord(tab, r.input.word) || IsSeparatorWord(tab, r.input.word))
             && Advance(tab, Flush(st), r.arg, r.input.word) == Some(next)
    ensures Run(tab, st, close, words) == Run(tab, next, close, Read(tab, words).rest)
  {}

  lemma RunGroup(tab: Table, st: State, close: Option<Bracket>, words: seq<Word>, inner: Outcome)
    requires var r := Read(tab, words);
             && r.input.Sym? && r.input.info.Open? && !Refused(st.complete, r) && !Flush(st).complete
             && (r.arg.Some? ==> StartIdentifier(r.arg.value))
             && inner.Parsed? && Run(tab, START, Some(r.input.info.br), r.rest) == inner
    ensures Run(tab, st, close, words)
         == Run(tab, State(Fill(Flush(st).tree, HeadTree(inner.tree, Read(tab, words).arg)), true, None), close, inner.rest)
  {}
}

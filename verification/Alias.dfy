/** Aliases for source paths: the first alias whose value starts a path stands
    for it in the header, and is put back when the header is read. */
module Alias {
  type Text = string

  predicate BeginWith(txt: Text, a: Text) { a <= txt }

  /** A text that can be overwritten. */
  class BText {
    var text: Text

    constructor (text: Text)
      ensures this.text == text
    {
      this.text := text;
    }
  }

  class BAlias {
    var alias_: Text
    var value_: Text

    constructor (alias: Text, value: Text)
      ensures alias_ == alias && value_ == value
    {
      alias_, value_ := alias, value;
    }

    function Named(): Name
      reads this
    {
      Name(alias_, value_)
    }

    function Coded(): Text
      reads this
    {
      "{$" + alias_ + "}"
    }

    /** Replace `a` at the front of the text by `b`. */
    static method CodeDecode(txt: BText, a: Text, b: Text) returns (doReplace: bool)
      modifies txt
      ensures doReplace == (a <= old(txt.text))
      ensures txt.text == if doReplace then b + old(txt.text)[|a|..] else old(txt.text)
    {
      doReplace := BeginWith(txt.text, a);
      if doReplace { txt.text := b + txt.text[|a|..]; }
    }

    method Code(txt: BText) returns (done: bool)
      modifies txt
      ensures done == (value_ <= old(txt.text))
      ensures txt.text == if done then "{$" + alias_ + "}" + old(txt.text)[|value_|..] else old(txt.text)
    {
      done := CodeDecode(txt, value_, Coded());
    }

    method Decode(txt: BText) returns (done: bool)
      modifies txt
      ensures done == ("{$" + alias_ + "}" <= old(txt.text))
      ensures txt.text == if done then value_ + old(txt.text)[|alias_| + 3..] else old(txt.text)
    {
      done := CodeDecode(txt, Coded(), value_);
    }
  }

  /** An alias as a value. */
  datatype Name = Name(alias: Text, value: Text) {
    function Coded(): Text { "{$" + alias + "}" }
  }

  // ----- the first alias that applies

  function CodedBy(names: seq<Name>, path: Text): Text {
    if names == [] then path
    else if BeginWith(path, names[0].value) then names[0].Coded() + path[|names[0].value|..]
    else CodedBy(names[1..], path)
  }

  function DecodedBy(names: seq<Name>, path: Text): Text {
    if names == [] then path
    else if BeginWith(path, names[0].Coded()) then names[0].value + path[|names[0].Coded()|..]
    else DecodedBy(names[1..], path)
  }

  /** The loop of the header writer over the search paths. */
  method CodePath(aliases: seq<BAlias>, ghost names: seq<Name>, path: BText)
    requires |names| == |aliases| && forall i :: 0 <= i < |names| ==> names[i] == aliases[i].Named()
    modifies path
    ensures path.text == CodedBy(names, old(path.text))
  {
    ghost var p := path.text;
    var m := 0;
    assert names[0..] == names;
    while m < |aliases|
      invariant 0 <= m <= |aliases| && path.text == p && CodedBy(names[m..], p) == CodedBy(names, p)
    {
      assert names[m..][0] == names[m] && names[m..][1..] == names[m + 1..];
      var done := aliases[m].Code(path);
      if done { break; }
      m := m + 1;
    }
  }

  /** The loop of the header reader. */
  method DecodePath(aliases: seq<BAlias>, ghost names: seq<Name>, path: BText)
    requires |names| == |aliases| && forall i :: 0 <= i < |names| ==> names[i] == aliases[i].Named()
    modifies path
    ensures path.text == DecodedBy(names, old(path.text))
  {
    ghost var p := path.text;
    var k := 0;
    assert names[0..] == names;
    while k < |aliases|
      invariant 0 <= k <= |aliases| && path.text == p && DecodedBy(names[k..], p) == DecodedBy(names, p)
    {
      assert names[k..][0] == names[k] && names[k..][1..] == names[k + 1..];
      var done := aliases[k].Decode(path);
      if done { break; }
      k := k + 1;
    }
  }

  // ----- coding and decoding

  predicate Distinguishable(names: seq<Name>) {
    && (forall i :: 0 <= i < |names| ==> '}' !in names[i].alias)
    && (forall i, j :: 0 <= i < j < |names| ==> names[i].alias != names[j].alias)
  }

  predicate SomeValue(names: seq<Name>, path: Text) { exists i :: 0 <= i < |names| && BeginWith(path, names[i].value) }

  predicate SomeCoded(names: seq<Name>, path: Text) { exists i :: 0 <= i < |names| && BeginWith(path, names[i].Coded()) }

  /** The place of the first closing brace. */
  lemma FirstBrace(t: Text, n: nat, k: nat)
    requires n < |t| && t[n] == '}' && forall i :: 0 <= i < n ==> t[i] != '}'
    requires k < |t| && t[k] == '}' && forall i :: 0 <= i < k ==> t[i] != '}'
    ensures n == k
  {}

  /** A coded alias starts with another one only if both are the same. */
  lemma CodedApart(a: Name, b: Name, rest: Text)
    requires '}' !in a.alias && '}' !in b.alias
    ensures BeginWith(a.Coded() + rest, b.Coded()) <==> a.alias == b.alias
  {
    var t := a.Coded() + rest;
    var n, k := |a.alias|, |b.alias|;
    assert t[..2 + n] == "{$" + a.alias && t[2 + n] == '}';
    if BeginWith(t, b.Coded()) {
      var u := t[..k + 3];
      assert u[..2 + k] == "{$" + b.alias && u[2 + k] == '}';
      assert t[..2 + k] == u[..2 + k];
      assert forall i :: 0 <= i < 2 + n ==> t[i] == t[..2 + n][i];
      assert forall i :: 0 <= i < 2 + k ==> t[i] == t[..2 + k][i];
      FirstBrace(t, 2 + n, 2 + k);
      assert a.alias == t[..2 + n][2..] && b.alias == t[..2 + k][2..];
    }
    if a.alias == b.alias { assert t[..k + 3] == b.Coded(); }
  }

  lemma {:induction false} DecodesOwn(names: seq<Name>, a: Name, rest: Text)
    requires Distinguishable(names) && a in names
    ensures DecodedBy(names, a.Coded() + rest) == a.value + rest
  {
    CodedApart(a, names[0], rest);
    if a == names[0] {
      assert (a.Coded() + rest)[|a.Coded()|..] == rest;
    } else {
      assert a in names[1..];
      var i :| 0 < i < |names| && names[i] == a;
      DecodesOwn(names[1..], a, rest);
    }
  }

  /** The first alias whose value begins the path stands for it. */
  lemma {:induction false} CodedByFirst(names: seq<Name>, path: Text) returns (k: nat)
    requires exists i :: 0 <= i < |names| && names[i].value <= path
    ensures k < |names| && names[k].value <= path && forall i :: 0 <= i < k ==> !(names[i].value <= path)
    ensures CodedBy(names, path) == "{$" + names[k].alias + "}" + path[|names[k].value|..]
  {
    if names[0].value <= path {
      k := 0;
    } else {
      var rest := names[1..];
      assert forall i :: 0 <= i < |rest| ==> rest[i] == names[i + 1];
      var i :| 0 <= i < |names| && names[i].value <= path;
      assert rest[i - 1].value <= path;
      var j := CodedByFirst(rest, path);
      k := j + 1;
      forall i | 0 <= i < k ensures !(names[i].value <= path) {
        if i > 0 { assert rest[i - 1] == names[i]; }
      }
    }
  }

  lemma {:induction false} NotCoded(names: seq<Name>, path: Text)
    ensures (forall i :: 0 <= i < |names| ==> !(names[i].value <= path)) ==> CodedBy(names, path) == path
    ensures (forall i :: 0 <= i < |names| ==> !("{$" + names[i].alias + "}" <= path)) ==> DecodedBy(names, path) == path
  {
    if names != [] {
      NotCoded(names[1..], path);
      assert forall i :: 0 <= i < |names| - 1 ==> names[1..][i] == names[i + 1];
    }
  }

  /** The first alias whose coded name begins the path is put back. */
  lemma {:induction false} DecodedByFirst(names: seq<Name>, path: Text) returns (k: nat)
    requires exists i :: 0 <= i < |names| && names[i].Coded() <= path
    ensures k < |names| && "{$" + names[k].alias + "}" <= path
    ensures forall i :: 0 <= i < k ==> !("{$" + names[i].alias + "}" <= path)
    ensures DecodedBy(names, path) == names[k].value + path[|names[k].alias| + 3..]
  {
    if names[0].Coded() <= path {
      k := 0;
    } else {
      var rest := names[1..];
      assert forall i :: 0 <= i < |rest| ==> rest[i] == names[i + 1];
      var i :| 0 <= i < |names| && names[i].Coded() <= path;
      assert rest[i - 1].Coded() <= path;
      var j := DecodedByFirst(rest, path);
      k := j + 1;
      forall i | 0 <= i < k ensures !(names[i].Coded() <= path) {
        if i > 0 { assert rest[i - 1] == names[i]; }
      }
    }
  }

  /** Coding then decoding gives the path back exactly when some value starts
      it, or else when it does not start with a coded alias already. */
  lemma PathRoundTrip(names: seq<Name>, path: Text)
    requires Distinguishable(names)
    ensures DecodedBy(names, CodedBy(names, path)) == path <==> SomeValue(names, path) || !SomeCoded(names, path)
  {
    NotCoded(names, path);
    if SomeValue(names, path) {
      var k := CodedByFirst(names, path);
      var a := names[k];
      DecodesOwn(names, a, path[|a.value|..]);
      assert a.value + path[|a.value|..] == path;
    } else if SomeCoded(names, path) {
      var k := DecodedByFirst(names, path);
      SameRest(path, names[k].Coded(), names[k].value);
    }
  }

  lemma SameRest(path: Text, c: Text, v: Text)
    requires BeginWith(path, c)
    ensures v + path[|c|..] == path ==> BeginWith(path, v)
  {
    var t := v + path[|c|..];
    assert t[..|v|] == v;
  }

  lemma CodedStarts(a: Name, path: Text)
    ensures BeginWith(path, a.Coded()) ==> BeginWith(path, "{$")
  {
    if BeginWith(path, a.Coded()) {
      var n := |a.Coded()|;
      assert path[..n][..2] == "{$" && path[..n][..2] == path[..2];
    }
  }

  /** A path that does not start like a coded alias always comes back. */
  lemma PlainPathRoundTrip(names: seq<Name>, path: Text)
    requires Distinguishable(names) && !BeginWith(path, "{$")
    ensures DecodedBy(names, CodedBy(names, path)) == path
  {
    PathRoundTrip(names, path);
    forall i | 0 <= i < |names| ensures !BeginWith(path, names[i].Coded()) {
      CodedStarts(names[i], path);
    }
  }
}

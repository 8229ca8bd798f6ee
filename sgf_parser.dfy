// Recursive-descent reader for the SGF FF[4] collection grammar:
//
//   Collection = GameTree+          GameTree = "(" Sequence GameTree* ")"
//   Sequence   = Node*              Node     = ";" Property*
//   Property   = UcLetter+ PropValue+          PropValue = "[" text "]"
//
// The reader keeps a cursor into the text.  Each of its methods is proved
// against a recursive function on the text that is still unread (the
// `...Of` functions below), and the functions are related to a printer by
// round-trip lemmas.  Property values are kept raw: a backslash stays in
// the value together with the character it escapes, so that compose values
// can still be split at unescaped colons afterwards.
module SgfParser {
  import opened Wrappers
  import Seqs

  datatype Property = Property(ident: string, values: seq<string>)
  datatype GameTree = GameTree(nodes: seq<seq<Property>>, subtrees: seq<GameTree>)

  /** What a reading step returns: the value read and the text left over. */
  type Parsed<T> = Result<(T, string)>

  const UNTERMINATED := "unexpected termination in PropValue"
  const NO_GAME_TREE := "Collection must have GameTree."

  predicate IsWhite(c: char) {
    c == ' ' || c == '\t' || c == '\n' || c == '\r'
  }

  predicate IsUpper(c: char) {
    'A' <= c <= 'Z'
  }

  lemma UpperPrefixStep(s: string, b: nat, i: nat, whole: (string, string))
    requires b <= i < |s| && IsUpper(s[i])
    requires whole == (s[b..i] + UpperPrefix(s[i..]).0, UpperPrefix(s[i..]).1)
    ensures whole == (s[b..i + 1] + UpperPrefix(s[i + 1..]).0, UpperPrefix(s[i + 1..]).1)
  {
    assert s[i..][1..] == s[i + 1..];
    assert s[b..i + 1] == s[b..i] + [s[i]];
    assert UpperPrefix(s[i..]) == ([s[i]] + UpperPrefix(s[i + 1..]).0, UpperPrefix(s[i + 1..]).1);
    Seqs.ConcatAssoc(s[b..i], [s[i]], UpperPrefix(s[i + 1..]).0);
  }

  lemma UpperPrefixStart(s: string, b: nat)
    requires b <= |s|
    ensures UpperPrefix(s[b..]) == (s[b..b] + UpperPrefix(s[b..]).0, UpperPrefix(s[b..]).1)
  {
    assert s[b..b] + UpperPrefix(s[b..]).0 == UpperPrefix(s[b..]).0;
  }

  lemma UpperPrefixDone(s: string, b: nat, i: nat, whole: (string, string))
    requires b <= i <= |s| && !(i < |s| && IsUpper(s[i]))
    requires whole == (s[b..i] + UpperPrefix(s[i..]).0, UpperPrefix(s[i..]).1)
    ensures whole == (s[b..i], s[i..])
  {
    assert UpperPrefix(s[i..]).0 == [];
    assert s[b..i] + [] == s[b..i];
  }

  /** A method's result paired with the text its cursor has left unread. */
  function Outcome<T>(r: Result<T>, rest: string): Parsed<T> {
    match r
    case Success(v) => Success((v, rest))
    case Failure(e) => Failure(e)
  }

  /** `p` put in front of whatever sequence `r` read. */
  function Prepend<T>(p: seq<T>, r: Parsed<seq<T>>): Parsed<seq<T>> {
    match r
    case Success((v, rest)) => Success((p + v, rest))
    case Failure(e) => Failure(e)
  }

  lemma Regroup<T>(a: seq<T>, b: seq<T>, c: seq<T>, d: seq<T>)
    ensures a + b + c + d == a + (b + (c + d))
  {
  }

  lemma PrependNothing<T>(r: Parsed<seq<T>>)
    ensures Prepend([], r) == r
  {
    if r.Success? {
      assert [] + r.value.0 == r.value.0;
    }
  }

  lemma PrependPrepend<T>(p: seq<T>, q: seq<T>, r: Parsed<seq<T>>)
    ensures Prepend(p, Prepend(q, r)) == Prepend(p + q, r)
  {
    if r.Success? {
      assert p + (q + r.value.0) == (p + q) + r.value.0;
    }
  }

  // ---------------------------------------------------------------------
  // The grammar, read from the unread text

  function SkipWhite(s: string): (r: string)
    ensures |r| <= |s|
    ensures r == [] || !IsWhite(r[0])
  {
    if s != [] && IsWhite(s[0]) then SkipWhite(s[1..]) else s
  }

  /** Skipping drops exactly a prefix of whitespace characters. */
  lemma {:induction false} SkipWhiteDropsWhite(s: string)
    ensures SkipWhite(s) == s[|s| - |SkipWhite(s)|..]
    ensures forall k | 0 <= k < |s| - |SkipWhite(s)| :: IsWhite(s[k])
    decreases |s|
  {
    if s != [] && IsWhite(s[0]) {
      SkipWhiteDropsWhite(s[1..]);
      assert s[1..][|s| - 1 - |SkipWhite(s)|..] == s[|s| - |SkipWhite(s)|..];
      forall k | 0 <= k < |s| - |SkipWhite(s)|
        ensures IsWhite(s[k])
      {
        if k > 0 {
          assert s[k] == s[1..][k - 1];
        }
      }
    }
  }

  /** Whitespace, then the character `c`. */
  function Expect(s: string, c: char): (r: Parsed<()>)
    ensures r.Success? ==> |r.value.1| < |s|
  {
    var t := SkipWhite(s);
    if t != [] && t[0] == c then Success(((), t[1..])) else Failure("expected " + [c])
  }

  /** The longest prefix of upper-case letters and what follows it. */
  function UpperPrefix(s: string): (r: (string, string))
    ensures r.0 + r.1 == s
    ensures forall k | 0 <= k < |r.0| :: IsUpper(r.0[k])
    ensures r.1 == [] || !IsUpper(r.1[0])
  {
    if s != [] && IsUpper(s[0]) then
      var t := UpperPrefix(s[1..]);
      Seqs.HeadTail(s);
      Seqs.ConcatAssoc([s[0]], t.0, t.1);
      ([s[0]] + t.0, t.1)
    else
      ([], s)
  }

  /** The text of a property value up to and including its closing bracket. */
  function ValueTail(s: string): (r: Parsed<string>)
    ensures r.Success? ==> |r.value.1| < |s|
    decreases |s|
  {
    if s == [] then Failure(UNTERMINATED)
    else if s[0] == ']' then Success(("", s[1..]))
    else if s[0] != '\\' then Prepend([s[0]], ValueTail(s[1..]))
    else if |s| == 1 then Failure(UNTERMINATED)
    else if (s[1] == '\n' && |s| > 2 && s[2] == '\r') || (s[1] == '\r' && |s| > 2 && s[2] == '\n') then
      Prepend("\\\n", ValueTail(s[3..]))
    else if s[1] == '\r' then Prepend("\\\n", ValueTail(s[2..]))
    else Prepend(['\\', s[1]], ValueTail(s[2..]))
  }

  function ValueOf(s: string): (r: Parsed<string>)
    ensures r.Success? ==> |r.value.1| < |s|
  {
    match Expect(s, '[')
    case Failure(e) => Failure(e)
    case Success((_, t)) => ValueTail(t)
  }

  /** One or more values; the whitespace after the last one is consumed. */
  function ValuesOf(s: string): (r: Parsed<seq<string>>)
    ensures r.Success? ==> |r.value.1| < |s| && r.value.0 != []
    decreases |s|
  {
    match ValueOf(s)
    case Failure(e) => Failure(e)
    case Success((v, rest)) =>
      var t := SkipWhite(rest);
      if t != [] && t[0] == '[' then Prepend([v], ValuesOf(t)) else Success(([v], t))
  }

  /** A property, or None when no upper-case letter follows the whitespace. */
  function PropertyOf(s: string): (r: Parsed<Option<Property>>)
    ensures r.Success? ==> |r.value.1| <= |s|
    ensures r.Success? && r.value.0.Some? ==> |r.value.1| < |s|
  {
    var t := SkipWhite(s);
    var (ident, rest) := UpperPrefix(t);
    if ident == [] then Success((None, rest))
    else
      match ValuesOf(rest)
      case Failure(e) => Failure(e)
      case Success((values, r)) => Success((Some(Property(ident, values)), r))
  }

  function PropsOf(s: string): (r: Parsed<seq<Property>>)
    ensures r.Success? ==> |r.value.1| <= |s|
    decreases |s|
  {
    match PropertyOf(s)
    case Failure(e) => Failure(e)
    case Success((None, rest)) => Success(([], rest))
    case Success((Some(p), rest)) => Prepend([p], PropsOf(rest))
  }

  function NodeOf(s: string): (r: Parsed<seq<Property>>)
    ensures r.Success? ==> |r.value.1| < |s|
  {
    match Expect(s, ';')
    case Failure(e) => Failure(e)
    case Success((_, t)) => PropsOf(t)
  }

  function NodesOf(s: string): (r: Parsed<seq<seq<Property>>>)
    ensures r.Success? ==> |r.value.1| <= |s|
    decreases |s|
  {
    var t := SkipWhite(s);
    if t != [] && t[0] == ';' then
      match NodeOf(t)
      case Failure(e) => Failure(e)
      case Success((n, rest)) => Prepend([n], NodesOf(rest))
    else
      Success(([], t))
  }

  function TreesOf(s: string): (r: Parsed<seq<GameTree>>)
    ensures r.Success? ==> |r.value.1| <= |s|
    decreases |s|, 1
  {
    var t := SkipWhite(s);
    if t != [] && t[0] == '(' then
      match TreeOf(t)
      case Failure(e) => Failure(e)
      case Success((g, rest)) => Prepend([g], TreesOf(rest))
    else
      Success(([], t))
  }

  function TreeOf(s: string): (r: Parsed<GameTree>)
    ensures r.Success? ==> |r.value.1| < |s|
    decreases |s|, 0
  {
    match Expect(s, '(')
    case Failure(e) => Failure(e)
    case Success((_, r1)) =>
      match NodesOf(r1)
      case Failure(e) => Failure(e)
      case Success((nodes, r2)) =>
        match TreesOf(r2)
        case Failure(e) => Failure(e)
        case Success((subtrees, r3)) =>
          match Expect(r3, ')')
          case Failure(e) => Failure(e)
          case Success((_, r4)) => Success((GameTree(nodes, subtrees), r4))
  }

  /** A collection: at least one game tree; the text after the last is ignored. */
  function CollectionOf(s: string): Result<seq<GameTree>> {
    match TreesOf(s)
    case Failure(e) => Failure(e)
    case Success((trees, _)) => if trees == [] then Failure(NO_GAME_TREE) else Success(trees)
  }

  // ---------------------------------------------------------------------
  // The reader

  class Parser {
    const sgf: string
    var i: nat

    predicate Valid()
      reads this
    {
      i <= |sgf|
    }

    /** The text the cursor has not passed yet. */
    function Rest(): string
      reads this
      requires Valid()
    {
      sgf[i..]
    }

    constructor(sgf: string)
      ensures Valid() && this.sgf == sgf && Rest() == sgf
    {
      this.sgf := sgf;
      i := 0;
    }

    method SkipWS()
      requires Valid()
      modifies this
      ensures Valid() && Rest() == SkipWhite(old(Rest()))
    {
      while i < |sgf| && IsWhite(sgf[i])
        invariant i <= |sgf| && SkipWhite(sgf[i..]) == SkipWhite(old(Rest()))
        decreases |sgf| - i
      {
        assert sgf[i..][1..] == sgf[i + 1..];
        i := i + 1;
      }
    }

    method Match(c: char) returns (r: Result<()>)
      requires Valid()
      modifies this
      ensures Valid() && Outcome(r, Rest()) == Expect(old(Rest()), c)
    {
      SkipWS();
      if i < |sgf| && sgf[i] == c {
        assert Rest()[1..] == sgf[i + 1..];
        i := i + 1;
        r := Success(());
      } else {
        r := Failure("expected " + [c]);
      }
    }

    method GetUpper() returns (ident: string)
      requires Valid()
      modifies this
      ensures Valid() && (ident, Rest()) == UpperPrefix(old(Rest()))
    {
      var begin := i;
      ghost var whole := UpperPrefix(sgf[begin..]);
      UpperPrefixStart(sgf, begin);
      while i < |sgf| && IsUpper(sgf[i])
        invariant begin <= i <= |sgf|
        invariant whole == (sgf[begin..i] + UpperPrefix(sgf[i..]).0, UpperPrefix(sgf[i..]).1)
        decreases |sgf| - i
      {
        UpperPrefixStep(sgf, begin, i, whole);
        i := i + 1;
      }
      UpperPrefixDone(sgf, begin, i, whole);
      ident := sgf[begin..i];
    }

    method ParsePropValue() returns (r: Result<string>)
      requires Valid()
      modifies this
      ensures Valid() && Outcome(r, Rest()) == ValueOf(old(Rest()))
    {
      var m := Match('[');
      if m.Failure? {
        return Failure(m.error);
      }
      ghost var t0 := Rest();
      var unescaped := "";
      PrependNothing(ValueTail(t0));
      while true
        invariant i <= |sgf|
        invariant Prepend(unescaped, ValueTail(Rest())) == ValueTail(t0)
        decreases |sgf| - i
      {
        if i == |sgf| {
          return Failure(UNTERMINATED);
        }
        ghost var s := Rest();
        var ch := sgf[i];
        i := i + 1;
        if ch == ']' {
          assert unescaped + "" == unescaped;
          return Success(unescaped);
        }
        if ch != '\\' {
          assert s[1..] == Rest();
          PrependPrepend(unescaped, [ch], ValueTail(Rest()));
          unescaped := unescaped + [ch];
        } else {
          if i == |sgf| {
            // the escaped character is missing; the source appends a
            // placeholder and stops at its next read, which finds nothing
            return Failure(UNTERMINATED);
          }
          var escaped := sgf[i];
          i := i + 1;
          if (escaped == '\n' && i < |sgf| && sgf[i] == '\r') || (escaped == '\r' && i < |sgf| && sgf[i] == '\n') {
            i := i + 1;
            assert s[3..] == Rest();
            PrependPrepend(unescaped, "\\\n", ValueTail(Rest()));
            unescaped := unescaped + "\\\n";
          } else if escaped == '\r' {
            assert s[2..] == Rest();
            PrependPrepend(unescaped, "\\\n", ValueTail(Rest()));
            unescaped := unescaped + "\\\n";
          } else {
            assert s[2..] == Rest();
            PrependPrepend(unescaped, ['\\', escaped], ValueTail(Rest()));
            unescaped := unescaped + ['\\', escaped];
          }
        }
      }
    }

    method ParsePropertyOpt() returns (r: Result<Option<Property>>)
      requires Valid()
      modifies this
      ensures Valid() && Outcome(r, Rest()) == PropertyOf(old(Rest()))
    {
      SkipWS();
      var ident := GetUpper();
      if ident == [] {
        return Success(None);
      }
      ghost var rest0 := Rest();
      var values: seq<string> := [];
      PrependNothing(ValuesOf(rest0));
      while true
        invariant Valid()
        invariant Prepend(values, ValuesOf(Rest())) == ValuesOf(rest0)
        decreases |sgf| - i
      {
        ghost var s := Rest();
        var v := ParsePropValue();
        if v.Failure? {
          return Failure(v.error);
        }
        SkipWS();
        if !(i < |sgf| && sgf[i] == '[') {
          values := values + [v.value];
          break;
        }
        PrependPrepend(values, [v.value], ValuesOf(Rest()));
        values := values + [v.value];
      }
      r := Success(Some(Property(ident, values)));
    }

    method ParseNode() returns (r: Result<seq<Property>>)
      requires Valid()
      modifies this
      ensures Valid() && Outcome(r, Rest()) == NodeOf(old(Rest()))
    {
      var m := Match(';');
      if m.Failure? {
        return Failure(m.error);
      }
      ghost var rest0 := Rest();
      var properties: seq<Property> := [];
      PrependNothing(PropsOf(rest0));
      while true
        invariant Valid()
        invariant Prepend(properties, PropsOf(Rest())) == PropsOf(rest0)
        decreases |sgf| - i
      {
        var prop := ParsePropertyOpt();
        if prop.Failure? {
          return Failure(prop.error);
        }
        if prop.value.None? {
          assert properties + [] == properties;
          break;
        }
        PrependPrepend(properties, [prop.value.value], PropsOf(Rest()));
        properties := properties + [prop.value.value];
      }
      r := Success(properties);
    }

    method ParseSequence() returns (r: Result<seq<seq<Property>>>)
      requires Valid()
      modifies this
      ensures Valid() && Outcome(r, Rest()) == NodesOf(old(Rest()))
    {
      var nodes: seq<seq<Property>> := [];
      PrependNothing(NodesOf(Rest()));
      while true
        invariant Valid()
        invariant Prepend(nodes, NodesOf(Rest())) == NodesOf(old(Rest()))
        decreases |sgf| - i
      {
        SkipWS();
        if !(i < |sgf| && sgf[i] == ';') {
          assert nodes + [] == nodes;
          break;
        }
        var node := ParseNode();
        if node.Failure? {
          return Failure(node.error);
        }
        PrependPrepend(nodes, [node.value], NodesOf(Rest()));
        nodes := nodes + [node.value];
      }
      r := Success(nodes);
    }

    method ParseGameTreeList() returns (r: Result<seq<GameTree>>)
      requires Valid()
      modifies this
      ensures Valid() && Outcome(r, Rest()) == TreesOf(old(Rest()))
      decreases |sgf| - i, 1
    {
      var gameTrees: seq<GameTree> := [];
      PrependNothing(TreesOf(Rest()));
      while true
        invariant Valid() && old(i) <= i
        invariant Prepend(gameTrees, TreesOf(Rest())) == TreesOf(old(Rest()))
        decreases |sgf| - i
      {
        SkipWS();
        if !(i < |sgf| && sgf[i] == '(') {
          assert gameTrees + [] == gameTrees;
          break;
        }
        var tree := ParseGameTree();
        if tree.Failure? {
          return Failure(tree.error);
        }
        PrependPrepend(gameTrees, [tree.value], TreesOf(Rest()));
        gameTrees := gameTrees + [tree.value];
      }
      r := Success(gameTrees);
    }

    method ParseGameTree() returns (r: Result<GameTree>)
      requires Valid()
      modifies this
      ensures Valid() && Outcome(r, Rest()) == TreeOf(old(Rest()))
      decreases |sgf| - i, 0
    {
      var open := Match('(');
      if open.Failure? {
        return Failure(open.error);
      }
      var nodes := ParseSequence();
      if nodes.Failure? {
        return Failure(nodes.error);
      }
      var subtrees := ParseGameTreeList();
      if subtrees.Failure? {
        return Failure(subtrees.error);
      }
      var close := Match(')');
      if close.Failure? {
        return Failure(close.error);
      }
      r := Success(GameTree(nodes.value, subtrees.value));
    }

    method ParseCollection() returns (r: Result<seq<GameTree>>)
      requires Valid()
      modifies this
      ensures Valid() && r == CollectionOf(old(Rest()))
    {
      var gameTrees := ParseGameTreeList();
      if gameTrees.Failure? {
        return Failure(gameTrees.error);
      }
      if |gameTrees.value| == 0 {
        return Failure(NO_GAME_TREE);
      }
      r := gameTrees;
    }
  }

  /** Reads the game trees of an SGF collection. */
  method ParseSGF(sgf: string) returns (r: Result<seq<GameTree>>)
    ensures r == CollectionOf(sgf)
  {
    var parser := new Parser(sgf);
    r := parser.ParseCollection();
  }

  // ---------------------------------------------------------------------
  // Printing, and reading back what was printed

  function ValueText(v: string): string {
    "[" + v + "]"
  }

  function ValuesText(vs: seq<string>): string {
    if vs == [] then "" else ValueText(vs[0]) + ValuesText(vs[1..])
  }

  function PropertyText(p: Property): string {
    p.ident + ValuesText(p.values)
  }

  function PropsText(ps: seq<Property>): string {
    if ps == [] then "" else PropertyText(ps[0]) + PropsText(ps[1..])
  }

  function NodesText(ns: seq<seq<Property>>): string {
    if ns == [] then "" else ";" + PropsText(ns[0]) + NodesText(ns[1..])
  }

  function TreeText(t: GameTree): string
    decreases t, 1
  {
    "(" + NodesText(t.nodes) + TreesText(t.subtrees) + ")"
  }

  function TreesText(ts: seq<GameTree>): string
    decreases ts, 0
  {
    if ts == [] then "" else TreeText(ts[0]) + TreesText(ts[1..])
  }

  lemma {:induction false} PropsTextConcat(a: seq<Property>, b: seq<Property>)
    ensures PropsText(a + b) == PropsText(a) + PropsText(b)
    decreases |a|
  {
    if a == [] {
      assert a + b == b;
    } else {
      assert (a + b)[1..] == a[1..] + b;
      PropsTextConcat(a[1..], b);
    }
  }

  lemma {:induction false} NodesTextConcat(a: seq<seq<Property>>, b: seq<seq<Property>>)
    ensures NodesText(a + b) == NodesText(a) + NodesText(b)
    decreases |a|
  {
    if a == [] {
      assert a + b == b;
    } else {
      assert (a + b)[1..] == a[1..] + b;
      NodesTextConcat(a[1..], b);
    }
  }

  lemma {:induction false} TreesTextConcat(a: seq<GameTree>, b: seq<GameTree>)
    ensures TreesText(a + b) == TreesText(a) + TreesText(b)
    decreases |a|
  {
    if a == [] {
      assert a + b == b;
    } else {
      assert (a + b)[1..] == a[1..] + b;
      TreesTextConcat(a[1..], b);
    }
  }

  /** A value with no closing bracket and no backslash is raw. */
  lemma {:induction false} PlainIsRaw(v: string)
    requires forall k | 0 <= k < |v| :: v[k] != ']' && v[k] != '\\'
    ensures RawValue(v)
    decreases |v|
  {
    if v != [] {
      PlainIsRaw(v[1..]);
    }
  }

  /**
   * A raw value the reader gives back unchanged: no bare closing bracket,
   * every backslash followed by a character, and no escaped line break
   * that the reader would normalise.
   */
  predicate RawValue(v: string)
    decreases |v|
  {
    if v == [] then true
    else if v[0] == ']' then false
    else if v[0] != '\\' then RawValue(v[1..])
    else |v| >= 2 && v[1] != '\r' && !(v[1] == '\n' && |v| >= 3 && v[2] == '\r') && RawValue(v[2..])
  }

  predicate WellFormedProperty(p: Property) {
    && p.ident != []
    && (forall k | 0 <= k < |p.ident| :: IsUpper(p.ident[k]))
    && p.values != []
    && (forall k | 0 <= k < |p.values| :: RawValue(p.values[k]))
  }

  predicate WellFormedNode(n: seq<Property>) {
    forall k | 0 <= k < |n| :: WellFormedProperty(n[k])
  }

  predicate WellFormedTree(t: GameTree)
    decreases t, 1
  {
    && (forall k | 0 <= k < |t.nodes| :: WellFormedNode(t.nodes[k]))
    && WellFormedTrees(t.subtrees)
  }

  predicate WellFormedTrees(ts: seq<GameTree>)
    decreases ts, 0
  {
    forall k | 0 <= k < |ts| :: WellFormedTree(ts[k])
  }

  /** What may follow the closing bracket of a last value without being read as more values. */
  predicate EndsValues(rest: string) {
    rest == [] || (!IsWhite(rest[0]) && rest[0] != '[')
  }

  /** What may follow a node: the next node, a tree opening or closing, or the end. */
  predicate EndsNode(rest: string) {
    rest == [] || rest[0] == ';' || rest[0] == '(' || rest[0] == ')'
  }

  predicate EndsNodes(rest: string) {
    rest == [] || rest[0] == '(' || rest[0] == ')'
  }

  predicate EndsTrees(rest: string) {
    rest == [] || rest[0] == ')'
  }

  lemma {:induction false} ValueTailRoundTrip(v: string, rest: string)
    requires RawValue(v)
    ensures ValueTail(v + "]" + rest) == Success((v, rest))
    decreases |v|
  {
    var s := v + "]" + rest;
    if v == [] {
      assert s == "]" + rest;
      assert s[1..] == rest;
    } else if v[0] != '\\' {
      assert s[1..] == v[1..] + "]" + rest;
      ValueTailRoundTrip(v[1..], rest);
      assert [v[0]] + v[1..] == v;
    } else {
      assert s[2..] == v[2..] + "]" + rest;
      assert s[1] == v[1];
      assert |v| == 2 ==> s[2] == ']';
      assert |v| > 2 ==> s[2] == v[2];
      ValueTailRoundTrip(v[2..], rest);
      assert ['\\', v[1]] + v[2..] == v;
    }
  }

  /** A value whose closing bracket never comes is an error. */
  lemma {:induction false} UnclosedValueRefused(v: string)
    requires RawValue(v)
    ensures ValueTail(v) == Failure(UNTERMINATED)
    decreases |v|
  {
    if v != [] {
      if v[0] != '\\' {
        UnclosedValueRefused(v[1..]);
      } else {
        UnclosedValueRefused(v[2..]);
      }
    }
  }

  lemma ValueRoundTrip(v: string, rest: string)
    requires RawValue(v)
    ensures ValueOf(ValueText(v) + rest) == Success((v, rest))
  {
    var s := ValueText(v) + rest;
    assert SkipWhite(s) == s;
    assert s[1..] == v + "]" + rest;
    ValueTailRoundTrip(v, rest);
  }

  lemma {:induction false} ValuesRoundTrip(vs: seq<string>, rest: string)
    requires vs != [] && forall k | 0 <= k < |vs| :: RawValue(vs[k])
    requires EndsValues(rest)
    ensures ValuesOf(ValuesText(vs) + rest) == Success((vs, rest))
    decreases |vs|
  {
    var tail := ValuesText(vs[1..]) + rest;
    assert ValuesText(vs) + rest == ValueText(vs[0]) + tail;
    ValueRoundTrip(vs[0], tail);
    if |vs| == 1 {
      assert tail == rest;
      assert SkipWhite(rest) == rest;
      assert [vs[0]] == vs;
    } else {
      assert tail[0] == '[';
      assert SkipWhite(tail) == tail;
      ValuesRoundTrip(vs[1..], rest);
      assert [vs[0]] + vs[1..] == vs;
    }
  }

  lemma {:induction false} UpperPrefixOf(ident: string, rest: string)
    requires forall k | 0 <= k < |ident| :: IsUpper(ident[k])
    requires rest == [] || !IsUpper(rest[0])
    ensures UpperPrefix(ident + rest) == (ident, rest)
    decreases |ident|
  {
    if ident == [] {
      assert ident + rest == rest;
    } else {
      assert (ident + rest)[1..] == ident[1..] + rest;
      UpperPrefixOf(ident[1..], rest);
      assert [ident[0]] + ident[1..] == ident;
    }
  }

  lemma PropertyRoundTrip(p: Property, rest: string)
    requires WellFormedProperty(p) && EndsValues(rest)
    ensures PropertyOf(PropertyText(p) + rest) == Success((Some(p), rest))
  {
    var tail := ValuesText(p.values) + rest;
    assert PropertyText(p) + rest == p.ident + tail;
    assert SkipWhite(p.ident + tail) == p.ident + tail;
    UpperPrefixOf(p.ident, tail);
    ValuesRoundTrip(p.values, rest);
  }

  lemma PropsTextCons(ps: seq<Property>, rest: string)
    requires ps != [] && WellFormedNode(ps) && EndsNode(rest)
    ensures PropsText(ps) + rest == PropertyText(ps[0]) + (PropsText(ps[1..]) + rest)
    ensures EndsValues(PropsText(ps[1..]) + rest)
  {
    var a := PropertyText(ps[0]);
    var b := PropsText(ps[1..]);
    Regroup(a, b, rest, []);
    assert PropsText(ps) + rest + [] == PropsText(ps) + rest;
    assert b + rest + [] == b + rest;
    if ps[1..] != [] {
      assert WellFormedProperty(ps[1]);
      assert b == ps[1].ident + ValuesText(ps[1].values) + PropsText(ps[2..]);
      assert (b + rest)[0] == ps[1].ident[0];
    } else {
      assert b + rest == rest;
    }
  }

  lemma {:induction false} PropsRoundTrip(ps: seq<Property>, rest: string)
    requires WellFormedNode(ps) && EndsNode(rest)
    ensures PropsOf(PropsText(ps) + rest) == Success((ps, rest))
    decreases |ps|
  {
    if ps == [] {
      assert PropsText(ps) + rest == rest;
      assert SkipWhite(rest) == rest;
      UpperPrefixOf([], rest);
    } else {
      var tail := PropsText(ps[1..]) + rest;
      PropsTextCons(ps, rest);
      PropertyRoundTrip(ps[0], tail);
      PropsRoundTrip(ps[1..], rest);
      assert [ps[0]] + ps[1..] == ps;
    }
  }

  lemma NodeRoundTrip(n: seq<Property>, rest: string)
    requires WellFormedNode(n) && EndsNode(rest)
    ensures NodeOf(";" + (PropsText(n) + rest)) == Success((n, rest))
  {
    var s := ";" + (PropsText(n) + rest);
    assert SkipWhite(s) == s;
    assert s[1..] == PropsText(n) + rest;
    PropsRoundTrip(n, rest);
  }

  lemma NodesTextCons(ns: seq<seq<Property>>, rest: string)
    requires ns != []
    ensures NodesText(ns) + rest == ";" + (PropsText(ns[0]) + (NodesText(ns[1..]) + rest))
  {
    Regroup(";", PropsText(ns[0]), NodesText(ns[1..]), rest);
  }

  lemma NodesTextEnds(ns: seq<seq<Property>>, rest: string)
    requires EndsNodes(rest)
    ensures EndsNode(NodesText(ns) + rest)
  {
    if ns != [] {
      assert (NodesText(ns) + rest)[0] == NodesText(ns)[0] == ';';
    } else {
      assert NodesText(ns) + rest == rest;
    }
  }

  /** No node is read where the node list ends. */
  lemma NoNodes(rest: string)
    requires EndsNodes(rest)
    ensures NodesOf(rest) == Success(([], rest))
  {
    assert SkipWhite(rest) == rest;
  }

  /** A printed node list is read one node, then the rest. */
  lemma NodesStep(ns: seq<seq<Property>>, rest: string)
    requires ns != [] && WellFormedNode(ns[0]) && EndsNodes(rest)
    ensures NodesOf(NodesText(ns) + rest) == Prepend([ns[0]], NodesOf(NodesText(ns[1..]) + rest))
  {
    var tail := NodesText(ns[1..]) + rest;
    var s := NodesText(ns) + rest;
    NodesTextCons(ns, rest);
    NodesTextEnds(ns[1..], rest);
    assert s[0] == ';' && SkipWhite(s) == s;
    NodeRoundTrip(ns[0], tail);
  }

  lemma {:induction false} NodesRoundTrip(ns: seq<seq<Property>>, rest: string)
    requires (forall k | 0 <= k < |ns| :: WellFormedNode(ns[k])) && EndsNodes(rest)
    ensures NodesOf(NodesText(ns) + rest) == Success((ns, rest))
    decreases |ns|
  {
    if ns == [] {
      NoNodes(rest);
      assert NodesText(ns) + rest == rest;
    } else {
      NodesStep(ns, rest);
      assert forall k | 0 <= k < |ns[1..]| :: WellFormedNode(ns[1..][k]) by {
        forall k | 0 <= k < |ns[1..]| ensures WellFormedNode(ns[1..][k]) {
          assert ns[1..][k] == ns[k + 1];
        }
      }
      NodesRoundTrip(ns[1..], rest);
      assert [ns[0]] + ns[1..] == ns;
    }
  }

  lemma ExpectFront(c: char, x: string)
    requires !IsWhite(c)
    ensures Expect([c] + x, c) == Success(((), x))
  {
    var s := [c] + x;
    assert SkipWhite(s) == s;
    assert s[1..] == x;
  }

  lemma TreeTextCons(t: GameTree, rest: string)
    ensures TreeText(t) + rest == "(" + (NodesText(t.nodes) + (TreesText(t.subtrees) + (")" + rest)))
  {
    var n := NodesText(t.nodes);
    var b := TreesText(t.subtrees);
    assert TreeText(t) == "(" + n + b + ")";
    assert ("(" + n + b + ")") + rest == "(" + (n + (b + (")" + rest)));
  }

  lemma TreesTextEnds(ts: seq<GameTree>, rest: string)
    requires rest != [] && rest[0] == ')'
    ensures EndsNodes(TreesText(ts) + rest)
  {
    if ts != [] {
      assert TreesText(ts) == TreeText(ts[0]) + TreesText(ts[1..]);
      assert (TreesText(ts) + rest)[0] == TreeText(ts[0])[0] == '(';
    } else {
      assert TreesText(ts) + rest == rest;
    }
  }

  lemma {:induction false} TreeRoundTrip(t: GameTree, rest: string)
    requires WellFormedTree(t)
    ensures TreeOf(TreeText(t) + rest) == Success((t, rest))
    decreases t, 1
  {
    var r3 := ")" + rest;
    var r2 := TreesText(t.subtrees) + r3;
    var r1 := NodesText(t.nodes) + r2;
    TreeTextCons(t, rest);
    ExpectFront('(', r1);
    TreesTextEnds(t.subtrees, r3);
    NodesRoundTrip(t.nodes, r2);
    TreesRoundTrip(t.subtrees, r3);
    ExpectFront(')', rest);
  }

  lemma TreesTextCons(ts: seq<GameTree>, rest: string)
    requires ts != []
    ensures TreesText(ts) + rest == TreeText(ts[0]) + (TreesText(ts[1..]) + rest)
    ensures (TreesText(ts) + rest)[0] == '('
  {
    var a := TreeText(ts[0]);
    assert a == "(" + NodesText(ts[0].nodes) + TreesText(ts[0].subtrees) + ")";
    assert a[0] == '(';
    Regroup(a, TreesText(ts[1..]), rest, []);
    assert TreesText(ts) + rest + [] == TreesText(ts) + rest;
    assert TreesText(ts[1..]) + rest + [] == TreesText(ts[1..]) + rest;
  }

  lemma {:induction false} TreesRoundTrip(ts: seq<GameTree>, rest: string)
    requires WellFormedTrees(ts) && EndsTrees(rest)
    ensures TreesOf(TreesText(ts) + rest) == Success((ts, rest))
    decreases ts, 0
  {
    if ts == [] {
      NoTrees(rest);
      assert TreesText(ts) + rest == rest;
    } else {
      TreeRoundTrip(ts[0], TreesText(ts[1..]) + rest);
      TreesStep(ts, rest);
      TreesRoundTrip(ts[1..], rest);
      assert [ts[0]] + ts[1..] == ts;
    }
  }

  /** No game tree is read where the list of trees ends. */
  lemma NoTrees(rest: string)
    requires EndsTrees(rest)
    ensures TreesOf(rest) == Success(([], rest))
  {
    assert SkipWhite(rest) == rest;
  }

  /** A printed list of game trees is read one tree, then the rest, once the first tree reads back. */
  lemma TreesStep(ts: seq<GameTree>, rest: string)
    requires ts != []
    requires TreeOf(TreeText(ts[0]) + (TreesText(ts[1..]) + rest)) == Success((ts[0], TreesText(ts[1..]) + rest))
    ensures TreesOf(TreesText(ts) + rest) == Prepend([ts[0]], TreesOf(TreesText(ts[1..]) + rest))
  {
    var s := TreesText(ts) + rest;
    TreesTextCons(ts, rest);
    assert SkipWhite(s) == s;
  }

  /** Reading a printed collection gives back its game trees. */
  lemma CollectionRoundTrip(ts: seq<GameTree>)
    requires ts != [] && WellFormedTrees(ts)
    ensures CollectionOf(TreesText(ts)) == Success(ts)
  {
    TreesRoundTrip(ts, "");
    assert TreesText(ts) + "" == TreesText(ts);
  }

  /** A text with no opening parenthesis after its leading whitespace is refused. */
  lemma NoTreeRefused(s: string)
    requires SkipWhite(s) == [] || SkipWhite(s)[0] != '('
    ensures CollectionOf(s) == Failure(NO_GAME_TREE)
  {
  }
}

/**
 * Reading the root node of an SGF record: `GM` must say 1 (the game of
 * Go), and `SZ` gives the board size, one number for a square board or
 * "columns:rows", each from 1 to 52; without `SZ` the board is 19 x 19.
 * The numbers are read the way JavaScript's `parseInt` reads them, so
 * leading blanks, a sign, a "0x" prefix and trailing garbage are all
 * accepted.
 */
module SgfRoot {
  import opened Wrappers
  import opened SgfPoints
  import Sgf = SgfParser
  import SgfExport
  import HistoryNodes
  import Geometry

  /** The board sizes a root can name: 1 to 52 columns and rows, each coordinate an SGF letter. */
  predicate SgfDims(w: int, h: int) {
    Geometry.Dims(w, h) && w <= 52 && h <= 52
  }

  // ----- parseInt -----

  /** The white space and line terminators `parseInt` skips before the number. */
  predicate IsJsSpace(c: char) {
    || c as int in {0x09, 0x0A, 0x0B, 0x0C, 0x0D, 0x20, 0xA0, 0x1680, 0x2028, 0x2029, 0x202F, 0x205F, 0x3000, 0xFEFF}
    || 0x2000 <= c as int <= 0x200A
  }

  function TrimStart(s: string): string {
    if s != [] && IsJsSpace(s[0]) then TrimStart(s[1..]) else s
  }

  /** The value of a digit in bases up to 36; 36 for a character that is no digit. */
  function DigitOf(c: char): int {
    if '0' <= c <= '9' then c as int - '0' as int
    else if 'a' <= c <= 'z' then c as int - 'a' as int + 10
    else if 'A' <= c <= 'Z' then c as int - 'A' as int + 10
    else 36
  }

  /** The number of digits of base `radix` at the front of `s`. */
  function DigitRun(s: string, radix: int): (n: nat)
    ensures n <= |s|
  {
    if s != [] && DigitOf(s[0]) < radix then 1 + DigitRun(s[1..], radix) else 0
  }

  /** The value of a string of digits of base `radix`, most significant first. */
  function DigitsValue(z: string, radix: int): int {
    if z == [] then 0 else DigitsValue(z[..|z| - 1], radix) * radix + DigitOf(z[|z| - 1])
  }

  /**
   * `parseInt(s)` with no radix: blanks skipped, an optional sign, base 16
   * after "0x" or "0X" and base 10 otherwise, then the longest run of
   * digits; None (NaN) when there is no digit.
   */
  function ParseInt(s: string): Option<int> {
    var t := TrimStart(s);
    var sign := if t != [] && t[0] == '-' then -1 else 1;
    var u := if t != [] && (t[0] == '-' || t[0] == '+') then t[1..] else t;
    var hex := |u| >= 2 && u[0] == '0' && (u[1] == 'x' || u[1] == 'X');
    var radix := if hex then 16 else 10;
    var v := if hex then u[2..] else u;
    var n := DigitRun(v, radix);
    if n == 0 then None else Some(sign * DigitsValue(v[..n], radix))
  }

  predicate IsDecimal(s: string) {
    forall k | 0 <= k < |s| :: '0' <= s[k] <= '9'
  }

  lemma {:induction false} DecimalRun(s: string)
    requires IsDecimal(s)
    ensures DigitRun(s, 10) == |s|
    decreases |s|
  {
    if s != [] {
      DecimalRun(s[1..]);
    }
  }

  /** A decimal number as the formatter writes it is read back by `parseInt`. */
  lemma {:induction false} NatTextValue(n: nat)
    ensures DigitsValue(SgfExport.NatText(n), 10) == n
    decreases n
  {
    var z := SgfExport.NatText(n);
    if n >= 10 {
      NatTextValue(n / 10);
      assert z[..|z| - 1] == SgfExport.NatText(n / 10);
    }
  }

  lemma ParseIntNatText(n: nat)
    ensures ParseInt(SgfExport.NatText(n)) == Some(n)
  {
    var z := SgfExport.NatText(n);
    assert TrimStart(z) == z;
    DecimalRun(z);
    assert z[..|z|] == z;
    NatTextValue(n);
  }

  /** `parseInt` skips leading blanks and stops at the first character that is not a digit. */
  lemma ParseIntSkipsAndStops()
    ensures ParseInt(" 19") == Some(19)
    ensures ParseInt("19x9") == Some(19)
  {
    assert TrimStart(" 19") == "19";
    assert DigitRun("19", 10) == 2 && DigitRun("19x9", 10) == 2;
    assert "19"[..2] == "19" && "19x9"[..2] == "19";
    assert "19"[..1] == "1" && "1"[..0] == [];
  }

  /** `parseInt` reads "0x" as a base-16 prefix and a leading minus as a sign. */
  lemma ParseIntHexAndSign()
    ensures ParseInt("0x13") == Some(19)
    ensures ParseInt("-5") == Some(-5)
  {
    assert "0x13"[2..] == "13";
    assert DigitRun("13", 16) == 2;
    assert "13"[..2] == "13" && "13"[..1] == "1" && "1"[..0] == [];
    assert "-5"[1..] == "5";
    assert DigitRun("5", 10) == 1;
    assert "5"[..1] == "5" && "5"[..0] == [];
  }

  /** Without a digit `parseInt` gives NaN. */
  lemma ParseIntNaN()
    ensures ParseInt("") == None && ParseInt("x") == None && ParseInt(" -") == None
  {
    assert TrimStart(" -") == "-";
    assert "-"[1..] == [];
  }

  // ----- composed values -----

  /**
   * A composed value split at its one unescaped colon, as
   * `SplitSGFCompose` splits it; a second unescaped colon is an error.
   */
  function ComposeParts(v: string): (r: Result<seq<string>>)
    ensures r.Success? ==> 1 <= |r.value| <= 2
  {
    var cs := UnescapedColons(v, 0);
    UnescapedColonsAreColons(v, 0);
    if |cs| >= 2 then Failure("Too many colon in compose value")
    else if |cs| == 0 then Success([v])
    else Success([v[..cs[0]], v[cs[0] + 1..]])
  }

  /** The board-size numbers of the parts, each read by `parseInt` and required to lie in 1-52. */
  function SizeNumbers(parts: seq<string>): (r: Result<seq<int>>)
    ensures r.Success? ==> |r.value| == |parts| && forall k | 0 <= k < |r.value| :: 1 <= r.value[k] <= 52
    ensures r.Success? ==> forall k | 0 <= k < |parts| :: ParseInt(parts[k]) == Some(r.value[k])
    ensures r.Failure? <==> exists k | 0 <= k < |parts| :: !(ParseInt(parts[k]).Some? && 1 <= ParseInt(parts[k]).value <= 52)
  {
    if parts == [] then Success([])
    else
      var n := ParseInt(parts[0]);
      if !(n.Some? && 1 <= n.value <= 52) then Failure("Invalid board size")
      else
        var rest :- SizeNumbers(parts[1..]);
        assert forall k | 1 <= k < |parts| :: parts[k] == parts[1..][k - 1];
        Success([n.value] + rest)
  }

  // ----- the root properties -----

  predicate SizeBounds(size: seq<int>) {
    1 <= |size| <= 2 && forall k | 0 <= k < |size| :: 1 <= size[k] <= 52
  }

  /**
   * The root properties scanned in order from the board size `size` found
   * so far: `GM` other than 1 is an error, `SZ` replaces the size (the last
   * one wins), anything else is skipped.
   */
  function RootScan(props: seq<Sgf.Property>, size: seq<int>): (r: Result<seq<int>>)
    ensures SizeBounds(size) && r.Success? ==> SizeBounds(r.value)
    decreases |props|
  {
    if props == [] then Success(size)
    else
      var p := props[0];
      if p.ident == "GM" && (p.values == [] || p.values[0] != "1") then Failure("Unsupported SGF : Not GM[1]")
      else if p.ident == "SZ" then
        if p.values == [] then Failure("Invalid board size")
        else
          var parts :- ComposeParts(p.values[0]);
          var bs :- SizeNumbers(parts);
          RootScan(props[1..], bs)
      else RootScan(props[1..], size)
  }

  /** The board's columns and rows named by the root node: 19 x 19 unless `SZ` says otherwise, a single number meaning a square. */
  function BoardSizeOf(root: seq<Sgf.Property>): (r: Result<(int, int)>)
    ensures r.Success? ==> SgfDims(r.value.0, r.value.1)
  {
    var bs :- RootScan(root, [19]);
    Success((bs[0], if |bs| >= 2 then bs[1] else bs[0]))
  }

  /** A root without `GM` and `SZ` is read as a 19 x 19 board. */
  predicate NoSizeProps(root: seq<Sgf.Property>) {
    forall k | 0 <= k < |root| :: root[k].ident != "GM" && root[k].ident != "SZ"
  }

  lemma {:induction false} NoSizeMeans19(root: seq<Sgf.Property>, size: seq<int>)
    requires NoSizeProps(root)
    ensures RootScan(root, size) == Success(size)
    decreases |root|
  {
    if root != [] {
      NoSizeMeans19(root[1..], size);
    }
  }

  lemma ParseIntEdges()
    ensures ParseInt("53") == Some(53) && ParseInt("0") == Some(0)
  {
    assert DigitRun("53", 10) == 2;
    assert "53"[..2] == "53" && "53"[..1] == "5" && "5"[..0] == [];
    assert DigitRun("0", 10) == 1;
    assert "0"[..1] == "0" && "0"[..0] == [];
  }

  /** `SZ` rejects a number outside 1-52. */
  lemma SizeOutOfRange(rest: seq<Sgf.Property>, size: seq<int>)
    ensures RootScan([Sgf.Property("SZ", ["53"])] + rest, size).Failure?
    ensures RootScan([Sgf.Property("SZ", ["0"])] + rest, size).Failure?
  {
    assert UnescapedColons("53", 0) == [];
    assert UnescapedColons("0", 0) == [];
    ParseIntEdges();
  }

  /** `SZ` rejects a value with two unescaped colons, and `GM` other than 1 is rejected. */
  lemma SizeTooManyPartsAndNotGo(rest: seq<Sgf.Property>, size: seq<int>)
    ensures RootScan([Sgf.Property("SZ", ["9:9:9"])] + rest, size).Failure?
    ensures RootScan([Sgf.Property("GM", ["2"])] + rest, size).Failure?
  {
    assert UnescapedColons("9:9:9", 0) == [1, 3] by {
      assert UnescapedColons("9:9:9", 5) == [];
      assert UnescapedColons("9:9:9", 3) == [3];
    }
  }

  // ----- the formatter's root read back -----

  /** Neither `GM` nor `SZ` is a game-information identifier. */
  predicate NoSizeIdent(ids: seq<string>) {
    forall k | 0 <= k < |ids| :: ids[k] != "GM" && ids[k] != "SZ"
  }

  lemma GameInfoIdsNoSize()
    ensures NoSizeIdent(SgfExport.GAME_INFO_IDS)
  {
    forall k | 0 <= k < |SgfExport.GAME_INFO_IDS| ensures SgfExport.GAME_INFO_IDS[k] != "GM" && SgfExport.GAME_INFO_IDS[k] != "SZ" {
      var id := SgfExport.GAME_INFO_IDS[k];
      assert id[0] != 'G' || id[1] != 'M';
      assert id[0] != 'S' || id[1] != 'Z';
    }
  }

  /** The game-information properties written for a node carry identifiers from the list given. */
  lemma {:induction false} InfoPropsIdents(props: map<string, HistoryNodes.Property>, ids: seq<string>)
    ensures forall k | 0 <= k < |SgfExport.InfoProps(props, ids)| :: SgfExport.InfoProps(props, ids)[k].ident in ids
    decreases |ids|
  {
    if ids != [] {
      InfoPropsIdents(props, ids[..|ids| - 1]);
    }
  }

  lemma {:induction false} DecimalColons(s: string, i: nat, j: nat)
    requires i <= j <= |s| && forall k | i <= k < j :: '0' <= s[k] <= '9'
    ensures UnescapedColons(s, i) == UnescapedColons(s, j)
    decreases j - i
  {
    if i < j {
      DecimalColons(s, i + 1, j);
    }
  }

  /** The game information the formatter writes holds neither `GM` nor `SZ`. */
  lemma InfoPropsNoSize(props: map<string, HistoryNodes.Property>)
    ensures NoSizeProps(SgfExport.InfoProps(props, SgfExport.GAME_INFO_IDS))
  {
    InfoPropsIdents(props, SgfExport.GAME_INFO_IDS);
    GameInfoIdsNoSize();
  }

  /** The board size as the formatter writes it splits into the one or two numbers it was written from. */
  lemma SizeTextParts(w: nat, h: nat)
    ensures w == h ==> ComposeParts(SgfExport.SizeText(w, h)) == Success([SgfExport.NatText(w)])
    ensures w != h ==> ComposeParts(SgfExport.SizeText(w, h)) == Success([SgfExport.NatText(w), SgfExport.NatText(h)])
  {
    var a, b := SgfExport.NatText(w), SgfExport.NatText(h);
    if w == h {
      DecimalColons(a, 0, |a|);
    } else {
      var s := a + ":" + b;
      DecimalColons(s, 0, |a|);
      DecimalColons(s, |a| + 1, |s|);
      assert UnescapedColons(s, |a|) == [|a|] + UnescapedColons(s, |a| + 1);
      assert s[..|a|] == a && s[|a| + 1..] == b;
    }
  }

  /** The formatter's `SZ` value reads back as the one or two numbers it was written from. */
  lemma SizeValueReadsBack(w: nat, h: nat)
    requires SgfDims(w, h)
    ensures ComposeParts(SgfExport.SizeText(w, h)).Success?
    ensures SizeNumbers(ComposeParts(SgfExport.SizeText(w, h)).value) == Success(if w == h then [w] else [w, h])
  {
    SizeTextParts(w, h);
    var a, b := SgfExport.NatText(w), SgfExport.NatText(h);
    if w == h {
      OneNumber(a, w);
    } else {
      TwoNumbers(a, b, w, h);
    }
  }

  lemma OneNumber(a: string, w: nat)
    requires a == SgfExport.NatText(w) && 1 <= w <= 52
    ensures SizeNumbers([a]) == Success([w])
  {
    ParseIntNatText(w);
    assert [a][1..] == [];
    assert SizeNumbers([]) == Success([]);
    assert [w] + [] == [w];
  }

  lemma TwoNumbers(a: string, b: string, w: nat, h: nat)
    requires a == SgfExport.NatText(w) && 1 <= w <= 52
    requires b == SgfExport.NatText(h) && 1 <= h <= 52
    ensures SizeNumbers([a, b]) == Success([w, h])
  {
    OneNumber(b, h);
    ParseIntNatText(w);
    assert [a, b][1..] == [b];
    assert [w] + [h] == [w, h];
  }

  /**
   * The formatter's root node reads back as the board it was written
   * for: `GM[1]`, then `SZ` with the size, then game information the
   * scan skips.
   */
  lemma ExportedRootReadsBack(node: HistoryNodes.Node, w: nat, h: nat)
    requires SgfDims(w, h)
    ensures BoardSizeOf(SgfExport.RootProps(node, w, h)) == Success((w, h))
  {
    var info := if node.props.Some? then SgfExport.InfoProps(node.props.value, SgfExport.GAME_INFO_IDS) else [];
    if node.props.Some? {
      InfoPropsNoSize(node.props.value);
    } else {
      assert NoSizeProps(info);
    }
    var bs := if w == h then [w] else [w, h];
    SizeValueReadsBack(w, h);
    NoSizeMeans19(info, bs);
    RootScanExported(SgfExport.RootProps(node, w, h), info, w, h, bs);
  }

  lemma RootScanExported(props: seq<Sgf.Property>, info: seq<Sgf.Property>, w: nat, h: nat, bs: seq<int>)
    requires props == [Sgf.Property("GM", ["1"]), Sgf.Property("SZ", [SgfExport.SizeText(w, h)])] + info
    requires ComposeParts(SgfExport.SizeText(w, h)).Success? && SizeNumbers(ComposeParts(SgfExport.SizeText(w, h)).value) == Success(bs)
    requires RootScan(info, bs) == Success(bs) && bs == (if w == h then [w] else [w, h])
    ensures BoardSizeOf(props) == Success((w, h))
  {
    assert props[1..] == [Sgf.Property("SZ", [SgfExport.SizeText(w, h)])] + info;
    assert props[1..][1..] == info;
    assert RootScan(props[1..], [19]) == RootScan(info, bs);
    assert RootScan(props, [19]) == RootScan(props[1..], [19]);
  }

  // ----- the program's loop over the root properties -----

  /** The program's loop over the root properties; the size is split by `SplitSGFCompose`. */
  method ReadBoardSize(root: seq<Sgf.Property>) returns (r: Result<(int, int)>)
    ensures r.Success? <==> BoardSizeOf(root).Success?
    ensures r.Success? ==> r.value == BoardSizeOf(root).value
  {
    var boardSize := [19];
    var i := 0;
    while i < |root|
      invariant 0 <= i <= |root| && SizeBounds(boardSize)
      invariant RootScan(root, [19]) == RootScan(root[i..], boardSize)
    {
      var property := root[i];
      assert root[i..][1..] == root[i + 1..];
      if property.ident == "GM" {
        if property.values == [] || property.values[0] != "1" {
          return Failure("Unsupported SGF : Not GM[1]");
        }
      } else if property.ident == "SZ" {
        if property.values == [] {
          return Failure("Invalid board size");
        }
        var parts := SplitSGFCompose(property.values[0]);
        UnescapedColonsAreColons(property.values[0], 0);
        if parts.Failure? {
          return Failure(parts.error);
        }
        assert parts == ComposeParts(property.values[0]);
        var bs := SizeNumbers(parts.value);
        if bs.Failure? {
          return Failure(bs.error);
        }
        boardSize := bs.value;
      }
      i := i + 1;
    }
    var w := boardSize[0];
    var h := if |boardSize| >= 2 then boardSize[1] else w;
    return Success((w, h));
  }
}

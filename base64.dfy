/**
 * The browser's `btoa`/`atob` on binary strings, written out as the
 * base 64 encoding of section 4 of RFC 4648, and the program's URL-safe
 * wrappers `btoaSafe`/`atobSafe`, which trade `+`, `/` and `=` for `-`,
 * `_` and `.` after encoding and back before decoding.
 */
module Base64 {
  import opened Wrappers
  import opened BitIo

  /** The character for a six-bit group: A-Z, a-z, 0-9, `+`, `/`. */
  function SextetChar(n: nat): char
    requires n < 64
  {
    if n < 26 then ('A' as int + n) as char
    else if n < 52 then ('a' as int + (n - 26)) as char
    else if n < 62 then ('0' as int + (n - 52)) as char
    else if n == 62 then '+'
    else '/'
  }

  /** The six-bit group a character stands for; `None` outside the alphabet. */
  function SextetOf(c: char): (r: Option<nat>)
    ensures r.Some? ==> r.value < 64 && SextetChar(r.value) == c
  {
    if 'A' <= c <= 'Z' then Some(c as int - 'A' as int)
    else if 'a' <= c <= 'z' then Some(c as int - 'a' as int + 26)
    else if '0' <= c <= '9' then Some(c as int - '0' as int + 52)
    else if c == '+' then Some(62)
    else if c == '/' then Some(63)
    else None
  }

  lemma SextetRoundTrip(n: nat)
    requires n < 64
    ensures SextetOf(SextetChar(n)) == Some(n)
  {
  }

  /** Three bytes as four characters. */
  function Quad(x: Byte, y: Byte, z: Byte): (r: string)
    ensures |r| == 4
  {
    [SextetChar(x / 4), SextetChar(x % 4 * 16 + y / 16), SextetChar(y % 16 * 4 + z / 64), SextetChar(z % 64)]
  }

  /** The last one or two bytes, padded with `=`. */
  function Tail(b: seq<Byte>): (r: string)
    requires 1 <= |b| <= 2
    ensures |r| == 4
  {
    if |b| == 1 then [SextetChar(b[0] / 4), SextetChar(b[0] % 4 * 16), '=', '=']
    else [SextetChar(b[0] / 4), SextetChar(b[0] % 4 * 16 + b[1] / 16), SextetChar(b[1] % 16 * 4), '=']
  }

  /** `btoa`: three bytes to four characters, the last group padded with `=`. */
  function Btoa(b: seq<Byte>): (r: string)
    ensures |r| == 4 * ((|b| + 2) / 3)
  {
    if |b| == 0 then []
    else if |b| < 3 then Tail(b)
    else Quad(b[0], b[1], b[2]) + Btoa(b[3..])
  }

  /** The bytes of one full group of four sextets. */
  function Group(s0: nat, s1: nat, s2: nat, s3: nat): seq<Byte>
    requires s0 < 64 && s1 < 64 && s2 < 64 && s3 < 64
  {
    [s0 * 4 + s1 / 16, s1 % 16 * 16 + s2 / 4, s2 % 4 * 64 + s3]
  }

  /**
   * `atob`: four characters to three bytes.  Padding may only close the
   * last group; the bits a padded group leaves over are dropped, and any
   * other character is an error.
   */
  function Atob(a: string): (r: Result<seq<Byte>>)
    decreases |a|
  {
    if |a| == 0 then Success([])
    else if |a| < 4 then Failure("InvalidCharacterError")
    else
      var c0, c1, c2, c3 := SextetOf(a[0]), SextetOf(a[1]), SextetOf(a[2]), SextetOf(a[3]);
      if c0.None? || c1.None? then Failure("InvalidCharacterError")
      else if |a| == 4 && a[2] == '=' && a[3] == '=' then
        Success([c0.value * 4 + c1.value / 16])
      else if c2.None? then Failure("InvalidCharacterError")
      else if |a| == 4 && a[3] == '=' then
        Success([c0.value * 4 + c1.value / 16, c1.value % 16 * 16 + c2.value / 4])
      else if c3.None? then Failure("InvalidCharacterError")
      else
        match Atob(a[4..])
        case Success(rest) => Success(Group(c0.value, c1.value, c2.value, c3.value) + rest)
        case Failure(e) => Failure(e)
  }

  lemma GroupRoundTrip(x: Byte, y: Byte, z: Byte)
    ensures Group(x / 4, x % 4 * 16 + y / 16, y % 16 * 4 + z / 64, z % 64) == [x, y, z]
  {
  }

  /** The padded last group decodes to its one or two bytes. */
  lemma TailRoundTrip(b: seq<Byte>)
    requires 1 <= |b| <= 2
    ensures Atob(Tail(b)) == Success(b)
  {
    SextetRoundTrip(b[0] / 4);
    if |b| == 2 {
      SextetRoundTrip(b[0] % 4 * 16 + b[1] / 16);
      SextetRoundTrip(b[1] % 16 * 4);
      assert Tail(b)[2] != '=';
      var c1 := b[0] % 4 * 16 + b[1] / 16;
      assert b[0] / 4 * 4 + c1 / 16 == b[0] && c1 % 16 * 16 + b[1] % 16 * 4 / 4 == b[1];
      assert b == [b[0], b[1]];
    } else {
      SextetRoundTrip(b[0] % 4 * 16);
      assert b == [b[0]];
    }
  }

  /** A full group decodes to its three bytes, ahead of the rest. */
  lemma QuadRoundTrip(x: Byte, y: Byte, z: Byte, rest: string, tail: seq<Byte>)
    requires Atob(rest) == Success(tail)
    ensures Atob(Quad(x, y, z) + rest) == Success([x, y, z] + tail)
  {
    var q := Quad(x, y, z);
    SextetRoundTrip(x / 4);
    SextetRoundTrip(x % 4 * 16 + y / 16);
    SextetRoundTrip(y % 16 * 4 + z / 64);
    SextetRoundTrip(z % 64);
    assert (q + rest)[4..] == rest;
    GroupRoundTrip(x, y, z);
  }

  /** Decoding what was encoded gives back the bytes. */
  lemma {:induction false} AtobBtoa(b: seq<Byte>)
    ensures Atob(Btoa(b)) == Success(b)
    decreases |b|
  {
    if |b| >= 3 {
      AtobBtoa(b[3..]);
      QuadRoundTrip(b[0], b[1], b[2], Btoa(b[3..]), b[3..]);
      assert b == [b[0], b[1], b[2]] + b[3..];
    } else if |b| > 0 {
      TailRoundTrip(b);
    }
  }

  /** The URL-safe substitution the program applies after `btoa`. */
  function SafeChar(c: char): char {
    if c == '+' then '-' else if c == '/' then '_' else if c == '=' then '.' else c
  }

  /** The substitution the program undoes before `atob`. */
  function UnsafeChar(c: char): char {
    if c == '-' then '+' else if c == '_' then '/' else if c == '.' then '=' else c
  }

  function MapChars(f: char -> char, s: string): (r: string)
    ensures |r| == |s| && forall i :: 0 <= i < |s| ==> r[i] == f(s[i])
  {
    if s == [] then [] else [f(s[0])] + MapChars(f, s[1..])
  }

  function BtoaSafe(b: seq<Byte>): string {
    MapChars(SafeChar, Btoa(b))
  }

  function AtobSafe(a: string): Result<seq<Byte>> {
    Atob(MapChars(UnsafeChar, a))
  }

  /** The characters `btoa` writes. */
  predicate InAlphabet(c: char) {
    SextetOf(c).Some? || c == '='
  }

  lemma {:induction false} BtoaAlphabet(b: seq<Byte>)
    ensures forall i :: 0 <= i < |Btoa(b)| ==> InAlphabet(Btoa(b)[i])
    decreases |b|
  {
    if |b| >= 3 {
      BtoaAlphabet(b[3..]);
      var q := Quad(b[0], b[1], b[2]);
      SextetRoundTrip(b[0] / 4);
      SextetRoundTrip(b[0] % 4 * 16 + b[1] / 16);
      SextetRoundTrip(b[1] % 16 * 4 + b[2] / 64);
      SextetRoundTrip(b[2] % 64);
      assert forall i :: 0 <= i < 4 ==> InAlphabet(q[i]);
    } else if |b| > 0 {
      SextetRoundTrip(b[0] / 4);
      if |b| == 2 {
        SextetRoundTrip(b[0] % 4 * 16 + b[1] / 16);
        SextetRoundTrip(b[1] % 16 * 4);
      } else {
        SextetRoundTrip(b[0] % 4 * 16);
      }
    }
  }

  /** The URL-safe encoding contains no `+`, `/` or `=`, so it can go in a URL unescaped. */
  lemma BtoaSafeIsUrlSafe(b: seq<Byte>)
    ensures forall i :: 0 <= i < |BtoaSafe(b)| ==> BtoaSafe(b)[i] !in "+/="
  {
  }

  /** The URL-safe decoding undoes the URL-safe encoding. */
  lemma AtobSafeBtoaSafe(b: seq<Byte>)
    ensures AtobSafe(BtoaSafe(b)) == Success(b)
  {
    var e := Btoa(b);
    BtoaAlphabet(b);
    assert MapChars(UnsafeChar, MapChars(SafeChar, e)) == e;
    AtobBtoa(b);
  }
}

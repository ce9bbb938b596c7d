/** str.strip, str.encode and bytes.decode, exact on ASCII text. */
module TextCodec {
  import opened Base64

  /** The ASCII characters str.strip() removes. */
  predicate IsPySpace(c: char) {
    c == ' ' || 9 as char <= c <= 13 as char || 28 as char <= c <= 31 as char
  }

  function StripLeft(s: string): string {
    if s != "" && IsPySpace(s[0]) then StripLeft(s[1..]) else s
  }

  function StripRight(s: string): string {
    if s != "" && IsPySpace(s[|s| - 1]) then StripRight(s[..|s| - 1]) else s
  }

  function Strip(s: string): string {
    StripRight(StripLeft(s))
  }

  predicate IsAscii(s: string) {
    forall i :: 0 <= i < |s| ==> s[i] < 128 as char
  }

  function Utf8Char(c: char): seq<Byte> {
    var n := c as int;
    if n < 0x80 then [n]
    else if n < 0x800 then [0xC0 + n / 0x40, 0x80 + n % 0x40]
    else if n < 0x1_0000 then [0xE0 + n / 0x1000, 0x80 + n / 0x40 % 0x40, 0x80 + n % 0x40]
    else [0xF0 + n / 0x4_0000, 0x80 + n / 0x1000 % 0x40, 0x80 + n / 0x40 % 0x40, 0x80 + n % 0x40]
  }

  /** str.encode(). */
  function Utf8(s: string): seq<Byte> {
    if s == "" then [] else Utf8Char(s[0]) + Utf8(s[1..])
  }

  /** bytes.decode("utf-8", errors="replace"), exact on ASCII: here every other byte becomes
      a replacement character of its own. */
  function Text(b: seq<Byte>): string {
    if b == [] then "" else [if b[0] < 128 then b[0] as char else '\U{FFFD}'] + Text(b[1..])
  }

  lemma {:induction false} TextOfAscii(s: string)
    requires IsAscii(s)
    ensures Text(Utf8(s)) == s
    ensures |Utf8(s)| == |s| && forall i :: 0 <= i < |s| ==> Utf8(s)[i] == s[i] as int
  {
    if s != "" {
      TextOfAscii(s[1..]);
      assert Utf8(s)[1..] == Utf8(s[1..]);
    }
  }

  lemma {:induction false} Utf8Append(a: string, b: string)
    ensures Utf8(a + b) == Utf8(a) + Utf8(b)
  {
    if a == "" {
      assert a + b == b;
    } else {
      assert (a + b)[1..] == a[1..] + b;
      Utf8Append(a[1..], b);
    }
  }

  lemma StripTrimmed(s: string)
    requires s == "" || (!IsPySpace(s[0]) && !IsPySpace(s[|s| - 1]))
    ensures Strip(s) == s
  {
  }

  predicate Trimmed(s: string) {
    s == "" || (!IsPySpace(s[0]) && !IsPySpace(s[|s| - 1]))
  }

  lemma {:induction false} StripLeftShape(s: string)
    ensures |StripLeft(s)| <= |s| && (StripLeft(s) == "" || !IsPySpace(StripLeft(s)[0]))
  {
    if s != "" && IsPySpace(s[0]) {
      StripLeftShape(s[1..]);
    }
  }

  lemma {:induction false} StripRightShape(s: string)
    requires s == "" || !IsPySpace(s[0])
    ensures |StripRight(s)| <= |s| && Trimmed(StripRight(s))
  {
    if s != "" && IsPySpace(s[|s| - 1]) {
      StripRightShape(s[..|s| - 1]);
    }
  }

  lemma StripShape(s: string)
    ensures |Strip(s)| <= |s| && Trimmed(Strip(s)) && Strip(Strip(s)) == Strip(s)
  {
    StripLeftShape(s);
    StripRightShape(StripLeft(s));
    StripTrimmed(Strip(s));
  }

  lemma {:induction false} TextLength(b: seq<Byte>)
    ensures |Text(b)| == |b|
  {
    if b != [] {
      TextLength(b[1..]);
    }
  }

  predicate Blank(s: string) {
    forall i :: 0 <= i < |s| ==> IsPySpace(s[i])
  }

  lemma {:induction false} StripLeftCuts(s: string) returns (before: string)
    ensures s == before + StripLeft(s) && Blank(before)
  {
    before := "";
    if s != "" && IsPySpace(s[0]) {
      var rest := StripLeftCuts(s[1..]);
      before := [s[0]] + rest;
    }
  }

  lemma {:induction false} StripRightCuts(s: string) returns (after: string)
    ensures s == StripRight(s) + after && Blank(after)
  {
    after := "";
    if s != "" && IsPySpace(s[|s| - 1]) {
      var rest := StripRightCuts(s[..|s| - 1]);
      after := rest + [s[|s| - 1]];
    }
  }

  /** Stripping takes spaces off both ends, all of them and nothing else. */
  lemma StripIsExact(s: string)
    ensures Trimmed(Strip(s))
    ensures exists before, after :: Blank(before) && Blank(after) && s == before + Strip(s) + after
  {
    StripShape(s);
    var before := StripLeftCuts(s);
    var after := StripRightCuts(StripLeft(s));
    assert s == before + Strip(s) + after;
  }
}

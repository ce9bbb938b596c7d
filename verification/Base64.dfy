/** RFC 4648 base64 as the two runtimes implement it: Python's base64 module (whose
    default decoder skips characters outside the alphabet) and the browser's atob. */
module Base64 {
  import opened Wrappers

  type Byte = x: int | 0 <= x < 256

  type Sextet = x: int | 0 <= x < 64

  // ---- the alphabets (sections 4 and 5) ----------------------------------

  function Letter(v: Sextet): char {
    if v < 26 then 'A' + v as char
    else if v < 52 then 'a' + (v - 26) as char
    else if v < 62 then '0' + (v - 52) as char
    else if v == 62 then '+'
    else '/'
  }

  function Value(c: char): Option<Sextet> {
    if 'A' <= c <= 'Z' then Some((c - 'A') as int)
    else if 'a' <= c <= 'z' then Some((c - 'a') as int + 26)
    else if '0' <= c <= '9' then Some((c - '0') as int + 52)
    else if c == '+' then Some(62)
    else if c == '/' then Some(63)
    else None
  }

  lemma ValueOfLetter(v: Sextet)
    ensures Value(Letter(v)) == Some(v) && Letter(v) != '='
  {
  }

  ghost predicate InAlphabet(s: string) {
    forall i :: 0 <= i < |s| ==> Value(s[i]).Some?
  }

  function ToUrlSafe(c: char): char {
    if c == '+' then '-' else if c == '/' then '_' else c
  }

  function FromUrlSafe(c: char): char {
    if c == '-' then '+' else if c == '_' then '/' else c
  }

  function MapChars(f: char -> char, s: string): (t: string)
    ensures |t| == |s| && forall i :: 0 <= i < |s| ==> t[i] == f(s[i])
  {
    if s == "" then "" else [f(s[0])] + MapChars(f, s[1..])
  }

  // ---- six-bit groups ------------------------------------------------------

  function Six0(a: Byte): Sextet { a as int / 4 }

  function Six1(a: Byte, b: Byte): Sextet { a as int % 4 * 16 + b as int / 16 }

  function Six2(b: Byte, c: Byte): Sextet { b as int % 16 * 4 + c as int / 64 }

  function Six3(c: Byte): Sextet { c as int % 64 }

  function Byte0(v: Sextet, w: Sextet): Byte { v as int * 4 + w as int / 16 }

  function Byte1(w: Sextet, x: Sextet): Byte { w as int % 16 * 16 + x as int / 4 }

  function Byte2(x: Sextet, y: Sextet): Byte { x as int % 4 * 64 + y as int }

  lemma BlockRoundTrip(a: Byte, b: Byte, c: Byte)
    ensures Byte0(Six0(a), Six1(a, b)) == a
    ensures Byte1(Six1(a, b), Six2(b, c)) == b
    ensures Byte2(Six2(b, c), Six3(c)) == c
  {
  }

  /** The input in six-bit groups, the last one filled up with zero bits. */
  function Sextets(b: seq<Byte>): seq<Sextet> {
    if |b| == 0 then []
    else if |b| == 1 then [Six0(b[0]), Six1(b[0], 0)]
    else if |b| == 2 then [Six0(b[0]), Six1(b[0], b[1]), Six2(b[1], 0)]
    else [Six0(b[0]), Six1(b[0], b[1]), Six2(b[1], b[2]), Six3(b[2])] + Sextets(b[3..])
  }

  /** Whole quads give three bytes; a tail of two or three groups gives one or two,
      its spare bits dropped. */
  function Bits(v: seq<Sextet>): seq<Byte> {
    if |v| < 2 then []
    else if |v| == 2 then [Byte0(v[0], v[1])]
    else if |v| == 3 then [Byte0(v[0], v[1]), Byte1(v[1], v[2])]
    else [Byte0(v[0], v[1]), Byte1(v[1], v[2]), Byte2(v[2], v[3])] + Bits(v[4..])
  }

  // ---- encoding and padding (section 3.2) -----------------------------------

  function Pads(n: nat): string {
    seq(n, _ => '=')
  }

  /** `-len % 4`, Python's modulus. */
  function PyPad(n: nat): nat {
    (-(n as int)) % 4
  }

  /** `(4 - (len % 4)) % 4`, the formula of the middleware and of raw_connection_id. */
  function JsPad(n: nat): nat {
    (4 - n % 4) % 4
  }

  /** `pads` completes a text of `n` letters to whole quads. */
  predicate Completes(n: nat, pads: nat) {
    pads < 4 && (n + pads) % 4 == 0
  }

  lemma FourTimes(a: int, q: int, r: int)
    requires a == 4 * q + r && 0 <= r < 4
    ensures a % 4 == r
  {
  }

  lemma DifferenceOfFours(a: int, b: int)
    requires a % 4 == 0
    ensures (a - b) % 4 == 0 <==> b % 4 == 0
  {
    var (q, r) := (b / 4, b % 4);
    assert a == 4 * (a / 4) && b == 4 * q + r;
    if r == 0 {
      FourTimes(a - b, a / 4 - q, 0);
    } else {
      FourTimes(a - b, a / 4 - q - 1, 4 - r);
    }
  }

  lemma PaddingFormulasAgree(n: nat)
    ensures PyPad(n) == JsPad(n) && Completes(n, PyPad(n))
  {
    var (q, r) := (n / 4, n % 4);
    if r == 0 {
      FourTimes(-(n as int), -q, 0);
      FourTimes(4 - r, 1, 0);
      FourTimes(n + 0, q, 0);
    } else {
      FourTimes(-(n as int), -q - 1, 4 - r);
      FourTimes(4 - r, 0, 4 - r);
      FourTimes(n + (4 - r), q + 1, 0);
    }
  }

  lemma PaddingIsUnique(n: nat, p: nat)
    requires Completes(n, p)
    ensures p == PyPad(n)
  {
    PaddingFormulasAgree(n);
    hide PyPad;
    var p' := PyPad(n);
    assert n + p == 4 * ((n + p) / 4) && n + p' == 4 * ((n + p') / 4);
  }

  function Letters(v: seq<Sextet>): string {
    if v == [] then "" else [Letter(v[0])] + Letters(v[1..])
  }

  function Encode(b: seq<Byte>): string {
    Letters(Sextets(b)) + Pads(PyPad(|Sextets(b)|))
  }

  function UrlSafeEncode(b: seq<Byte>): string {
    MapChars(ToUrlSafe, Encode(b))
  }

  /** str.rstrip("="). */
  function StripPads(s: string): string {
    if s != "" && s[|s| - 1] == '=' then StripPads(s[..|s| - 1]) else s
  }

  // ---- Python: binascii.a2b_base64, non-strict ------------------------------

  /** The decoder's state: position in the quad, the letter before this one, and the
      '=' signs seen since the last letter. */
  datatype Quad = Quad(pos: nat, last: Sextet, pads: nat)

  function Absorb(q: Quad, v: Sextet): (seq<Byte>, Quad) {
    if q.pos == 0 then ([], Quad(1, v, 0))
    else if q.pos == 1 then ([Byte0(q.last, v)], Quad(2, v, 0))
    else if q.pos == 2 then ([Byte1(q.last, v)], Quad(3, v, 0))
    else ([Byte2(q.last, v)], Quad(0, 0, 0))
  }

  function Prepend(out: seq<Byte>, r: Option<seq<Byte>>): Option<seq<Byte>> {
    match r
    case None => None
    case Some(rest) => Some(out + rest)
  }

  function PyDecodeFrom(s: string, q: Quad): Option<seq<Byte>> {
    if s == "" then
      if q.pos == 0 then Some([]) else None
    else if s[0] == '=' then
      if q.pos >= 2 && q.pos + q.pads + 1 >= 4 then Some([])
      else PyDecodeFrom(s[1..], if q.pos >= 2 then q.(pads := q.pads + 1) else q)
    else match Value(s[0])
      case None => PyDecodeFrom(s[1..], q)
      case Some(v) => Prepend(Absorb(q, v).0, PyDecodeFrom(s[1..], Absorb(q, v).1))
  }

  function PyDecode(s: string): Option<seq<Byte>> {
    PyDecodeFrom(s, Quad(0, 0, 0))
  }

  function UrlSafeDecode(s: string): Option<seq<Byte>> {
    PyDecode(MapChars(FromUrlSafe, s))
  }

  // ---- the browser: atob ------------------------------------------------------

  predicate IsAsciiSpace(c: char) {
    c == ' ' || c == '\t' || c == '\n' || c == '\r' || c == 12 as char
  }

  function DropSpaces(s: string): string {
    if s == "" then "" else (if IsAsciiSpace(s[0]) then "" else [s[0]]) + DropSpaces(s[1..])
  }

  /** Up to two trailing '=' go, when the length is a multiple of four. */
  function DropPads(s: string): string {
    if |s| % 4 == 0 && |s| >= 2 && s[|s| - 1] == '=' then
      if s[|s| - 2] == '=' then s[..|s| - 2] else s[..|s| - 1]
    else s
  }

  function Values(s: string): Option<seq<Sextet>> {
    if s == "" then Some([])
    else match (Value(s[0]), Values(s[1..]))
      case (Some(v), Some(rest)) => Some([v] + rest)
      case _ => None
  }

  function AtobData(data: string): Option<seq<Byte>> {
    if |data| % 4 == 1 then None
    else match Values(data)
      case None => None
      case Some(v) => Some(Bits(v))
  }

  function Atob(s: string): Option<seq<Byte>> {
    AtobData(DropPads(DropSpaces(s)))
  }

  /** What the middleware feeds to atob. */
  function JsDecode(token: string): Option<seq<Byte>> {
    Atob(MapChars(FromUrlSafe, token) + Pads(JsPad(|token|)))
  }

  // ---- Python's decoder on padded text --------------------------------------

  lemma {:induction false} ValuesTotal(s: string)
    ensures Values(s).Some? <==> InAlphabet(s)
    ensures Values(s).Some? ==> |Values(s).value| == |s| && forall i :: 0 <= i < |s| ==> Value(s[i]) == Some(Values(s).value[i])
  {
    hide Value;
    if s != "" {
      ValuesTotal(s[1..]);
      if Values(s[1..]).None? {
        var i :| 0 <= i < |s[1..]| && Value(s[1..][i]).None?;
        assert Value(s[i + 1]).None?;
      }
    }
  }

  lemma PrependTwice(a: seq<Byte>, b: seq<Byte>, r: Option<seq<Byte>>)
    ensures Prepend(a, Prepend(b, r)) == Prepend(a + b, r)
  {
    if r.Some? {
      assert a + (b + r.value) == (a + b) + r.value;
    }
  }

  /** One letter in front of `s`. */
  lemma OneLetter(c: char, s: string, q: Quad)
    requires Value(c).Some?
    ensures PyDecodeFrom([c] + s, q)
            == Prepend(Absorb(q, Value(c).value).0, PyDecodeFrom(s, Absorb(q, Value(c).value).1))
  {
    assert Value(c).Some? ==> c != '=';
    assert ([c] + s)[1..] == s;
  }

  /** Two letters, three letters: the decoder stands inside the quad. */
  lemma TwoLetters(a: char, b: char, s: string)
    requires Value(a).Some? && Value(b).Some?
    ensures var (v, w) := (Value(a).value, Value(b).value);
            PyDecode([a] + ([b] + s)) == Prepend([Byte0(v, w)], PyDecodeFrom(s, Quad(2, w, 0)))
  {
    hide Value, Byte0, PyDecodeFrom;
    var (v, w) := (Value(a).value, Value(b).value);
    OneLetter(a, [b] + s, Quad(0, 0, 0));
    OneLetter(b, s, Quad(1, v, 0));
    PrependTwice([], [Byte0(v, w)], PyDecodeFrom(s, Quad(2, w, 0)));
    assert [] + [Byte0(v, w)] == [Byte0(v, w)];
  }

  lemma ThreeLetters(a: char, b: char, c: char, s: string)
    requires Value(a).Some? && Value(b).Some? && Value(c).Some?
    ensures var (v, w, x) := (Value(a).value, Value(b).value, Value(c).value);
            PyDecode([a] + ([b] + ([c] + s))) == Prepend([Byte0(v, w), Byte1(w, x)], PyDecodeFrom(s, Quad(3, x, 0)))
  {
    hide Value, Byte0, Byte1, PyDecodeFrom;
    var (v, w, x) := (Value(a).value, Value(b).value, Value(c).value);
    TwoLetters(a, b, [c] + s);
    OneLetter(c, s, Quad(2, w, 0));
    PrependTwice([Byte0(v, w)], [Byte1(w, x)], PyDecodeFrom(s, Quad(3, x, 0)));
    assert [Byte0(v, w)] + [Byte1(w, x)] == [Byte0(v, w), Byte1(w, x)];
  }

  lemma FourLetters(a: char, b: char, c: char, d: char, s: string)
    requires Value(a).Some? && Value(b).Some? && Value(c).Some? && Value(d).Some?
    ensures var (v, w, x, y) := (Value(a).value, Value(b).value, Value(c).value, Value(d).value);
            PyDecode([a] + ([b] + ([c] + ([d] + s)))) == Prepend([Byte0(v, w), Byte1(w, x), Byte2(x, y)], PyDecode(s))
  {
    hide Value, Byte0, Byte1, Byte2, PyDecodeFrom;
    var (v, w, x, y) := (Value(a).value, Value(b).value, Value(c).value, Value(d).value);
    ThreeLetters(a, b, c, [d] + s);
    OneLetter(d, s, Quad(3, x, 0));
    PrependTwice([Byte0(v, w), Byte1(w, x)], [Byte2(x, y)], PyDecode(s));
    assert [Byte0(v, w), Byte1(w, x)] + [Byte2(x, y)] == [Byte0(v, w), Byte1(w, x), Byte2(x, y)];
  }

  /** What the decoder makes of the pads after one, two or three letters. */
  lemma PadsAlone(last: Sextet)
    ensures PyDecodeFrom("===", Quad(1, last, 0)) == None
    ensures PyDecodeFrom("==", Quad(2, last, 0)) == Some([])
    ensures PyDecodeFrom("=", Quad(3, last, 0)) == Some([])
  {
    assert "==="[1..] == "==" && "=="[1..] == "=" && "="[1..] == "";
    assert PyDecodeFrom("=", Quad(1, last, 0)) == None && PyDecodeFrom("==", Quad(1, last, 0)) == None;
    assert PyDecodeFrom("=", Quad(2, last, 1)) == Some([]);
  }

  lemma ShortText(s: string, pads: nat)
    requires InAlphabet(s) && (|s| + pads == 4 || (s == "" && pads == 0)) && pads < 4
    ensures Values(s).Some?
    ensures PyDecode(s + Pads(pads)) == if pads == 3 then None else Some(Bits(Values(s).value))
  {
    hide Value, Byte0, Byte1, Byte2, PyDecodeFrom, Values;
    ValuesTotal(s);
    var t, v := s + Pads(pads), Values(s).value;
    match pads {
      case 0 =>
        if s == "" {
          EmptyText();
          assert t == "" && Bits(v) == [];
        } else {
          FourLetters(s[0], s[1], s[2], s[3], "");
          EmptyText();
          assert t == [s[0]] + ([s[1]] + ([s[2]] + ([s[3]] + "")));
          assert v[4..] == [] && Bits(v) == [Byte0(v[0], v[1]), Byte1(v[1], v[2]), Byte2(v[2], v[3])] + [];
        }
      case 1 =>
        ThreeLetters(s[0], s[1], s[2], "=");
        PadsAlone(v[2]);
        assert t == [s[0]] + ([s[1]] + ([s[2]] + "=")) && Bits(v) + [] == Bits(v);
      case 2 =>
        TwoLetters(s[0], s[1], "==");
        PadsAlone(v[1]);
        assert t == [s[0]] + ([s[1]] + "==") && Bits(v) + [] == Bits(v);
      case _ =>
        OneLetter(s[0], "===", Quad(0, 0, 0));
        PadsAlone(v[0]);
        assert t == [s[0]] + "===";
    }
  }

  lemma EmptyText()
    ensures PyDecode("") == Some([]) && Values("") == Some([])
  {
  }

  /** Python's decoder on alphabet text followed by its padding: the block decoding of
      the text, or an error when one letter is left over. */
  lemma {:induction false} PyDecodeText(s: string, pads: nat)
    requires InAlphabet(s) && Completes(|s|, pads)
    ensures Values(s).Some?
    ensures PyDecode(s + Pads(pads)) == if pads == 3 then None else Some(Bits(Values(s).value))
    decreases |s|
  {
    hide Value, Byte0, Byte1, Byte2, PyDecodeFrom, Values;
    if |s| <= 4 && |s| + pads <= 4 {
      ShortText(s, pads);
    } else {
      ValuesTotal(s);
      ValuesTotal(s[4..]);
      PyDecodeText(s[4..], pads);
      FourLetters(s[0], s[1], s[2], s[3], s[4..] + Pads(pads));
      assert s + Pads(pads) == [s[0]] + ([s[1]] + ([s[2]] + ([s[3]] + (s[4..] + Pads(pads)))));
      assert Values(s).value[4..] == Values(s[4..]).value;
    }
  }

  // ---- round trips ---------------------------------------------------------

  lemma {:induction false} BitsOfSextets(b: seq<Byte>)
    ensures Bits(Sextets(b)) == b && |Sextets(b)| % 4 != 1
    decreases |b|
  {
    hide Six0, Six1, Six2, Six3, Byte0, Byte1, Byte2;
    if |b| >= 3 {
      BitsOfSextets(b[3..]);
      BlockRoundTrip(b[0], b[1], b[2]);
      assert Sextets(b)[4..] == Sextets(b[3..]);
      assert b == [b[0], b[1], b[2]] + b[3..];
    } else if |b| == 2 {
      BlockRoundTrip(b[0], b[1], 0);
      assert b == [b[0], b[1]];
    } else if |b| == 1 {
      BlockRoundTrip(b[0], 0, 0);
      assert b == [b[0]];
    }
  }

  lemma {:induction false} ValuesOfLetters(v: seq<Sextet>)
    ensures Values(Letters(v)) == Some(v) && InAlphabet(Letters(v)) && |Letters(v)| == |v|
  {
    hide Value, Letter;
    if v != [] {
      ValueOfLetter(v[0]);
      ValuesOfLetters(v[1..]);
      assert Letters(v)[1..] == Letters(v[1..]);
      assert [v[0]] + v[1..] == v;
    }
    ValuesTotal(Letters(v));
  }

  /** A text of |v| letters never needs three pads unless it has one letter too many. */
  lemma NotThreePads(n: nat)
    ensures PyPad(n) == 3 <==> n % 4 == 1
  {
  }

  lemma EncodeThenPyDecode(b: seq<Byte>)
    ensures PyDecode(Encode(b)) == Some(b)
  {
    hide PyPad, Letters, Values, Bits, PyDecode;
    var v := Sextets(b);
    BitsOfSextets(b);
    ValuesOfLetters(v);
    PaddingFormulasAgree(|v|);
    NotThreePads(|v|);
    PyDecodeText(Letters(v), PyPad(|v|));
  }

  lemma {:induction false} StripPadsOfText(s: string, n: nat)
    requires forall i :: 0 <= i < |s| ==> s[i] != '='
    ensures StripPads(s + Pads(n)) == s
  {
    if n == 0 {
      assert s + Pads(n) == s;
    } else {
      assert (s + Pads(n))[..|s| + n - 1] == s + Pads(n - 1);
      StripPadsOfText(s, n - 1);
    }
  }

  ghost predicate NoSpaces(s: string) {
    forall i :: 0 <= i < |s| ==> !IsAsciiSpace(s[i])
  }

  lemma MapKeepsPads(token: string, n: nat)
    ensures MapChars(FromUrlSafe, token + Pads(n)) == MapChars(FromUrlSafe, token) + Pads(n)
  {
  }

  lemma UrlSafeLetter(c: char)
    requires Value(c).Some?
    ensures FromUrlSafe(ToUrlSafe(c)) == c && ToUrlSafe(c) != '=' && !IsAsciiSpace(ToUrlSafe(c)) && !IsAsciiSpace(c)
  {
  }

  /** The token a cookie carries: the URL-safe letters, without padding. */
  lemma TokenShape(b: seq<Byte>)
    ensures var token := StripPads(UrlSafeEncode(b));
            MapChars(FromUrlSafe, token) == Letters(Sextets(b)) && NoSpaces(token)
  {
    hide Value, ToUrlSafe, FromUrlSafe, IsAsciiSpace, Letters, Sextets, PyPad, StripPads;
    var text, n := Letters(Sextets(b)), PyPad(|Sextets(b)|);
    ValuesOfLetters(Sextets(b));
    var token := MapChars(ToUrlSafe, text);
    forall i | 0 <= i < |text|
      ensures FromUrlSafe(token[i]) == text[i] && token[i] != '=' && !IsAsciiSpace(token[i])
    {
      UrlSafeLetter(text[i]);
    }
    PadsAreUrlSafe();
    assert MapChars(ToUrlSafe, text + Pads(n)) == token + Pads(n);
    StripPadsOfText(token, n);
  }

  lemma PadsAreUrlSafe()
    ensures ToUrlSafe('=') == '='
  {
  }

  /** Strip the padding, put it back by either formula, decode by either runtime. */
  lemma TokenRoundTrip(b: seq<Byte>)
    ensures var token := StripPads(UrlSafeEncode(b));
            && UrlSafeDecode(token + Pads(PyPad(|token|))) == Some(b)
            && JsDecode(token) == Some(b)
  {
    hide PyPad, Letters, Sextets, Values, Bits, StripPads, PyDecode, Atob, UrlSafeEncode;
    var token, v := StripPads(UrlSafeEncode(b)), Sextets(b);
    TokenShape(b);
    BitsOfSextets(b);
    ValuesOfLetters(v);
    PaddingFormulasAgree(|token|);
    NotThreePads(|token|);
    MapKeepsPads(token, PyPad(|token|));
    PyDecodeText(Letters(v), PyPad(|token|));
    AtobOfText(Letters(v), PyPad(|token|));
  }

  // ---- the two decoders compared ----------------------------------------------

  lemma {:induction false} DropSpacesIdentity(s: string)
    requires NoSpaces(s)
    ensures DropSpaces(s) == s
  {
    if s != "" {
      DropSpacesIdentity(s[1..]);
    }
  }

  lemma DropPadsOfText(s: string, n: nat)
    requires Completes(|s|, n) && (s == "" || s[|s| - 1] != '=')
    ensures DropPads(s + Pads(n)) == if n == 3 then s + "=" else s
  {
    var t := s + Pads(n);
    match n {
      case 0 => assert t == s;
      case 1 => assert t[..|t| - 1] == s;
      case 2 => assert t[..|t| - 2] == s;
      case _ => assert t[..|t| - 2] == s + "=";
    }
  }

  lemma NoSpacesInText(s: string, n: nat)
    requires InAlphabet(s)
    ensures NoSpaces(s + Pads(n))
  {
    forall i | 0 <= i < |s| + n
      ensures !IsAsciiSpace((s + Pads(n))[i])
    {
      if i < |s| {
        UrlSafeLetter(s[i]);
      }
    }
  }

  lemma TrailingPadRefused(s: string)
    ensures AtobData(s + "=") == None
  {
    ValuesTotal(s + "=");
    assert Value((s + "=")[|s|]).None?;
  }

  lemma AtobOfText(s: string, n: nat)
    requires InAlphabet(s) && Completes(|s|, n)
    ensures Values(s).Some?
    ensures Atob(s + Pads(n)) == if n == 3 then None else Some(Bits(Values(s).value))
  {
    hide Value, Values, Bits, DropSpaces, DropPads, PyPad, IsAsciiSpace;
    ValuesTotal(s);
    NoSpacesInText(s, n);
    DropSpacesIdentity(s + Pads(n));
    assert s == "" || s[|s| - 1] != '=' by {
      if s != "" {
        EqualsIsNoLetter(s[|s| - 1]);
      }
    }
    DropPadsOfText(s, n);
    if n == 3 {
      TrailingPadRefused(s);
    } else {
      PaddingIsUnique(|s|, n);
      NotThreePads(|s|);
    }
  }

  lemma EqualsIsNoLetter(c: char)
    requires Value(c).Some?
    ensures c != '='
  {
  }

  /** On every token over the URL-safe alphabet, of any length, backend and middleware
      decode the same bytes or both refuse. */
  lemma DecodersAgreeOnAlphabet(token: string)
    requires InAlphabet(MapChars(FromUrlSafe, token))
    ensures UrlSafeDecode(token + Pads(PyPad(|token|))) == JsDecode(token)
  {
    hide Value, FromUrlSafe, Values, Bits, PyDecode, Atob, UrlSafeDecode, JsDecode, PyPad, DropPads, DropSpaces;
    PaddingFormulasAgree(|token|);
    BackendPads(token);
    BrowserPads(token);
    DecodersOnText(MapChars(FromUrlSafe, token), JsPad(|token|));
  }

  lemma DecodersOnText(text: string, pads: nat)
    requires InAlphabet(text) && Completes(|text|, pads)
    ensures PyDecode(text + Pads(pads)) == Atob(text + Pads(pads))
  {
    hide *;
    PyDecodeText(text, pads);
    AtobOfText(text, pads);
  }

  /** Dropping at most two pads undoes appending them. */
  lemma DropPadsSplit(t: string)
    requires |t| % 4 == 0
    ensures t == DropPads(t) + Pads(|t| - |DropPads(t)|) && |DropPads(t)| <= |t| <= |DropPads(t)| + 2
  {
  }

  function Spaces(s: string): nat {
    if s == "" then 0 else (if IsAsciiSpace(s[0]) then 1 else 0) + Spaces(s[1..])
  }

  /** Python skips spaces as it skips everything outside the alphabet. */
  lemma {:induction false} PythonSkipsSpaces(s: string, q: Quad)
    ensures PyDecodeFrom(DropSpaces(s), q) == PyDecodeFrom(s, q)
    ensures |DropSpaces(s)| + Spaces(s) == |s| && NoSpaces(DropSpaces(s))
    decreases |s|
  {
    if s != "" {
      var rest := DropSpaces(s[1..]);
      if IsAsciiSpace(s[0]) {
        SpaceIsNoLetter(s[0]);
        assert DropSpaces(s) == rest;
        PythonSkipsSpaces(s[1..], q);
      } else {
        assert ([s[0]] + rest)[1..] == rest;
        PythonSkipsSpaces(s[1..], q);
        if s[0] == '=' {
          PythonSkipsSpaces(s[1..], q.(pads := q.pads + 1));
        } else if Value(s[0]).Some? {
          PythonSkipsSpaces(s[1..], Absorb(q, Value(s[0]).value).1);
        }
      }
    }
  }

  lemma SpaceIsNoLetter(c: char)
    requires IsAsciiSpace(c)
    ensures c != '=' && Value(c).None?
  {
  }

  lemma {:induction false} SpacesOfPadded(token: string, n: nat)
    ensures Spaces(MapChars(FromUrlSafe, token) + Pads(n)) == Spaces(token)
  {
    var t := MapChars(FromUrlSafe, token) + Pads(n);
    if token != "" {
      assert t[1..] == MapChars(FromUrlSafe, token[1..]) + Pads(n);
      SpacesOfPadded(token[1..], n);
    } else {
      assert t == Pads(n);
      if n > 0 {
        assert Pads(n)[1..] == Pads(n - 1) == MapChars(FromUrlSafe, "") + Pads(n - 1);
        SpacesOfPadded("", n - 1);
      }
    }
  }

  /** Without padding Python decodes no text that stops inside a quad. */
  lemma {:induction false} PythonNeedsWholeQuads(s: string)
    requires InAlphabet(s) && |s| % 4 != 0
    ensures PyDecode(s) == None
    decreases |s|
  {
    hide Value, Byte0, Byte1, Byte2, PyDecodeFrom;
    if |s| >= 4 {
      assert s == [s[0]] + ([s[1]] + ([s[2]] + ([s[3]] + s[4..])));
      PythonNeedsWholeQuads(s[4..]);
      FourLetters(s[0], s[1], s[2], s[3], s[4..]);
    } else {
      ShortTail(s);
    }
  }

  lemma ShortTail(s: string)
    requires InAlphabet(s) && 0 < |s| < 4
    ensures PyDecode(s) == None
  {
    hide Value, Byte0, Byte1, Byte2, PyDecodeFrom;
    EmptyInsideQuad();
    if |s| == 1 {
      assert s == [s[0]] + "";
      OneLetter(s[0], "", Quad(0, 0, 0));
    } else if |s| == 2 {
      assert s == [s[0]] + ([s[1]] + "");
      TwoLetters(s[0], s[1], "");
    } else {
      assert s == [s[0]] + ([s[1]] + ([s[2]] + ""));
      ThreeLetters(s[0], s[1], s[2], "");
    }
  }

  lemma EmptyInsideQuad()
    ensures forall q: Quad :: PyDecodeFrom("", q) == if q.pos == 0 then Some([]) else None
  {
  }

  /** The text both decoders are given: letters of the URL-safe alphabet put back, and padded. */
  function Padded(token: string): string {
    MapChars(FromUrlSafe, token) + Pads(JsPad(|token|))
  }

  lemma BackendPads(token: string)
    ensures UrlSafeDecode(token + Pads(PyPad(|token|))) == PyDecode(Padded(token)) && |Padded(token)| % 4 == 0
  {
    hide PyDecode;
    PaddingFormulasAgree(|token|);
    MapKeepsPads(token, PyPad(|token|));
  }

  /** What each decoder makes of a text whose rest, spaces and pads dropped, is in the alphabet. */
  lemma DecodersOnData(t: string)
    requires |t| % 4 == 0 && InAlphabet(DropPads(DropSpaces(t)))
    ensures Atob(t).Some? || |DropSpaces(t)| % 4 != 0
    ensures PyDecode(t) == if |DropSpaces(t)| % 4 == 0 then Atob(t) else None
  {
    hide Values, Bits, PyDecodeFrom, DropPads, DropSpaces, Value;
    PythonSkipsSpaces(t, Quad(0, 0, 0));
    var u := DropSpaces(t);
    var data := DropPads(u);
    ValuesTotal(data);
    if |u| % 4 == 0 {
      DropPadsSplit(u);
      PyDecodeText(data, |u| - |data|);
    } else {
      NoPadsToDrop(u);
      PythonNeedsWholeQuads(u);
    }
  }

  lemma NoPadsToDrop(u: string)
    requires |u| % 4 != 0
    ensures DropPads(u) == u
  {
  }

  /** Off the alphabet: of what the middleware decodes from a token, the backend decodes the
      same bytes when the number of spaces is a multiple of four, and nothing otherwise, for
      the browser counts the padding without the spaces and Python with them. */
  lemma AtobThenPython(token: string)
    requires JsDecode(token).Some?
    ensures UrlSafeDecode(token + Pads(PyPad(|token|))) == if Spaces(token) % 4 == 0 then JsDecode(token) else None
  {
    var t := Padded(token);
    BackendPads(token);
    BrowserPads(token);
    hide JsDecode, Atob, UrlSafeDecode, DropPads, DropSpaces, Spaces, PyDecode, Padded;
    SpacesDropped(token);
    DecodersOnData(t);
  }

  lemma BrowserPads(token: string)
    ensures JsDecode(token) == Atob(Padded(token))
    ensures JsDecode(token).Some? ==> InAlphabet(DropPads(DropSpaces(Padded(token))))
  {
    hide DropPads, DropSpaces, JsPad;
    ValuesTotal(DropPads(DropSpaces(Padded(token))));
  }

  lemma SpacesDropped(token: string)
    ensures |DropSpaces(Padded(token))| % 4 == 0 <==> Spaces(token) % 4 == 0
  {
    BackendPads(token);
    PythonSkipsSpaces(Padded(token), Quad(0, 0, 0));
    SpacesOfPadded(token, JsPad(|token|));
    hide DropSpaces, Spaces, JsPad, PyPad, PyDecodeFrom, Padded, UrlSafeDecode;
    DifferenceOfFours(|Padded(token)|, Spaces(token));
  }

  /** And of what the backend decodes, the middleware decodes the same bytes exactly when the
      text is in the alphabet once spaces and pads are dropped. */
  lemma PythonThenAtob(token: string)
    requires UrlSafeDecode(token + Pads(PyPad(|token|))).Some?
    ensures JsDecode(token) == UrlSafeDecode(token + Pads(PyPad(|token|)))
            <==> InAlphabet(DropPads(DropSpaces(Padded(token))))
  {
    BackendPads(token);
    BrowserPads(token);
    hide JsDecode, Atob, UrlSafeDecode, DropPads, DropSpaces, PyDecode, Padded;
    if InAlphabet(DropPads(DropSpaces(Padded(token)))) {
      DecodersOnData(Padded(token));
    }
  }

  /** What the browser decodes is ASCII. */
  lemma {:induction false} DecodedIsAscii(s: string)
    requires InAlphabet(DropPads(DropSpaces(s)))
    ensures forall i :: 0 <= i < |s| ==> s[i] < 128 as char
  {
    KeptOrSpace(s);
    var u := DropSpaces(s);
    forall i | 0 <= i < |u|
      ensures u[i] < 128 as char
    {
      if i < |DropPads(u)| {
        assert Value(DropPads(u)[i]).Some?;
      }
    }
  }

  lemma {:induction false} KeptOrSpace(s: string)
    ensures forall i :: 0 <= i < |s| ==> IsAsciiSpace(s[i]) || s[i] in DropSpaces(s)
  {
    if s != "" {
      KeptOrSpace(s[1..]);
    }
  }

  /** Python alone decodes text outside the alphabet ... */
  lemma JunkIsSkippedByPythonOnly()
    ensures PyDecode("!!!!") == Some([]) && Atob("!!!!") == None
  {
    assert "!!!!"[1..] == "!!!" && "!!!"[1..] == "!!" && "!!"[1..] == "!" && "!"[1..] == "";
    assert PyDecode("!") == Some([]) && PyDecode("!!") == Some([]) && PyDecode("!!!") == Some([]);
    DropSpacesIdentity("!!!!");
    ValuesTotal("!!!!");
    assert Value("!!!!"[0]).None?;
  }

  /** ... and only the browser decodes two letters and two spaces. */
  lemma SpacesAreForgivenByAtobOnly(a: char, b: char)
    requires Value(a).Some? && Value(b).Some?
    ensures var token := [a] + ([b] + Blanks(2)); |token| == 4 && PyDecode(token) == None && Atob(token).Some?
  {
    hide Value, PyDecode, PyDecodeFrom, DropSpaces, Bits, IsAsciiSpace;
    var token, text := [a] + ([b] + Blanks(2)), [a] + ([b] + "");
    TwoLetters(a, b, Blanks(2));
    BlanksSkipped(2, Quad(2, Value(b).value, 0));
    UrlSafeLetter(a);
    UrlSafeLetter(b);
    DropSpacesIdentity(text);
    assert token == text + Blanks(2);
    BlanksDropped(text, 2);
    EqualsIsNoLetter(b);
    ValuesTotal(text);
  }

  function Blanks(n: nat): string {
    seq(n, _ => ' ')
  }

  lemma {:induction false} BlanksSkipped(n: nat, q: Quad)
    ensures PyDecodeFrom(Blanks(n), q) == if q.pos == 0 then Some([]) else None
  {
    if n > 0 {
      assert Blanks(n)[1..] == Blanks(n - 1);
      BlanksSkipped(n - 1, q);
    }
  }

  lemma {:induction false} BlanksDropped(s: string, n: nat)
    ensures DropSpaces(s + Blanks(n)) == DropSpaces(s)
  {
    if s != "" {
      assert (s + Blanks(n))[1..] == s[1..] + Blanks(n);
      BlanksDropped(s[1..], n);
    } else if n > 0 {
      assert s + Blanks(n) == Blanks(n) && Blanks(n)[1..] == Blanks(n - 1) == "" + Blanks(n - 1);
      BlanksDropped(s, n - 1);
    } else {
      assert s + Blanks(n) == s;
    }
  }

  lemma {:induction false} LettersOf(v: seq<Sextet>)
    ensures |Letters(v)| == |v| && forall i :: 0 <= i < |v| ==> Letters(v)[i] == Letter(v[i])
  {
    hide Letter;
    if v != [] {
      LettersOf(v[1..]);
    }
  }

  lemma EncodingIs(b: seq<Byte>, v: seq<Sextet>, n: nat, letters: string)
    requires Sextets(b) == v && Completes(|v|, n)
    requires |letters| == |v| && forall i :: 0 <= i < |v| ==> letters[i] == Letter(v[i])
    ensures Encode(b) == letters + Pads(n)
  {
    LettersOf(v);
    PaddingIsUnique(|v|, n);
    hide PyPad, Letter, Sextets;
    assert Letters(v) == letters;
  }

  /** The alphabet of RFC 4648, section 4, on an example of section 10: "foob". */
  lemma ExampleFoob()
    ensures Encode([102, 111, 111, 98]) == "Zm9vYg" + Pads(2)
  {
    var b: seq<Byte> := [102, 111, 111, 98];
    assert b[3..] == [98];
    assert Sextets(b) == [25, 38, 61, 47] + Sextets([98]);
    assert Sextets([98]) == [24, 32];
    EncodingIs(b, [25, 38, 61, 47, 24, 32], 2, "Zm9vYg");
  }

  /** The two letters in which section 5 differs from section 4. */
  lemma ExampleUrlSafe()
    ensures Encode([251, 255]) == "+/8" + Pads(1) && UrlSafeEncode([251, 255]) == "-_8" + Pads(1)
  {
    EncodingIs([251, 255], [62, 63, 60], 1, "+/8");
    hide Encode;
    assert "+/8" + Pads(1) == ['+', '/', '8', '='];
    assert UrlSafeEncode([251, 255]) == ['-', '_', '8', '='];
    assert "-_8" + Pads(1) == ['-', '_', '8', '='];
  }
}

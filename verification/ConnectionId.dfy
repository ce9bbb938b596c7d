/** Connection identifiers of backend/core/guacamole.py: a machine stores either the bare
    identifier or the browser form, base64 of `{id}\0c\0{datasource}`. */
module ConnectionId {
  import opened Wrappers
  import opened Base64
  import opened TextCodec

  function BeforeNul(b: seq<Byte>): seq<Byte> {
    if b == [] || b[0] == 0 then [] else [b[0]] + BeforeNul(b[1..])
  }

  predicate OccursAt(b: seq<Byte>, part: seq<Byte>, i: int) {
    0 <= i <= |b| - |part| && b[i..i + |part|] == part
  }

  predicate Contains(b: seq<Byte>, part: seq<Byte>) {
    exists i :: 0 <= i <= |b| && OccursAt(b, part, i)
  }

  const MARK: seq<Byte> := [0, 99, 0]       // "\0c\0"
  const UPPER_MARK: seq<Byte> := [0, 67, 0] // "\0C\0"

  // ---- the two functions -------------------------------------------------------

  /** b64decode of a string: text that is not ASCII is an error like any other. */
  function DecodeText(s: string): Option<seq<Byte>> {
    if IsAscii(s) then PyDecode(s) else None
  }

  function RawConnectionId(id: string): string {
    var raw := Strip(id);
    if raw == "" then raw
    else match DecodeText(raw + Pads(JsPad(|raw|)))
      case None => raw
      case Some(decoded) =>
        if Contains(decoded, MARK) || Contains(decoded, UPPER_MARK) then
          var ident := Strip(Text(BeforeNul(decoded)));
          if ident != "" then ident else raw
        else raw
  }

  function BrowserForm(ident: string, dataSource: string): string {
    Encode(Utf8(ident) + MARK + Utf8(dataSource))
  }

  function ClientId(id: string, dataSource: string): string {
    BrowserForm(RawConnectionId(id), dataSource)
  }

  // ---- laws ---------------------------------------------------------------------

  ghost predicate IsDecimal(d: string) {
    d != "" && forall i :: 0 <= i < |d| ==> '0' <= d[i] <= '9'
  }

  /** Identifiers the browser form can carry: trimmed, not empty, ASCII without NUL. */
  ghost predicate IsPlain(d: string) {
    d != "" && !IsPySpace(d[0]) && !IsPySpace(d[|d| - 1])
    && forall i :: 0 <= i < |d| ==> 0 as char < d[i] < 128 as char
  }

  /** No base64 reading of digits holds a NUL byte: a digit's six bits are 110100 to 111101. */
  lemma {:induction false} DigitBitsHaveNoNul(v: seq<Sextet>)
    requires forall i :: 0 <= i < |v| ==> 52 <= v[i] <= 61
    ensures forall i :: 0 <= i < |Bits(v)| ==> Bits(v)[i] != 0
  {
    if |v| >= 4 {
      DigitBitsHaveNoNul(v[4..]);
    }
  }

  lemma DigitText(d: string)
    requires IsDecimal(d)
    ensures IsPlain(d) && InAlphabet(d) && Values(d).Some?
    ensures forall i :: 0 <= i < |Values(d).value| ==> 52 <= Values(d).value[i] <= 61
  {
    ValuesTotal(d);
    forall i | 0 <= i < |d|
      ensures Value(d[i]).Some? && 52 <= Value(d[i]).value <= 61
    {
    }
  }

  lemma NoMarkWithoutNul(b: seq<Byte>)
    requires forall i :: 0 <= i < |b| ==> b[i] != 0
    ensures !Contains(b, MARK) && !Contains(b, UPPER_MARK)
  {
    forall i | 0 <= i <= |b|
      ensures !OccursAt(b, MARK, i) && !OccursAt(b, UPPER_MARK, i)
    {
      if i <= |b| - 3 {
        assert b[i..i + 3][0] == b[i] != 0;
      }
    }
  }

  /** A bare decimal identifier is its own normal form, whatever its length. */
  lemma DecimalIsFixed(d: string)
    requires IsDecimal(d)
    ensures RawConnectionId(d) == d
  {
    hide Value, Values, PyDecode, Bits, PyPad, JsPad, IsPySpace, Strip, IsDecimal, Contains, InAlphabet;
    DigitText(d);
    StripTrimmed(d);
    var pads := JsPad(|d|);
    PaddingFormulasAgree(|d|);
    PyDecodeText(d, pads);
    if pads != 3 {
      DigitBitsHaveNoNul(Values(d).value);
      NoMarkWithoutNul(Bits(Values(d).value));
    }
  }

  lemma {:induction false} BeforeNulSplit(a: seq<Byte>, b: seq<Byte>)
    requires forall i :: 0 <= i < |a| ==> a[i] != 0
    requires b != [] && b[0] == 0
    ensures BeforeNul(a + b) == a
  {
    if a == [] {
      assert a + b == b;
    } else {
      assert (a + b)[1..] == a[1..] + b;
      BeforeNulSplit(a[1..], b);
    }
  }

  /** Encoded text is ASCII, trimmed, not empty for a nonempty input, and whole quads long. */
  lemma {:induction false} LettersArePlain(v: seq<Sextet>)
    ensures forall i :: 0 <= i < |Letters(v)| ==> 32 as char < Letters(v)[i] < 128 as char
    ensures |Letters(v)| == |v|
  {
    if v != [] {
      LettersArePlain(v[1..]);
    }
  }

  lemma SextetsNotEmpty(b: seq<Byte>)
    requires b != []
    ensures Sextets(b) != []
  {
    hide Six0, Six1, Six2, Six3;
  }

  lemma EncodedIsPlain(b: seq<Byte>)
    requires b != []
    ensures IsPlain(Encode(b)) && |Encode(b)| % 4 == 0 && IsAscii(Encode(b))
  {
    hide Letters, PyPad, Sextets;
    var v := Sextets(b);
    var letters, n := Letters(v), PyPad(|v|);
    SextetsNotEmpty(b);
    LettersArePlain(v);
    PaddingFormulasAgree(|v|);
    forall i | 0 <= i < |letters| + n
      ensures 32 as char < Encode(b)[i] < 128 as char
    {
      assert Encode(b)[i] == if i < |letters| then letters[i] else '=';
    }
  }

  /** The browser form gives back the identifier it was built from, for every data source. */
  lemma BrowserFormDecodes(ident: string, dataSource: string)
    requires IsPlain(ident)
    ensures RawConnectionId(BrowserForm(ident, dataSource)) == ident
  {
    hide IsPySpace, Strip, Encode, PyDecode, Text, BeforeNul;
    var head, tail := Utf8(ident), MARK + Utf8(dataSource);
    var b, raw := head + tail, BrowserForm(ident, dataSource);
    assert b == Utf8(ident) + MARK + Utf8(dataSource);
    EncodedIsPlain(b);
    StripTrimmed(raw);
    EncodeThenPyDecode(b);
    assert JsPad(|raw|) == 0 && raw + Pads(0) == raw;
    assert Contains(b, MARK) by {
      assert OccursAt(b, MARK, |head|);
    }
    TextOfAscii(ident);
    BeforeNulSplit(head, tail);
    StripTrimmed(ident);
  }

  /** Both stored forms of a decimal identifier name the same connection; normalising, and
      building the browser form, are idempotent on them whatever the data sources. */
  lemma StoredFormsCollapse(d: string, dataSource: string, other: string)
    requires IsDecimal(d)
    ensures RawConnectionId(d) == d
    ensures RawConnectionId(ClientId(d, dataSource)) == d
    ensures RawConnectionId(RawConnectionId(ClientId(d, dataSource))) == RawConnectionId(ClientId(d, dataSource))
    ensures ClientId(ClientId(d, dataSource), other) == ClientId(d, other)
  {
    hide RawConnectionId, BrowserForm;
    DecimalIsFixed(d);
    DigitText(d);
    BrowserFormDecodes(d, dataSource);
  }

  /** Different decimal identifiers never collide, whichever forms are stored. */
  lemma StoredFormsSeparate(d: string, e: string, dataSource: string, other: string)
    requires IsDecimal(d) && IsDecimal(e) && d != e
    ensures ClientId(d, dataSource) != ClientId(e, other)
    ensures ClientId(d, dataSource) != e
  {
    StoredFormsCollapse(d, dataSource, other);
    StoredFormsCollapse(e, other, dataSource);
  }

  /** Normalisation is not idempotent on every string: a browser form wrapped in another one
      unwraps one layer at a time. */
  lemma NestedFormUnwrapsOnce(d: string, dataSource: string)
    requires IsDecimal(d)
    ensures var nested := BrowserForm(BrowserForm(d, dataSource), dataSource);
            && RawConnectionId(nested) == BrowserForm(d, dataSource)
            && RawConnectionId(RawConnectionId(nested)) == d
            && RawConnectionId(RawConnectionId(nested)) != RawConnectionId(nested)
  {
    hide RawConnectionId;
    DigitText(d);
    var once := BrowserForm(d, dataSource);
    EncodedIsPlain(Utf8(d) + MARK + Utf8(dataSource));
    BrowserFormDecodes(d, dataSource);
    BrowserFormDecodes(once, dataSource);
    DecimalIsFixed(d);
    if once == d {
      NulSurvives(d, dataSource);
    }
  }

  // ---- when normalising is final -----------------------------------------------

  /** The guard of the branch that unwraps, on a trimmed text: its bytes hold the mark, and
      something before their first NUL. */
  predicate Unwraps(raw: string) {
    var decoded := DecodeText(raw + Pads(JsPad(|raw|)));
    && decoded.Some? && (Contains(decoded.value, MARK) || Contains(decoded.value, UPPER_MARK))
    && Strip(Text(BeforeNul(decoded.value))) != ""
  }

  /** The first NUL of the bytes is at j. */
  predicate FirstNulAt(b: seq<Byte>, j: int) {
    0 <= j < |b| && b[j] == 0 && forall i :: 0 <= i < j ==> b[i] != 0
  }

  /** A NUL, a small or capital C, and a NUL at i. */
  predicate MarkAt(b: seq<Byte>, i: int) {
    0 <= i && i + 2 < |b| && b[i] == 0 && (b[i + 1] == 'c' as int || b[i + 1] == 'C' as int) && b[i + 2] == 0
  }

  lemma {:induction false} BeforeFirstNul(b: seq<Byte>, j: nat)
    requires FirstNulAt(b, j)
    ensures BeforeNul(b) == b[..j]
  {
    if j > 0 {
      BeforeFirstNul(b[1..], j - 1);
    }
  }

  lemma MarkedIff(b: seq<Byte>)
    ensures Contains(b, MARK) || Contains(b, UPPER_MARK) <==> exists i :: MarkAt(b, i)
  {
    forall i
      ensures OccursAt(b, MARK, i) || OccursAt(b, UPPER_MARK, i) <==> MarkAt(b, i)
    {
      if MarkAt(b, i) {
        assert b[i..i + 3] == [b[i], b[i + 1], b[i + 2]];
      }
      if 0 <= i <= |b| - 3 {
        assert b[i] == b[i..i + 3][0] && b[i + 1] == b[i..i + 3][1] && b[i + 2] == b[i..i + 3][2];
      }
    }
    if i :| MarkAt(b, i) {
      assert OccursAt(b, MARK, i) || OccursAt(b, UPPER_MARK, i);
    }
  }

  lemma {:induction false} FindFirstNul(b: seq<Byte>, i: nat) returns (j: nat)
    requires i < |b| && b[i] == 0
    ensures FirstNulAt(b, j)
  {
    if b[0] == 0 {
      j := 0;
    } else {
      j := FindFirstNul(b[1..], i - 1);
      j := j + 1;
    }
  }

  /** Byte by byte: a text unwraps exactly if it is ASCII and decodes to bytes with the mark
      somewhere and something that is not blank before their first NUL, which is what it
      unwraps to. */
  lemma UnwrapsIff(raw: string)
    ensures var decoded := PyDecode(raw + Pads(JsPad(|raw|)));
            Unwraps(raw) <==> && IsAscii(raw) && decoded.Some? && (exists i :: MarkAt(decoded.value, i))
                              && exists j :: FirstNulAt(decoded.value, j) && Strip(Text(decoded.value[..j])) != ""
  {
    hide Strip, Text, PyDecode, JsPad, Contains;
    var decoded := PyDecode(raw + Pads(JsPad(|raw|)));
    assert IsAscii(raw + Pads(JsPad(|raw|))) <==> IsAscii(raw) by {
      var t := raw + Pads(JsPad(|raw|));
      assert forall k :: 0 <= k < |raw| ==> t[k] == raw[k];
    }
    if decoded.Some? {
      var b := decoded.value;
      MarkedIff(b);
      if i :| MarkAt(b, i) {
        var j := FindFirstNul(b, i);
        BeforeFirstNul(b, j);
      }
      forall j | FirstNulAt(b, j)
        ensures BeforeNul(b) == b[..j]
      {
        BeforeFirstNul(b, j);
      }
    }
  }

  lemma EmptyNeverUnwraps()
    ensures !Unwraps("")
  {
    assert "" + Pads(JsPad(0)) == "";
    EmptyText();
  }

  lemma {:induction false} BeforeNulIsShorter(b: seq<Byte>, i: nat)
    requires i < |b| && b[i] == 0
    ensures |BeforeNul(b)| <= i
  {
    if i > 0 && b[0] != 0 {
      BeforeNulIsShorter(b[1..], i - 1);
    }
  }

  lemma HeadIsShorter(b: seq<Byte>, mark: seq<Byte>)
    requires mark != [] && mark[0] == 0 && Contains(b, mark)
    ensures |BeforeNul(b)| < |b|
  {
    var i :| 0 <= i <= |b| && OccursAt(b, mark, i);
    assert b[i] == b[i..i + |mark|][0] == 0;
    BeforeNulIsShorter(b, i);
  }

  /** Python decodes at most one byte from each character before the padding. */
  lemma {:induction false} BytesPerCharacter(s: string, n: nat, q: Quad)
    ensures PyDecodeFrom(s + Pads(n), q).Some? ==> |PyDecodeFrom(s + Pads(n), q).value| <= |s|
    decreases |s| + n
  {
    hide Value, Byte0, Byte1, Byte2;
    var t := s + Pads(n);
    if s == "" {
      if n > 0 {
        assert t[1..] == "" + Pads(n - 1);
        BytesPerCharacter("", n - 1, q);
        BytesPerCharacter("", n - 1, q.(pads := q.pads + 1));
      }
    } else {
      assert t[0] == s[0] && t[1..] == s[1..] + Pads(n);
      BytesPerCharacter(s[1..], n, q);
      BytesPerCharacter(s[1..], n, q.(pads := q.pads + 1));
      if Value(s[0]).Some? {
        BytesPerCharacter(s[1..], n, Absorb(q, Value(s[0]).value).1);
      }
    }
  }

  /** What is unwrapped is trimmed and shorter. */
  lemma UnwrappedIsShorter(raw: string)
    requires Unwraps(raw)
    ensures var ident := Strip(Text(BeforeNul(DecodeText(raw + Pads(JsPad(|raw|))).value)));
            |ident| < |raw| && Strip(ident) == ident
  {
    hide Strip, Text, BeforeNul, PyDecodeFrom, Contains;
    var decoded := DecodeText(raw + Pads(JsPad(|raw|))).value;
    BytesPerCharacter(raw, JsPad(|raw|), Quad(0, 0, 0));
    HeadIsShorter(decoded, if Contains(decoded, MARK) then MARK else UPPER_MARK);
    TextLength(BeforeNul(decoded));
    StripShape(Text(BeforeNul(decoded)));
  }

  lemma RawByCases(id: string)
    ensures RawConnectionId(id) == if Unwraps(Strip(id)) then Strip(Text(BeforeNul(DecodeText(Strip(id) + Pads(JsPad(|Strip(id)|))).value)))
                                   else Strip(id)
  {
    hide Strip, Text, BeforeNul, PyDecode, Contains, JsPad;
    if Strip(id) == "" {
      EmptyNeverUnwraps();
    }
  }

  /** A text is its own normal form exactly when it is trimmed and does not unwrap. */
  lemma NormalFormIff(id: string)
    ensures RawConnectionId(id) == id <==> Strip(id) == id && !Unwraps(id)
  {
    RawByCases(id);
    hide RawConnectionId, Strip, Unwraps, Text, BeforeNul, DecodeText, JsPad;
    StripShape(id);
    if Unwraps(Strip(id)) {
      UnwrappedIsShorter(Strip(id));
    }
  }

  /** For every text: normalising it twice is normalising it once exactly when what it
      normalises to does not unwrap. */
  lemma NormalisingIsFinalIff(id: string)
    ensures RawConnectionId(RawConnectionId(id)) == RawConnectionId(id) <==> !Unwraps(RawConnectionId(id))
  {
    RawByCases(id);
    NormalFormIff(RawConnectionId(id));
    hide RawConnectionId, Strip, Unwraps, Text, BeforeNul, DecodeText, JsPad;
    StripShape(id);
    if Unwraps(Strip(id)) {
      UnwrappedIsShorter(Strip(id));
    }
  }

  /** For the browser form of a plain identifier, whatever the data source, that is: exactly
      when the identifier itself does not unwrap, hence is its own normal form. */
  lemma BrowserFormIsFinalIff(ident: string, dataSource: string)
    requires IsPlain(ident)
    ensures var stored := BrowserForm(ident, dataSource);
            && (RawConnectionId(RawConnectionId(stored)) == RawConnectionId(stored) <==> !Unwraps(ident))
            && (!Unwraps(ident) <==> RawConnectionId(ident) == ident)
  {
    BrowserFormDecodes(ident, dataSource);
    NormalFormIff(ident);
    StripTrimmed(ident);
    hide RawConnectionId, BrowserForm, Strip, Unwraps;
  }

  /** The decoded browser form holds the mark; no reading of digits does. */
  lemma NulSurvives(d: string, dataSource: string)
    requires IsDecimal(d)
    ensures BrowserForm(d, dataSource) != d
  {
    hide Value, Values, Bits, PyPad, JsPad, Encode, PyDecode;
    var b := Utf8(d) + MARK + Utf8(dataSource);
    EncodeThenPyDecode(b);
    EncodedIsPlain(b);
    assert b[|Utf8(d)|] == 0;
    if BrowserForm(d, dataSource) == d {
      DigitText(d);
      assert Completes(|d|, 0) && d + Pads(0) == d;
      PyDecodeText(d, 0);
      DigitBitsHaveNoNul(Values(d).value);
    }
  }
}

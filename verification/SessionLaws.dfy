/** What the cookie's two verifiers have to do with each other and with the minting side. */
module SessionLaws {
  import opened Wrappers
  import opened Base64
  import opened TextCodec
  import opened SessionCookie

  // ---- splitting ---------------------------------------------------------------

  lemma {:induction false} LastBarOfJoin(a: string, b: string)
    requires '|' !in b
    ensures LastBar(a + "|" + b) == Some(|a|)
  {
    var s := a + "|" + b;
    if b == "" {
      assert s[|s| - 1] == '|';
    } else {
      var b' := b[..|b| - 1];
      assert s[|s| - 1] == b[|b| - 1] && s[..|s| - 1] == a + "|" + b';
      LastBarOfJoin(a, b');
    }
  }

  lemma RSplitJoin(a: string, b: string, cuts: nat)
    requires '|' !in b && cuts > 0
    ensures RSplit(a + "|" + b, cuts) == RSplit(a, cuts - 1) + [b]
  {
    var s := a + "|" + b;
    LastBarOfJoin(a, b);
    assert s[..|a|] == a && s[|a| + 1..] == b;
  }

  lemma NoCuts(a: string)
    ensures RSplit(a, 0) == [a]
  {
  }

  /** rsplit("|", 3) recovers the four fields of a raw cookie, bars in the uid included. */
  lemma RSplitFields(uid: string, role: string, exp: string, sig: string)
    requires '|' !in role && '|' !in exp && '|' !in sig
    ensures RSplit(Payload(uid, role, exp) + "|" + sig, 3) == [uid, role, exp, sig]
  {
    hide RSplit;
    RSplitJoin(Payload(uid, role, exp), sig, 3);
    RSplitJoin(uid + "|" + role, exp, 2);
    RSplitJoin(uid, role, 1);
    NoCuts(uid);
  }

  lemma {:induction false} FirstBarOfJoin(a: string, b: string)
    requires '|' !in a
    ensures FirstBar(a + "|" + b) == Some(|a|)
  {
    var s := a + "|" + b;
    if a != "" {
      assert s[1..] == a[1..] + "|" + b;
      FirstBarOfJoin(a[1..], b);
    }
  }

  lemma SplitJoin(a: string, b: string)
    requires '|' !in a
    ensures Split(a + "|" + b) == [a] + Split(b)
  {
    FirstBarOfJoin(a, b);
    assert (a + "|" + b)[..|a|] == a && (a + "|" + b)[|a| + 1..] == b;
  }

  lemma {:induction false} NoBar(s: string)
    requires '|' !in s
    ensures FirstBar(s) == None && Split(s) == [s]
  {
    if s != "" {
      NoBar(s[1..]);
    }
  }

  lemma SplitFields(uid: string, role: string, exp: string, sig: string)
    requires '|' !in uid && '|' !in role && '|' !in exp && '|' !in sig
    ensures Split(Payload(uid, role, exp) + "|" + sig) == [uid, role, exp, sig]
  {
    hide Split;
    var tail1 := exp + "|" + sig;
    var tail2 := role + "|" + tail1;
    assert Payload(uid, role, exp) + "|" + sig == uid + "|" + tail2;
    SplitJoin(uid, tail2);
    SplitJoin(role, tail1);
    SplitJoin(exp, sig);
    NoBar(sig);
  }

  lemma {:induction false} FirstBarFound(s: string)
    ensures match FirstBar(s)
            case Some(i) => i < |s| && s[i] == '|' && '|' !in s[..i]
            case None => '|' !in s
  {
    if s != "" && s[0] != '|' {
      FirstBarFound(s[1..]);
      if FirstBar(s).Some? {
        assert s[..FirstBar(s).value] == [s[0]] + s[1..][..FirstBar(s).value - 1];
      }
    }
  }

  /** A split into parts glues back, and no part holds a bar. */
  function Join(parts: seq<string>): string
    requires parts != []
  {
    if |parts| == 1 then parts[0] else parts[0] + "|" + Join(parts[1..])
  }

  lemma {:induction false} SplitSound(s: string)
    ensures Join(Split(s)) == s && forall i :: 0 <= i < |Split(s)| ==> '|' !in Split(s)[i]
    decreases |s|
  {
    FirstBarFound(s);
    match FirstBar(s)
    case Some(i) =>
      SplitSound(s[i + 1..]);
      assert s == s[..i] + "|" + s[i + 1..];
    case None =>
  }

  lemma FourParts(raw: string)
    requires |Split(raw)| == 4
    ensures var f := Split(raw);
            && raw == Payload(f[0], f[1], f[2]) + "|" + f[3]
            && (forall i :: 0 <= i < 4 ==> '|' !in f[i])
  {
    SplitSound(raw);
    var f := Split(raw);
    assert Join(f[1..][1..][1..]) == f[3] && Join(f[1..][1..]) == f[2] + "|" + f[3];
    assert Join(f[1..]) == f[1] + "|" + (f[2] + "|" + f[3]);
    assert f[0] + "|" + (f[1] + "|" + (f[2] + "|" + f[3])) == f[0] + "|" + f[1] + "|" + f[2] + "|" + f[3];
  }

  function Bars(s: string): nat {
    if s == "" then 0 else (if s[0] == '|' then 1 else 0) + Bars(s[1..])
  }

  lemma {:induction false} BarsAppend(a: string, b: string)
    ensures Bars(a + b) == Bars(a) + Bars(b)
  {
    if a == "" {
      assert a + b == b;
    } else {
      assert (a + b)[1..] == a[1..] + b;
      BarsAppend(a[1..], b);
    }
  }

  lemma {:induction false} BarsPresent(s: string)
    ensures Bars(s) > 0 <==> '|' in s
  {
    if s != "" {
      BarsPresent(s[1..]);
    }
  }

  /** split('|') yields one part more than there are bars. */
  lemma {:induction false} SplitCount(s: string)
    ensures |Split(s)| == Bars(s) + 1
    decreases |s|
  {
    FirstBarFound(s);
    match FirstBar(s)
    case Some(i) =>
      SplitCount(s[i + 1..]);
      assert s == (s[..i] + "|") + s[i + 1..];
      BarsAppend(s[..i] + "|", s[i + 1..]);
      BarsAppend(s[..i], "|");
      BarsPresent(s[..i]);
      assert Bars("|") == 1;
    case None =>
      BarsPresent(s);
  }

  lemma TooManyParts(uid: string, role: string, exp: string, sig: string)
    requires '|' in uid
    ensures |Split(Payload(uid, role, exp) + "|" + sig)| > 4
  {
    hide Split, Bars;
    var raw := Payload(uid, role, exp) + "|" + sig;
    SplitCount(raw);
    assert raw == uid + ("|" + (role + ("|" + (exp + ("|" + sig)))));
    BarsAppend(uid, "|" + (role + ("|" + (exp + ("|" + sig)))));
    BarsAppend("|", role + ("|" + (exp + ("|" + sig))));
    BarsAppend(role, "|" + (exp + ("|" + sig)));
    BarsAppend("|", exp + ("|" + sig));
    BarsAppend(exp, "|" + sig);
    BarsAppend("|", sig);
    BarsPresent(uid);
    BarsPresent("|");
  }

  lemma {:induction false} LastBarFound(s: string)
    ensures match LastBar(s)
            case Some(i) => i < |s| && s[i] == '|' && '|' !in s[i + 1..]
            case None => '|' !in s
  {
    if s != "" && s[|s| - 1] != '|' {
      LastBarFound(s[..|s| - 1]);
      if LastBar(s).Some? {
        assert s[LastBar(s).value + 1..] == s[..|s| - 1][LastBar(s).value + 1..] + [s[|s| - 1]];
      } else {
        assert s == s[..|s| - 1] + [s[|s| - 1]];
      }
    }
  }

  /** One cut of rsplit: what is behind the last bar, and the rest. */
  lemma RSplitCut(s: string, cuts: nat)
    requires |RSplit(s, cuts)| > 1
    ensures cuts > 0
    ensures exists rest, last :: '|' !in last && s == rest + "|" + last && RSplit(s, cuts) == RSplit(rest, cuts - 1) + [last]
  {
    LastBarFound(s);
    var i := LastBar(s).value;
    assert s == s[..i] + "|" + s[i + 1..];
  }

  lemma RSplitFour(raw: string) returns (uid: string, role: string, exp: string, sig: string)
    requires |RSplit(raw, 3)| == 4
    ensures RSplit(raw, 3) == [uid, role, exp, sig]
    ensures raw == Payload(uid, role, exp) + "|" + sig && '|' !in role && '|' !in exp && '|' !in sig
  {
    hide RSplit;
    RSplitCut(raw, 3);
    var rest, sig0 :| '|' !in sig0 && raw == rest + "|" + sig0 && RSplit(raw, 3) == RSplit(rest, 2) + [sig0];
    RSplitCut(rest, 2);
    var rest2, exp0 :| '|' !in exp0 && rest == rest2 + "|" + exp0 && RSplit(rest, 2) == RSplit(rest2, 1) + [exp0];
    RSplitCut(rest2, 1);
    var uid0, role0 :| '|' !in role0 && rest2 == uid0 + "|" + role0 && RSplit(rest2, 1) == RSplit(uid0, 0) + [role0];
    NoCutsLeft(uid0);
    uid, role, exp, sig := uid0, role0, exp0, sig0;
  }

  lemma NoCutsLeft(s: string)
    ensures RSplit(s, 0) == [s]
  {
  }

  // ---- numerals and roles ---------------------------------------------------------

  lemma {:induction false} NaturalShape(n: nat)
    ensures Natural(n) != "" && forall i :: 0 <= i < |Natural(n)| ==> '0' <= Natural(n)[i] <= '9'
  {
    if n >= 10 {
      NaturalShape(n / 10);
    }
  }

  lemma DecimalShape(n: int)
    ensures '|' !in Decimal(n) && IsAscii(Decimal(n))
  {
    NaturalShape(if n < 0 then -n else n);
  }

  /** What a numeral says. */
  function Reads(digits: string): int {
    if digits == "" then 0 else 10 * Reads(digits[..|digits| - 1]) + (digits[|digits| - 1] as int - '0' as int)
  }

  /** str(n) is the numeral of n, with no leading zero. */
  lemma {:induction false} NaturalIsTheNumeral(n: nat)
    ensures Reads(Natural(n)) == n && (n > 0 ==> Natural(n)[0] != '0')
  {
    NaturalShape(n);
    if n >= 10 {
      NaturalIsTheNumeral(n / 10);
      NaturalShape(n / 10);
      assert Natural(n)[..|Natural(n)| - 1] == Natural(n / 10);
    } else {
      assert Natural(n)[..0] == "";
    }
  }

  lemma RoleShape(role: string)
    requires role in VALID_ROLES
    ensures '|' !in role && IsAscii(role)
  {
  }

  // ---- what is accepted, of all tokens -----------------------------------------------

  /** The text `uid|role|exp|signature`, rightly signed under `secret`. */
  predicate IsSigned(p: Platform, secret: string, uid: string, role: string, exp: string, raw: string) {
    var sig := p.hmac(secret, Payload(uid, role, exp));
    raw == Payload(uid, role, exp) + "|" + sig && '|' !in exp && '|' !in sig
  }

  lemma RawIsAcceptedIff(p: Platform, env: Env, raw: string, now: real, uid: string, role: string)
    ensures VerifyRaw(p, env, raw, now) == Some((uid, role))
            <==> && role in VALID_ROLES && BackendSecret(env).Some?
                 && exists exp :: IsSigned(p, BackendSecret(env).value, uid, role, exp, raw)
                                  && p.int_(exp).Some? && now <= p.int_(exp).value as real
  {
    hide RSplit;
    if VerifyRaw(p, env, raw, now) == Some((uid, role)) {
      var u, r, e, g := RSplitFour(raw);
      assert IsSigned(p, BackendSecret(env).value, uid, role, e, raw);
    }
    if role in VALID_ROLES && BackendSecret(env).Some? {
      RoleShape(role);
      forall exp | IsSigned(p, BackendSecret(env).value, uid, role, exp, raw)
        ensures RSplit(raw, 3) == [uid, role, exp, p.hmac(BackendSecret(env).value, Payload(uid, role, exp))]
      {
        RSplitFields(uid, role, exp, p.hmac(BackendSecret(env).value, Payload(uid, role, exp)));
      }
    }
  }

  /** The backend accepts a token, minted or not, for a uid and a role exactly when it is ASCII
      and, padded, decodes to that uid, the role, a numeral and their signature under the
      backend's secret; the role is valid; and the numeral is not past. */
  lemma BackendAcceptsIff(p: Platform, env: Env, token: string, now: real, uid: string, role: string)
    ensures Verify(p, env, token, now) == Some((uid, role))
            <==> && IsAscii(token) && role in VALID_ROLES && BackendSecret(env).Some?
                 && var bytes := UrlSafeDecode(token + Pads(PyPad(|token|)));
                    bytes.Some? && (forall i :: 0 <= i < |bytes.value| ==> bytes.value[i] < 128)
                    && exists exp :: IsSigned(p, BackendSecret(env).value, uid, role, exp, Text(bytes.value))
                                     && p.int_(exp).Some? && now <= p.int_(exp).value as real
  {
    hide VerifyRaw, IsSigned, UrlSafeDecode, PyPad, Text;
    var bytes := UrlSafeDecode(token + Pads(PyPad(|token|)));
    if bytes.Some? {
      RawIsAcceptedIff(p, env, Text(bytes.value), now, uid, role);
    }
  }

  /** The middleware accepts a token for a role exactly when it decodes to a nonempty, bar-free
      uid, the role, a numeral and their signature under its secret, the role is valid, and
      the numeral is not before the present second. */
  lemma MiddlewareAcceptsIff(p: Platform, env: Env, token: string, now: real, role: string)
    ensures MiddlewareVerify(p, env, token, now) == Some(role)
            <==> && MiddlewareSecret(env) != "" && role in VALID_ROLES && JsDecode(token).Some?
                 && exists uid, exp :: uid != "" && '|' !in uid
                      && IsSigned(p, MiddlewareSecret(env), uid, role, exp, Text(JsDecode(token).value))
                      && p.number(exp).Some? && p.number(exp).value >= now.Floor as real
  {
    var secret := MiddlewareSecret(env);
    if MiddlewareVerify(p, env, token, now) == Some(role) {
      var raw := Text(JsDecode(token).value);
      hide JsDecode, Split, Text;
      FourParts(raw);
      assert IsSigned(p, secret, Split(raw)[0], role, Split(raw)[2], raw);
    }
    if secret != "" && role in VALID_ROLES && JsDecode(token).Some? {
      var raw := Text(JsDecode(token).value);
      RoleShape(role);
      EmptyTokenIsEmpty();
      hide JsDecode, Split, Text;
      forall uid, exp | uid != "" && '|' !in uid && IsSigned(p, secret, uid, role, exp, raw)
        ensures token != "" && Split(raw) == [uid, role, exp, p.hmac(secret, Payload(uid, role, exp))]
      {
        SplitFields(uid, role, exp, p.hmac(secret, Payload(uid, role, exp)));
      }
    }
  }

  lemma EmptyTokenIsEmpty()
    ensures JsDecode("") == Some([]) && Text([]) == ""
  {
    PaddingFormulasAgree(0);
    BrowserPads("");
    assert Padded("") == "";
    EmptyText();
    assert DropSpaces("") == "" && DropPads("") == "";
  }

  /** Which secret is used: the first that is set, and none only in production. */
  lemma SecretsChosen(env: Env)
    ensures BackendSecret(env).None? <==>
              env.cookieSecret == "" && env.otpPepper == "" && env.resendApiKey == "" && env.backendProduction
    ensures MiddlewareSecret(env) == "" <==> env.cookieSecret == "" && env.otpPepper == "" && env.nodeProduction
    ensures env.cookieSecret != "" ==> BackendSecret(env) == Some(env.cookieSecret) && MiddlewareSecret(env) == env.cookieSecret
    ensures env.cookieSecret == "" && env.otpPepper != "" ==>
              BackendSecret(env) == Some(env.otpPepper) && MiddlewareSecret(env) == env.otpPepper
    ensures env.cookieSecret == "" && env.otpPepper == "" && env.resendApiKey != "" ==> BackendSecret(env) == Some(env.resendApiKey)
  {
  }

  /** Minting fails exactly for an unknown role or without a secret. */
  lemma SigningFailsIff(p: Platform, env: Env, uid: string, role: string, ttl: int, now: real)
    ensures Sign(p, env, uid, role, ttl, now).Err? <==> role !in VALID_ROLES || BackendSecret(env).None?
  {
    hide UrlSafeEncode, StripPads, Natural, Utf8;
  }

  // ---- minting and verifying -----------------------------------------------------------

  /** The four fields behind a token, when it was minted. */
  ghost function MintedRaw(p: Platform, env: Env, uid: string, role: string, exp: int): string
    requires BackendSecret(env).Some?
  {
    var payload := Payload(uid, role, Decimal(exp));
    payload + "|" + p.hmac(BackendSecret(env).value, payload)
  }

  lemma MintedTokenDecodes(p: Platform, env: Env, uid: string, role: string, ttl: int, minted: real)
    requires Sound(p) && IsAscii(uid) && role in VALID_ROLES && BackendSecret(env).Some?
    ensures var token := Sign(p, env, uid, role, ttl, minted).value;
            var raw := MintedRaw(p, env, uid, role, minted.Floor + ttl);
            && IsAscii(token) && token != "" && IsAscii(raw)
            && UrlSafeDecode(token + Pads(PyPad(|token|))) == Some(Utf8(raw))
            && JsDecode(token) == Some(Utf8(raw))
  {
    hide StripPads, UrlSafeEncode, UrlSafeDecode, JsDecode, PyPad, Natural, Utf8;
    var exp := minted.Floor + ttl;
    var raw := MintedRaw(p, env, uid, role, exp);
    DecimalShape(exp);
    RoleShape(role);
    assert IsAscii(Payload(uid, role, Decimal(exp)));
    var b := Utf8(raw);
    TokenRoundTrip(b);
    TextOfAscii(raw);
    TokenIsAscii(b);
  }

  lemma TokenIsAscii(b: seq<Byte>)
    ensures IsAscii(StripPads(UrlSafeEncode(b)))
    ensures b != [] ==> StripPads(UrlSafeEncode(b)) != ""
  {
    hide StripPads, UrlSafeEncode, Letters, Sextets;
    TokenShape(b);
    var token := StripPads(UrlSafeEncode(b));
    ValuesOfLetters(Sextets(b));
    forall i | 0 <= i < |token|
      ensures token[i] < 128 as char
    {
      assert Value(FromUrlSafe(token[i])).Some?;
    }
    if b != [] {
      NonEmptyText(b);
    }
  }

  lemma NonEmptyText(b: seq<Byte>)
    requires b != []
    ensures |Letters(Sextets(b))| > 0
  {
    hide Six0, Six1, Six2, Six3, Letter;
    ValuesOfLetters(Sextets(b));
  }

  /** The backend's own round trip, for every ASCII uid, every role and lifetime: verifying
      gives back the signed fields up to the second of expiry, and nothing afterwards. */
  lemma SignThenVerify(p: Platform, env: Env, uid: string, role: string, ttl: int, minted: real, now: real)
    requires Sound(p) && IsAscii(uid) && role in VALID_ROLES && BackendSecret(env).Some?
    ensures Verify(p, env, Sign(p, env, uid, role, ttl, minted).value, now)
            == if now <= (minted.Floor + ttl) as real then Some((uid, role)) else None
  {
    hide Sign, UrlSafeDecode, PyPad, RSplit, Natural, Utf8, Text;
    var exp := minted.Floor + ttl;
    var raw := MintedRaw(p, env, uid, role, exp);
    MintedTokenDecodes(p, env, uid, role, ttl, minted);
    TextOfAscii(raw);
    DecimalShape(exp);
    RoleShape(role);
    RSplitFields(uid, role, Decimal(exp), p.hmac(BackendSecret(env).value, Payload(uid, role, Decimal(exp))));
  }

  /** What the middleware makes of a minted token: it accepts exactly a bar-free, nonempty uid,
      under the same secret, until the end of the second of expiry. */
  lemma SignThenMiddleware(p: Platform, env: Env, uid: string, role: string, ttl: int, minted: real, now: real)
    requires Sound(p) && IsAscii(uid) && role in VALID_ROLES
    requires BackendSecret(env) == Some(MiddlewareSecret(env)) && MiddlewareSecret(env) != ""
    requires -TWO_TO_53 < minted.Floor + ttl < TWO_TO_53
    ensures MiddlewareVerify(p, env, Sign(p, env, uid, role, ttl, minted).value, now)
            == if uid != "" && '|' !in uid && now.Floor <= minted.Floor + ttl then Some(role) else None
  {
    hide Sign, JsDecode, Split, Natural, Utf8, Text, UrlSafeDecode, PyPad;
    var exp := minted.Floor + ttl;
    var raw := MintedRaw(p, env, uid, role, exp);
    var sig := p.hmac(MiddlewareSecret(env), Payload(uid, role, Decimal(exp)));
    MintedTokenDecodes(p, env, uid, role, ttl, minted);
    TextOfAscii(raw);
    DecimalShape(exp);
    RoleShape(role);
    if '|' in uid {
      TooManyParts(uid, role, Decimal(exp), sig);
    } else {
      SplitFields(uid, role, Decimal(exp), sig);
    }
  }

  /** The middleware is the laxer of the two: whenever the backend accepts a minted token, so
      does the middleware, with the same role; the instants at which only the middleware does
      are those after the expiry and within its second. */
  lemma MiddlewareIsLaxer(p: Platform, env: Env, uid: string, role: string, ttl: int, minted: real, now: real)
    requires Sound(p) && IsAscii(uid) && uid != "" && '|' !in uid && role in VALID_ROLES
    requires BackendSecret(env) == Some(MiddlewareSecret(env)) && MiddlewareSecret(env) != ""
    requires -TWO_TO_53 < minted.Floor + ttl < TWO_TO_53
    ensures var (token, exp) := (Sign(p, env, uid, role, ttl, minted).value, minted.Floor + ttl);
            && (Verify(p, env, token, now).Some? ==> MiddlewareVerify(p, env, token, now) == Some(Verify(p, env, token, now).value.1))
            && (MiddlewareVerify(p, env, token, now).Some? && Verify(p, env, token, now).None?
                <==> now.Floor == exp && exp as real < now)
  {
    hide Sign, Verify, MiddlewareVerify;
    SignThenVerify(p, env, uid, role, ttl, minted, now);
    SignThenMiddleware(p, env, uid, role, ttl, minted, now);
  }

  /** The other way round, for every token, minted or not: of what the middleware accepts, the
      backend accepts, with the same role, exactly what has a multiple of four spaces, decodes
      strictly, and names an expiry that the backend can read and that has not passed. */
  lemma MiddlewareAcceptanceIsSound(p: Platform, env: Env, token: string, seen: real, now: real)
    requires BackendSecret(env) == Some(MiddlewareSecret(env))
    ensures MiddlewareVerify(p, env, token, seen).Some? ==>
              var (role, bytes) := (MiddlewareVerify(p, env, token, seen).value, JsDecode(token).value);
              var f := Split(Text(bytes));
              && |f| == 4
              && Verify(p, env, token, now)
                 == if Spaces(token) % 4 == 0 && DecodeAscii(bytes).Some? && p.int_(f[2]).Some? && now <= p.int_(f[2]).value as real
                    then Some((f[0], role)) else None
  {
    if MiddlewareVerify(p, env, token, seen).Some? {
      BrowserTokenIsAscii(token);
      hide JsDecode, UrlSafeDecode, PyPad, Split, RSplit, Text, Spaces;
      AtobThenPython(token);
      var raw := Text(JsDecode(token).value);
      FourParts(raw);
      var f := Split(raw);
      RSplitFields(f[0], f[1], f[2], f[3]);
    }
  }

  lemma BrowserTokenIsAscii(token: string)
    requires JsDecode(token).Some?
    ensures IsAscii(token)
  {
    var t := Padded(token);
    BrowserPads(token);
    hide DropPads, DropSpaces;
    DecodedIsAscii(t);
    forall i | 0 <= i < |token|
      ensures token[i] < 128 as char
    {
      assert t[i] == FromUrlSafe(token[i]);
    }
  }

  /** Which settings give both processes one secret. The backend alone falls back on the mail
      provider's key, and the two production flags are separate settings. */
  lemma SecretsAgree(env: Env)
    ensures BackendSecret(env) == Some(MiddlewareSecret(env)) && MiddlewareSecret(env) != ""
            <==> || env.cookieSecret != ""
                 || env.otpPepper != ""
                 || (!env.nodeProduction && (env.resendApiKey == DEV_SECRET || (env.resendApiKey == "" && !env.backendProduction)))
  {
  }
}

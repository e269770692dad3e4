/** `WebsocketSecretAuthHelper`: the shared secret that nodes present on the
    broadcast websocket, `HMAC-SHA256 <nonce>:<hexdigest>`. The digest is
    HMAC-SHA-256 (RFC 2104) keyed with the server secret over the JSON text
    of `{"secret": <server secret>, "nonce": <nonce>}`; the nonce is the
    sender's clock in whole seconds.

    HMAC and `json.dumps` are parameters (`hmac(key, message)`,
    `dumps(secret, nonce)`), the clock is the parameter `now`. */
module SecretAuth {
  import opened Js

  const Scheme := "HMAC-SHA256"
  /** The default `nonce_tolerance`, in seconds. */
  const DefaultTolerance := 300

  predicate IsLowerHex(c: char) {
    '0' <= c <= '9' || 'a' <= c <= 'f'
  }

  /** What `hexdigest()` of a SHA-256 HMAC returns: 64 lower-case hex digits. */
  type Digest = s: string | |s| == 64 && forall k :: 0 <= k < |s| ==> IsLowerHex(s[k])
    witness seq(64, k => '0')

  type Hmac = (string, string) -> Digest
  type Dumps = (string, string) -> string

  /** The two fields of a secret may hold neither separator. */
  predicate Plain(x: string) {
    ' ' !in x && ':' !in x
  }

  /** `'HMAC-SHA256 {}:{}'.format(nonce, digest)` */
  function Format(nonce: string, digest: string): string {
    Scheme + " " + nonce + ":" + digest
  }

  /** The digest the server expects for a nonce. */
  function Expected(secret: string, nonce: string, dumps: Dumps, hmac: Hmac): Digest {
    hmac(secret, dumps(secret, nonce))
  }

  /** `construct_secret` with the clock reading `now`. */
  function ConstructSecret(secret: string, now: int, dumps: Dumps, hmac: Hmac): string {
    Format(Decimal(now), Expected(secret, Decimal(now), dumps, hmac))
  }

  /** The parsing step of `verify_secret`: split on a space into exactly two
      parts, the first `HMAC-SHA256`, then the second on `:` into exactly
      two parts (nonce, digest). `None` is "Failed to parse secret". */
  function ParseSecret(s: string): Option<(string, string)> {
    var parts := Split(s, " ");
    if |parts| != 2 || parts[0] != Scheme then None
    else
      var fields := Split(parts[1], ":");
      if |fields| != 2 then None else Some((fields[0], fields[1]))
  }

  /** Python's `int()` on the nonce: an optional sign, then one or more
      ASCII digits. `None` is the `ValueError` it raises. */
  function PyInt(s: string): (r: Option<int>)
    ensures r.Some? ==> s != []
  {
    var negative := |s| > 0 && s[0] == '-';
    var body := if |s| > 0 && (s[0] == '-' || s[0] == '+') then s[1..] else s;
    if body == [] || !AllDigits(body) then None
    else if negative then Some(-(DecValue(body) as int))
    else Some(DecValue(body))
  }

  predicate AllDigits(s: string) {
    forall k :: 0 <= k < |s| ==> IsDigit(s[k])
  }

  datatype AuthError =
    | ParseFailure
    | InvalidSecret
    | NonceNotInteger
    | ReplayOrSkew(diff: int)

  datatype Outcome = Accepted | Rejected(error: AuthError)

  function Abs(x: int): nat {
    if x < 0 then -x else x
  }

  /** `verify_secret(s, tolerance)` at clock reading `now`. The digest is
      compared before the nonce is converted and its age examined. */
  function VerifySecret(s: string, tolerance: int, secret: string, now: int, dumps: Dumps, hmac: Hmac): Outcome {
    match ParseSecret(s)
    case None => Rejected(ParseFailure)
    case Some((nonce, digest)) =>
      if Expected(secret, nonce, dumps, hmac) != digest then Rejected(InvalidSecret)
      else match PyInt(nonce)
        case None => Rejected(NonceNotInteger)
        case Some(n) =>
          if Abs(now - n) > tolerance then Rejected(ReplayOrSkew(now - n)) else Accepted
  }

  // ------------------------------------------------------------ parsing

  lemma SplitTwo(s: string, c: char)
    requires |Split(s, [c])| == 2
    ensures s == Split(s, [c])[0] + [c] + Split(s, [c])[1]
    ensures c !in Split(s, [c])[0] && c !in Split(s, [c])[1]
  {
    var parts := Split(s, [c]);
    JoinSplit(s, [c]);
    assert parts[1..] == [parts[1]];
    ContainsChar(parts[0], c);
    ContainsChar(parts[1], c);
  }

  /** A well-formed secret parses back into its nonce and digest. */
  lemma ParseFormat(nonce: string, digest: string)
    requires Plain(nonce) && Plain(digest)
    ensures ParseSecret(Format(nonce, digest)) == Some((nonce, digest))
  {
    var payload := nonce + ":" + digest;
    assert ' ' !in payload;
    assert ' ' !in Scheme;
    assert Format(nonce, digest) == Scheme + [' '] + payload;
    SplitAtOnly(Scheme, ' ', payload);
    assert payload == nonce + [':'] + digest;
    SplitAtOnly(nonce, ':', digest);
  }

  /** Parsing succeeds exactly on strings of the form
      `HMAC-SHA256 <nonce>:<digest>` with neither separator in the fields;
      every other string, a wrong scheme included, fails to parse. */
  lemma ParseExactly(s: string)
    ensures ParseSecret(s).Some? <==>
      exists nonce, digest :: Plain(nonce) && Plain(digest) && s == Format(nonce, digest)
  {
    if ParseSecret(s).Some? {
      ParsedIsFormat(s);
    }
    if exists nonce, digest :: Plain(nonce) && Plain(digest) && s == Format(nonce, digest) {
      var nonce, digest :| Plain(nonce) && Plain(digest) && s == Format(nonce, digest);
      ParseFormat(nonce, digest);
    }
  }

  /** What parses is the format of the fields it parses into. */
  lemma ParsedIsFormat(s: string)
    requires ParseSecret(s).Some?
    ensures var (nonce, digest) := ParseSecret(s).value;
      Plain(nonce) && Plain(digest) && s == Format(nonce, digest)
  {
    var parts := Split(s, " ");
    SplitTwo(s, ' ');
    var payload := parts[1];
    var fields := Split(payload, ":");
    SplitTwo(payload, ':');
    var nonce, digest := fields[0], fields[1];
    assert payload == nonce + [':'] + digest;
    assert ' ' !in nonce && ' ' !in digest;
    assert s == Format(nonce, digest);
  }

  /** Every failure to parse, and only that, is reported as a parse failure. */
  lemma ParseFailureExactly(s: string, tolerance: int, secret: string, now: int, dumps: Dumps, hmac: Hmac)
    ensures VerifySecret(s, tolerance, secret, now, dumps, hmac) == Rejected(ParseFailure) <==>
      !exists nonce, digest :: Plain(nonce) && Plain(digest) && s == Format(nonce, digest)
  {
    ParseExactly(s);
  }

  // ------------------------------------------------------------ digest and nonce

  /** A wrong digest is refused whatever the nonce says and whatever the
      clock reads: the nonce is not even converted. */
  lemma DigestBeforeNonce(nonce: string, digest: string, tolerance: int, secret: string, now: int, dumps: Dumps, hmac: Hmac)
    requires Plain(nonce) && Plain(digest)
    requires digest != Expected(secret, nonce, dumps, hmac)
    ensures VerifySecret(Format(nonce, digest), tolerance, secret, now, dumps, hmac) == Rejected(InvalidSecret)
  {
    ParseFormat(nonce, digest);
  }

  /** With the right digest and an integer nonce, the secret is accepted iff
      the clocks differ by at most the tolerance (the boundary is accepted). */
  lemma ToleranceWindow(nonce: string, n: int, tolerance: int, secret: string, now: int, dumps: Dumps, hmac: Hmac)
    requires Plain(nonce) && PyInt(nonce) == Some(n)
    ensures var s := Format(nonce, Expected(secret, nonce, dumps, hmac));
      (VerifySecret(s, tolerance, secret, now, dumps, hmac) == Accepted <==> -tolerance <= now - n <= tolerance)
      && (now - n > tolerance || n - now > tolerance ==>
          VerifySecret(s, tolerance, secret, now, dumps, hmac) == Rejected(ReplayOrSkew(now - n)))
  {
    var d := Expected(secret, nonce, dumps, hmac);
    assert Plain(d) by {
      assert forall k :: 0 <= k < |d| ==> IsLowerHex(d[k]);
    }
    ParseFormat(nonce, d);
  }

  /** Acceptance means: the string is exactly a secret the server itself
      would build for some integer nonce within the tolerance. */
  lemma AcceptedMeans(s: string, tolerance: int, secret: string, now: int, dumps: Dumps, hmac: Hmac)
    requires VerifySecret(s, tolerance, secret, now, dumps, hmac) == Accepted
    ensures exists nonce :: (Plain(nonce) && PyInt(nonce).Some?
      && s == Format(nonce, Expected(secret, nonce, dumps, hmac))
      && Abs(now - PyInt(nonce).value) <= tolerance)
  {
    ParseExactly(s);
    var nonce, digest :| Plain(nonce) && Plain(digest) && s == Format(nonce, digest);
    ParseFormat(nonce, digest);
  }

  // ------------------------------------------------------------ round trip

  lemma DecimalPlain(n: int)
    ensures Plain(Decimal(n))
  {
    var d := Digits(if n < 0 then -n else n);
    assert forall k :: 0 <= k < |d| ==> IsDigit(d[k]);
    assert ' ' !in d && ':' !in d;
  }

  /** Python's `int()` reads back the decimal text of every integer. */
  lemma PyIntDecimal(n: int)
    ensures PyInt(Decimal(n)) == Some(n)
  {
    var m: nat := if n < 0 then -n else n;
    var d := Digits(m);
    DecValueDigits(m);
    assert AllDigits(d);
    if n < 0 {
      assert Decimal(n) == "-" + d;
      PyIntNegative(d);
    } else {
      assert Decimal(n) == d;
      PyIntDigits(d);
    }
  }

  lemma PyIntDigits(d: string)
    requires d != [] && AllDigits(d)
    ensures PyInt(d) == Some(DecValue(d))
  {
    assert IsDigit(d[0]);
  }

  lemma PyIntNegative(d: string)
    requires d != [] && AllDigits(d)
    ensures PyInt("-" + d) == Some(-(DecValue(d) as int))
  {
    var s := "-" + d;
    assert s[0] == '-' && s[1..] == d;
  }

  /** A secret built at time `t` is accepted at time `now` iff
      `|now - t| <= 300`, and otherwise refused as a replay or clock skew. */
  lemma ConstructVerify(secret: string, t: int, now: int, dumps: Dumps, hmac: Hmac)
    ensures VerifySecret(ConstructSecret(secret, t, dumps, hmac), DefaultTolerance, secret, now, dumps, hmac)
      == if Abs(now - t) <= DefaultTolerance then Accepted else Rejected(ReplayOrSkew(now - t))
  {
    DecimalPlain(t);
    PyIntDecimal(t);
    ToleranceWindow(Decimal(t), t, DefaultTolerance, secret, now, dumps, hmac);
  }

  // ------------------------------------------------------------ headers

  /** `is_authorized`: the value of the first `secret` header, or `''`
      when there is none, checked with the default tolerance. */
  method IsAuthorized(headers: seq<(string, string)>, secret: string, now: int, dumps: Dumps, hmac: Hmac)
    returns (presented: string, outcome: Outcome)
    ensures (forall i :: 0 <= i < |headers| ==> headers[i].0 != "secret") ==> presented == ""
    ensures (exists i :: 0 <= i < |headers| && headers[i].0 == "secret") ==>
      exists i :: 0 <= i < |headers| && headers[i].0 == "secret" && presented == headers[i].1
        && forall j :: 0 <= j < i ==> headers[j].0 != "secret"
    ensures outcome == VerifySecret(presented, DefaultTolerance, secret, now, dumps, hmac)
  {
    presented := "";
    var i := 0;
    while i < |headers|
      invariant 0 <= i <= |headers|
      invariant forall j :: 0 <= j < i ==> headers[j].0 != "secret"
      invariant presented == ""
    {
      if headers[i].0 == "secret" {
        presented := headers[i].1;
        break;
      }
      i := i + 1;
    }
    outcome := VerifySecret(presented, DefaultTolerance, secret, now, dumps, hmac);
  }

  /** Without a `secret` header the check fails at parsing. */
  lemma NoHeaderFailsToParse(tolerance: int, secret: string, now: int, dumps: Dumps, hmac: Hmac)
    ensures VerifySecret("", tolerance, secret, now, dumps, hmac) == Rejected(ParseFailure)
  {
    assert Split("", " ") == [""];
  }
}

/**
 * Startup configuration: the bind address `listen` derives from the command-line arguments, the
 * credential checks `bot` makes, and the part of Python's `int()` that turns the port text into
 * a number.
 */
module Config {
  import opened Wrappers

  const DEFAULT_PORT: int := 6060
  const DEFAULT_HOST: string := "localhost"

  /** The parsed command line: each option is absent (`None`) unless given. */
  datatype Args = Args(sendTo: Option<string>, token: Option<string>, host: Option<string>, port: Option<string>)

  datatype ConfigError =
    | PortNotGiven     // `int(None)` raises a TypeError, which nothing catches
    | InvalidEndpoint  // "Invalid endpoint string"
    | InvalidToken     // "Invalid token string"

  datatype BindAddress = BindAddress(host: string, port: int)

  datatype Credentials = Credentials(sendTo: string, token: string)

  /** Python truthiness of an optional string: present and not empty. */
  predicate Truthy(s: Option<string>)
  {
    s.Some? && s.value != ""
  }

  // ----- Python's int() on a string, base 10 -----

  /** The characters `int()` skips around a number: ASCII and Unicode white space. */
  predicate IsSpace(c: char)
  {
    || c == ' ' || '\t' <= c <= '\r'
    || c == '\U{85}' || c == '\U{A0}' || c == '\U{1680}' || '\U{2000}' <= c <= '\U{200A}'
    || c == '\U{2028}' || c == '\U{2029}' || c == '\U{202F}' || c == '\U{205F}' || c == '\U{3000}'
  }

  predicate IsDigit(c: char)
  {
    '0' <= c <= '9'
  }

  function DigitValue(c: char): nat
    requires IsDigit(c)
  {
    c as int - '0' as int
  }

  function DigitChar(d: nat): (c: char)
    requires d < 10
    ensures IsDigit(c) && DigitValue(c) == d
  {
    ('0' as int + d) as char
  }

  /** `s` without its leading white space. */
  function StripLeading(s: string): (r: string)
    ensures |r| <= |s| && r == s[|s| - |r|..]
    ensures r != [] ==> !IsSpace(r[0])
  {
    if s != [] && IsSpace(s[0]) then StripLeading(s[1..]) else s
  }

  /** `s` without its trailing white space. */
  function StripTrailing(s: string): (r: string)
    ensures |r| <= |s| && r == s[..|r|]
    ensures r != [] ==> !IsSpace(r[|r| - 1])
  {
    if s != [] && IsSpace(s[|s| - 1]) then StripTrailing(s[..|s| - 1]) else s
  }

  function Strip(s: string): string
  {
    StripTrailing(StripLeading(s))
  }

  /** Digits with single underscores between them, as `int()` accepts after the sign. */
  predicate WellFormedDigits(t: string)
  {
    && |t| > 0
    && IsDigit(t[0])
    && IsDigit(t[|t| - 1])
    && (forall i :: 0 <= i < |t| ==> IsDigit(t[i]) || t[i] == '_')
    && (forall i :: 0 <= i < |t| - 1 && t[i] == '_' ==> t[i + 1] != '_')
  }

  function WithoutUnderscores(t: string): string
  {
    if t == [] then [] else (if t[0] == '_' then [] else [t[0]]) + WithoutUnderscores(t[1..])
  }

  /** The value of a string of decimal digits, most significant first. */
  function DigitsValue(ds: string): nat
    requires forall i :: 0 <= i < |ds| ==> IsDigit(ds[i])
  {
    if ds == [] then 0 else DigitsValue(ds[..|ds| - 1]) * 10 + DigitValue(ds[|ds| - 1])
  }

  lemma {:induction false} WithoutUnderscoresDigits(t: string)
    requires forall i :: 0 <= i < |t| ==> IsDigit(t[i]) || t[i] == '_'
    ensures forall i :: 0 <= i < |WithoutUnderscores(t)| ==> IsDigit(WithoutUnderscores(t)[i])
  {
    if t != [] {
      WithoutUnderscoresDigits(t[1..]);
    }
  }

  function ParseDigits(t: string): Option<nat>
  {
    if WellFormedDigits(t) then
      WithoutUnderscoresDigits(t);
      Some(DigitsValue(WithoutUnderscores(t)))
    else None
  }

  /**
   * `int(s)` for a string `s`: white space around an optionally signed number is skipped; `None`
   * stands for the ValueError raised on anything else.
   */
  function ParseInt(s: string): Option<int>
  {
    var t := Strip(s);
    if t != [] && (t[0] == '+' || t[0] == '-') then
      match ParseDigits(t[1..])
      case None => None
      case Some(v) =>
        var n: int := if t[0] == '-' then -(v as int) else v;
        Some(n)
    else
      match ParseDigits(t)
      case None => None
      case Some(v) => Some(v)
  }

  // ----- Decimal rendering, the inverse of ParseInt -----

  /** The decimal digits of `n`, without leading zeros. */
  function ShowNat(n: nat): (r: string)
    ensures |r| > 0
    ensures forall i :: 0 <= i < |r| ==> IsDigit(r[i])
  {
    if n < 10 then [DigitChar(n)] else ShowNat(n / 10) + [DigitChar(n % 10)]
  }

  /** `str(n)`: the decimal form of `n`, with a minus sign when negative. */
  function Show(n: int): string
  {
    if n < 0 then "-" + ShowNat(-n) else ShowNat(n)
  }

  lemma {:induction false} DigitsValueShowNat(n: nat)
    ensures DigitsValue(ShowNat(n)) == n
  {
    if n >= 10 {
      var s := ShowNat(n);
      assert s[..|s| - 1] == ShowNat(n / 10);
      DigitsValueShowNat(n / 10);
    }
  }

  lemma {:induction false} WithoutUnderscoresNone(t: string)
    requires forall i :: 0 <= i < |t| ==> t[i] != '_'
    ensures WithoutUnderscores(t) == t
  {
    if t != [] {
      WithoutUnderscoresNone(t[1..]);
      assert t == [t[0]] + t[1..];
    }
  }

  lemma ParseDigitsShowNat(n: nat)
    ensures ParseDigits(ShowNat(n)) == Some(n)
  {
    WithoutUnderscoresNone(ShowNat(n));
    DigitsValueShowNat(n);
  }

  /** The decimal form starts and ends with something other than white space. */
  lemma ShowEnds(n: int)
    ensures Show(n) != [] && !IsSpace(Show(n)[0]) && !IsSpace(Show(n)[|Show(n)| - 1])
    ensures Strip(Show(n)) == Show(n)
  {
  }

  /** `int()` only looks at the stripped text. */
  lemma ParseIntSameStrip(x: string, y: string)
    requires Strip(x) == Strip(y)
    ensures ParseInt(x) == ParseInt(y)
  {
  }

  /** Reading back the decimal form of any integer gives that integer. */
  lemma ParseIntShow(n: int)
    ensures ParseInt(Show(n)) == Some(n)
  {
    var s := Show(n);
    ShowEnds(n);
    if n < 0 {
      assert s[1..] == ShowNat(-n);
      ParseDigitsShowNat(-n);
    } else {
      ParseDigitsShowNat(n);
    }
  }

  lemma {:induction false} StripLeadingSpaces(pre: string, s: string)
    requires forall i :: 0 <= i < |pre| ==> IsSpace(pre[i])
    requires s != [] && !IsSpace(s[0])
    ensures StripLeading(pre + s) == s
  {
    if pre != [] {
      assert (pre + s)[1..] == pre[1..] + s;
      StripLeadingSpaces(pre[1..], s);
    } else {
      assert pre + s == s;
    }
  }

  lemma {:induction false} StripTrailingSpaces(s: string, post: string)
    requires forall i :: 0 <= i < |post| ==> IsSpace(post[i])
    requires s != [] && !IsSpace(s[|s| - 1])
    ensures StripTrailing(s + post) == s
  {
    if post != [] {
      assert (s + post)[..|s + post| - 1] == s + post[..|post| - 1];
      StripTrailingSpaces(s, post[..|post| - 1]);
    } else {
      assert s + post == s;
    }
  }

  lemma StripPadded(pre: string, s: string, post: string)
    requires forall i :: 0 <= i < |pre| ==> IsSpace(pre[i])
    requires forall i :: 0 <= i < |post| ==> IsSpace(post[i])
    requires s != [] && !IsSpace(s[0]) && !IsSpace(s[|s| - 1])
    ensures Strip(pre + s + post) == s
  {
    assert pre + s + post == pre + (s + post);
    StripLeadingSpaces(pre, s + post);
    StripTrailingSpaces(s, post);
  }

  /** White space around a number does not change what `int()` reads. */
  lemma ParseIntPadded(pre: string, n: int, post: string)
    requires forall i :: 0 <= i < |pre| ==> IsSpace(pre[i])
    requires forall i :: 0 <= i < |post| ==> IsSpace(post[i])
    ensures ParseInt(pre + Show(n) + post) == Some(n)
  {
    var s := Show(n);
    ShowEnds(n);
    StripPadded(pre, s, post);
    ParseIntSameStrip(pre + s + post, s);
    ParseIntShow(n);
  }

  /** A string without a single decimal digit is never read as a number. */
  lemma NoDigitNoInt(s: string)
    requires forall i :: 0 <= i < |s| ==> !IsDigit(s[i])
    ensures ParseInt(s) == None
  {
    var l := StripLeading(s);
    var t := Strip(s);
    assert forall i :: 0 <= i < |t| ==> t[i] == l[i] == s[|s| - |l| + i];
    if t != [] {
      assert !IsDigit(t[0]);
      if |t| > 1 {
        assert !IsDigit(t[1..][0]);
      }
    }
  }

  // ----- listen(): the bind address -----

  /** `args["host"] or "localhost"`. */
  function ResolveHost(host: Option<string>): (r: string)
    ensures r != ""
    ensures Truthy(host) ==> r == host.value
    ensures !Truthy(host) ==> r == DEFAULT_HOST
  {
    if Truthy(host) then host.value else DEFAULT_HOST
  }

  /**
   * `int(args["port"])`, falling back to DEFAULT_PORT on a ValueError. An absent port raises a
   * TypeError instead, which is not caught.
   */
  function ResolvePort(port: Option<string>): (r: Result<int, ConfigError>)
    ensures r.Failure? <==> port.None?
    ensures r.Failure? ==> r.error == PortNotGiven
    ensures port.Some? && ParseInt(port.value).Some? ==> r == Success(ParseInt(port.value).value)
    ensures port.Some? && ParseInt(port.value).None? ==> r == Success(DEFAULT_PORT)
  {
    match port
    case None => Failure(PortNotGiven)
    case Some(s) =>
      match ParseInt(s)
      case Some(n) => Success(n)
      case None => Success(DEFAULT_PORT)
  }

  /** The port given in decimal, with any surrounding white space, is the port bound. */
  lemma ResolvePortShow(pre: string, n: int, post: string)
    requires forall i :: 0 <= i < |pre| ==> IsSpace(pre[i])
    requires forall i :: 0 <= i < |post| ==> IsSpace(post[i])
    ensures ResolvePort(Some(pre + Show(n) + post)) == Success(n)
  {
    ParseIntPadded(pre, n, post);
  }

  /** A port text without any digit (empty, a word, a URL) falls back to DEFAULT_PORT. */
  lemma ResolvePortFallback(s: string)
    requires forall i :: 0 <= i < |s| ==> !IsDigit(s[i])
    ensures ResolvePort(Some(s)) == Success(DEFAULT_PORT)
  {
    NoDigitNoInt(s);
  }

  /** The address `listen` binds: the host is resolved first, then the port. */
  function ResolveBind(args: Args): (r: Result<BindAddress, ConfigError>)
    ensures r.Success? <==> args.port.Some?
    ensures r.Failure? ==> r.error == PortNotGiven
    ensures r.Success? ==> r.value.host == ResolveHost(args.host) && ResolvePort(args.port) == Success(r.value.port)
  {
    var host := ResolveHost(args.host);
    match ResolvePort(args.port)
    case Failure(e) => Failure(e)
    case Success(port) => Success(BindAddress(host, port))
  }

  // ----- bot(): the credential checks -----

  /** `bot` refuses an empty or absent endpoint first, then an empty or absent token. */
  function CheckCredentials(args: Args): (r: Result<Credentials, ConfigError>)
    ensures r.Success? <==> Truthy(args.sendTo) && Truthy(args.token)
    ensures r == Failure(InvalidEndpoint) <==> !Truthy(args.sendTo)
    ensures r == Failure(InvalidToken) <==> Truthy(args.sendTo) && !Truthy(args.token)
    ensures r.Success? ==> r.value == Credentials(args.sendTo.value, args.token.value)
  {
    if !Truthy(args.sendTo) then Failure(InvalidEndpoint)
    else if !Truthy(args.token) then Failure(InvalidToken)
    else Success(Credentials(args.sendTo.value, args.token.value))
  }
}

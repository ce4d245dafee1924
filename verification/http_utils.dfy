/**
  HttpUtils: URL-encoding of path and query material, composition of a base
  URI with a path, the query string of a request, and two small predicates
  about requests. Values that get URL-encoded are taken as the octets of
  their UTF-8 form; a Java null is Option.None.
*/
module HttpUtils {
  import opened Wrappers
  import opened Percent
  import UrlEncoder
  import Rfc3986
  import Delimited

  // ---------------------------------------------------------------------
  // urlEncode: URLEncoder.encode, then a left-to-right fix-up pass
  // ---------------------------------------------------------------------

  /** The alternatives of the fix-up pattern "\+|\*|%7E|%2F". */
  datatype Token = Plus | Star | Tilde | EncodedSlash

  /** The text an alternative matches. */
  function TokenText(t: Token): string {
    match t
    case Plus => "+"
    case Star => "*"
    case Tilde => "%7E"
    case EncodedSlash => "%2F"
  }

  function Size(t: Token): (n: nat)
    ensures n == |TokenText(t)|
  {
    if t == Plus || t == Star then 1 else 3
  }

  /**
    The alternative of the pattern that matches at position k of s, if one
    does. No two alternatives can match at the same place, so their order
    in the pattern does not matter.
  */
  function MatchAt(s: string, k: nat): (m: Option<Token>)
    requires k <= |s|
    ensures m.Some? ==> k + Size(m.value) <= |s|
  {
    if k + 1 <= |s| && s[k] == '+' then Some(Plus)
    else if k + 1 <= |s| && s[k] == '*' then Some(Star)
    else if k + 3 <= |s| && s[k] == '%' && s[k + 1] == '7' && s[k + 2] == 'E' then Some(Tilde)
    else if k + 3 <= |s| && s[k] == '%' && s[k + 1] == '2' && s[k + 2] == 'F' then Some(EncodedSlash)
    else None
  }

  /** A match is exactly the text of its alternative. */
  lemma MatchText(s: string, k: nat)
    requires k <= |s| && MatchAt(s, k).Some?
    ensures var t := MatchAt(s, k).value; s[k..k + Size(t)] == TokenText(t)
  {
  }

  /** Whether a fix-up sequence starts at position k of s. */
  predicate TokenAt(s: string, k: nat)
    requires k <= |s|
  {
    MatchAt(s, k).Some?
  }

  /**
    The replacement urlEncode chooses for a matched group, by comparing its
    text. The replacement of one of the four sequences stands for the same
    octet under percent-decoding as the group did under form decoding; any
    other text is left as it is.
  */
  function Rewrite(group: string, path: bool): (r: string)
    ensures group in {"+", "*", "%7E", "%2F"} ==> Decode(r, false) == Decode(group, true)
    ensures group !in {"+", "*", "%7E", "%2F"} ==> r == group
  {
    if group == "+" then "%20"
    else if group == "*" then "%2A"
    else if group == "%7E" then "~"
    else if path && group == "%2F" then "/"
    else group
  }

  /** What the pass writes for each alternative. */
  function Replacement(t: Token, path: bool): string {
    match t
    case Plus => "%20"
    case Star => "%2A"
    case Tilde => "~"
    case EncodedSlash => if path then "/" else "%2F"
  }

  /** The text comparisons of Rewrite tell the four alternatives apart. */
  lemma RewriteToken(t: Token, path: bool)
    ensures Rewrite(TokenText(t), path) == Replacement(t, path)
  {
    match t
    case Plus =>
    case Star => assert "*" != "+";
    case Tilde => assert "%7E" != "+" && "%7E" != "*";
    case EncodedSlash => assert "%2F" != "+" && "%2F" != "*" && "%2F" != "%7E";
  }

  /**
    Each replacement keeps the meaning: it stands for the same octet under
    plain percent-decoding as the matched text did under form decoding, and
    holds neither '+' nor '*'.
  */
  lemma ReplacementKeepsOctet(t: Token, path: bool)
    ensures Decode(Replacement(t, path), false) == Decode(TokenText(t), true)
    ensures '+' !in Replacement(t, path) && '*' !in Replacement(t, path)
  {
    ReplacementNoPlusOrStar(t, path);
  }

  lemma ReplacementNoPlusOrStar(t: Token, path: bool)
    ensures '+' !in Replacement(t, path) && '*' !in Replacement(t, path)
  {
  }

  /**
    The effect of the fix-up pass on s from position a on: each fix-up
    sequence, taken left to right without overlap, is replaced; everything
    else is copied.
  */
  function FixUpFrom(s: string, a: nat, path: bool): string
    requires a <= |s|
    decreases |s| - a
  {
    if a == |s| then []
    else match MatchAt(s, a)
      case None => [s[a]] + FixUpFrom(s, a + 1, path)
      case Some(t) => Replacement(t, path) + FixUpFrom(s, a + Size(t), path)
  }

  /** The effect of the fix-up pass on a whole string. */
  function FixUp(s: string, path: bool): string {
    FixUpFrom(s, 0, path)
  }

  /** The output of the fix-up pass holds no '+' and no '*'. */
  lemma {:induction false} FixUpNoPlusOrStar(s: string, a: nat, path: bool)
    requires a <= |s|
    ensures '+' !in FixUpFrom(s, a, path) && '*' !in FixUpFrom(s, a, path)
    decreases |s| - a
  {
    if a < |s| {
      match MatchAt(s, a)
      case None =>
        PassLiteral(s, a, path);
        FixUpNoPlusOrStar(s, a + 1, path);
      case Some(t) =>
        PassToken(s, a, t, path);
        ReplacementNoPlusOrStar(t, path);
        FixUpNoPlusOrStar(s, a + Size(t), path);
    }
  }

  /** No fix-up sequence starts at any position in [a, b). */
  predicate NoTokenIn(s: string, a: nat, b: nat)
    requires a <= b <= |s|
  {
    forall k | a <= k < b :: !TokenAt(s, k)
  }

  /** A stretch with no fix-up sequence in it is copied as it is. */
  lemma {:induction false} SkipPlain(s: string, a: nat, b: nat, path: bool)
    requires a <= b <= |s| && NoTokenIn(s, a, b)
    ensures FixUpFrom(s, a, path) == s[a..b] + FixUpFrom(s, b, path)
    decreases b - a
  {
    if a < b {
      var rest := FixUpFrom(s, b, path);
      calc {
        FixUpFrom(s, a, path);
        == { assert !TokenAt(s, a); }
        [s[a]] + FixUpFrom(s, a + 1, path);
        == { SkipPlain(s, a + 1, b, path); }
        [s[a]] + (s[a + 1..b] + rest);
        == { assert [s[a]] + (s[a + 1..b] + rest) == ([s[a]] + s[a + 1..b]) + rest; }
        ([s[a]] + s[a + 1..b]) + rest;
        == { assert [s[a]] + s[a + 1..b] == s[a..b]; }
        s[a..b] + rest;
      }
    } else {
      assert s[a..b] == [];
    }
  }

  /** The fix-up pass copies a string with no fix-up sequence in it unchanged. */
  lemma FixUpCopiesPlain(s: string, path: bool)
    requires NoTokenIn(s, 0, |s|)
    ensures FixUp(s, path) == s
  {
    SkipPlain(s, 0, |s|, path);
    assert s[0..|s|] == s;
  }

  /** A tail with no fix-up sequence in it is copied unchanged. */
  lemma FixUpCopiesTail(s: string, a: nat, path: bool)
    requires a <= |s| && NoTokenIn(s, a, |s|)
    ensures FixUpFrom(s, a, path) == s[a..]
  {
    SkipPlain(s, a, |s|, path);
  }

  /**
    One round of the pass, as the loop invariant sees it: the text from a up
    to the next fix-up sequence is copied, the sequence is replaced, and the
    pass goes on after it.
  */
  lemma FixUpAdvance(s: string, done: string, a: nat, start: nat, path: bool)
    requires a <= start < |s| && NoTokenIn(s, a, start) && TokenAt(s, start)
    requires done + FixUpFrom(s, a, path) == FixUp(s, path)
    ensures var t := MatchAt(s, start).value;
      done + s[a..start] + Replacement(t, path) + FixUpFrom(s, start + Size(t), path) == FixUp(s, path)
  {
    var t := MatchAt(s, start).value;
    var x, y, z := s[a..start], Replacement(t, path), FixUpFrom(s, start + Size(t), path);
    calc {
      FixUp(s, path);
      done + FixUpFrom(s, a, path);
      == { SkipPlain(s, a, start, path); }
      done + (x + FixUpFrom(s, start, path));
      == { assert FixUpFrom(s, start, path) == y + z; }
      done + (x + (y + z));
      == { assert done + (x + (y + z)) == done + x + y + z; }
      done + x + y + z;
    }
  }

  /**
    The same round as the loop of urlEncode takes it: the replacement is
    chosen by comparing the matched text, and the pass resumes at the end of
    the match.
  */
  lemma FixUpRound(s: string, done: string, a: nat, start: nat, end: nat, replacement: string, path: bool)
    requires a <= start < |s| && NoTokenIn(s, a, start) && TokenAt(s, start)
    requires end == start + Size(MatchAt(s, start).value)
    requires replacement == Rewrite(s[start..end], path)
    requires done + FixUpFrom(s, a, path) == FixUp(s, path)
    ensures done + s[a..start] + replacement + FixUpFrom(s, end, path) == FixUp(s, path)
  {
    MatchText(s, start);
    RewriteToken(MatchAt(s, start).value, path);
    FixUpAdvance(s, done, a, start, path);
  }

  /**
    Matcher.find: the leftmost fix-up sequence that starts at or after from,
    if there is one; start and end are those of Matcher.start() and
    Matcher.end().
  */
  method Find(s: string, from: nat) returns (found: bool, start: nat, end: nat)
    requires from <= |s|
    ensures found ==> from <= start < |s| && TokenAt(s, start)
    ensures found ==> end == start + Size(MatchAt(s, start).value)
    ensures found ==> NoTokenIn(s, from, start)
    ensures !found ==> NoTokenIn(s, from, |s|)
  {
    start := from;
    while start < |s| && !TokenAt(s, start)
      invariant from <= start <= |s|
      invariant NoTokenIn(s, from, start)
    {
      start := start + 1;
    }
    found := start < |s|;
    end := if found then start + Size(MatchAt(s, start).value) else start;
  }

  /**
    The fix-up loop of urlEncode: while Matcher.find() finds a sequence, the
    text before it and its replacement are appended to the buffer
    (appendReplacement); at the end the text after the last match is
    appended (appendTail).
  */
  method FixUpPass(encoded: string, path: bool) returns (r: string)
    ensures r == FixUp(encoded, path)
  {
    var buffer: string := [];
    var append: nat := 0;
    var found, start, end := Find(encoded, 0);
    while found
      invariant append <= |encoded|
      invariant found ==> append <= start < |encoded| && TokenAt(encoded, start)
      invariant found ==> end == start + Size(MatchAt(encoded, start).value)
      invariant found ==> NoTokenIn(encoded, append, start)
      invariant !found ==> NoTokenIn(encoded, append, |encoded|)
      invariant buffer + FixUpFrom(encoded, append, path) == FixUp(encoded, path)
      decreases |encoded| - append
    {
      var group := encoded[start..end];
      var replacement := Rewrite(group, path);
      FixUpRound(encoded, buffer, append, start, end, replacement, path);
      buffer := buffer + encoded[append..start] + replacement;
      append := end;
      found, start, end := Find(encoded, append);
    }
    FixUpCopiesTail(encoded, append, path);
    buffer := buffer + encoded[append..];
    r := buffer;
  }

  /**
    urlEncode(value, path): null becomes the empty string; otherwise the
    form encoding of the value goes through the fix-up pass. The result is
    the RFC 3986 encoding of the value.
  */
  method UrlEncode(value: Option<seq<byte>>, path: bool) returns (r: string)
    ensures value.None? ==> r == ""
    ensures value.Some? ==> r == Rfc3986.Encode(value.value, path)
  {
    if value.None? {
      return "";
    }
    var encoded := UrlEncoder.Encode(value.value);
    r := FixUpPass(encoded, path);
    FixUpOfFormEncoding(value.value, path);
  }

  /** A match of the pattern is recognised from its text. */
  lemma MatchToken(s: string, j: nat, t: Token)
    requires j + Size(t) <= |s| && s[j..j + Size(t)] == TokenText(t)
    ensures MatchAt(s, j) == Some(t)
  {
    assert s[j] == TokenText(t)[0];
    if Size(t) == 3 {
      assert s[j + 1] == TokenText(t)[1] && s[j + 2] == TokenText(t)[2];
    }
  }

  /** A character that starts no fix-up sequence is copied. */
  lemma PassLiteral(s: string, j: nat, path: bool)
    requires j < |s| && MatchAt(s, j).None?
    ensures FixUpFrom(s, j, path) == [s[j]] + FixUpFrom(s, j + 1, path)
  {
  }

  /** A fix-up sequence is replaced. */
  lemma PassToken(s: string, j: nat, t: Token, path: bool)
    requires j < |s| && MatchAt(s, j) == Some(t)
    ensures FixUpFrom(s, j, path) == Replacement(t, path) + FixUpFrom(s, j + Size(t), path)
  {
  }

  /** The octets whose form encoding is one of the fix-up sequences: '*', ' ', '~' and '/'. */
  function FormToken(b: byte): Option<Token> {
    if b == 0x2A then Some(Star)
    else if b == 0x20 then Some(Plus)
    else if b == 0x7E then Some(Tilde)
    else if b == SLASH then Some(EncodedSlash)
    else None
  }

  /**
    The octets the two encoders agree on: URLEncoder keeps them literally
    and so does RFC 3986, and their character starts no fix-up sequence.
  */
  lemma LiteralOctet(b: byte, path: bool)
    requires UrlEncoder.KeptLiteral(ToChar(b)) && FormToken(b).None?
    ensures UrlEncoder.EncodeByte(b) == [ToChar(b)] && Rfc3986.EncodeByte(b, path) == [ToChar(b)]
    ensures ToChar(b) != '+' && ToChar(b) != '*' && ToChar(b) != '%'
  {
  }

  /** For the four octets of FormToken, the pass's replacement is the RFC 3986 encoding. */
  lemma TokenOctet(b: byte, path: bool)
    requires FormToken(b).Some?
    ensures UrlEncoder.EncodeByte(b) == TokenText(FormToken(b).value)
    ensures Rfc3986.EncodeByte(b, path) == Replacement(FormToken(b).value, path)
  {
    if b == 0x2A {
      assert ToChar(b) == '*';
    } else if b == 0x20 {
      assert ToChar(b) == ' ';
    } else if b == 0x7E {
      assert ToChar(b) == '~';
    } else {
      assert ToChar(b) == '/';
    }
  }

  /** Every other octet is escaped alike by both encoders. */
  lemma EscapedOctet(b: byte, path: bool)
    requires !UrlEncoder.KeptLiteral(ToChar(b)) && FormToken(b).None?
    ensures UrlEncoder.EncodeByte(b) == Escape(b) && Rfc3986.EncodeByte(b, path) == Escape(b)
  {
  }

  /** The fix-up pass turns the form encoding of one octet into its RFC 3986 encoding. */
  lemma FixUpUnit(s: string, j: nat, b: byte, path: bool)
    requires j + |UrlEncoder.EncodeByte(b)| <= |s| && s[j..j + |UrlEncoder.EncodeByte(b)|] == UrlEncoder.EncodeByte(b)
    ensures var n := |UrlEncoder.EncodeByte(b)|;
      FixUpFrom(s, j, path) == Rfc3986.EncodeByte(b, path) + FixUpFrom(s, j + n, path)
  {
    if FormToken(b).Some? {
      TokenUnit(s, j, b, path);
    } else if UrlEncoder.KeptLiteral(ToChar(b)) {
      LiteralUnit(s, j, b, path);
    } else {
      EscapeUnit(s, j, b, path);
    }
  }

  lemma TokenUnit(s: string, j: nat, b: byte, path: bool)
    requires FormToken(b).Some?
    requires j + |UrlEncoder.EncodeByte(b)| <= |s| && s[j..j + |UrlEncoder.EncodeByte(b)|] == UrlEncoder.EncodeByte(b)
    ensures var n := |UrlEncoder.EncodeByte(b)|;
      FixUpFrom(s, j, path) == Rfc3986.EncodeByte(b, path) + FixUpFrom(s, j + n, path)
  {
    var t := FormToken(b).value;
    TokenOctet(b, path);
    MatchToken(s, j, t);
    PassToken(s, j, t, path);
  }

  lemma LiteralUnit(s: string, j: nat, b: byte, path: bool)
    requires UrlEncoder.KeptLiteral(ToChar(b)) && FormToken(b).None?
    requires j + |UrlEncoder.EncodeByte(b)| <= |s| && s[j..j + |UrlEncoder.EncodeByte(b)|] == UrlEncoder.EncodeByte(b)
    ensures var n := |UrlEncoder.EncodeByte(b)|;
      FixUpFrom(s, j, path) == Rfc3986.EncodeByte(b, path) + FixUpFrom(s, j + n, path)
  {
    var u := UrlEncoder.EncodeByte(b);
    LiteralOctet(b, path);
    assert s[j] == u[0] by { assert s[j] == s[j..j + 1][0]; }
    PassLiteral(s, j, path);
  }

  lemma EscapeUnit(s: string, j: nat, b: byte, path: bool)
    requires !UrlEncoder.KeptLiteral(ToChar(b)) && FormToken(b).None?
    requires j + |UrlEncoder.EncodeByte(b)| <= |s| && s[j..j + |UrlEncoder.EncodeByte(b)|] == UrlEncoder.EncodeByte(b)
    ensures var n := |UrlEncoder.EncodeByte(b)|;
      FixUpFrom(s, j, path) == Rfc3986.EncodeByte(b, path) + FixUpFrom(s, j + n, path)
  {
    var u := UrlEncoder.EncodeByte(b);
    EscapedOctet(b, path);
    assert s[j] == '%' && s[j + 1] == u[1] && s[j + 2] == u[2] by {
      assert s[j] == s[j..j + 3][0] && s[j + 1] == s[j..j + 3][1] && s[j + 2] == s[j..j + 3][2];
    }
    EscapeNotRewritten(s, j, b, path);
  }

  /** No fix-up sequence starts inside an escape other than "%7E" and "%2F". */
  lemma EscapeMatchesNothing(s: string, j: nat, b: byte)
    requires b != 0x7E && b != SLASH
    requires j + 3 <= |s| && s[j] == '%' && s[j + 1] == Escape(b)[1] && s[j + 2] == Escape(b)[2]
    ensures MatchAt(s, j).None? && MatchAt(s, j + 1).None? && MatchAt(s, j + 2).None?
  {
    var e := Escape(b);
    assert !(e[1] == '7' && e[2] == 'E') && !(e[1] == '2' && e[2] == 'F');
  }

  /** An escape other than "%7E" and "%2F" passes the fix-up pass unchanged. */
  lemma EscapeNotRewritten(s: string, j: nat, b: byte, path: bool)
    requires b != 0x7E && b != SLASH
    requires j + 3 <= |s| && s[j] == '%' && s[j + 1] == Escape(b)[1] && s[j + 2] == Escape(b)[2]
    ensures FixUpFrom(s, j, path) == Escape(b) + FixUpFrom(s, j + 3, path)
  {
    EscapeMatchesNothing(s, j, b);
    PassLiteral(s, j, path);
    PassLiteral(s, j + 1, path);
    PassLiteral(s, j + 2, path);
    ThreeChars(Escape(b), s[j], s[j + 1], s[j + 2], FixUpFrom(s, j + 3, path));
  }

  lemma ThreeChars(e: string, x: char, y: char, z: char, rest: string)
    requires |e| == 3 && e[0] == x && e[1] == y && e[2] == z
    ensures [x] + ([y] + ([z] + rest)) == e + rest
  {
    assert e == [x, y, z];
  }

  /** The pass over a suffix that is the form encoding of bs. */
  lemma {:induction false} FixUpOfFormEncodingAt(s: string, j: nat, bs: seq<byte>, path: bool)
    requires j <= |s| && s[j..] == UrlEncoder.Encode(bs)
    ensures FixUpFrom(s, j, path) == Rfc3986.Encode(bs, path)
    decreases bs
  {
    if bs == [] {
      assert j == |s|;
    } else {
      var n := |UrlEncoder.EncodeByte(bs[0])|;
      FormEncodingSplit(s, j, bs);
      FixUpUnit(s, j, bs[0], path);
      FixUpOfFormEncodingAt(s, j + n, bs[1..], path);
    }
  }

  /** A form encoding at position j is its first octet's encoding followed by the rest's. */
  lemma FormEncodingSplit(s: string, j: nat, bs: seq<byte>)
    requires bs != [] && j <= |s| && s[j..] == UrlEncoder.Encode(bs)
    ensures var u := UrlEncoder.EncodeByte(bs[0]);
      j + |u| <= |s| && s[j..j + |u|] == u && s[j + |u|..] == UrlEncoder.Encode(bs[1..])
  {
    var u := UrlEncoder.EncodeByte(bs[0]);
    var n := |u|;
    assert s[j..] == u + UrlEncoder.Encode(bs[1..]);
    assert s[j + n..] == s[j..][n..];
    assert s[j..j + n] == s[j..][..n];
  }

  /**
    The two-stage encoding is the direct RFC 3986 encoding: form-encoding
    followed by the fix-up pass gives, octet by octet, the unreserved
    characters literally (and '/' in path mode) and "%XX" for every other
    octet. In particular a literal '%' of the value ("%25" after form
    encoding) is never rewritten.
  */
  lemma FixUpOfFormEncoding(bs: seq<byte>, path: bool)
    ensures FixUp(UrlEncoder.Encode(bs), path) == Rfc3986.Encode(bs, path)
  {
    var s := UrlEncoder.Encode(bs);
    assert s[0..] == s;
    FixUpOfFormEncodingAt(s, 0, bs, path);
  }

  // ---------------------------------------------------------------------
  // isUsingNonDefaultPort and usePayloadForQueryParameters
  // ---------------------------------------------------------------------

  /** What a Java call does: return a value, or throw a NullPointerException. */
  datatype Outcome<+T> = Returns(value: T) | ThrowsNullPointer

  /** The parts of java.net.URI read here: getScheme() (null when absent) and getPort() (-1 when absent). */
  datatype Uri = Uri(scheme: Option<string>, port: int)

  function LowerChar(c: char): char {
    if 'A' <= c <= 'Z' then (c as int + 32) as char else c
  }

  /** String.toLowerCase on ASCII letters. */
  function ToLower(s: string): (r: string)
    ensures |r| == |s|
  {
    seq(|s|, i requires 0 <= i < |s| => LowerChar(s[i]))
  }

  /** The port a scheme implies when none is written: 80 for http, 443 for https. */
  function DefaultPort(scheme: string): Option<int> {
    if scheme == "http" then Some(80)
    else if scheme == "https" then Some(443)
    else None
  }

  /**
    isUsingNonDefaultPort: whether the URI names an explicit port other than
    its scheme's default; a URI without a scheme makes the call throw.
  */
  function IsUsingNonDefaultPort(uri: Uri): (r: Outcome<bool>)
    ensures uri.scheme.None? <==> r.ThrowsNullPointer?
    ensures uri.scheme.Some? ==>
      r == Returns(uri.port > 0 && DefaultPort(ToLower(uri.scheme.value)) != Some(uri.port))
  {
    match uri.scheme
    case None => ThrowsNullPointer
    case Some(s) =>
      var scheme := ToLower(s);
      var port := uri.port;
      if port <= 0 then Returns(false)
      else if scheme == "http" && port == 80 then Returns(false)
      else if scheme == "https" && port == 443 then Returns(false)
      else Returns(true)
  }

  /**
    The port is default exactly when it is absent, or http with 80, or
    https with 443, the scheme compared without regard to case; so http on
    443 and any other scheme with a positive port count as non-default.
  */
  lemma NonDefaultPortCases(scheme: string, port: int)
    ensures IsUsingNonDefaultPort(Uri(Some(scheme), port)) == Returns(false) <==>
      port <= 0 || (ToLower(scheme) == "http" && port == 80) || (ToLower(scheme) == "https" && port == 443)
    ensures IsUsingNonDefaultPort(Uri(Some(scheme), port)).Returns?
  {
  }

  /** Only the lower-cased scheme matters. */
  lemma SchemeCaseIgnored(scheme: string, port: int)
    ensures IsUsingNonDefaultPort(Uri(Some(ToLower(scheme)), port)) == IsUsingNonDefaultPort(Uri(Some(scheme), port))
  {
    assert ToLower(ToLower(scheme)) == ToLower(scheme);
  }

  datatype HttpMethodName = GET | POST | PUT | DELETE | HEAD | PATCH

  /** A query parameter: its name and its value, either of which may be null. */
  datatype Param = Param(name: Option<seq<byte>>, value: Option<seq<byte>>)

  /**
    The parts of a Request read here: the HTTP method, whether getContent()
    is non-null, and the parameters in the map's iteration order.
  */
  datatype Request = Request(httpMethod: HttpMethodName, hasContent: bool, parameters: seq<Param>)

  /** usePayloadForQueryParameters: a POST without a payload carries its parameters in the body. */
  function UsePayloadForQueryParameters(request: Request): (r: bool)
    ensures r <==> request.httpMethod == POST && !request.hasContent
  {
    var requestIsPost := request.httpMethod == POST;
    var requestHasNoPayload := !request.hasContent;
    requestIsPost && requestHasNoPayload
  }

  // ---------------------------------------------------------------------
  // encodeParameters
  // ---------------------------------------------------------------------

  function ValueOrEmpty(value: Option<seq<byte>>): seq<byte> {
    if value.None? then [] else value.value
  }

  /** The first n parameter names are not null, so URLEncoder.encode accepts them. */
  predicate NamesPresentUpTo(ps: seq<Param>, n: nat)
    requires n <= |ps|
  {
    forall k | 0 <= k < n :: ps[k].name.Some?
  }

  /** No parameter name is null. */
  predicate NamesPresent(ps: seq<Param>) {
    NamesPresentUpTo(ps, |ps|)
  }

  /** "name=value", both form-encoded; a null value gives "name=". */
  function EncodedPair(p: Param): string
    requires p.name.Some?
  {
    UrlEncoder.Encode(p.name.value) + "=" + UrlEncoder.Encode(ValueOrEmpty(p.value))
  }

  /** The encoded pairs of the first n parameters, in order. */
  function PairsUpTo(ps: seq<Param>, n: nat): seq<string>
    requires n <= |ps| && NamesPresentUpTo(ps, n)
  {
    seq(n, k requires 0 <= k < n => EncodedPair(ps[k]))
  }

  function EncodedPairs(ps: seq<Param>): seq<string>
    requires NamesPresent(ps)
  {
    PairsUpTo(ps, |ps|)
  }

  lemma PairsUpToSnoc(ps: seq<Param>, i: nat)
    requires i < |ps| && NamesPresentUpTo(ps, i + 1)
    ensures PairsUpTo(ps, i + 1) == PairsUpTo(ps, i) + [EncodedPair(ps[i])]
  {
  }

  /** The query string of a parameter list: absent when there are no parameters. */
  function Query(ps: seq<Param>): Option<string>
    requires NamesPresent(ps)
  {
    if ps == [] then None else Some(Delimited.Join(EncodedPairs(ps), '&'))
  }

  /** One round of the loop of encodeParameters: a separator unless first, then the next pair. */
  lemma QueryStep(ps: seq<Param>, i: nat, sb: string, encodedName: string, encodedValue: string)
    requires i < |ps| && NamesPresentUpTo(ps, i + 1)
    requires sb == Delimited.Join(PairsUpTo(ps, i), '&')
    requires encodedName == UrlEncoder.Encode(ps[i].name.value)
    requires encodedValue == UrlEncoder.Encode(ValueOrEmpty(ps[i].value))
    ensures (if i == 0 then sb else sb + "&") + encodedName + "=" + encodedValue
      == Delimited.Join(PairsUpTo(ps, i + 1), '&')
  {
    var pair := EncodedPair(ps[i]);
    PairsUpToSnoc(ps, i);
    Delimited.JoinSnoc(PairsUpTo(ps, i), pair, '&');
    if i == 0 {
      assert sb == [];
      assert sb + encodedName + "=" + encodedValue == pair;
    } else {
      SeparatedPair(sb, encodedName, encodedValue);
    }
  }

  lemma SeparatedPair(sb: string, name: string, value: string)
    ensures sb + "&" + name + "=" + value == sb + ['&'] + (name + "=" + value)
  {
  }

  /**
    encodeParameters: null when the request has no parameters, otherwise
    the encoded pairs in iteration order, joined with '&'. A null name makes
    URLEncoder.encode, and so the call, throw.
  */
  method EncodeParameters(request: Request) returns (r: Outcome<Option<string>>)
    ensures NamesPresent(request.parameters) ==> r == Returns(Query(request.parameters))
    ensures !NamesPresent(request.parameters) <==> r.ThrowsNullPointer?
    ensures r == Returns(None) <==> request.parameters == []
  {
    var ps := request.parameters;
    if |ps| == 0 {
      return Returns(None);
    }
    var sb: string := [];
    var first := true;
    for i := 0 to |ps|
      invariant first <==> i == 0
      invariant NamesPresentUpTo(ps, i)
      invariant sb == Delimited.Join(PairsUpTo(ps, i), '&')
    {
      if ps[i].name.None? {
        return ThrowsNullPointer;
      }
      var encodedName := UrlEncoder.Encode(ps[i].name.value);
      var value := ps[i].value;
      var encodedValue := if value.None? then "" else UrlEncoder.Encode(value.value);
      QueryStep(ps, i, sb, encodedName, encodedValue);
      if !first {
        sb := sb + "&";
      } else {
        first := false;
      }
      sb := sb + encodedName + "=" + encodedValue;
    }
    r := Returns(Some(sb));
  }

  /**
    The query string can be taken apart again: split at '&' it gives one
    piece per parameter, in order; each piece splits at '=' into exactly a
    name and a value, which form-decode to the parameter's name and value
    (a null value reads back as empty).
  */
  lemma ParseQuery(ps: seq<Param>)
    requires ps != [] && NamesPresent(ps)
    ensures var pieces := Delimited.Split(Query(ps).value, '&');
      |pieces| == |ps| &&
      forall i | 0 <= i < |ps| ::
        var kv := Delimited.Split(pieces[i], '=');
        |kv| == 2 &&
        Decode(kv[0], true) == Some(ps[i].name.value) &&
        Decode(kv[1], true) == Some(ValueOrEmpty(ps[i].value))
  {
    var pairs := EncodedPairs(ps);
    forall i | 0 <= i < |ps|
      ensures '&' !in pairs[i]
      ensures Delimited.Split(pairs[i], '=') ==
        [UrlEncoder.Encode(ps[i].name.value), UrlEncoder.Encode(ValueOrEmpty(ps[i].value))]
    {
      var n, v := UrlEncoder.Encode(ps[i].name.value), UrlEncoder.Encode(ValueOrEmpty(ps[i].value));
      UrlEncoder.NoQueryDelimiters(ps[i].name.value);
      UrlEncoder.NoQueryDelimiters(ValueOrEmpty(ps[i].value));
      assert pairs[i] == Delimited.Join([n, v], '=');
      Delimited.SplitJoin([n, v], '=');
    }
    Delimited.SplitJoin(pairs, '&');
    forall i | 0 <= i < |ps|
      ensures Decode(UrlEncoder.Encode(ps[i].name.value), true) == Some(ps[i].name.value)
      ensures Decode(UrlEncoder.Encode(ValueOrEmpty(ps[i].value)), true) == Some(ValueOrEmpty(ps[i].value))
    {
      UrlEncoder.DecodeEncode(ps[i].name.value);
      UrlEncoder.DecodeEncode(ValueOrEmpty(ps[i].value));
    }
  }

  /** A null value and an empty value give the same pair: the query string does not tell them apart. */
  lemma NullValueReadsAsEmpty(name: seq<byte>)
    ensures EncodedPair(Param(Some(name), None)) == EncodedPair(Param(Some(name), Some([])))
    ensures EncodedPair(Param(Some(name), None)) == UrlEncoder.Encode(name) + "="
  {
  }

  // ---------------------------------------------------------------------
  // appendUri
  // ---------------------------------------------------------------------

  predicate EndsWithSlash(s: string) {
    |s| > 0 && s[|s| - 1] == '/'
  }

  /** No two neighbouring characters are both '/'. */
  predicate NoDoubleSlash(s: string) {
    forall i | 0 < i < |s| :: s[i - 1] == '/' ==> s[i] != '/'
  }

  /** String.replace("//", "/%2F"): left to right, without overlap. */
  function EscapeDoubleSlashes(s: string): (r: string)
    ensures |s| > 0 ==> |r| > 0 && r[0] == s[0]
    ensures NoDoubleSlash(r)
    decreases |s|
  {
    if |s| >= 2 && s[0] == '/' && s[1] == '/' then "/%2F" + EscapeDoubleSlashes(s[2..])
    else if s == [] then []
    else [s[0]] + EscapeDoubleSlashes(s[1..])
  }

  /** Escaping doubled slashes does not change what the text decodes to. */
  lemma {:induction false} EscapeDoubleSlashesKeepsDecoding(s: string, plusIsSpace: bool)
    ensures Decode(EscapeDoubleSlashes(s), plusIsSpace) == Decode(s, plusIsSpace)
    decreases |s|
  {
    if |s| >= 2 && s[0] == '/' && s[1] == '/' {
      EscapeDoubleSlashesKeepsDecoding(s[2..], plusIsSpace);
      DoubleSlashKeepsDecoding(s, plusIsSpace);
    } else if s != [] && s[0] == '%' {
      if |s| >= 3 && IsHexDigit(s[1]) && IsHexDigit(s[2]) {
        EscapeDoubleSlashesKeepsDecoding(s[3..], plusIsSpace);
        EscapeKeepsDecoding(s, plusIsSpace);
      } else {
        MalformedStaysMalformed(s, plusIsSpace);
      }
    } else if s != [] {
      EscapeDoubleSlashesKeepsDecoding(s[1..], plusIsSpace);
      LiteralKeepsDecoding(s, plusIsSpace);
    }
  }

  /** "//" at the front becomes "/%2F", which decodes to the same two slashes. */
  lemma DoubleSlashKeepsDecoding(s: string, plusIsSpace: bool)
    requires |s| >= 2 && s[0] == '/' && s[1] == '/'
    requires Decode(EscapeDoubleSlashes(s[2..]), plusIsSpace) == Decode(s[2..], plusIsSpace)
    ensures Decode(EscapeDoubleSlashes(s), plusIsSpace) == Decode(s, plusIsSpace)
  {
    var t := EscapeDoubleSlashes(s[2..]);
    assert Escape(SLASH) == "%2F";
    assert EscapeDoubleSlashes(s) == "/" + (Escape(SLASH) + t);
    DecodeLiteral('/', Escape(SLASH) + t, plusIsSpace);
    DecodeEscape(SLASH, t, plusIsSpace);
    assert s == "/" + ("/" + s[2..]);
    DecodeLiteral('/', "/" + s[2..], plusIsSpace);
    DecodeLiteral('/', s[2..], plusIsSpace);
  }

  /** Three characters that hold no '/' pass through unchanged. */
  lemma EscapeDoubleSlashesSkipsThree(s: string)
    requires |s| >= 3 && s[0] != '/' && s[1] != '/' && s[2] != '/'
    ensures EscapeDoubleSlashes(s) == [s[0], s[1], s[2]] + EscapeDoubleSlashes(s[3..])
  {
    var s1, s2 := s[1..], s[2..];
    assert s1[1..] == s2 && s2[1..] == s[3..];
    EscapeDoubleSlashesSkipsOne(s);
    EscapeDoubleSlashesSkipsOne(s1);
    EscapeDoubleSlashesSkipsOne(s2);
  }

  /** A first character other than '/' is copied. */
  lemma EscapeDoubleSlashesSkipsOne(s: string)
    requires |s| >= 1 && s[0] != '/'
    ensures EscapeDoubleSlashes(s) == [s[0]] + EscapeDoubleSlashes(s[1..])
  {
  }

  /** A well-formed escape at the front is copied, and decodes as before. */
  lemma EscapeKeepsDecoding(s: string, plusIsSpace: bool)
    requires |s| >= 3 && s[0] == '%' && IsHexDigit(s[1]) && IsHexDigit(s[2])
    requires Decode(EscapeDoubleSlashes(s[3..]), plusIsSpace) == Decode(s[3..], plusIsSpace)
    ensures Decode(EscapeDoubleSlashes(s), plusIsSpace) == Decode(s, plusIsSpace)
  {
    EscapeDoubleSlashesSkipsThree(s);
    var r := EscapeDoubleSlashes(s);
    assert r[0] == '%' && r[1] == s[1] && r[2] == s[2] && r[3..] == EscapeDoubleSlashes(s[3..]);
  }

  /** A '%' that starts no escape stays one: both texts are malformed. */
  lemma MalformedStaysMalformed(s: string, plusIsSpace: bool)
    requires s != [] && s[0] == '%' && !(|s| >= 3 && IsHexDigit(s[1]) && IsHexDigit(s[2]))
    ensures Decode(EscapeDoubleSlashes(s), plusIsSpace) == Decode(s, plusIsSpace) == None
  {
    var r, t := EscapeDoubleSlashes(s), EscapeDoubleSlashes(s[1..]);
    assert r == [s[0]] + t;
    if |s| >= 3 && IsHexDigit(s[1]) {
      assert s[1..][1..] == s[2..];
      assert t == [s[1]] + EscapeDoubleSlashes(s[2..]);
      assert r[1] == s[1] && r[2] == s[2];
    } else if |s| >= 2 {
      assert r[1] == s[1];
      if |s| == 2 {
        var u := s[1..];
        assert u == [s[1]] && u[1..] == [];
        assert EscapeDoubleSlashes(u[1..]) == [];
        assert t == [u[0]] + EscapeDoubleSlashes(u[1..]);
      }
    }
  }

  /** Any other first character is copied, and decodes as before. */
  lemma LiteralKeepsDecoding(s: string, plusIsSpace: bool)
    requires s != [] && s[0] != '%' && !(|s| >= 2 && s[0] == '/' && s[1] == '/')
    requires Decode(EscapeDoubleSlashes(s[1..]), plusIsSpace) == Decode(s[1..], plusIsSpace)
    ensures Decode(EscapeDoubleSlashes(s), plusIsSpace) == Decode(s, plusIsSpace)
  {
    var r := EscapeDoubleSlashes(s);
    assert r == [s[0]] + EscapeDoubleSlashes(s[1..]);
    assert r[1..] == EscapeDoubleSlashes(s[1..]);
  }

  /** The path as appendUri appends it: path-mode encoded, doubled slashes optionally escaped. */
  function EncodedPath(path: seq<byte>, escapeDoubleSlash: bool): string {
    var e := Rfc3986.Encode(path, true);
    if escapeDoubleSlash then EscapeDoubleSlashes(e) else e
  }

  /**
    The value of appendUri(baseUri, path, escapeDoubleSlash). The base is
    copied unencoded: all of it but at most its last character starts the
    result.
  */
  function ComposeUri(baseUri: string, path: Option<seq<byte>>, escapeDoubleSlash: bool): (r: string)
    ensures var k := if |baseUri| > 0 then |baseUri| - 1 else 0;
      k <= |r| && r[..k] == baseUri[..k]
  {
    if path.Some? && |path.value| > 0 then
      var b :=
        if path.value[0] == SLASH then
          if EndsWithSlash(baseUri) then baseUri[..|baseUri| - 1] else baseUri
        else if EndsWithSlash(baseUri) then baseUri
        else baseUri + "/";
      b + EncodedPath(path.value, escapeDoubleSlash)
    else if EndsWithSlash(baseUri) then baseUri
    else baseUri + "/"
  }

  /**
    appendUri(baseUri, path, escapeDoubleSlash): manage the one slash
    between base and path, then append the path-mode encoding of the path
    (with "//" escaped when asked); the base is never encoded.
  */
  method AppendUri(baseUri: string, path: Option<seq<byte>>, escapeDoubleSlash: bool) returns (r: string)
    ensures r == ComposeUri(baseUri, path, escapeDoubleSlash)
  {
    var resultUri := baseUri;
    if path.Some? && |path.value| > 0 {
      if path.value[0] == SLASH {
        if EndsWithSlash(resultUri) {
          resultUri := resultUri[..|resultUri| - 1];
        }
      } else if !EndsWithSlash(resultUri) {
        resultUri := resultUri + "/";
      }
      var encodedPath := UrlEncode(path, true);
      if escapeDoubleSlash {
        encodedPath := EscapeDoubleSlashes(encodedPath);
      }
      resultUri := resultUri + encodedPath;
    } else if !EndsWithSlash(resultUri) {
      resultUri := resultUri + "/";
    }
    r := resultUri;
  }

  /** appendUri(baseUri, path): the same with doubled slashes left alone. */
  method AppendUriDefault(baseUri: string, path: Option<seq<byte>>) returns (r: string)
    ensures r == ComposeUri(baseUri, path, false)
  {
    r := AppendUri(baseUri, path, false);
  }

  /**
    Without a path the result is the base with exactly one trailing slash
    ensured: unchanged if it already ends in '/', one '/' added otherwise.
  */
  lemma ComposeUriWithoutPath(baseUri: string, path: Option<seq<byte>>, escapeDoubleSlash: bool)
    requires path.None? || path.value == []
    ensures var r := ComposeUri(baseUri, path, escapeDoubleSlash);
      EndsWithSlash(r) &&
      (EndsWithSlash(baseUri) ==> r == baseUri) &&
      (!EndsWithSlash(baseUri) ==> r == baseUri + "/")
  {
  }

  /** Composing again with no path leaves a URI composed with no path as it is. */
  lemma ComposeUriIdempotent(baseUri: string, path: Option<seq<byte>>, again: Option<seq<byte>>,
                             escapeDoubleSlash: bool, escapeAgain: bool)
    requires path.None? || path.value == []
    requires again.None? || again.value == []
    ensures var r := ComposeUri(baseUri, path, escapeDoubleSlash);
      ComposeUri(r, again, escapeAgain) == r
  {
  }

  /** The path-mode encoding of a non-empty value starts with '/' exactly when the value does. */
  lemma EncodedPathFirst(path: seq<byte>, escapeDoubleSlash: bool)
    requires path != []
    ensures var e := EncodedPath(path, escapeDoubleSlash);
      |e| > 0 && (e[0] == '/' <==> path[0] == SLASH)
  {
    var e := Rfc3986.Encode(path, true);
    assert e == Rfc3986.EncodeByte(path[0], true) + Rfc3986.Encode(path[1..], true);
  }

  /**
    With a non-empty path the result is a prefix made from the base, then
    the encoded path; the base itself is never encoded. The prefix is the
    base without its one trailing '/' when the path starts with '/' and the
    base ends with one, the base with one '/' added when neither does, and
    the base unchanged otherwise.
  */
  lemma ComposeUriParts(baseUri: string, path: seq<byte>, escapeDoubleSlash: bool)
    requires path != []
    ensures var r := ComposeUri(baseUri, Some(path), escapeDoubleSlash);
      var e := EncodedPath(path, escapeDoubleSlash);
      var n := |r| - |e|;
      0 <= n && r[n..] == e &&
      (path[0] == SLASH && EndsWithSlash(baseUri) ==> r[..n] == baseUri[..|baseUri| - 1]) &&
      (path[0] == SLASH && !EndsWithSlash(baseUri) ==> r[..n] == baseUri) &&
      (path[0] != SLASH && EndsWithSlash(baseUri) ==> r[..n] == baseUri) &&
      (path[0] != SLASH && !EndsWithSlash(baseUri) ==> r[..n] == baseUri + "/")
  {
    var e := EncodedPath(path, escapeDoubleSlash);
    var b :=
      if path[0] == SLASH then
        if EndsWithSlash(baseUri) then baseUri[..|baseUri| - 1] else baseUri
      else if EndsWithSlash(baseUri) then baseUri
      else baseUri + "/";
    var r := ComposeUri(baseUri, Some(path), escapeDoubleSlash);
    assert r == b + e;
    assert r[..|b|] == b && r[|b|..] == e;
  }

  /** The appended part decodes back to the path and, when asked, holds no "//". */
  lemma EncodedPathDecodes(path: seq<byte>, escapeDoubleSlash: bool)
    ensures Decode(EncodedPath(path, escapeDoubleSlash), false) == Some(path)
    ensures escapeDoubleSlash ==> NoDoubleSlash(EncodedPath(path, escapeDoubleSlash))
  {
    Rfc3986.DecodeEncode(path, true);
    if escapeDoubleSlash {
      EscapeDoubleSlashesKeepsDecoding(Rfc3986.Encode(path, true), false);
    }
  }

  /**
    With a non-empty path the result is the prefix ComposeUriParts names,
    then the encoded path. Unless the base already ends in "//", exactly
    one '/' stands between the two parts. The appended part decodes back
    to the path, and when doubled slashes are escaped it holds no "//".
  */
  lemma ComposeUriWithPath(baseUri: string, path: seq<byte>, escapeDoubleSlash: bool)
    requires path != []
    ensures var r := ComposeUri(baseUri, Some(path), escapeDoubleSlash);
      var e := EncodedPath(path, escapeDoubleSlash);
      var n := |r| - |e|;
      0 <= n && r[n..] == e &&
      (path[0] == SLASH && EndsWithSlash(baseUri) ==> r[..n] == baseUri[..|baseUri| - 1]) &&
      (path[0] == SLASH && !EndsWithSlash(baseUri) ==> r[..n] == baseUri) &&
      (path[0] != SLASH && EndsWithSlash(baseUri) ==> r[..n] == baseUri) &&
      (path[0] != SLASH && !EndsWithSlash(baseUri) ==> r[..n] == baseUri + "/") &&
      (!(|baseUri| >= 2 && baseUri[|baseUri| - 2..] == "//") ==> (EndsWithSlash(r[..n]) <==> e[0] != '/')) &&
      Decode(e, false) == Some(path) &&
      (escapeDoubleSlash ==> NoDoubleSlash(e))
  {
    ComposeUriParts(baseUri, path, escapeDoubleSlash);
    ComposeUriJunction(baseUri, path, escapeDoubleSlash);
    EncodedPathDecodes(path, escapeDoubleSlash);
  }

  /** Unless the base already ends in "//", one '/' joins base and path. */
  lemma ComposeUriJunction(baseUri: string, path: seq<byte>, escapeDoubleSlash: bool)
    requires path != []
    ensures var r := ComposeUri(baseUri, Some(path), escapeDoubleSlash);
      var e := EncodedPath(path, escapeDoubleSlash);
      var n := |r| - |e|;
      0 <= n && |e| > 0 &&
      (!(|baseUri| >= 2 && baseUri[|baseUri| - 2..] == "//") ==> (EndsWithSlash(r[..n]) <==> e[0] != '/'))
  {
    var r := ComposeUri(baseUri, Some(path), escapeDoubleSlash);
    var e := EncodedPath(path, escapeDoubleSlash);
    var n := |r| - |e|;
    ComposeUriParts(baseUri, path, escapeDoubleSlash);
    EncodedPathFirst(path, escapeDoubleSlash);
    if |baseUri| >= 2 && EndsWithSlash(baseUri) && path[0] == SLASH {
      assert r[..n][|r[..n]| - 1] == baseUri[|baseUri| - 2];
    }
  }
}

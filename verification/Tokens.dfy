/** Base64url without padding, JWT assembly, and the way a token takes through the Authorization
    header to the identity of a request. */
module Tokens {
  import opened Tables
  import opened Schema

  type Byte = x: int | 0 <= x < 256
  type Sextet = x: int | 0 <= x < 64

  // ---- encoding ---------------------------------------------------------------

  /** The alphabet of section 4 of RFC 4648. */
  function StdChar(n: Sextet): char {
    if n < 26 then 'A' + n as char
    else if n < 52 then 'a' + (n - 26) as char
    else if n < 62 then '0' + (n - 52) as char
    else if n == 62 then '+'
    else '/'
  }

  /** `openssl base64 -e -A`: groups of three bytes, the last one padded. */
  function Base64(bs: seq<Byte>): string {
    if bs == [] then ""
    else if |bs| == 1 then [StdChar(bs[0] / 4), StdChar(bs[0] % 4 * 16), '=', '=']
    else
      var a, b := bs[0], bs[1];
      if |bs| == 2 then [StdChar(a / 4), StdChar(a % 4 * 16 + b / 16), StdChar(b % 16 * 4), '=']
      else
        var c := bs[2];
        [StdChar(a / 4), StdChar(a % 4 * 16 + b / 16), StdChar(b % 16 * 4 + c / 64), StdChar(c % 64)] + Base64(bs[3..])
  }

  /** `tr '+/' '-_'` */
  function Translate(s: string): string {
    if s == [] then ""
    else [if s[0] == '+' then '-' else if s[0] == '/' then '_' else s[0]] + Translate(s[1..])
  }

  /** `tr -d '='` */
  function Unpad(s: string): string {
    if s == [] then "" else (if s[0] == '=' then "" else [s[0]]) + Unpad(s[1..])
  }

  function B64Url(bs: seq<Byte>): string {
    Unpad(Translate(Base64(bs)))
  }

  // ---- decoding ---------------------------------------------------------------

  /** The alphabet of section 5 of RFC 4648, read backwards. */
  function Value(c: char): Option<Sextet> {
    if 'A' <= c <= 'Z' then Some(c as int - 65)
    else if 'a' <= c <= 'z' then Some(c as int - 71)
    else if '0' <= c <= '9' then Some(c as int + 4)
    else if c == '-' then Some(62)
    else if c == '_' then Some(63)
    else None
  }

  function Values(s: string): Option<seq<Sextet>> {
    if s == [] then Some([])
    else
      match (Value(s[0]), Values(s[1..]))
      case (Some(v), Some(vs)) => Some([v] + vs)
      case _ => None
  }

  // The bytes that four sextets hold.
  function Octet0(v: int, w: int): int { v * 4 + w / 16 }
  function Octet1(w: int, x: int): int { w % 16 * 16 + x / 4 }
  function Octet2(x: int, y: int): int { x % 4 * 64 + y }

  /** Eight bits at a time; left-over bits are dropped, a lone sextet is an error. */
  function Octets(vs: seq<Sextet>): Option<seq<Byte>> {
    if vs == [] then Some([])
    else if |vs| == 1 then None
    else if |vs| == 2 then Some([Octet0(vs[0], vs[1])])
    else if |vs| == 3 then Some([Octet0(vs[0], vs[1]), Octet1(vs[1], vs[2])])
    else
      match Octets(vs[4..])
      case Some(bs) => Some([Octet0(vs[0], vs[1]), Octet1(vs[1], vs[2]), Octet2(vs[2], vs[3])] + bs)
      case None => None
  }

  /** Any other character makes a part undecodable; Go skips CR and LF, which no header value holds. */
  function Decode(s: string): Option<seq<Byte>> {
    match Values(s)
    case Some(vs) => Octets(vs)
    case None => None
  }

  // ---- the two are inverse ----------------------------------------------------

  /** The sextets of the bytes, without padding. */
  function Sextets(bs: seq<Byte>): seq<Sextet> {
    if bs == [] then []
    else if |bs| == 1 then [bs[0] / 4, bs[0] % 4 * 16]
    else if |bs| == 2 then [bs[0] / 4, bs[0] % 4 * 16 + bs[1] / 16, bs[1] % 16 * 4]
    else [bs[0] / 4, bs[0] % 4 * 16 + bs[1] / 16, bs[1] % 16 * 4 + bs[2] / 64, bs[2] % 64] + Sextets(bs[3..])
  }

  function UrlChar(n: Sextet): char {
    if n == 62 then '-' else if n == 63 then '_' else StdChar(n)
  }

  function UrlChars(vs: seq<Sextet>): string {
    seq(|vs|, i requires 0 <= i < |vs| => UrlChar(vs[i]))
  }

  lemma {:induction false} PipelineAppend(s: string, t: string)
    ensures Unpad(Translate(s + t)) == Unpad(Translate(s)) + Unpad(Translate(t))
  {
    if s == [] {
      assert s + t == t;
    } else {
      assert (s + t)[1..] == s[1..] + t;
      PipelineAppend(s[1..], t);
    }
  }

  lemma UrlCharsAppend(vs: seq<Sextet>, ws: seq<Sextet>)
    ensures UrlChars(vs + ws) == UrlChars(vs) + UrlChars(ws)
  {
  }

  lemma EncodesGroup(vs: seq<Sextet>, bs: seq<Byte>)
    requires B64Url(bs) == UrlChars(Sextets(bs))
    ensures Unpad(Translate(StdChars(vs) + Base64(bs))) == UrlChars(vs + Sextets(bs))
  {
    assert Unpad(Translate(StdChars(vs))) == UrlChars(vs) by {
      PipelineOf(vs, "");
      assert StdChars(vs) + "" == StdChars(vs);
    }
    PipelineAppend(StdChars(vs), Base64(bs));
    UrlCharsAppend(vs, Sextets(bs));
  }

  lemma {:induction false} EncodesSextets(bs: seq<Byte>)
    ensures B64Url(bs) == UrlChars(Sextets(bs))
  {
    if |bs| == 1 {
      var vs: seq<Sextet> := [bs[0] / 4, bs[0] % 4 * 16];
      PipelineOf(vs, "==");
      assert Base64(bs) == StdChars(vs) + "==";
    } else if |bs| == 2 {
      var vs: seq<Sextet> := [bs[0] / 4, bs[0] % 4 * 16 + bs[1] / 16, bs[1] % 16 * 4];
      PipelineOf(vs, "=");
      assert Base64(bs) == StdChars(vs) + "=";
    } else if |bs| > 2 {
      var vs: seq<Sextet> := [bs[0] / 4, bs[0] % 4 * 16 + bs[1] / 16, bs[1] % 16 * 4 + bs[2] / 64, bs[2] % 64];
      EncodesSextets(bs[3..]);
      EncodesGroup(vs, bs[3..]);
      assert Base64(bs) == StdChars(vs) + Base64(bs[3..]);
    }
  }

  function StdChars(vs: seq<Sextet>): string {
    seq(|vs|, i requires 0 <= i < |vs| => StdChar(vs[i]))
  }

  lemma {:induction false} PipelineOf(vs: seq<Sextet>, padding: string)
    requires forall i | 0 <= i < |padding| :: padding[i] == '='
    ensures Unpad(Translate(StdChars(vs) + padding)) == UrlChars(vs)
  {
    if vs != [] {
      var s := StdChars(vs) + padding;
      assert s[1..] == StdChars(vs[1..]) + padding;
      PipelineOf(vs[1..], padding);
      assert UrlChars(vs) == [UrlChar(vs[0])] + UrlChars(vs[1..]);
    } else {
      assert StdChars(vs) + padding == padding;
      PaddingGone(padding);
    }
  }

  lemma {:induction false} PaddingGone(padding: string)
    requires forall i | 0 <= i < |padding| :: padding[i] == '='
    ensures Unpad(Translate(padding)) == []
  {
    if padding != [] {
      PaddingGone(padding[1..]);
    }
  }

  lemma {:induction false} ValuesOfChars(vs: seq<Sextet>)
    ensures Values(UrlChars(vs)) == Some(vs)
  {
    if vs != [] {
      assert UrlChars(vs)[1..] == UrlChars(vs[1..]);
      ValuesOfChars(vs[1..]);
      assert Value(UrlChar(vs[0])) == Some(vs[0]);
      assert vs == [vs[0]] + vs[1..];
    }
  }

  lemma {:induction false} CharsOfValues(s: string)
    requires Values(s).Some?
    ensures |Values(s).value| == |s| && UrlChars(Values(s).value) == s
  {
    if s != [] {
      CharsOfValues(s[1..]);
      var vs := Values(s).value;
      assert vs == [vs[0]] + Values(s[1..]).value;
      assert UrlChars(vs) == [UrlChar(vs[0])] + UrlChars(vs[1..]);
    }
  }

  lemma SextetsOctets(a: Byte, b: Byte, c: Byte)
    ensures Octet0(a / 4, a % 4 * 16 + b / 16) == a
    ensures Octet1(a % 4 * 16 + b / 16, b % 16 * 4 + c / 64) == b
    ensures Octet2(b % 16 * 4 + c / 64, c % 64) == c
  {
  }

  lemma OctetsOfGroup(a: Byte, b: Byte, c: Byte, rest: seq<Sextet>)
    requires Octets(rest).Some?
    ensures Octets([a / 4, a % 4 * 16 + b / 16, b % 16 * 4 + c / 64, c % 64] + rest)
         == Some([a, b, c] + Octets(rest).value)
  {
    SextetsOctets(a, b, c);
    var group: seq<Sextet> := [a / 4, a % 4 * 16 + b / 16, b % 16 * 4 + c / 64, c % 64];
    assert (group + rest)[4..] == rest;
  }

  lemma {:induction false} OctetsOfSextets(bs: seq<Byte>)
    ensures Octets(Sextets(bs)) == Some(bs)
  {
    if |bs| > 2 {
      OctetsOfSextets(bs[3..]);
      OctetsOfGroup(bs[0], bs[1], bs[2], Sextets(bs[3..]));
      assert bs == [bs[0], bs[1], bs[2]] + bs[3..];
    } else if |bs| == 2 {
      assert bs == [bs[0], bs[1]];
    } else if |bs| == 1 {
      assert bs == [bs[0]];
    }
  }

  /** Removing the padding and mapping the alphabet lose nothing. */
  lemma DecodeEncode(bs: seq<Byte>)
    ensures Decode(B64Url(bs)) == Some(bs)
  {
    EncodesSextets(bs);
    ValuesOfChars(Sextets(bs));
    OctetsOfSextets(bs);
  }

  /** The bits of the last character that no byte uses are zero. */
  predicate CleanTail(vs: seq<Sextet>) {
    if |vs| % 4 == 2 then vs[|vs| - 1] % 16 == 0
    else if |vs| % 4 == 3 then vs[|vs| - 1] % 4 == 0
    else true
  }

  lemma OctetsSextets(v: Sextet, w: Sextet, x: Sextet, y: Sextet)
    ensures var a, b, c := Octet0(v, w), Octet1(w, x), Octet2(x, y);
            && 0 <= a < 256 && 0 <= b < 256 && 0 <= c < 256
            && a / 4 == v && a % 4 * 16 + b / 16 == w && b % 16 * 4 + c / 64 == x && c % 64 == y
    ensures Octet0(v, w) % 4 * 16 == w / 16 * 16
    ensures Octet1(w, x) % 16 * 4 == x / 4 * 4
  {
  }

  lemma SextetsOfGroup(v: Sextet, w: Sextet, x: Sextet, y: Sextet, rest: seq<Byte>)
    ensures 0 <= Octet0(v, w) < 256 && 0 <= Octet1(w, x) < 256 && 0 <= Octet2(x, y) < 256
    ensures Sextets([Octet0(v, w), Octet1(w, x), Octet2(x, y)] + rest) == [v, w, x, y] + Sextets(rest)
  {
    OctetsSextets(v, w, x, y);
    var bs: seq<Byte> := [Octet0(v, w), Octet1(w, x), Octet2(x, y)] + rest;
    assert bs[3..] == rest;
  }

  lemma SextetsOfTwo(v: Sextet, w: Sextet)
    ensures 0 <= Octet0(v, w) < 256
    ensures Sextets([Octet0(v, w)]) == [v, w / 16 * 16]
  {
    OctetsSextets(v, w, 0, 0);
  }

  lemma SextetsOfThree(v: Sextet, w: Sextet, x: Sextet)
    ensures 0 <= Octet0(v, w) < 256 && 0 <= Octet1(w, x) < 256
    ensures Sextets([Octet0(v, w), Octet1(w, x)]) == [v, w, x / 4 * 4]
  {
    OctetsSextets(v, w, x, 0);
  }

  lemma CleanTailRest(group: seq<Sextet>, rest: seq<Sextet>)
    requires |group| == 4
    ensures CleanTail(group + rest) == CleanTail(rest)
  {
    assert |group + rest| % 4 == |rest| % 4;
    assert rest != [] ==> (group + rest)[|group + rest| - 1] == rest[|rest| - 1];
  }

  lemma {:induction false} SextetsOfOctets(vs: seq<Sextet>)
    requires Octets(vs).Some?
    ensures Sextets(Octets(vs).value) == vs <==> CleanTail(vs)
  {
    if |vs| == 2 {
      SextetsOfTwo(vs[0], vs[1]);
      assert vs == [vs[0], vs[1]];
      assert vs[1] / 16 * 16 == vs[1] <==> vs[1] % 16 == 0;
    } else if |vs| == 3 {
      SextetsOfThree(vs[0], vs[1], vs[2]);
      assert vs == [vs[0], vs[1], vs[2]];
      assert vs[2] / 4 * 4 == vs[2] <==> vs[2] % 4 == 0;
    } else if |vs| > 3 {
      var group, rest := [vs[0], vs[1], vs[2], vs[3]], vs[4..];
      assert vs == group + rest;
      SextetsOfOctets(rest);
      SextetsOfGroup(vs[0], vs[1], vs[2], vs[3], Octets(rest).value);
      CleanTailRest(group, rest);
    }
  }

  /** The other way round: what decodes re-encodes to itself exactly when its unused bits are zero. */
  lemma EncodeDecode(s: string)
    requires Decode(s).Some?
    ensures B64Url(Decode(s).value) == s <==> CleanTail(Values(s).value)
  {
    var vs, bs := Values(s).value, Decode(s).value;
    EncodesSextets(bs);
    CharsOfValues(s);
    SextetsOfOctets(vs);
    if B64Url(bs) == s {
      ValuesOfChars(Sextets(bs));
    }
  }

  /** The text is made of [A-Za-z0-9_-] only. */
  lemma EncodedChars(bs: seq<Byte>)
    ensures forall c | c in B64Url(bs) :: Value(c).Some?
  {
    EncodesSextets(bs);
    var s := UrlChars(Sextets(bs));
    forall c | c in s
      ensures Value(c).Some?
    {
      var i :| 0 <= i < |s| && s[i] == c;
    }
  }

  // ---- tokens -----------------------------------------------------------------

  /** `mint_jwt`: the signature is over header and payload as encoded. */
  function Mint(header: seq<Byte>, payload: seq<Byte>, sign: string -> seq<Byte>): string {
    var si := B64Url(header) + "." + B64Url(payload);
    si + "." + B64Url(sign(si))
  }

  /** The parts between dots. */
  function Split(s: string): (parts: seq<string>)
    ensures parts != []
  {
    if s == [] then [""]
    else
      var rest := Split(s[1..]);
      if s[0] == '.' then [""] + rest else [[s[0]] + rest[0]] + rest[1..]
  }

  lemma {:induction false} SplitAtDot(part: string, rest: string)
    requires '.' !in part
    ensures Split(part + "." + rest) == [part] + Split(rest)
    ensures Split(part) == [part]
  {
    var s := part + "." + rest;
    if part == [] {
      assert s[1..] == rest;
    } else {
      assert s[1..] == part[1..] + "." + rest;
      SplitAtDot(part[1..], rest);
      assert part == [part[0]] + part[1..];
    }
  }

  /** Splitting a minted token at its dots gives exactly the three encoded parts, and these decode to
      the header, the payload and the signature over the first two. */
  lemma SplitMinted(header: seq<Byte>, payload: seq<Byte>, sign: string -> seq<Byte>)
    ensures var token := Mint(header, payload, sign); var parts := Split(token);
            && |parts| == 3
            && Decode(parts[0]) == Some(header) && Decode(parts[1]) == Some(payload)
            && Decode(parts[2]) == Some(sign(parts[0] + "." + parts[1]))
            && token == parts[0] + "." + parts[1] + "." + parts[2]
  {
    var h, p := B64Url(header), B64Url(payload);
    var g := B64Url(sign(h + "." + p));
    EncodedChars(header);
    EncodedChars(payload);
    EncodedChars(sign(h + "." + p));
    assert Mint(header, payload, sign) == h + "." + (p + "." + g);
    SplitAtDot(h, p + "." + g);
    SplitAtDot(p, g);
    SplitAtDot(g, "");
    DecodeEncode(header);
    DecodeEncode(payload);
    DecodeEncode(sign(h + "." + p));
  }

  // ---- the Authorization header -----------------------------------------------

  predicate IsSpace(c: char) {
    c == ' ' || c == '\t' || c == '\n' || c == '\r' || c == '\U{000B}' || c == '\U{000C}' ||
    c == '\U{0085}' || c == '\U{00A0}' || c == '\U{1680}' || '\U{2000}' <= c <= '\U{200A}' ||
    c == '\U{2028}' || c == '\U{2029}' || c == '\U{202F}' || c == '\U{205F}' || c == '\U{3000}'
  }

  function TrimSpace(s: string): string
    decreases |s|
  {
    if s != [] && IsSpace(s[0]) then TrimSpace(s[1..])
    else if s != [] && IsSpace(s[|s| - 1]) then TrimSpace(s[..|s| - 1])
    else s
  }

  /** `bearerToken`: the header after "Bearer ", trimmed; empty without that prefix. */
  function BearerToken(header: string): string {
    if "Bearer " <= header then TrimSpace(header[7..]) else ""
  }

  lemma NoSpaceInMinted(header: seq<Byte>, payload: seq<Byte>, sign: string -> seq<Byte>)
    ensures var token := Mint(header, payload, sign);
            token != [] && !IsSpace(token[0]) && !IsSpace(token[|token| - 1])
  {
    var h, p := B64Url(header), B64Url(payload);
    var g := B64Url(sign(h + "." + p));
    EncodedChars(header);
    EncodedChars(sign(h + "." + p));
    var token := Mint(header, payload, sign);
    assert token == h + "." + p + "." + g;
    assert token[0] == if h == [] then '.' else h[0];
    assert token[|token| - 1] == if g == [] then '.' else g[|g| - 1];
    assert h != [] ==> Value(h[0]).Some?;
    assert g != [] ==> Value(g[|g| - 1]).Some?;
  }

  /** A minted token passes through the Bearer header unchanged. */
  lemma MintedThroughBearer(header: seq<Byte>, payload: seq<Byte>, sign: string -> seq<Byte>)
    ensures BearerToken("Bearer " + Mint(header, payload, sign)) == Mint(header, payload, sign)
  {
    NoSpaceInMinted(header, payload, sign);
    assert ("Bearer " + Mint(header, payload, sign))[7..] == Mint(header, payload, sign);
  }

  /** What the middleware reads from a token without checking its signature: three parts, the first
      two decoded and handed to `subject`, which stands for the JSON header, claims and UUID parsing. */
  function ParseUnverified(raw: string, subject: (seq<Byte>, seq<Byte>) -> Option<Uuid>): Option<Uuid> {
    var parts := Split(raw);
    if |parts| != 3 then None
    else
      match (Decode(parts[0]), Decode(parts[1]))
      case (Some(header), Some(payload)) => subject(header, payload)
      case _ => None
  }

  /** `identity`: the caller, when the request has a usable token. */
  function IdentityOf(authorization: string, subject: (seq<Byte>, seq<Byte>) -> Option<Uuid>): Option<Uuid> {
    var raw := BearerToken(authorization);
    if raw != "" then ParseUnverified(raw, subject) else None
  }

  /** From minting to the handler: the request carries the subject of the minted payload, whatever
      the signature, and none when the header is not a Bearer header. */
  lemma IdentityOfMinted(header: seq<Byte>, payload: seq<Byte>, sign: string -> seq<Byte>,
                         subject: (seq<Byte>, seq<Byte>) -> Option<Uuid>, other: string)
    ensures IdentityOf("Bearer " + Mint(header, payload, sign), subject) == subject(header, payload)
    ensures !("Bearer " <= other) ==> IdentityOf(other, subject) == None
  {
    MintedThroughBearer(header, payload, sign);
    SplitMinted(header, payload, sign);
  }

  // ---- white space in the header ------------------------------------------------

  predicate Blank(s: string) {
    forall i | 0 <= i < |s| :: s[i] == ' ' || s[i] == '\t'
  }

  lemma {:induction false} TrimLeading(l: string, s: string)
    requires Blank(l)
    ensures TrimSpace(l + s) == TrimSpace(s)
  {
    if l == "" {
      assert l + s == s;
    } else {
      assert (l + s)[1..] == l[1..] + s && (l + s)[0] == l[0];
      TrimLeading(l[1..], s);
    }
  }

  lemma {:induction false} TrimTrailing(s: string, r: string)
    requires Blank(r) && s != "" && !IsSpace(s[0]) && !IsSpace(s[|s| - 1])
    ensures TrimSpace(s + r) == s
    decreases |r|
  {
    if r == "" {
      assert s + r == s;
    } else {
      var n := |r| - 1;
      assert (s + r)[..|s + r| - 1] == s + r[..n] && (s + r)[|s + r| - 1] == r[n] && (s + r)[0] == s[0];
      TrimTrailing(s, r[..n]);
    }
  }

  /** Blanks around a token change nothing: the identity is still the minted subject. */
  lemma PaddedToken(header: seq<Byte>, payload: seq<Byte>, sign: string -> seq<Byte>,
                    subject: (seq<Byte>, seq<Byte>) -> Option<Uuid>, l: string, r: string)
    requires Blank(l) && Blank(r)
    ensures IdentityOf("Bearer " + (l + (Mint(header, payload, sign) + r)), subject) == subject(header, payload)
  {
    var token := Mint(header, payload, sign);
    NoSpaceInMinted(header, payload, sign);
    TrimLeading(l, token + r);
    TrimTrailing(token, r);
    assert ("Bearer " + (l + (token + r)))[7..] == l + (token + r);
    SplitMinted(header, payload, sign);
  }
}

/** Escaping byte by byte (senc.c): XML entities, JSON and URL escapes, doubled quotes, hexadecimal. The encoders run
    backwards so that input and output may be the same buffer. */
module Escapes {
  import opened Sequences
  import opened Varint

  datatype Codec = Xml | Json | Url | Doubled(quote: byte) | Hex(upper: bool)

  /* ---- what one byte becomes ---- */

  /** Hexadecimal digit. */
  function Digit(n: nat, upper: bool): byte
    requires n < 16
  {
    if n < 10 then 48 + n else if upper then 55 + n else 87 + n
  }

  /** Value of a hexadecimal digit of either case: a look-up of 64 entries by the low bits. */
  function Nibble(h: byte): nat {
    var k := (h + 16) % 64;
    if k < 10 then k
    else if 17 <= k <= 22 then k - 7
    else if 49 <= k <= 54 then k - 39
    else 0
  }

  lemma NibbleDigit(n: nat, upper: bool)
    requires n < 16
    ensures Nibble(Digit(n, upper)) == n
  {
  }

  predicate Unreserved(x: byte) {
    65 <= x <= 90 || 97 <= x <= 122 || 48 <= x <= 57 || x == 45 || x == 95 || x == 46 || x == 126
  }

  function XmlEsc(x: byte): seq<byte> {
    match x
    case 34 => [38, 113, 117, 111, 116, 59]  // &quot;
    case 38 => [38, 97, 109, 112, 59]        // &amp;
    case 39 => [38, 97, 112, 111, 115, 59]   // &apos;
    case 60 => [38, 108, 116, 59]            // &lt;
    case 62 => [38, 103, 116, 59]            // &gt;
    case _ => [x]
  }

  function JsonEsc(x: byte): seq<byte> {
    match x
    case 8 => [92, 98]    // \b
    case 9 => [92, 116]   // \t
    case 10 => [92, 110]  // \n
    case 12 => [92, 102]  // \f
    case 13 => [92, 114]  // \r
    case 34 => [92, 34]
    case 92 => [92, 92]
    case _ => [x]
  }

  function Esc(c: Codec, x: byte): (r: seq<byte>)
    ensures r != []
  {
    match c
    case Xml => XmlEsc(x)
    case Json => JsonEsc(x)
    case Url => if Unreserved(x) then [x] else [37, Digit(x / 16, true), Digit(x % 16, true)]
    case Doubled(quote) => if x == quote then [x, x] else [x]
    case Hex(upper) => [Digit(x / 16, upper), Digit(x % 16, upper)]
  }

  function Encode(c: Codec, s: seq<byte>): seq<byte> {
    if s == [] then [] else Encode(c, s[..|s| - 1]) + Esc(c, s[|s| - 1])
  }

  /* ---- what a decoder takes from the front of the rest ---- */

  function XmlStep(w: seq<byte>): (r: (byte, nat))
    requires w != []
    ensures 1 <= r.1 <= |w|
  {
    if w[0] != 38 || |w| < 2 then (w[0], 1)
    else
      match w[1]
      case 113 => if |w| >= 6 && w[2] == 117 && w[3] == 111 && w[4] == 116 && w[5] == 59 then (34, 6) else (38, 1)
      case 97 =>
        if |w| >= 5 && w[2] == 109 && w[3] == 112 && w[4] == 59 then (38, 5)
        else if |w| >= 6 && w[2] == 112 && w[3] == 111 && w[4] == 115 && w[5] == 59 then (39, 6) else (38, 1)
      case 108 => if |w| >= 4 && w[2] == 116 && w[3] == 59 then (60, 4) else (38, 1)
      case 103 => if |w| >= 4 && w[2] == 116 && w[3] == 59 then (62, 4) else (38, 1)
      case _ => (38, 1)
  }

  function JsonStep(w: seq<byte>): (r: (byte, nat))
    requires w != []
    ensures 1 <= r.1 <= |w|
  {
    if w[0] == 92 && |w| > 1 then
      match w[1]
      case 98 => (8, 2)
      case 116 => (9, 2)
      case 110 => (10, 2)
      case 102 => (12, 2)
      case 114 => (13, 2)
      case 34 => (34, 2)
      case 92 => (92, 2)
      case 47 => (47, 2)
      case _ => (92, 1)
    else
      (w[0], 1)
  }

  /** The decoded byte and how many bytes it takes. */
  function Step(c: Codec, w: seq<byte>): (r: (byte, nat))
    requires w != []
    ensures 1 <= r.1 <= |w|
  {
    match c
    case Xml => XmlStep(w)
    case Json => JsonStep(w)
    case Url => if w[0] == 37 && |w| >= 3 then (Pair(w[1], w[2]), 3) else (w[0], 1)
    case Doubled(quote) => if |w| > 1 && w[0] == quote && w[1] == quote then (quote, 2) else (w[0], 1)
    case Hex(_) => if |w| > 1 then (Pair(w[0], w[1]), 2) else (w[0], 1)
  }

  function Pair(hi: byte, lo: byte): byte {
    Nibble(hi) * 16 + Nibble(lo)
  }

  /** A last hexadecimal digit without a partner is ignored. */
  function Decode(c: Codec, w: seq<byte>): seq<byte> {
    if w == [] || (c.Hex? && |w| == 1) then
      []
    else
      var (x, n) := Step(c, w);
      [x] + Decode(c, w[n..])
  }

  lemma XmlStepEsc(x: byte, w: seq<byte>)
    requires XmlEsc(x) <= w
    ensures XmlStep(w) == (x, |XmlEsc(x)|)
  {
    var e := XmlEsc(x);
    assert forall k :: 0 <= k < |e| ==> w[k] == e[k];
  }

  lemma JsonStepEsc(x: byte, w: seq<byte>)
    requires JsonEsc(x) <= w
    ensures JsonStep(w) == (x, |JsonEsc(x)|)
  {
    var e := JsonEsc(x);
    assert forall k :: 0 <= k < |e| ==> w[k] == e[k];
  }

  lemma PairDigits(x: byte, upper: bool)
    ensures Pair(Digit(x / 16, upper), Digit(x % 16, upper)) == x
  {
    NibbleDigit(x / 16, upper);
    NibbleDigit(x % 16, upper);
  }

  /** A decoder recognises what the encoder made of one byte, whatever follows. */
  lemma StepEsc(c: Codec, x: byte, w: seq<byte>)
    requires Esc(c, x) <= w
    ensures Step(c, w) == (x, |Esc(c, x)|)
  {
    hide JsonEsc, JsonStep, XmlEsc, XmlStep, Digit, Pair;
    var e := Esc(c, x);
    assert forall k :: 0 <= k < |e| ==> w[k] == e[k];
    match c
    case Xml => XmlStepEsc(x, w);
    case Json => JsonStepEsc(x, w);
    case Url => PairDigits(x, true);
    case Doubled(_) =>
    case Hex(upper) => PairDigits(x, upper);
  }

  lemma {:induction false} EncodeConcat(c: Codec, a: seq<byte>, b: seq<byte>)
    ensures Encode(c, a + b) == Encode(c, a) + Encode(c, b)
  {
    hide Esc;
    if b == [] {
      assert a + b == a;
      assert Encode(c, a) + [] == Encode(c, a);
    } else {
      var d := b[..|b| - 1];
      assert (a + b)[..|a + b| - 1] == a + d;
      EncodeConcat(c, a, d);
    }
  }

  lemma EncodeOne(c: Codec, x: byte)
    ensures Encode(c, [x]) == Esc(c, x)
  {
    hide Esc;
    assert [x][..0] == [];
    assert [] + Esc(c, x) == Esc(c, x);
  }

  lemma HexPair(c: Codec, x: byte)
    ensures c.Hex? ==> |Esc(c, x)| == 2
  {
  }

  /** Decoding undoes encoding, for every byte string. */
  lemma {:induction false} RoundTrip(c: Codec, s: seq<byte>)
    ensures Decode(c, Encode(c, s)) == s
  {
    hide Esc, Step;
    if s != [] {
      var x, rest := s[0], Encode(c, s[1..]);
      assert s == [x] + s[1..];
      EncodeConcat(c, [x], s[1..]);
      EncodeOne(c, x);
      var w := Esc(c, x) + rest;
      HexPair(c, x);
      StepEsc(c, x, w);
      assert w[|Esc(c, x)|..] == rest;
      RoundTrip(c, s[1..]);
    }
  }

  /* ---- what the output looks like ---- */

  predicate Within(x: byte, lo: char, hi: char) {
    lo as int <= x <= hi as int
  }

  function Ascii(t: string): (s: seq<byte>)
    requires forall i :: 0 <= i < |t| ==> t[i] as int < 128
    ensures |s| == |t|
  {
    seq(|t|, i requires 0 <= i < |t| => t[i] as int)
  }

  /** The five predefined entities, section 4.6 of XML 1.0. */
  function Entity(x: byte): seq<byte> {
    if x == '"' as int then Ascii("&quot;")
    else if x == '&' as int then Ascii("&amp;")
    else if x == '\'' as int then Ascii("&apos;")
    else if x == '<' as int then Ascii("&lt;")
    else if x == '>' as int then Ascii("&gt;")
    else []
  }

  predicate Special(x: byte) {
    x == '"' as int || x == '&' as int || x == '\'' as int || x == '<' as int || x == '>' as int
  }

  /** An entity stands at the front. */
  predicate EntityAhead(w: seq<byte>) {
    exists x: byte :: Special(x) && Entity(x) <= w
  }

  /** Characters that may follow a backslash in what the encoder writes, section 2.5 of RFC 4627. */
  predicate JsonLetter(x: byte) {
    x == 'b' as int || x == 't' as int || x == 'n' as int || x == 'f' as int || x == 'r' as int || x == '"' as int
    || x == '\\' as int
  }

  /** Section 2.3 of RFC 3986. */
  predicate UrlPlain(x: byte) {
    Within(x, 'A', 'Z') || Within(x, 'a', 'z') || Within(x, '0', '9')
    || x == '-' as int || x == '_' as int || x == '.' as int || x == '~' as int
  }

  predicate HexDigit(x: byte, upper: bool) {
    Within(x, '0', '9') || (if upper then Within(x, 'A', 'F') else Within(x, 'a', 'f'))
  }

  /** `u` is one byte that may stand as it is, or one escape. */
  ghost predicate Unit(c: Codec, u: seq<byte>) {
    match c
    case Xml => (exists x: byte :: Special(x) && u == Entity(x)) || (|u| == 1 && !Special(u[0]))
    case Json =>
      (|u| == 2 && u[0] == '\\' as int && JsonLetter(u[1]))
      || (|u| == 1 && u[0] != '"' as int && u[0] != '\\' as int && u[0] !in {8, 9, 10, 12, 13})
    case Url =>
      (|u| == 3 && u[0] == '%' as int && HexDigit(u[1], true) && HexDigit(u[2], true)) || (|u| == 1 && UrlPlain(u[0]))
    case Doubled(quote) => u == [quote, quote] || (|u| == 1 && u[0] != quote)
    case Hex(upper) => |u| == 2 && HexDigit(u[0], upper) && HexDigit(u[1], upper)
  }

  function Concat(us: seq<seq<byte>>): seq<byte> {
    if us == [] then [] else Concat(us[..|us| - 1]) + us[|us| - 1]
  }

  /** The output is made of units, one for each byte: nothing that needs an escape is left without one. */
  lemma {:induction false} EncodeEscapes(c: Codec, s: seq<byte>)
    ensures exists us: seq<seq<byte>> ::
              |us| == |s| && Encode(c, s) == Concat(us) && forall i :: 0 <= i < |us| ==> Unit(c, us[i])
  {
    hide Esc, Unit;
    if s == [] {
      var none: seq<seq<byte>> := [];
      assert Encode(c, s) == Concat(none);
    } else {
      var n := |s| - 1;
      EncodeEscapes(c, s[..n]);
      var us: seq<seq<byte>> :|
        |us| == n && Encode(c, s[..n]) == Concat(us) && forall i :: 0 <= i < |us| ==> Unit(c, us[i]);
      var vs := us + [Esc(c, s[n])];
      assert vs[..n] == us;
      EscUnit(c, s[n]);
      assert Encode(c, s) == Concat(vs);
    }
  }

  lemma EscUnit(c: Codec, x: byte)
    ensures Unit(c, Esc(c, x))
  {
    match c
    case Xml =>
      if Special(x) {
        EntityIs(x);
      }
    case _ =>
  }

  lemma EntityIs(x: byte)
    requires Special(x)
    ensures XmlEsc(x) == Entity(x)
  {
  }

  /** Bytes that an input byte adds to the size, as the size functions of the source count them. */
  function Extra(c: Codec, x: byte): nat {
    match c
    case Xml => if x == '"' as int || x == '\'' as int then 5 else if x == '&' as int then 4
                else if x == '<' as int || x == '>' as int then 3 else 0
    case Json => if x in {8, 9, 10, 12, 13} || x == '"' as int || x == '\\' as int then 1 else 0
    case Url => if UrlPlain(x) then 0 else 2
    case Doubled(quote) => if x == quote then 1 else 0
    case Hex(_) => 1
  }

  lemma ExtraIs(c: Codec, x: byte)
    ensures |Esc(c, x)| == 1 + Extra(c, x)
  {
  }

  /** The size of the XML form by counting characters. */
  lemma {:induction false} XmlSize(s: seq<byte>)
    ensures var m := multiset(s);
            |Encode(Xml, s)| == |s| + 5 * (m['"' as int] + m['\'' as int]) + 4 * m['&' as int]
                                + 3 * (m['<' as int] + m['>' as int])
  {
    hide Esc;
    if s != [] {
      var n := |s| - 1;
      XmlSize(s[..n]);
      ExtraIs(Xml, s[n]);
      assert s == s[..n] + [s[n]];
      assert multiset(s) == multiset(s[..n]) + multiset{s[n]};
    }
  }

  /** An entity decodes to its character, whatever follows. */
  lemma EntityBack(x: byte, w: seq<byte>)
    requires Special(x)
    ensures Step(Xml, Entity(x) + w) == (x, |Entity(x)|)
  {
    EntityIs(x);
    StepEsc(Xml, x, Entity(x) + w);
  }

  /** Bytes that begin no escape are taken as they are. */
  lemma StepPlain(c: Codec, w: seq<byte>)
    requires w != []
    requires match c
             case Xml => !EntityAhead(w)
             case Json => |w| < 2 || w[0] != '\\' as int || !(JsonLetter(w[1]) || w[1] == '/' as int)
             case Url => |w| < 3 || w[0] != '%' as int
             case Doubled(quote) => |w| < 2 || w[0] != quote || w[1] != quote
             case Hex(_) => |w| < 2
    ensures Step(c, w) == (w[0], 1)
  {
    if c.Xml? {
      XmlPlain(w);
    }
  }

  lemma XmlPlain(w: seq<byte>)
    requires w != [] && !EntityAhead(w)
    ensures XmlStep(w) == (w[0], 1)
  {
    var (x, n) := XmlStep(w);
    if n != 1 {
      XmlTaken(w);
      assert EntityAhead(w);
    }
  }

  lemma XmlTaken(w: seq<byte>)
    requires w != [] && XmlStep(w).1 != 1
    ensures Special(XmlStep(w).0) && Entity(XmlStep(w).0) <= w
  {
  }

  /** JSON also knows an escaped slash. */
  lemma SlashBack(w: seq<byte>)
    ensures Step(Json, Ascii("\\/") + w) == ('/' as int, 2)
  {
    var v := Ascii("\\/") + w;
    assert v[0] == 92 && v[1] == 47;
  }

  /* ---- in place ---- */

  lemma {:induction false} EncodeGrows(c: Codec, s: seq<byte>, i: nat)
    requires i <= |s|
    ensures |Encode(c, s[..i])| >= i && |Encode(c, s[..i])| <= |Encode(c, s)|
    ensures i < |s| ==> Encode(c, s[..i + 1]) == Encode(c, s[..i]) + Esc(c, s[i])
  {
    hide Esc;
    if i < |s| {
      assert s[..i + 1][..i] == s[..i];
    }
    assert s == s[..i] + s[i..];
    EncodeConcat(c, s[..i], s[i..]);
    EncodeLength(c, s[..i]);
  }

  lemma {:induction false} EncodeLength(c: Codec, s: seq<byte>)
    ensures |Encode(c, s)| >= |s|
  {
    hide Esc;
    if s != [] {
      EncodeLength(c, s[..|s| - 1]);
    }
  }

  /** Size of the output, counted in one pass. */
  method ReqSize(c: Codec, s: array<byte>, ss: nat) returns (sso: nat)
    requires ss <= s.Length
    ensures sso == |Encode(c, s[..ss])|
  {
    hide Encode, Esc, Extra;
    ghost var src := s[..ss];
    sso := ss;
    NothingEncoded(c, src);
    for i := 0 to ss
      invariant sso == |Encode(c, src[..i])| + ss - i
    {
      EncodeGrows(c, src, i);
      ExtraIs(c, s[i]);
      sso := sso + Extra(c, s[i]);
    }
    assert src[..ss] == src;
  }

  lemma NothingEncoded(c: Codec, s: seq<byte>)
    ensures Encode(c, s[..0]) == []
  {
  }

  /** Writes what `x` becomes in front of `j`. */
  method Put(c: Codec, x: byte, o: array<byte>, j: nat) returns (j': nat)
    requires |Esc(c, x)| <= j <= o.Length
    modifies o
    ensures j' == j - |Esc(c, x)| && o[j'..j] == Esc(c, x)
    ensures o[..j'] == old(o[..j']) && o[j..] == old(o[j..])
  {
    hide Esc;
    var e := Esc(c, x);
    j' := j - |e|;
    for n := 0 to |e|
      invariant forall k :: j' <= k < j' + n ==> o[k] == e[k - j']
      invariant forall k :: 0 <= k < o.Length && !(j' <= k < j' + n) ==> o[k] == old(o[k])
    {
      o[j' + n] := e[n];
    }
  }

  /** The backward loop before byte `i`: its output so far starts at `j`, and the bytes still to be read are intact. */
  ghost predicate Pending(c: Codec, src: seq<byte>, s: seq<byte>, o: seq<byte>, i: nat, j: nat) {
    i <= |src| && i <= |s| && s[..i] == src[..i] && i <= j == |Encode(c, src[..i])|
    && j <= |Encode(c, src)| <= |o| && Encode(c, src) == Encode(c, src[..i]) + o[j..|Encode(c, src)|]
  }

  lemma PendingStart(c: Codec, src: seq<byte>, s: seq<byte>, o: seq<byte>)
    requires |src| <= |s| && s[..|src|] == src && |Encode(c, src)| <= |o|
    ensures Pending(c, src, s, o, |src|, |Encode(c, src)|)
  {
    hide Encode;
    assert src[..|src|] == src;
    EncodeLength(c, src);
  }

  lemma PendingStep(c: Codec, src: seq<byte>, s: seq<byte>, o: seq<byte>, i: nat, j: nat, s': seq<byte>, o': seq<byte>)
    requires i > 0 && Pending(c, src, s, o, i, j) && |o'| == |o| && |s'| == |s|
    requires var e := Esc(c, src[i - 1]); |e| <= j && o'[j - |e|..j] == e && o'[j..] == o[j..]
    requires s' == s || (s == o && s' == o' && o'[..j - |Esc(c, src[i - 1])|] == o[..j - |Esc(c, src[i - 1])|])
    ensures Pending(c, src, s', o', i - 1, j - |Esc(c, src[i - 1])|)
  {
    hide Encode, Esc;
    EncodeGrows(c, src, i - 1);
    var n, e := |Encode(c, src)|, Esc(c, src[i - 1]);
    var j' := j - |e|;
    assert o'[j..n] == o[j..n] by {
      assert o'[j..n] == o'[j..][..n - j] && o[j..n] == o[j..][..n - j];
    }
    assert o'[j'..n] == e + o[j..n] by {
      assert o'[j'..n] == o'[j'..j] + o'[j..n];
    }
    Assoc(Encode(c, src[..i - 1]), e, o[j..n]);
    assert s'[..i - 1] == src[..i - 1] by {
      assert s[..i][..i - 1] == src[..i][..i - 1];
      if s' != s {
        assert o'[..j'][..i - 1] == o[..j'][..i - 1];
      }
    }
  }

  lemma PendingEnd(c: Codec, src: seq<byte>, s: seq<byte>, o: seq<byte>, j: nat)
    requires Pending(c, src, s, o, 0, j)
    ensures o[..|Encode(c, src)|] == Encode(c, src)
  {
    NothingEncoded(c, src);
    assert [] + o[0..|Encode(c, src)|] == o[..|Encode(c, src)|];
  }

  /** Encodes the first `ss` bytes of `s` into `o`, last byte first; the two may be the same buffer. `knownSso` is the
      output size when the caller has computed it, else 0. */
  method EncodeBuffer(c: Codec, s: array<byte>, ss: nat, o: array<byte>, knownSso: nat) returns (sso: nat)
    requires ss <= s.Length && |Encode(c, s[..ss])| <= o.Length
    requires knownSso == 0 || knownSso == |Encode(c, s[..ss])|
    modifies o
    ensures sso == |Encode(c, old(s[..ss]))| && o[..sso] == Encode(c, old(s[..ss]))
  {
    hide Encode, Esc, Pending;
    ghost var src := s[..ss];
    if knownSso != 0 {
      sso := knownSso;
    } else {
      sso := ReqSize(c, s, ss);
    }
    var i: nat, j: nat := ss, sso;
    PendingStart(c, src, s[..], o[..]);
    while i > 0
      invariant i <= ss && Pending(c, src, s[..], o[..], i, j)
    {
      PendingByte(c, src, s[..], o[..], i, j);
      ghost var before, buf := s[..], o[..];
      j := Put(c, s[i - 1], o, j);
      PendingStep(c, src, before, buf, i, j + |Esc(c, src[i - 1])|, s[..], o[..]);
      i := i - 1;
    }
    PendingEnd(c, src, s[..], o[..], j);
  }

  lemma PendingByte(c: Codec, src: seq<byte>, s: seq<byte>, o: seq<byte>, i: nat, j: nat)
    requires i > 0 && Pending(c, src, s, o, i, j)
    ensures i <= |src| && i <= |s| && s[i - 1] == src[i - 1] && |Esc(c, src[i - 1])| <= j <= |o|
  {
    hide Encode, Esc;
    EncodeGrows(c, src, i - 1);
    assert s[i - 1] == s[..i][i - 1];
  }

  lemma {:induction false} DecodeLength(c: Codec, w: seq<byte>)
    ensures |Decode(c, w)| <= |w|
    decreases |w|
  {
    if w != [] {
      DecodeLength(c, w[Step(c, w).1..]);
    }
  }

  /** Decodes the first `ss` bytes of `s` into `o`; the two may be the same buffer. */
  method DecodeBuffer(c: Codec, s: array<byte>, ss: nat, o: array<byte>) returns (n: nat)
    requires ss <= s.Length && ss <= o.Length
    modifies o
    ensures n == |Decode(c, old(s[..ss]))| <= ss && o[..n] == Decode(c, old(s[..ss]))
  {
    hide Step, Decode;
    ghost var src := s[..ss];
    var end := if c.Hex? then ss - ss % 2 else ss;
    var i: nat, j: nat := 0, 0;
    assert src[0..] == src;
    assert o[..0] + Decode(c, src) == Decode(c, src);
    while i < end
      invariant j <= i <= end && s[i..ss] == src[i..] && Decode(c, src) == o[..j] + Decode(c, src[i..])
      invariant c.Hex? ==> i % 2 == 0
      decreases end - i
    {
      ghost var before := o[..j];
      var r := Step(c, s[i..ss]);
      DecodeStep(c, src, i, before);
      assert s[i + r.1..ss] == s[i..ss][r.1..];
      ghost var rest := s[i + r.1..ss];
      o[j] := r.0;
      assert o[..j + 1] == before + [r.0];
      assert s[i + r.1..ss] == rest;
      i, j := i + r.1, j + 1;
    }
    DecodeEnd(c, src[i..]);
    assert o[..j] + [] == o[..j];
    n := j;
  }

  lemma DecodeStep(c: Codec, src: seq<byte>, i: nat, before: seq<byte>)
    requires i < |src| && (c.Hex? ==> i + 1 < |src|)
    ensures var (x, n) := Step(c, src[i..]);
            (c.Hex? ==> n == 2) && src[i..][n..] == src[i + n..]
            && before + Decode(c, src[i..]) == before + [x] + Decode(c, src[i + n..])
  {
    var (x, n) := Step(c, src[i..]);
    assert src[i..][n..] == src[i + n..];
    Assoc(before, [x], Decode(c, src[i + n..]));
  }

  lemma DecodeEnd(c: Codec, w: seq<byte>)
    requires w == [] || (c.Hex? && |w| == 1)
    ensures Decode(c, w) == []
  {
  }

  /** Both directions in one buffer. */
  method InPlaceRoundTrip(c: Codec, buf: array<byte>, ss: nat) returns (n: nat, m: nat)
    requires ss <= buf.Length && |Encode(c, buf[..ss])| <= buf.Length
    modifies buf
    ensures m == ss && buf[..m] == old(buf[..ss])
  {
    ghost var src := buf[..ss];
    n := EncodeBuffer(c, buf, ss, buf, 0);
    m := DecodeBuffer(c, buf, n, buf);
    RoundTrip(c, src);
  }
}

/** Base64 (senc.c): blocks of three bytes become four characters, written backwards. Section 4 of RFC 4648. */
module Base64 {
  import opened Sequences
  import opened Varint

  const PAD: byte := 61

  /** Character for six bits. */
  function Char(n: nat): byte
    requires n < 64
  {
    if n < 26 then 65 + n else if n < 52 then 71 + n else if n < 62 then n - 4 else if n == 62 then 43 else 47
  }

  /** Six bits of a character; 0 for anything else. The table has entries for characters below 128 only. */
  function Value(x: byte): (n: nat)
    ensures n < 64
  {
    if 65 <= x <= 90 then x - 65
    else if 97 <= x <= 122 then x - 71
    else if 48 <= x <= 57 then x + 4
    else if x == 43 then 62
    else if x == 47 then 63
    else 0
  }

  lemma ValueChar(n: nat)
    requires n < 64
    ensures Value(Char(n)) == n && Char(n) != PAD && Char(n) < 128
  {
  }

  const UPPER: string := "ABCDEFGHIJKLMNOPQRSTUVWXYZ"
  const LOWER: string := "abcdefghijklmnopqrstuvwxyz"

  /** The alphabet, section 4 of RFC 4648. */
  const ALPHABET: string := UPPER + LOWER + "0123456789+/"

  lemma CharIs(n: nat)
    requires n < 64
    ensures |ALPHABET| == 64 && Char(n) == ALPHABET[n] as int
  {
    UpperIs();
    LowerIs();
    if n < 26 {
      assert ALPHABET[n] == UPPER[n];
    } else if n < 52 {
      assert ALPHABET[n] == LOWER[n - 26];
    } else {
      assert ALPHABET[n] == "0123456789+/"[n - 52];
    }
  }

  /** The `n`-th character of the alphabet. */
  function Letter(n: nat): byte
    requires n < 64
  {
    CharIs(n);
    ALPHABET[n] as int
  }

  lemma LetterIs(n: nat)
    requires n < 64
    ensures Char(n) == Letter(n)
  {
    CharIs(n);
  }

  /** The number of a character of the alphabet, and 0 for any other. */
  lemma ValueIs(x: byte)
    ensures if exists n :: 0 <= n < 64 && Letter(n) == x then Letter(Value(x)) == x else Value(x) == 0
  {
    hide Letter;
    if n :| 0 <= n < 64 && Letter(n) == x {
      LetterIs(n);
      ValueChar(n);
    } else {
      LetterIs(Value(x));
    }
  }

  lemma UpperIs()
    ensures |UPPER| == 26 && forall n :: 0 <= n < 26 ==> UPPER[n] as int == 65 + n
  {
  }

  lemma LowerIs()
    ensures |LOWER| == 26 && forall n :: 0 <= n < 26 ==> LOWER[n] as int == 97 + n
  {
  }

  function C1(a: byte): byte { Char(a / 4) }

  function C2(a: byte, b: byte): byte { Char(a % 4 * 16 + b / 16) }

  function C3(b: byte, c: byte): byte { Char(b % 16 * 4 + c / 64) }

  function C4(c: byte): byte { Char(c % 64) }

  function Block(a: byte, b: byte, c: byte): (r: seq<byte>)
    ensures |r| == 4
  {
    [C1(a), C2(a, b), C3(b, c), C4(c)]
  }

  /** The one or two bytes after the last whole block, padded. */
  function Tail(t: seq<byte>): (r: seq<byte>)
    requires |t| < 3
    ensures |r| == if t == [] then 0 else 4
  {
    if |t| == 0 then [] else if |t| == 1 then [C1(t[0]), C2(t[0], 0), PAD, PAD]
      else [C1(t[0]), C2(t[0], t[1]), C3(t[1], 0), PAD]
  }

  /** The first `k` blocks of three. */
  function Blocks(s: seq<byte>, k: nat): (r: seq<byte>)
    requires 3 * k <= |s|
    ensures |r| == 4 * k
  {
    if k == 0 then [] else Blocks(s, k - 1) + Block(s[3 * k - 3], s[3 * k - 2], s[3 * k - 1])
  }

  function Encode(s: seq<byte>): seq<byte> {
    var k := |s| / 3;
    Blocks(s, k) + Tail(s[3 * k..])
  }

  function D1(a: nat, b: nat): byte { (a * 4 + b / 16) % 256 }

  function D2(b: nat, c: nat): byte { (b * 16 + c / 4) % 256 }

  function D3(c: nat, d: nat): byte { (c * 64 + d) % 256 }

  function Unblock(p: byte, q: byte, r: byte, t: byte): (x: seq<byte>)
    ensures |x| == 3
  {
    var a, b, c, d := Value(p), Value(q), Value(r), Value(t);
    [D1(a, b), D2(b, c), D3(c, d)]
  }

  /** What the first `k` blocks of four stand for. */
  function Unblocks(w: seq<byte>, k: nat): (r: seq<byte>)
    requires 4 * k <= |w|
    ensures |r| == 3 * k
  {
    if k == 0 then [] else Unblocks(w, k - 1) + Unblock(w[4 * k - 4], w[4 * k - 3], w[4 * k - 2], w[4 * k - 1])
  }

  function Untail(t: seq<byte>): (x: seq<byte>)
    requires |t| == 4
    ensures 1 <= |x| <= 2
  {
    var a, b, c := Value(t[0] % 128), Value(t[1] % 128), Value(t[2] % 128);
    [D1(a, b)] + if t[2] != PAD then [D2(b, c)] else []
  }

  predicate Padded(w: seq<byte>) {
    |w| >= 2 && (w[|w| - 2] == PAD || w[|w| - 1] == PAD)
  }

  function Decode(w: seq<byte>): seq<byte> {
    var k := |w| / 4;
    if Padded(w) && k > 0 then Unblocks(w, k - 1) + Untail(w[4 * k - 4..4 * k]) else Unblocks(w, k)
  }

  lemma BlockBack(a: byte, b: byte, c: byte)
    ensures Unblock(C1(a), C2(a, b), C3(b, c), C4(c)) == [a, b, c]
  {
    ValueChar(a / 4);
    ValueChar(a % 4 * 16 + b / 16);
    ValueChar(b % 16 * 4 + c / 64);
    ValueChar(c % 64);
    hide Char, Value;
    Back1(a, b);
    Back2(a, b, c);
    Back3(b, c);
  }

  lemma Back1(a: byte, b: byte)
    ensures D1(a / 4, a % 4 * 16 + b / 16) == a
  {
    assert (a % 4 * 16 + b / 16) / 16 == a % 4;
  }

  lemma Back2(a: byte, b: byte, c: byte)
    ensures D2(a % 4 * 16 + b / 16, b % 16 * 4 + c / 64) == b
  {
    assert (b % 16 * 4 + c / 64) / 4 == b % 16;
    assert (a % 4 * 16 + b / 16) * 16 + b % 16 == a % 4 * 256 + b;
  }

  lemma Back3(b: byte, c: byte)
    ensures D3(b % 16 * 4 + c / 64, c % 64) == c
  {
    assert (b % 16 * 4 + c / 64) * 64 + c % 64 == b % 16 * 256 + c;
  }

  lemma {:induction false} BlocksBack(s: seq<byte>, w: seq<byte>, k: nat)
    requires 3 * k <= |s| && Blocks(s, k) <= w
    ensures Unblocks(w, k) == s[..3 * k]
  {
    hide Block, Unblock;
    if k > 0 {
      var p, e := Blocks(s, k - 1), Block(s[3 * k - 3], s[3 * k - 2], s[3 * k - 1]);
      assert w[..4 * k] == p + e;
      assert p == w[..4 * k][..4 * k - 4] == w[..4 * k - 4];
      BlocksBack(s, w, k - 1);
      assert w[4 * k - 4..4 * k] == w[..4 * k][4 * k - 4..] == e;
      LastBlock(w, k, s[3 * k - 3], s[3 * k - 2], s[3 * k - 1]);
      assert s[..3 * k] == s[..3 * k - 3] + [s[3 * k - 3], s[3 * k - 2], s[3 * k - 1]];
    }
  }

  lemma LastBlock(w: seq<byte>, k: nat, a: byte, b: byte, c: byte)
    requires k > 0 && 4 * k <= |w| && w[4 * k - 4..4 * k] == Block(a, b, c)
    ensures Unblocks(w, k) == Unblocks(w, k - 1) + [a, b, c]
  {
    var e := w[4 * k - 4..4 * k];
    assert e[0] == w[4 * k - 4] && e[1] == w[4 * k - 3] && e[2] == w[4 * k - 2] && e[3] == w[4 * k - 1];
    hide Unblock, C1, C2, C3, C4;
    BlockBack(a, b, c);
  }

  lemma TailOne(a: byte)
    ensures Untail([C1(a), C2(a, 0), PAD, PAD]) == [a]
  {
    ValueChar(a / 4);
    ValueChar(a % 4 * 16 + 0 / 16);
    hide Char, Value, D1, D2;
    Back1(a, 0);
    Small(C1(a));
    Small(C2(a, 0));
  }

  lemma Small(x: byte)
    ensures x < 128 ==> x % 128 == x
  {
  }

  lemma TailTwo(a: byte, b: byte)
    ensures Untail([C1(a), C2(a, b), C3(b, 0), PAD]) == [a, b]
  {
    ValueChar(a / 4);
    ValueChar(a % 4 * 16 + b / 16);
    ValueChar(b % 16 * 4 + 0 / 64);
    hide Char, Value, D1, D2;
    Back1(a, b);
    Back2(a, b, 0);
    Small(C1(a));
    Small(C2(a, b));
    Small(C3(b, 0));
  }

  lemma TailBack(t: seq<byte>)
    requires 0 < |t| < 3
    ensures Untail(Tail(t)) == t && Padded(Tail(t))
  {
    hide Untail, C1, C2, C3;
    if |t| == 1 {
      TailOne(t[0]);
      assert t == [t[0]];
    } else {
      TailTwo(t[0], t[1]);
      assert t == [t[0], t[1]];
    }
  }

  /** No padding among whole blocks. */
  lemma BlocksUnpadded(s: seq<byte>, k: nat)
    requires 3 * k <= |s|
    ensures !Padded(Blocks(s, k))
  {
    if k > 0 {
      var b, c := s[3 * k - 2], s[3 * k - 1];
      ValueChar(b % 16 * 4 + c / 64);
      ValueChar(c % 64);
      hide Char;
      assert Blocks(s, k)[4 * k - 2] == C3(b, c) && Blocks(s, k)[4 * k - 1] == C4(c);
    }
  }

  lemma Quotients(n: nat)
    ensures 3 * (n / 3) <= n < 3 * (n / 3) + 3 && 4 * n / 4 == n
  {
  }

  lemma WholeRoundTrip(s: seq<byte>, k: nat)
    requires |s| == 3 * k
    ensures Decode(Blocks(s, k)) == s
  {
    hide *;
    BlocksBack(s, Blocks(s, k), k);
    BlocksUnpadded(s, k);
    DecodeUnpadded(Blocks(s, k), k);
    assert s[..3 * k] == s;
  }

  lemma PaddedRoundTrip(h: seq<byte>, k: nat, t: seq<byte>)
    requires |h| == 3 * k && 0 < |t| < 3
    ensures Decode(Blocks(h, k) + Tail(t)) == h + t
  {
    hide *;
    var w := Blocks(h, k) + Tail(t);
    TailBack(t);
    PaddedEnd(Blocks(h, k), Tail(t));
    BlocksBack(h, w, k);
    DecodePadded(w, k + 1);
    assert h[..3 * k] == h;
    assert w[4 * k..4 * k + 4] == Tail(t);
  }

  lemma {:induction false} BlocksFront(s: seq<byte>, k: nat)
    requires 3 * k <= |s|
    ensures Blocks(s, k) == Blocks(s[..3 * k], k)
    decreases k
  {
    hide Block;
    if k > 0 {
      var h := s[..3 * k];
      BlocksFront(s, k - 1);
      BlocksFront(h, k - 1);
      assert h[..3 * k - 3] == s[..3 * k - 3];
    }
  }

  /** Decoding undoes encoding, for every byte string. */
  lemma RoundTrip(s: seq<byte>)
    ensures Decode(Encode(s)) == s
  {
    var k := |s| / 3;
    var h, t := s[..3 * k], s[3 * k..];
    Quotients(|s|);
    assert s == h + t;
    hide Blocks, Tail, Decode;
    BlocksFront(s, k);
    if t == [] {
      WholeRoundTrip(h, k);
      NoTail();
      assert Blocks(h, k) + [] == Blocks(h, k);
    } else {
      PaddedRoundTrip(h, k, t);
    }
  }

  lemma NoTail()
    ensures Tail([]) == []
  {
  }

  lemma DecodeUnpadded(w: seq<byte>, k: nat)
    requires |w| == 4 * k && !Padded(w)
    ensures Decode(w) == Unblocks(w, k)
  {
    Quotients(k);
    hide Unblocks;
  }

  lemma DecodePadded(w: seq<byte>, k: nat)
    requires |w| == 4 * k && k > 0 && Padded(w)
    ensures Decode(w) == Unblocks(w, k - 1) + Untail(w[4 * k - 4..4 * k])
  {
    Quotients(k);
    hide Unblocks, Untail;
  }

  lemma PaddedEnd(w: seq<byte>, t: seq<byte>)
    requires |t| == 4 && Padded(t)
    ensures Padded(w + t)
  {
  }

  /* ---- the output, character by character ---- */

  /** Bits `6 j` to `6 j + 5` of the input, zeros behind its end. */
  function Sextet(s: seq<byte>, j: nat): (n: nat)
    requires 6 * j < 8 * |s|
    ensures n < 64
  {
    var p, shift := 6 * j / 8, 6 * j % 8;
    var here: nat, next: nat := s[p], At(s, p + 1);
    if shift == 0 then here / 4
    else if shift == 6 then here % 4 * 16 + next / 16
    else if shift == 4 then here % 16 * 4 + next / 64
    else here % 64
  }

  /** The character for six bits of the input; an equals sign where there are none left. */
  function CharAt(s: seq<byte>, j: nat): byte {
    if 6 * j < 8 * |s| then Letter(Sextet(s, j)) else 61
  }

  /** Every six bits of the input give the character of that number, and equals signs fill up to whole blocks of
      four. */
  lemma EncodeAt(s: seq<byte>, j: nat)
    ensures |Encode(s)| == (|s| + 2) / 3 * 4
    ensures j < |Encode(s)| ==> Encode(s)[j] == CharAt(s, j)
  {
    hide Encode, Tail, Blocks, CharAt;
    var k := |s| / 3;
    Quotients(|s|);
    LengthIs(|s|);
    EncodeParts(s, j);
    if j < 4 * k {
      ModFour(j);
      BlockAt(s, k, j / 4, j % 4);
    } else if j < |Encode(s)| {
      TailAt(s, k, j - 4 * k);
    }
  }

  /** No equals sign but at the end: none, two or one of them for a rest of no byte, one byte or two. */
  lemma PadsAtEnd(s: seq<byte>, j: nat)
    requires j < |Encode(s)|
    ensures Encode(s)[j] == 61 <==> j + [0, 2, 1][|s| % 3] >= |Encode(s)|
  {
    hide Encode, Letter, Sextet;
    EncodeAt(s, j);
    LengthIs(|s|);
    if 6 * j < 8 * |s| {
      NoPad(Sextet(s, j));
    }
  }

  lemma NoPad(n: nat)
    requires n < 64
    ensures Letter(n) != 61
  {
    LetterIs(n);
    hide Letter;
  }

  lemma ModFour(j: nat)
    ensures j == 4 * (j / 4) + j % 4
  {
  }

  lemma EncodeParts(s: seq<byte>, j: nat)
    ensures var k := |s| / 3;
            3 * k <= |s| < 3 * k + 3 && |Encode(s)| == 4 * k + (if |s| == 3 * k then 0 else 4)
            && |Tail(s[3 * k..])| == (if |s| == 3 * k then 0 else 4)
            && (j < |Encode(s)| ==>
              Encode(s)[j] == if j < 4 * k then Blocks(s, k)[j] else Tail(s[3 * k..])[j - 4 * k])
  {
  }

  lemma LengthIs(n: nat)
    ensures var k := n / 3; (n + 2) / 3 * 4 == 4 * k + if n == 3 * k then 0 else 4
  {
  }

  lemma Shifts(i: nat)
    ensures 6 * (4 * i) / 8 == 3 * i && 6 * (4 * i) % 8 == 0
    ensures 6 * (4 * i + 1) / 8 == 3 * i && 6 * (4 * i + 1) % 8 == 6
    ensures 6 * (4 * i + 2) / 8 == 3 * i + 1 && 6 * (4 * i + 2) % 8 == 4
    ensures 6 * (4 * i + 3) / 8 == 3 * i + 2 && 6 * (4 * i + 3) % 8 == 2
  {
    Shift(4 * i, 3 * i, 0);
    Shift(4 * i + 1, 3 * i, 6);
    Shift(4 * i + 2, 3 * i + 1, 4);
    Shift(4 * i + 3, 3 * i + 2, 2);
  }

  lemma Shift(j: nat, p: nat, r: nat)
    requires 6 * j == 8 * p + r && r < 8
    ensures 6 * j / 8 == p && 6 * j % 8 == r
  {
  }

  lemma {:induction false} BlockAt(s: seq<byte>, k: nat, i: nat, r: nat)
    requires 3 * k <= |s| && i < k && r < 4
    ensures Blocks(s, k)[4 * i + r] == CharAt(s, 4 * i + r)
  {
    hide Block, CharAt;
    if i < k - 1 {
      BlockAt(s, k - 1, i, r);
    } else {
      assert Blocks(s, k)[4 * i + r] == Block(s[3 * i], s[3 * i + 1], s[3 * i + 2])[r];
      BlockChars(s, i, r);
    }
  }

  lemma SextetsAt(s: seq<byte>, i: nat)
    requires 3 * i < |s|
    ensures var a, b, c := s[3 * i], At(s, 3 * i + 1), At(s, 3 * i + 2);
            Sextet(s, 4 * i) == a / 4 && Sextet(s, 4 * i + 1) == a % 4 * 16 + b / 16
            && (3 * i + 1 < |s| ==> Sextet(s, 4 * i + 2) == b % 16 * 4 + c / 64)
            && (3 * i + 2 < |s| ==> Sextet(s, 4 * i + 3) == c % 64)
  {
    Shifts(i);
  }

  function At(s: seq<byte>, p: nat): byte {
    if p < |s| then s[p] else 0
  }

  lemma BlockChars(s: seq<byte>, i: nat, r: nat)
    requires 3 * i + 3 <= |s| && r < 4
    ensures Block(s[3 * i], s[3 * i + 1], s[3 * i + 2])[r] == CharAt(s, 4 * i + r)
  {
    hide Char, Letter, Sextet;
    var a, b, c := s[3 * i], s[3 * i + 1], s[3 * i + 2];
    SextetsAt(s, i);
    LetterIs(a / 4);
    LetterIs(a % 4 * 16 + b / 16);
    LetterIs(b % 16 * 4 + c / 64);
    LetterIs(c % 64);
  }

  lemma TailAt(s: seq<byte>, k: nat, r: nat)
    requires 3 * k < |s| < 3 * k + 3 && r < 4
    ensures Tail(s[3 * k..])[r] == CharAt(s, 4 * k + r)
  {
    hide Char, Letter, Sextet;
    var t := s[3 * k..];
    SextetsAt(s, k);
    LetterIs(t[0] / 4);
    LetterIs(t[0] % 4 * 16);
    if |t| == 2 {
      LetterIs(t[0] % 4 * 16 + t[1] / 16);
      LetterIs(t[1] % 16 * 4);
    }
  }

  /** The last block gives one byte when it ends in two equals signs, two bytes when it ends in one. */
  lemma DecodeLength(w: seq<byte>, k: nat)
    requires |w| == 4 * k && k > 0
    ensures |Decode(w)| == if w[4 * k - 2] == 61 then 3 * k - 2 else if w[4 * k - 1] == 61 then 3 * k - 1 else 3 * k
  {
    var e := w[4 * k - 4..4 * k];
    assert e[2] == w[4 * k - 2];
    if Padded(w) {
      DecodePadded(w, k);
    } else {
      DecodeUnpadded(w, k);
    }
  }

  /* ---- in place ---- */

  /** Cells `j` to `j + 3` become `w`; the others stay. */
  method PutFour(o: array<byte>, j: nat, w: seq<byte>)
    requires |w| == 4 && j + 4 <= o.Length
    modifies o
    ensures o[j..j + 4] == w && o[..j] == old(o[..j]) && o[j + 4..] == old(o[j + 4..])
  {
    o[j], o[j + 1], o[j + 2], o[j + 3] := w[0], w[1], w[2], w[3];
  }

  /** The backward loop with `k` blocks to go: its output so far is in place, and the bytes still to be read are
      intact. */
  ghost predicate Pending(src: seq<byte>, s: seq<byte>, o: seq<byte>, k: nat) {
    3 * k <= |src| && 3 * k <= |s| && s[..3 * k] == src[..3 * k]
    && 4 * k <= |Encode(src)| <= |o| && Encode(src) == Blocks(src, k) + o[4 * k..|Encode(src)|]
  }

  lemma PendingStep(src: seq<byte>, s: seq<byte>, o: seq<byte>, k: nat, s': seq<byte>, o': seq<byte>)
    requires k > 0 && Pending(src, s, o, k) && |o'| == |o| && |s'| == |s|
    requires var i, j := 3 * k, 4 * k;
             o'[j - 4..j] == Block(src[i - 3], src[i - 2], src[i - 1]) && o'[j..] == o[j..]
             && (s' == s || (s == o && s' == o' && o'[..j - 4] == o[..j - 4]))
    ensures Pending(src, s', o', k - 1)
  {
    hide Encode, Block;
    var i, j := 3 * k, 4 * k;
    var n, e := |Encode(src)|, Block(src[i - 3], src[i - 2], src[i - 1]);
    assert o'[j..n] == o[j..n] by {
      assert o'[j..n] == o'[j..][..n - j] && o[j..n] == o[j..][..n - j];
    }
    assert o'[j - 4..n] == e + o[j..n] by {
      assert o'[j - 4..n] == o'[j - 4..j] + o'[j..n];
    }
    Assoc(Blocks(src, k - 1), e, o[j..n]);
    assert s'[..i - 3] == src[..i - 3] by {
      assert s[..i][..i - 3] == src[..i][..i - 3];
      if s' != s {
        assert o'[..j - 4][..i - 3] == o[..j - 4][..i - 3];
      }
    }
  }

  lemma PendingStart(src: seq<byte>, s: seq<byte>, o: seq<byte>)
    requires var k := |src| / 3; var n := 4 * k + |Tail(src[3 * k..])|;
             n <= |o| && 3 * k <= |s| && s[..3 * k] == src[..3 * k] && o[4 * k..n] == Tail(src[3 * k..])
    ensures Pending(src, s, o, |src| / 3)
  {
  }

  lemma PendingEnd(src: seq<byte>, s: seq<byte>, o: seq<byte>)
    requires Pending(src, s, o, 0)
    ensures o[..|Encode(src)|] == Encode(src)
  {
    assert [] + o[0..|Encode(src)|] == o[..|Encode(src)|];
  }

  lemma NextBytes(src: seq<byte>, s: seq<byte>, o: seq<byte>, k: nat)
    requires k > 0 && Pending(src, s, o, k)
    ensures var i := 3 * k;
            i <= |s| && i <= |src| && 4 * k <= |o|
            && s[i - 3] == src[i - 3] && s[i - 2] == src[i - 2] && s[i - 1] == src[i - 1]
  {
    var i := 3 * k;
    assert s[i - 3] == s[..i][i - 3] && s[i - 2] == s[..i][i - 2] && s[i - 1] == s[..i][i - 1];
  }

  /** Encodes the first `ss` bytes of `s` into `o`, last block first; the two may be the same buffer. */
  method EncodeBuffer(s: array<byte>, ss: nat, o: array<byte>) returns (n: nat)
    requires ss <= s.Length && |Encode(s[..ss])| <= o.Length
    modifies o
    ensures n == |Encode(old(s[..ss]))| && o[..n] == Encode(old(s[..ss]))
  {
    ghost var src := s[..ss];
    Quotients(ss);
    var blocks := ss / 3;
    var ssd3 := 3 * blocks;
    assert src[ssd3..] == s[ssd3..ss];
    n := 4 * blocks + |Tail(s[ssd3..ss])|;
    hide Block, Encode, Pending;
    EncodeIs(src);
    n := WriteTail(s, ssd3, ss, o, 4 * blocks);
    PendingStart(src, s[..], o[..]);
    WriteBlocks(s, ssd3, o, 4 * blocks, src, blocks);
    PendingEnd(src, s[..], o[..]);
  }

  /** The blocks of three before `from`, written backwards from `to`. */
  method WriteBlocks(s: array<byte>, from: nat, o: array<byte>, to: nat, ghost src: seq<byte>, ghost blocks: nat)
    requires from == 3 * blocks && to == 4 * blocks && Pending(src, s[..], o[..], blocks)
    modifies o
    ensures Pending(src, s[..], o[..], 0)
  {
    hide *;
    var i: nat, j: nat := from, to;
    ghost var k: nat := blocks;
    while i > 0
      invariant i == 3 * k && j == 4 * k && Pending(src, s[..], o[..], k)
    {
      NextBytes(src, s[..], o[..], k);
      ghost var before, buf := s[..], o[..];
      var si0, si1, si2 := s[i - 3], s[i - 2], s[i - 1];
      PutFour(o, j - 4, Block(si0, si1, si2));
      PendingStep(src, before, buf, k, s[..], o[..]);
      i, j, k := i - 3, j - 4, k - 1;
    }
  }

  lemma EncodeIs(s: seq<byte>)
    ensures |Encode(s)| == 4 * (|s| / 3) + |Tail(s[3 * (|s| / 3)..])|
  {
  }

  /** The padded characters for the bytes from `from` to `ss`, at `j`; returns where they end. */
  method WriteTail(s: array<byte>, from: nat, ss: nat, o: array<byte>, j: nat) returns (end: nat)
    requires from <= ss <= s.Length && ss - from < 3 && from <= j && j + |Tail(s[from..ss])| <= o.Length
    modifies o
    ensures end == j + |Tail(old(s[from..ss]))| && o[j..end] == Tail(old(s[from..ss]))
    ensures s[..from] == old(s[..from])
  {
    end := j;
    if ss > from {
      var t := Tail(s[from..ss]);
      PutFour(o, j, t);
      end := j + 4;
      assert s == o ==> s[..from] == o[..j][..from];
    }
  }

  /** The forward loop after `k` blocks: what they stand for is in place, and the characters still to be read are
      intact. */
  ghost predicate Unpacked(src: seq<byte>, s: seq<byte>, o: seq<byte>, k: nat) {
    4 * k <= |src| <= |s| && s[4 * k..|src|] == src[4 * k..] && 3 * k <= |o| && o[..3 * k] == Unblocks(src, k)
  }

  lemma UnpackedStep(src: seq<byte>, s: seq<byte>, o: seq<byte>, k: nat, s': seq<byte>, o': seq<byte>)
    requires Unpacked(src, s, o, k) && 4 * k + 4 <= |src| && 3 * k + 3 <= |o| == |o'| && |s'| == |s|
    requires var i, j := 4 * k, 3 * k;
             o'[j..j + 3] == Unblock(src[i], src[i + 1], src[i + 2], src[i + 3]) && o'[..j] == o[..j]
             && (s' == s || (s == o && s' == o' && o'[j + 3..] == o[j + 3..]))
    ensures Unpacked(src, s', o', k + 1)
  {
    hide Unblock;
    var i, j := 4 * k, 3 * k;
    assert o'[..j + 3] == o'[..j] + o'[j..j + 3];
    assert s'[i + 4..|src|] == src[i + 4..] by {
      assert s[i..|src|][4..] == src[i..][4..] == src[i + 4..];
      assert s[i..|src|][4..] == s[i + 4..|src|];
      if s' != s {
        assert o'[j + 3..][i + 1 - j..|src| - j - 3] == o[j + 3..][i + 1 - j..|src| - j - 3];
      }
    }
  }

  lemma UnpackedBytes(src: seq<byte>, s: seq<byte>, o: seq<byte>, k: nat)
    requires Unpacked(src, s, o, k) && 4 * k + 4 <= |src|
    ensures var i := 4 * k;
            |src| <= |s| && s[i] == src[i] && s[i + 1] == src[i + 1] && s[i + 2] == src[i + 2] && s[i + 3] == src[i + 3]
  {
    var i := 4 * k;
    var w := s[i..|src|];
    assert w[0] == s[i] && w[1] == s[i + 1] && w[2] == s[i + 2] && w[3] == s[i + 3];
    assert w == src[i..];
  }

  method PutThree(o: array<byte>, j: nat, w: seq<byte>)
    requires |w| == 3 && j + 3 <= o.Length
    modifies o
    ensures o[j..j + 3] == w && o[..j] == old(o[..j]) && o[j + 3..] == old(o[j + 3..])
  {
    o[j], o[j + 1], o[j + 2] := w[0], w[1], w[2];
  }

  /** `n` blocks of four, forwards. */
  method ReadBlocks(s: array<byte>, n: nat, o: array<byte>, ghost src: seq<byte>)
    requires 4 * n <= |src| <= s.Length && 3 * n <= o.Length && Unpacked(src, s[..], o[..], 0)
    modifies o
    ensures Unpacked(src, s[..], o[..], n)
  {
    hide *;
    var i: nat, j: nat := 0, 0;
    ghost var k: nat := 0;
    while i < 4 * n
      invariant k <= n && i == 4 * k && j == 3 * k && Unpacked(src, s[..], o[..], k)
    {
      UnpackedBytes(src, s[..], o[..], k);
      ghost var before, buf := s[..], o[..];
      PutThree(o, j, Unblock(s[i], s[i + 1], s[i + 2], s[i + 3]));
      UnpackedStep(src, before, buf, k, s[..], o[..]);
      i, j, k := i + 4, j + 3, k + 1;
    }
  }

  /** Characters of whole blocks that are looked up in the table as they are; the padded block's are masked. */
  function Plain(w: seq<byte>): (n: nat)
    ensures 4 * n <= |w|
  {
    if Padded(w) && |w| >= 4 then |w| / 4 - 1 else |w| / 4
  }

  predicate InTable(w: seq<byte>) {
    forall i :: 0 <= i < 4 * Plain(w) ==> w[i] < 128
  }

  /** Decodes the first `ss` characters of `s` into `o`; the two may be the same buffer. Characters after the last whole
      block are ignored. */
  method DecodeBuffer(s: array<byte>, ss: nat, o: array<byte>) returns (m: nat)
    requires 2 <= ss <= s.Length && 3 * (ss / 4) <= o.Length
    requires InTable(s[..ss]) && (Padded(s[..ss]) ==> ss >= 4)
    modifies o
    ensures m == |Decode(old(s[..ss]))| <= 3 * (ss / 4) && o[..m] == Decode(old(s[..ss]))
  {
    hide *;
    var n := ss / 4;
    Quarter(ss);
    ghost var src := s[..ss];
    UnpackedStart(src, s[..], o[..]);
    PaddedIs(src);
    DecodeIs(src);
    if s[ss - 2] == PAD || s[ss - 1] == PAD {
      m := ReadPadded(s, n, o, src);
    } else {
      ReadBlocks(s, n, o, src);
      UnpackedFront(src, s[..], o[..], n);
      m := 3 * n;
    }
  }

  /** `n` blocks of four, the last of them padded. */
  method ReadPadded(s: array<byte>, n: nat, o: array<byte>, ghost src: seq<byte>) returns (m: nat)
    requires n > 0 && 4 * n <= |src| <= s.Length && 3 * n <= o.Length && Unpacked(src, s[..], o[..], 0)
    modifies o
    ensures m <= 3 * n && o[..m] == Unblocks(src, n - 1) + Untail(src[4 * n - 4..4 * n])
  {
    hide *;
    ReadBlocks(s, n - 1, o, src);
    UnpackedFront(src, s[..], o[..], n - 1);
    UnpackedTail(src, s[..], o[..], n - 1);
    m := ReadTail(s, o, n - 1, s[4 * n - 4..4 * n]);
  }

  lemma UnpackedTail(src: seq<byte>, s: seq<byte>, o: seq<byte>, k: nat)
    requires Unpacked(src, s, o, k) && 4 * k + 4 <= |src| <= |s|
    ensures s[4 * k..4 * k + 4] == src[4 * k..4 * k + 4]
  {
    hide *;
    UnpackedBytes(src, s, o, k);
  }

  lemma Quarter(n: nat)
    ensures 4 * (n / 4) <= n < 4 * (n / 4) + 4 && (n >= 4 ==> n / 4 >= 1)
  {
  }

  lemma DecodeIs(w: seq<byte>)
    ensures var k := |w| / 4;
            4 * k <= |w| && Decode(w) == if Padded(w) && k > 0 then Unblocks(w, k - 1) + Untail(w[4 * k - 4..4 * k])
                                         else Unblocks(w, k)
  {
  }

  lemma PaddedIs(w: seq<byte>)
    ensures |w| >= 2 ==> (Padded(w) <==> w[|w| - 2] == PAD || w[|w| - 1] == PAD)
  {
  }

  lemma UnpackedStart(src: seq<byte>, s: seq<byte>, o: seq<byte>)
    requires |src| <= |s| && s[..|src|] == src
    ensures Unpacked(src, s, o, 0)
  {
  }

  lemma UnpackedFront(src: seq<byte>, s: seq<byte>, o: seq<byte>, k: nat)
    requires Unpacked(src, s, o, k)
    ensures 4 * k <= |src| && 3 * k <= |o| && o[..3 * k] == Unblocks(src, k)
  {
  }

  /** The last, padded block: one or two bytes. */
  method ReadTail(s: array<byte>, o: array<byte>, k: nat, ghost t: seq<byte>) returns (m: nat)
    requires 4 * k + 4 <= s.Length && 3 * k + 3 <= o.Length && t == s[4 * k..4 * k + 4]
    modifies o
    ensures m == 3 * k + |Untail(t)| <= 3 * k + 3 && o[..m] == old(o[..3 * k]) + Untail(t)
  {
    hide Value, D1, D2;
    var i := 4 * k;
    var x2, a, b, c := s[i + 2], Value(s[i] % 128), Value(s[i + 1] % 128), Value(s[i + 2] % 128);
    m := 3 * k;
    o[m] := D1(a, b);
    m := m + 1;
    if x2 != PAD {
      o[m] := D2(b, c);
      m := m + 1;
    }
  }

  /** Both directions in one buffer. */
  method InPlaceRoundTrip(buf: array<byte>, ss: nat) returns (n: nat, m: nat)
    requires 0 < ss <= buf.Length && |Encode(buf[..ss])| <= buf.Length
    modifies buf
    ensures m == ss && buf[..m] == old(buf[..ss])
  {
    hide *;
    ghost var src := buf[..ss];
    EncodedLength(src);
    n := EncodeBuffer(buf, ss, buf);
    EncodedInTable(src);
    m := DecodeBuffer(buf, n, buf);
    RoundTrip(src);
  }

  lemma EncodedLength(s: seq<byte>)
    ensures var n := |Encode(s)|; 4 * (n / 4) == n && (s != [] ==> n >= 4)
  {
    EncodeIs(s);
    hide Tail, Encode;
    Quotients(|s|);
    if s[3 * (|s| / 3)..] != [] {
      Quotients(|s| / 3 + 1);
    } else {
      Quotients(|s| / 3);
    }
  }

  lemma {:induction false} BlocksInTable(s: seq<byte>, k: nat)
    requires 3 * k <= |s|
    ensures forall i :: 0 <= i < 4 * k ==> Blocks(s, k)[i] < 128
  {
    if k > 0 {
      var a, b, c := s[3 * k - 3], s[3 * k - 2], s[3 * k - 1];
      BlocksInTable(s, k - 1);
      ValueChar(a / 4);
      ValueChar(a % 4 * 16 + b / 16);
      ValueChar(b % 16 * 4 + c / 64);
      ValueChar(c % 64);
      hide Char;
      assert Blocks(s, k) == Blocks(s, k - 1) + [C1(a), C2(a, b), C3(b, c), C4(c)];
    }
  }

  /** What the encoder writes can be decoded. */
  lemma EncodedInTable(s: seq<byte>)
    ensures InTable(Encode(s))
  {
    var k := |s| / 3;
    BlocksInTable(s, k);
    EncodedLength(s);
    if s[3 * k..] != [] {
      TailBack(s[3 * k..]);
      hide Tail, Blocks;
      PaddedEnd(Blocks(s, k), Tail(s[3 * k..]));
    }
  }

}

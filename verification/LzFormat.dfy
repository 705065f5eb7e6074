/** The LZ77 stream of senc.c: operations, their encoding and their meaning. */
module LzFormat {
  import opened RecCopy
  import opened Varint

  /** Sizes and distances stay below 2^61. */
  const LIMIT: nat := 0x2000_0000_0000_0000

  datatype Token = Lit(bytes: seq<byte>) | Ref(dist: nat, len: nat)

  predicate WellSized(t: Token) {
    match t
    case Lit(bytes) => 1 <= |bytes| < LIMIT
    case Ref(dist, len) => 1 <= dist < LIMIT && 4 <= len < LIMIT
  }

  /** The operation may follow `pos` bytes of output. */
  predicate TokenOk(t: Token, pos: nat) {
    WellSized(t) && (t.Ref? ==> t.dist <= pos)
  }

  function LitOp(n: nat): nat
    requires n >= 1
  {
    (n - 1) * 4 + 3
  }

  /** A short reference packs distance and length in one number. */
  function ShortOp(dist: nat, len: nat): nat
    requires dist >= 1 && len >= 4
  {
    (dist - 1) * 8 + (len - 4) * 2
  }

  function LongOp(len: nat): nat
    requires len >= 4
  {
    (len - 4) * 4 + 1
  }

  function Emit(t: Token): (r: seq<byte>)
    requires WellSized(t)
    ensures r != []
  {
    match t
    case Lit(bytes) => Pk(LitOp(|bytes|)) + bytes
    case Ref(dist, len) => if len - 4 < 4 then Pk(ShortOp(dist, len)) else Pk(LongOp(len)) + Pk(dist - 1)
  }

  function EmitAll(ts: seq<Token>): seq<byte>
    requires forall t :: t in ts ==> WellSized(t)
  {
    if ts == [] then [] else EmitAll(ts[..|ts| - 1]) + Emit(ts[|ts| - 1])
  }

  /** Output after one more operation. */
  function Apply(out: seq<byte>, t: Token): seq<byte> {
    if !TokenOk(t, |out|) then out
    else
      match t
      case Lit(bytes) => out + bytes
      case Ref(dist, len) => RecCpy(out, dist, len)
  }

  /** What a stream of operations stands for. */
  function Play(ts: seq<Token>): seq<byte> {
    if ts == [] then [] else Apply(Play(ts[..|ts| - 1]), ts[|ts| - 1])
  }

  /** Every operation is well formed and refers back to output that is there. */
  predicate Playable(ts: seq<Token>) {
    forall k :: 0 <= k < |ts| ==> TokenOk(ts[k], |Play(ts[..k])|)
  }

  /** A complete stream: unpacked length, then the operations. */
  predicate Stream(s: seq<byte>, ts: seq<Token>) {
    Playable(ts) && (forall t :: t in ts ==> WellSized(t)) && 0 < |Play(ts)| < LIMIT
      && s == Pk(|Play(ts)|) + EmitAll(ts)
  }

  lemma Extend(ts: seq<Token>, t: Token)
    requires Playable(ts) && TokenOk(t, |Play(ts)|)
    ensures Playable(ts + [t]) && Play(ts + [t]) == Apply(Play(ts), t)
    ensures forall x :: x in ts + [t] ==> WellSized(x)
    ensures EmitAll(ts + [t]) == EmitAll(ts) + Emit(t)
  {
    var us := ts + [t];
    assert us[..|ts|] == ts;
    forall k | 0 <= k < |us|
      ensures TokenOk(us[k], |Play(us[..k])|)
    {
      if k < |ts| {
        assert us[..k] == ts[..k];
      }
    }
    assert forall k :: 0 <= k < |ts| ==> WellSized(ts[k]);
  }

  /* ---- reading a stream from the front ---- */

  /** Where operation `k` starts among the operations. */
  function Start(ts: seq<Token>, k: nat): nat
    requires k <= |ts| && forall t :: t in ts ==> WellSized(t)
  {
    |EmitAll(ts[..k])|
  }

  lemma {:induction false} EmitPrefix(ts: seq<Token>, k: nat)
    requires k <= |ts| && forall t :: t in ts ==> WellSized(t)
    ensures EmitAll(ts[..k]) <= EmitAll(ts) && (k < |ts| ==> |EmitAll(ts[..k])| < |EmitAll(ts)|)
    decreases |ts|
  {
    if k < |ts| {
      var p := ts[..|ts| - 1];
      EmitPrefix(p, k);
      assert p[..k] == ts[..k];
    } else {
      assert ts[..k] == ts;
    }
  }

  lemma {:induction false} PlayPrefix(ts: seq<Token>, k: nat)
    requires k <= |ts|
    ensures Play(ts[..k]) <= Play(ts)
    decreases |ts|
  {
    if k < |ts| {
      var p := ts[..|ts| - 1];
      PlayPrefix(p, k);
      assert p[..k] == ts[..k];
    } else {
      assert ts[..k] == ts;
    }
  }

  lemma EmitSnoc(ts: seq<Token>, k: nat)
    requires k < |ts| && forall t :: t in ts ==> WellSized(t)
    ensures EmitAll(ts[..k + 1]) == EmitAll(ts[..k]) + Emit(ts[k])
  {
    hide Emit, WellSized;
    var q := ts[..k + 1];
    assert q[..k] == ts[..k];
  }

  lemma EmitAt(ts: seq<Token>, k: nat)
    requires k < |ts| && forall t :: t in ts ==> WellSized(t)
    ensures var p := Start(ts, k); var e := Emit(ts[k]);
            Start(ts, k + 1) == p + |e| <= |EmitAll(ts)| && EmitAll(ts)[p..p + |e|] == e
  {
    hide Emit, EmitAll, WellSized;
    EmitSnoc(ts, k);
    EmitPrefix(ts, k + 1);
    var p, n := Start(ts, k), Start(ts, k + 1);
    assert EmitAll(ts)[p..n] == EmitAll(ts[..k + 1])[p..n];
  }

  lemma PlayStep(ts: seq<Token>, k: nat)
    requires k < |ts|
    ensures Play(ts[..k + 1]) == Apply(Play(ts[..k]), ts[k]) && |Play(ts[..k + 1])| <= |Play(ts)|
  {
    var q := ts[..k + 1];
    assert q[..k] == ts[..k];
    PlayPrefix(ts, k + 1);
  }

  lemma PlayableAt(ts: seq<Token>, k: nat)
    requires Playable(ts) && k < |ts|
    ensures TokenOk(ts[k], |Play(ts[..k])|)
  {
    hide Play;
  }

  /** Operation `k` lies at its start, and there is more exactly when `k` is not the end. */
  lemma StreamAt(s: seq<byte>, ts: seq<Token>, k: nat)
    requires Stream(s, ts) && k < |ts|
    ensures var pos := PkSize(|Play(ts)|) + Start(ts, k);
            WellSized(ts[k]) && TokenOk(ts[k], |Play(ts[..k])|) && pos + |Emit(ts[k])| <= |s|
            && s[pos..pos + |Emit(ts[k])|] == Emit(ts[k])
            && Start(ts, k + 1) == Start(ts, k) + |Emit(ts[k])| && pos < |s|
  {
    hide Emit, EmitAll, Pk, PkSize, Play, Playable;
    PlayableAt(ts, k);
    EmitAt(ts, k);
    var h, p, n := Pk(|Play(ts)|), Start(ts, k), |Emit(ts[k])|;
    assert s[|h| + p..|h| + p + n] == EmitAll(ts)[p..p + n];
  }

  lemma StreamEnd(s: seq<byte>, ts: seq<Token>)
    requires Stream(s, ts)
    ensures PkSize(|Play(ts)|) + Start(ts, |ts|) == |s| && ts[..|ts|] == ts
  {
    assert ts[..|ts|] == ts;
  }

  /** A stream starts with literals, so it has at least three bytes. */
  lemma StreamLength(s: seq<byte>, ts: seq<Token>)
    requires Stream(s, ts)
    ensures ts != [] && |s| >= 3 && PkSize(|Play(ts)|) < |s|
  {
    assert ts[..0] == [];
    assert Play([]) == [];
    FirstLit(ts);
    StreamAt(s, ts, 0);
    hide Play, EmitAll, TokenOk, WellSized, PkSize;
    PkSizePositive(|Play(ts)|);
    PkSizePositive(LitOp(|ts[0].bytes|));
  }

  lemma PkSizePositive(v: nat)
    ensures 1 <= PkSize(v) <= 9
  {
  }

  lemma FirstLit(ts: seq<Token>)
    requires Playable(ts) && ts != []
    ensures ts[0].Lit? && |ts[0].bytes| >= 1
  {
    assert ts[..0] == [];
    assert TokenOk(ts[0], |Play(ts[..0])|);
  }
}

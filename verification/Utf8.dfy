/** The restartable UTF-8 codec: which byte sequences it accepts, and that decoding undoes encoding
    however the bytes arrive. */
module Utf8 {

  type u8 = x: int | 0 <= x < 256

  /** Unicode scalar values. */
  predicate Scalar(v: int) {
    0 <= v < 0xD800 || 0xDFFF < v <= 0x10FFFF
  }

  // ---- section 4 of RFC 3629

  predicate Tail(b: u8) {
    0x80 <= b <= 0xBF
  }

  /** One well-formed UTF-8 character. */
  predicate WellFormed(s: seq<u8>) {
    || (|s| == 1 && s[0] <= 0x7F)
    || (|s| == 2 && 0xC2 <= s[0] <= 0xDF && Tail(s[1]))
    || (|s| == 3 && Tail(s[1]) && Tail(s[2])
        && ((s[0] == 0xE0 && s[1] >= 0xA0) || 0xE1 <= s[0] <= 0xEC || (s[0] == 0xED && s[1] <= 0x9F)
            || 0xEE <= s[0] <= 0xEF))
    || (|s| == 4 && Tail(s[1]) && Tail(s[2]) && Tail(s[3])
        && ((s[0] == 0xF0 && s[1] >= 0x90) || 0xF1 <= s[0] <= 0xF3 || (s[0] == 0xF4 && s[1] <= 0x8F)))
  }

  // A tail byte with the low six bits of x.
  function Trail(x: nat): (b: u8)
    ensures Tail(b)
  {
    0x80 + x % 64
  }

  /** The encoding of a scalar value (section 3 of RFC 3629). */
  function Encode(v: nat): (s: seq<u8>)
    requires v <= 0x10FFFF
    ensures 1 <= |s| <= 4
  {
    if v < 0x80 then [v]
    else if v < 0x800 then [0xC0 + v / 64, Trail(v)]
    else if v < 0x10000 then [0xE0 + v / 4096, Trail(v / 64), Trail(v)]
    else [0xF0 + v / 262144, Trail(v / 4096), Trail(v / 64), Trail(v)]
  }

  // ---- decoding one byte at a time

  datatype Outcome = More(pending: seq<u8>) | Char(v: nat) | Error

  /** The length the first byte announces, 0 if there is none. */
  function Expected(b: u8): nat {
    if b < 0x80 then 1 else if b < 0xC2 then 0 else if b < 0xE0 then 2
    else if b < 0xF0 then 3 else if b < 0xF5 then 4 else 0
  }

  function Value(s: seq<u8>): nat
    requires 2 <= |s| <= 4
  {
    if |s| == 2 then Join(s[0] % 32, s[1])
    else if |s| == 3 then Join(Join(s[0] % 16, s[1]), s[2])
    else Join(Join(Join(s[0] % 8, s[1]), s[2]), s[3])
  }

  // Six more bits.
  function Join(x: nat, b: u8): nat {
    var low: nat := b % 64;
    x * 64 + low
  }

  // The tests on a complete sequence: in range, no surrogate, not longer than it has to be.
  predicate Acceptable(s: seq<u8>)
    requires 2 <= |s| <= 4
  {
    && Scalar(Value(s))
    && (|s| == 3 ==> Value(s) >= 0x800)
    && (|s| == 4 ==> Value(s) >= 0x10000)
  }

  /** A state between calls: nothing, or the beginning of a character. */
  predicate Pending(p: seq<u8>) {
    p == [] || (2 <= Expected(p[0]) && |p| < Expected(p[0]) && forall k | 1 <= k < |p| :: Tail(p[k]))
  }

  function Feed(p: seq<u8>, b: u8): (o: Outcome)
    requires Pending(p)
    ensures o.More? ==> Pending(o.pending) && o.pending == p + [b] && 0 < b
  {
    if p == [] then
      if b < 0x80 then Char(b) else if Expected(b) == 0 then Error else More([b])
    else if !Tail(b) then Error
    else
      var q := p + [b];
      if |q| < Expected(p[0]) then More(q)
      else if Acceptable(q) then Char(Value(q)) else Error
  }

  /** Feeding bytes until a character is complete or an error found; `used` bytes were looked at. */
  datatype Reading = Reading(outcome: Outcome, used: nat)

  function Run(p: seq<u8>, s: seq<u8>): (r: Reading)
    requires Pending(p)
    ensures r.used <= |s| && (r.outcome.Char? ==> r.used >= 1)
    ensures r.outcome.More? ==> Pending(r.outcome.pending) && r.used == |s| && r.outcome.pending == p + s
    decreases |s|
  {
    if s == [] then Reading(More(p), 0)
    else
      match Feed(p, s[0])
      case More(q) => (var r := Run(q, s[1..]); Reading(r.outcome, r.used + 1))
      case o => Reading(o, 1)
  }

  // ---- what is accepted

  predicate Tails(s: seq<u8>) {
    forall k | 1 <= k < |s| :: Tail(s[k])
  }

  /** From the start of a character: what happens depends on the first byte and the tail bytes only. */
  lemma {:induction false} RunTails(p: seq<u8>, s: seq<u8>)
    requires Pending(p) && p != []
    ensures var n := Expected(p[0]) - |p|;
      if n <= |s| && (forall k | 0 <= k < n :: Tail(s[k]))
      then Run(p, s).used == n && Run(p, s).outcome == if Acceptable(p + s[..n]) then Char(Value(p + s[..n])) else Error
      else !Run(p, s).outcome.Char? && (|s| < n && (forall k | 0 <= k < |s| :: Tail(s[k])) <==> Run(p, s).outcome.More?)
    decreases |s|
  {
    var n := Expected(p[0]) - |p|;
    if s != [] && Tail(s[0]) {
      if n == 1 {
        assert s[..1] == [s[0]];
      } else {
        RunTails(p + [s[0]], s[1..]);
        if n <= |s| {
          assert p + s[..n] == p + [s[0]] + s[1..][..n - 1];
        }
      }
    }
  }

  lemma AcceptsByLength(s: seq<u8>)
    requires s != []
    ensures (Run([], s).outcome.Char? && Run([], s).used == |s|) <==>
      |s| == Expected(s[0]) && Tails(s) && (|s| >= 2 ==> Acceptable(s))
  {
    hide Acceptable, Value;
    if Expected(s[0]) >= 2 {
      var n, rest := Expected(s[0]), s[1..];
      RunTails([s[0]], rest);
      assert s == [s[0]] + rest;
      if |s| == n {
        assert rest[..n - 1] == rest;
        assert forall k | 1 <= k < |s| :: s[k] == rest[k - 1];
        assert forall k | 0 <= k < |rest| :: rest[k] == s[k + 1];
      }
    }
  }

  lemma AcceptableTwo(a: u8, b: u8)
    requires Expected(a) == 2 && Tail(b)
    ensures Acceptable([a, b]) && WellFormed([a, b]) && Encode(Value([a, b])) == [a, b]
  {
    TrailJoin(a % 32, b);
  }

  lemma ValueThree(a: u8, b: u8, c: u8)
    requires Expected(a) == 3 && Tail(b) && Tail(c)
    ensures var v := Value([a, b, c]);
      && v == (a - 0xE0) * 4096 + (b - 0x80) * 64 + (c - 0x80)
      && v / 4096 == a - 0xE0 && Trail(v / 64) == b && Trail(v) == c
  {
    hide Trail, Tail;
    var top: nat := a % 16;
    assert top == a - 0xE0;
    TrailJoin(top, b);
    TrailJoin(Join(top, b), c);
    Div64(Value([a, b, c]));
    TailLow(b);
    TailLow(c);
  }

  lemma AcceptableThree(a: u8, b: u8, c: u8)
    requires Expected(a) == 3 && Tail(b) && Tail(c)
    ensures var s := [a, b, c];
      (Acceptable(s) <==> WellFormed(s)) && (Acceptable(s) ==> Encode(Value(s)) == s)
  {
    hide Value, Trail;
    ValueThree(a, b, c);
  }

  lemma ValueFour(a: u8, b: u8, c: u8, d: u8)
    requires Expected(a) == 4 && Tail(b) && Tail(c) && Tail(d)
    ensures var v := Value([a, b, c, d]);
      && v == (a - 0xF0) * 262144 + (b - 0x80) * 4096 + (c - 0x80) * 64 + (d - 0x80)
      && v / 262144 == a - 0xF0 && Trail(v / 4096) == b && Trail(v / 64) == c && Trail(v) == d
  {
    hide Trail, Tail;
    var top: nat := a % 8;
    assert top == a - 0xF0;
    TrailJoin(top, b);
    TrailJoin(Join(top, b), c);
    TrailJoin(Join(Join(top, b), c), d);
    Div64(Value([a, b, c, d]));
    TailLow(b);
    TailLow(c);
    TailLow(d);
  }

  lemma AcceptableFour(a: u8, b: u8, c: u8, d: u8)
    requires Expected(a) == 4 && Tail(b) && Tail(c) && Tail(d)
    ensures var s := [a, b, c, d];
      (Acceptable(s) <==> WellFormed(s)) && (Acceptable(s) ==> Encode(Value(s)) == s)
  {
    hide Value, Trail;
    ValueFour(a, b, c, d);
  }

  lemma TailLow(b: u8)
    requires Tail(b)
    ensures b % 64 == b - 0x80
  {
  }

  lemma TrailJoin(x: nat, b: u8)
    requires Tail(b)
    ensures Trail(Join(x, b)) == b && Join(x, b) / 64 == x
  {
  }

  lemma Div64(v: nat)
    ensures v / 64 / 64 == v / 4096 && v / 4096 / 64 == v / 262144
  {
  }

  /** Encoding what was decoded. */
  lemma DecodeEncodes(s: seq<u8>)
    requires 2 <= |s| <= 4 && Expected(s[0]) == |s| && Tails(s)
    ensures Acceptable(s) <==> WellFormed(s)
    ensures Acceptable(s) ==> Encode(Value(s)) == s
  {
    hide Acceptable, WellFormed, Value, Encode;
    assert forall k | 1 <= k < |s| :: Tail(s[k]);
    if |s| == 2 {
      assert s == [s[0], s[1]];
      AcceptableTwo(s[0], s[1]);
    } else if |s| == 3 {
      assert s == [s[0], s[1], s[2]];
      AcceptableThree(s[0], s[1], s[2]);
    } else {
      assert s == [s[0], s[1], s[2], s[3]];
      AcceptableFour(s[0], s[1], s[2], s[3]);
    }
  }

  lemma WellFormedShape(s: seq<u8>)
    requires WellFormed(s)
    ensures |s| == Expected(s[0]) && Tails(s)
  {
  }

  /** The decoder accepts exactly the well-formed characters. */
  lemma AcceptsWellFormed(s: seq<u8>)
    requires s != []
    ensures (Run([], s).outcome.Char? && Run([], s).used == |s|) <==> WellFormed(s)
  {
    hide WellFormed, Run, Acceptable;
    AcceptsByLength(s);
    if 2 <= |s| <= 4 && Expected(s[0]) == |s| && Tails(s) {
      DecodeEncodes(s);
    }
    if |s| == 1 && Expected(s[0]) == 1 {
      OneByte(s);
    }
    if WellFormed(s) {
      WellFormedShape(s);
    }
  }

  lemma OneByte(s: seq<u8>)
    requires |s| == 1
    ensures WellFormed(s) <==> Expected(s[0]) == 1
  {
  }

  /** Decoding an encoding. */
  lemma EncodeDecodes(v: nat)
    requires Scalar(v)
    ensures var s := Encode(v); Expected(s[0]) == |s| && Tails(s) && (v >= 0x80 ==> Value(s) == v && Acceptable(s))
  {
    hide Value, Trail, Join;
    if 0x80 <= v < 0x800 {
      ValueOfTwo(v);
    } else if 0x800 <= v < 0x10000 {
      ValueOfThree(v);
    } else if 0x10000 <= v {
      ValueOfFour(v);
    }
  }

  lemma ValueOfTwo(v: nat)
    requires 0x80 <= v < 0x800
    ensures Value([0xC0 + v / 64, Trail(v)]) == v
  {
    hide Join, Trail;
    JoinTrail(v);
    assert (0xC0 + v / 64) % 32 == v / 64;
  }

  lemma ValueOfThree(v: nat)
    requires 0x800 <= v < 0x10000
    ensures Value([0xE0 + v / 4096, Trail(v / 64), Trail(v)]) == v
  {
    hide Join, Trail;
    JoinTrail(v);
    JoinTrail(v / 64);
    Div64(v);
    assert (0xE0 + v / 4096) % 16 == v / 4096;
  }

  lemma ValueOfFour(v: nat)
    requires 0x10000 <= v <= 0x10FFFF
    ensures Value([0xF0 + v / 262144, Trail(v / 4096), Trail(v / 64), Trail(v)]) == v
  {
    hide Join, Trail;
    JoinTrail(v);
    JoinTrail(v / 64);
    JoinTrail(v / 4096);
    Div64(v);
    assert (0xF0 + v / 262144) % 8 == v / 262144;
  }

  lemma JoinTrail(x: nat)
    ensures Join(x / 64, Trail(x)) == x
  {
  }

  // ---- any way of cutting the bytes

  lemma {:induction false} RunConcat(p: seq<u8>, a: seq<u8>, b: seq<u8>)
    requires Pending(p)
    ensures Run(p, a + b) ==
      if Run(p, a).outcome.More? then (var r := Run(p + a, b); Reading(r.outcome, |a| + r.used)) else Run(p, a)
    decreases |a|
  {
    hide Acceptable, Value;
    if a == [] {
      assert p + a == p && a + b == b;
    } else {
      var o := Feed(p, a[0]);
      assert (a + b)[0] == a[0] && (a + b)[1..] == a[1..] + b;
      if o.More? {
        RunConcat(o.pending, a[1..], b);
        assert p + a == o.pending + a[1..];
      }
    }
  }

  /** The encoding of a scalar value is read back as that value, whatever follows. */
  lemma EncodedRun(v: nat, rest: seq<u8>)
    requires Scalar(v)
    ensures Run([], Encode(v) + rest) == Reading(Char(v), |Encode(v)|)
  {
    var s := Encode(v);
    EncodeDecodes(v);
    hide Encode, Acceptable, Value, Run;
    if v < 0x80 {
      EncodeAscii(v);
    } else {
      AcceptsByLength(s);
      ReadsAll(s);
    }
    RunConcat([], s, rest);
  }

  lemma EncodeAscii(v: nat)
    requires v < 0x80
    ensures Encode(v) == [v] && Run([], [v]) == Reading(Char(v), 1)
  {
  }

  lemma ReadsAll(s: seq<u8>)
    requires 2 <= |s| <= 4 && |s| == Expected(s[0]) && Tails(s) && Acceptable(s)
    ensures Run([], s) == Reading(Char(Value(s)), |s|)
  {
    hide Acceptable, Value;
    var rest := s[1..];
    assert s == [s[0]] + rest;
    assert forall k | 0 <= k < |rest| :: rest[k] == s[k + 1];
    RunTails([s[0]], rest);
    assert rest[..|s| - 1] == rest;
  }

  /** Whatever is accepted is the encoding of the value returned. */
  lemma AcceptedIsEncoding(s: seq<u8>)
    requires Run([], s).outcome.Char? && Run([], s).used == |s|
    ensures Scalar(Run([], s).outcome.v) && Encode(Run([], s).outcome.v) == s
  {
    AcceptsByLength(s);
    if |s| >= 2 {
      ReadsAll(s);
      DecodeEncodes(s);
    }
  }

  /** An encoding cut anywhere: each piece leaves the state waiting for the next, the last one
      completes the character. */
  lemma Chunk(v: nat, pre: seq<u8>, c: seq<u8>, post: seq<u8>)
    requires Scalar(v) && Encode(v) == pre + c + post && c != []
    ensures Pending(pre)
    ensures Run(pre, c) == if post == [] then Reading(Char(v), |c|) else Reading(More(pre + c), |c|)
  {
    EncodedRun(v, []);
    assert Encode(v) + [] == Encode(v);
    assert pre + c + post == pre + (c + post);
    hide Encode, Run, Pending;
    RunConcat([], pre, c + post);
    assert [] + pre == pre;
    RunConcat(pre, c, post);
    if post == [] {
      assert c + post == c;
    }
  }

  // ---- strings

  /** The characters of a NUL-terminated string, up to its end or the first error. */
  datatype Text = Text(chars: seq<nat>, ok: bool)

  function ReadText(p: seq<u8>, s: seq<u8>): Text
    requires Pending(p)
    decreases |s|
  {
    var rd := Run(p, s);
    if !rd.outcome.Char? then Text([], false)
    else if rd.outcome.v == 0 then Text([], true)
    else
      var t := ReadText([], s[rd.used..]);
      Text([rd.outcome.v] + t.chars, t.ok)
  }

  predicate Scalars(ws: seq<int>) {
    forall k | 0 <= k < |ws| :: Scalar(ws[k])
  }

  function EncodeText(ws: seq<int>): (s: seq<u8>)
    requires Scalars(ws)
  {
    if ws == [] then [] else EncodeText(ws[..|ws| - 1]) + Encode(ws[|ws| - 1])
  }

  lemma {:induction false} EncodeHead(w: int, ws: seq<int>)
    requires Scalar(w) && Scalars(ws)
    ensures Scalars([w] + ws) && EncodeText([w] + ws) == Encode(w) + EncodeText(ws)
    decreases |ws|
  {
    hide Encode;
    var all := [w] + ws;
    assert Scalars(all);
    if ws == [] {
      assert all[..0] == [];
      assert EncodeText(all) == Encode(w);
    } else {
      EncodeHead(w, ws[..|ws| - 1]);
      assert all[..|all| - 1] == [w] + ws[..|ws| - 1];
    }
  }

  /** Decoding the encoding of a string gives the string back. */
  lemma {:induction false} TextRoundTrip(ws: seq<int>)
    requires Scalars(ws) && forall k | 0 <= k < |ws| :: ws[k] != 0
    ensures ReadText([], EncodeText(ws) + [0]) == Text(ws, true)
  {
    hide Encode, Run;
    if ws == [] {
      EncodeAscii(0);
      assert EncodeText(ws) + [0] == [0];
    } else {
      var w, rest := ws[0], ws[1..];
      TextRoundTrip(rest);
      EncodeHead(w, rest);
      assert ws == [w] + rest;
      var tail := EncodeText(rest) + [0];
      assert EncodeText(ws) + [0] == Encode(w) + tail;
      EncodedRun(w, tail);
      assert (Encode(w) + tail)[|Encode(w)|..] == tail;
    }
  }

  /** Four bytes always decide, and so does the terminator. */
  lemma FourDecide(p: seq<u8>, s: seq<u8>)
    requires Pending(p) && 0 in s
    ensures var w := if 4 <= |s| then s[..4] else s;
      Run(p, w) == Run(p, s) && !Run(p, w).outcome.More?
  {
    hide Run, Acceptable, Value;
    var w := if 4 <= |s| then s[..4] else s;
    assert s == w + s[|w|..];
    RunConcat(p, w, s[|w|..]);
    MoreShort(p, w);
  }

  lemma MoreShort(p: seq<u8>, w: seq<u8>)
    requires Pending(p)
    ensures Run(p, w).outcome.More? ==> |w| < 4 && 0 !in w
  {
    hide Run;
    if Run(p, w).outcome.More? {
      PendingShort(p + w);
      assert forall b | b in w :: b in p + w;
    }
  }

  lemma PendingShort(p: seq<u8>)
    requires Pending(p)
    ensures |p| < 4 && 0 !in p
  {
  }

  /** Reading a character other than NUL looks at no NUL. */
  lemma {:induction false} UsedNoNul(p: seq<u8>, s: seq<u8>)
    requires Pending(p)
    ensures var rd := Run(p, s); rd.outcome.Char? && rd.outcome.v != 0 ==> 0 !in s[..rd.used]
    decreases |s|
  {
    hide Acceptable, Value;
    var rd := Run(p, s);
    if s != [] {
      var o := Feed(p, s[0]);
      if o.More? {
        UsedNoNul(o.pending, s[1..]);
        assert s[..rd.used] == [s[0]] + s[1..][..rd.used - 1];
      } else {
        assert s[..rd.used] == [s[0]];
      }
    }
  }
}

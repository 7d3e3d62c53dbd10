/** mbrtowc, wcrtomb, mbsrtowcs and wcsrtombs: the conversion state, and conversions of whole strings. */
module Multibyte {
  import opened Utf8

  // (size_t)-1 and (size_t)-2
  const INVALID: int := -1
  const INCOMPLETE: int := -2

  // The bytes mbrtowc may look at: n of them, or fewer when the text ends before.
  function Window(s: seq<u8>, n: nat): seq<u8> {
    if n <= |s| then s[..n] else s
  }

  // A reading that continues one of `k` bytes.
  function After(k: nat, r: Reading): Reading {
    Reading(r.outcome, k + r.used)
  }

  lemma BegunFirst(p: seq<u8>)
    requires Pending(p) && p != []
    ensures 2 <= Expected(p[0]) && |p| < Expected(p[0]) && forall k | 0 <= k < |p| :: p[k] != 0
  {
  }

  lemma RunNone(p: seq<u8>, w: seq<u8>)
    requires Pending(p) && w == []
    ensures Run(p, w) == Reading(More(p), 0)
  {
  }

  lemma PendingNone()
    ensures Pending([])
  {
  }

  /** One more byte of a character that has begun. */
  lemma RunNext(p: seq<u8>, w: seq<u8>)
    requires Pending(p) && p != [] && w != []
    ensures var q := p + [w[0]];
      && (!Tail(w[0]) ==> Run(p, w) == Reading(Error, 1))
      && (Tail(w[0]) && |q| < Expected(p[0]) ==> Pending(q) && Run(p, w) == After(1, Run(q, w[1..])))
      && (Tail(w[0]) && |q| >= Expected(p[0]) ==>
            Run(p, w) == Reading(if Acceptable(q) then Char(Value(q)) else Error, 1))
  {
    hide Acceptable, Value;
  }

  /** The result of mbrtowc, and the bytes left waiting, for a reading. */
  ghost predicate Reads(rd: Reading, r: int, wc: nat, begun: seq<u8>) {
    match rd.outcome
    case More(p) => r == INCOMPLETE && begun == p
    case Error => r == INVALID && begun == []
    case Char(v) => wc == v && begun == [] && r == if v == 0 then 0 else rd.used
  }

  /** mbstate_t: the bytes of a character that has begun. */
  class MbState {
    var count: nat
    const bytes: array<u8>

    ghost predicate Valid()
      reads this, bytes
    {
      bytes.Length == 4 && count < 4 && Pending(bytes[..count])
    }

    ghost function Begun(): seq<u8>
      requires Valid()
      reads this, bytes
    {
      bytes[..count]
    }

    constructor ()
      ensures Valid() && Begun() == [] && fresh(bytes)
    {
      count := 0;
      bytes := new u8[4];
    }

    /** mbrtowc: feeds the state bytes until a character is complete, an error is found, or the bytes
        run out. */
    method Mbrtowc(s: seq<u8>, n: nat) returns (r: int, wc: nat)
      requires Valid() && (n <= |s| || 0 in s)
      modifies this, bytes
      ensures Valid() && Reads(Run(old(Begun()), Window(s, n)), r, wc, Begun())
    {
      hide Acceptable, Value, Scalar, Tail;
      ghost var w := Window(s, n);
      if n == 0 {
        return INCOMPLETE, 0;
      }
      assert w[0..] == w;
      if count == 0 {
        var b := s[0];
        assert b == w[0];
        if b < 0x80 {
          return if b == 0 then 0 else 1, b;
        }
        if b < 0xC2 {
          return INVALID, 0;
        }
        bytes[0] := b;
        count := 1;
        assert bytes[..count] == [b];
        if b >= 0xF5 {
          count := 0;
          return INVALID, 0;
        }
        r, wc := Gather(s, n, 1);
      } else {
        r, wc := Gather(s, n, 0);
      }
    }

    /** The part of mbrtowc behind the first byte. */
    method Gather(s: seq<u8>, n: nat, consumed0: nat) returns (r: int, wc: nat)
      requires Valid() && count > 0 && (n <= |s| || 0 in s) && consumed0 <= |Window(s, n)|
      requires forall k | 0 <= k < consumed0 :: s[k] != 0
      modifies this, bytes
      ensures Valid() && Reads(After(consumed0, Run(old(Begun()), Window(s, n)[consumed0..])), r, wc, Begun())
    {
      hide Value, Scalar, Run, Pending;
      ghost var p0, w := Begun(), Window(s, n);
      BegunFirst(p0);
      PendingNone();
      wc := 0;
      var first, expected := bytes[0], 4;
      if first < 0xE0 {
        expected := 2;
      } else if first < 0xF0 {
        expected := 3;
      }
      var consumed := consumed0;
      while count < expected
        invariant 1 <= count <= expected && expected == Expected(bytes[0]) && consumed0 <= consumed <= |w|
        invariant count < expected ==> Pending(bytes[..count])
        invariant count < expected ==>
          After(consumed0, Run(p0, w[consumed0..])) == After(consumed, Run(bytes[..count], w[consumed..]))
        invariant count == expected ==>
          After(consumed0, Run(p0, w[consumed0..])) ==
            Reading(if Acceptable(bytes[..count]) then Char(Value(bytes[..count])) else Error, consumed)
        invariant forall k | 0 <= k < consumed :: s[k] != 0
      {
        if consumed >= n {
          RunNone(bytes[..count], w[consumed..]);
          return INCOMPLETE, 0;
        }
        var b := s[consumed];
        assert w[consumed..][0] == b && w[consumed..][1..] == w[consumed + 1..];
        RunNext(bytes[..count], w[consumed..]);
        if !(0x80 <= b < 0xC0) {
          count := 0;
          return INVALID, 0;
        }
        ghost var p := bytes[..count];
        bytes[count] := b;
        count := count + 1;
        consumed := consumed + 1;
        assert bytes[..count] == p + [b];
      }
      var res := Value(bytes[..expected]);
      if !Scalar(res) || (expected == 3 && res < 0x800) || (expected == 4 && res < 0x10000) {
        count := 0;
        return INVALID, 0;
      }
      count := 0;
      return if res == 0 then 0 else consumed, res;
    }
  }

  /** wcrtomb: the encoding of wc, or -1 when it is no scalar value. */
  method Wcrtomb(s: array?<u8>, wc: int) returns (r: int)
    requires -0x8000_0000 <= wc < 0x8000_0000
    requires s != null && Scalar(wc) ==> |Encode(wc)| <= s.Length
    modifies if s == null then {} else {s}
    ensures s == null ==> r == 1
    ensures s != null && !Scalar(wc) ==> r == INVALID && s[..] == old(s[..])
    ensures s != null && Scalar(wc) ==> r == |Encode(wc)| && s[..] == Encode(wc) + old(s[r..])
  {
    if s == null {
      return 1;
    }
    ghost var before := s[..];
    var val: nat := if wc < 0 then wc + 0x1_0000_0000 else wc;
    if val < 0x80 {
      s[0] := val;
      r := 1;
    } else if val < 0x800 {
      s[0] := 0xC0 + val / 64;
      s[1] := Trail(val);
      r := 2;
    } else if val < 0x10000 {
      if 0xD800 <= val <= 0xDFFF {
        return INVALID;
      }
      s[0] := 0xE0 + val / 4096;
      s[1] := Trail(val / 64);
      s[2] := Trail(val);
      r := 3;
    } else if val <= 0x10FFFF {
      s[0] := 0xF0 + val / 262144;
      s[1] := Trail(val / 4096);
      s[2] := Trail(val / 64);
      s[3] := Trail(val);
      r := 4;
    } else {
      return INVALID;
    }
    assert s[r..] == before[r..];
    assert s[..] == s[..r] + s[r..];
  }

  // The first k characters are encodable and not the terminator.
  predicate Begins(src: seq<int>, k: nat) {
    k <= |src| && Scalars(src[..k]) && 0 !in src[..k]
  }

  predicate Ends(src: seq<int>, k: nat) {
    Begins(src, k) && k < |src| && src[k] == 0
  }

  /** What becomes of *src: left alone, moved to a position, or set to null at the end. */
  datatype Next = Unmoved | At(pos: nat) | Null

  // ---- where *src has to point by section 7.24.6.4 of C99

  // A pointer that was not moved is at the start of the text.
  function Place(next: Next): int {
    match next
    case Unmoved => 0
    case At(pos) => pos
    case Null => -1
  }

  /** Nothing is stored without a destination; null is stored when the conversion stopped at the terminator,
      and otherwise the address behind the last character converted, if any. */
  predicate StandardNext(given: bool, terminated: bool, behind: nat, next: Next) {
    if !given then next == Unmoved else if terminated then next == Null else Place(next) == behind
  }

  /** How many bytes the first k characters take. */
  function BytesOf(p: seq<u8>, s: seq<u8>, k: nat): (n: nat)
    requires Pending(p) && k <= |ReadText(p, s).chars|
    ensures k <= n <= |s|
    decreases k
  {
    if k == 0 then 0
    else
      var rd := Run(p, s);
      rd.used + BytesOf([], s[rd.used..], k - 1)
  }

  /** What mbsrtowcs does with *src: on an error it leaves it alone. */
  function MbNext(p: seq<u8>, src: seq<u8>, given: bool, len: nat): Next
    requires Pending(p)
  {
    var t := ReadText(p, src);
    if !given then Unmoved
    else if len <= |t.chars| then At(BytesOf(p, src, len))
    else if t.ok then Null
    else Unmoved
  }

  /** That is what the standard asks for, exactly when no character was converted before an error. */
  lemma MbNextIsStandard(p: seq<u8>, src: seq<u8>, given: bool, len: nat)
    requires Pending(p)
    ensures var t := ReadText(p, src);
      var k := if len <= |t.chars| then len else |t.chars|;
      StandardNext(given, t.ok && |t.chars| < len, BytesOf(p, src, k), MbNext(p, src, given, len)) <==>
        !(given && !t.ok && 0 < |t.chars| < len)
  {
    hide ReadText, BytesOf;
    var t := ReadText(p, src);
    NoBytes(p, src);
    if given && !t.ok && 0 < |t.chars| < len {
      assert BytesOf(p, src, |t.chars|) > 0;
    }
  }

  lemma NoBytes(p: seq<u8>, s: seq<u8>)
    requires Pending(p)
    ensures BytesOf(p, s, 0) == 0
  {
  }

  /** Behind the first `count` characters the text goes on at `at`, with the bytes `q` begun. */
  ghost predicate Behind(p: seq<u8>, src: seq<u8>, count: nat, q: seq<u8>, at: nat)
    requires Pending(p) && Pending(q) && at <= |src| && count <= |ReadText(p, src).chars|
  {
    && count + |ReadText(q, src[at..]).chars| == |ReadText(p, src).chars|
    && forall k: nat {:trigger BytesOf(q, src[at..], k)} | k <= |ReadText(q, src[at..]).chars| ::
         BytesOf(p, src, count + k) == at + BytesOf(q, src[at..], k)
  }

  lemma NoneBehind(p: seq<u8>, src: seq<u8>)
    requires Pending(p)
    ensures Behind(p, src, 0, p, 0)
  {
    assert src[0..] == src;
  }

  lemma BehindAll(p: seq<u8>, src: seq<u8>, count: nat, q: seq<u8>, at: nat)
    requires Pending(p) && Pending(q) && at <= |src| && count <= |ReadText(p, src).chars|
    requires Behind(p, src, count, q, at)
    ensures BytesOf(p, src, count) == at
  {
    assert BytesOf(q, src[at..], 0) == 0;
  }

  lemma OneBehind(p: seq<u8>, src: seq<u8>, count: nat, q: seq<u8>, at: nat, used: nat)
    requires Pending(p) && Pending(q) && at <= |src| && count <= |ReadText(p, src).chars|
    requires Behind(p, src, count, q, at)
    requires var rd := Run(q, src[at..]); rd.outcome.Char? && rd.outcome.v != 0 && rd.used == used
    ensures Pending([]) && count + 1 <= |ReadText(p, src).chars| && Behind(p, src, count + 1, [], at + used)
  {
    hide Run;
    assert src[at..][used..] == src[at + used..];
    var w := src[at + used..];
    var t, u := ReadText(q, src[at..]), ReadText([], w);
    forall k: nat | k <= |u.chars|
      ensures BytesOf(p, src, count + 1 + k) == at + used + BytesOf([], w, k)
    {
      assert BytesOf(q, src[at..], k + 1) == used + BytesOf([], w, k);
    }
  }

  /** One round of mbsrtowcs: the call of mbrtowc on the text at `s`. */
  method ReadOne(src: seq<u8>, s: nat, ps: MbState) returns (r: int, wc: nat)
    requires ps.Valid() && s <= |src| && 0 in src[s..]
    modifies ps, ps.bytes
    ensures ps.Valid()
    ensures var t := ReadText(old(ps.Begun()), src[s..]);
      if r < 0 then t == Text([], false)
      else if r == 0 then wc == 0 && t == Text([], true)
      else
        && s + r <= |src| && 0 in src[s + r..] && ps.Begun() == []
        && Run(old(ps.Begun()), src[s..]) == Reading(Char(wc), r) && wc != 0
        && var u := ReadText(ps.Begun(), src[s + r..]); t == Text([wc] + u.chars, u.ok)
  {
    hide Run, Pending;
    ghost var p, w := ps.Begun(), src[s..];
    FourDecide(p, w);
    UsedNoNul(p, w);
    r, wc := ps.Mbrtowc(src[s..], 4);
    if r > 0 {
      assert w == w[..r] + w[r..];
      assert w[r..] == src[s + r..];
    }
  }

  /** mbsrtowcs */
  method Mbsrtowcs(dst: array?<nat>, src: seq<u8>, len: nat, ps: MbState) returns (r: int, next: Next)
    requires ps.Valid() && 0 in src && (dst != null ==> len <= dst.Length)
    modifies ps, ps.bytes, if dst == null then {} else {dst}
    ensures ps.Valid()
    ensures var t := ReadText(old(ps.Begun()), src);
      if dst == null then r == if t.ok then |t.chars| else INVALID
      else if len <= |t.chars| then
        && r == len && dst[..len] == t.chars[..len]
        && next.At? && next.pos <= |src| && Text(t.chars[len..], t.ok) == ReadText(ps.Begun(), src[next.pos..])
      else dst[..|t.chars|] == t.chars && if t.ok then r == |t.chars| && dst[r] == 0 else r == INVALID
    ensures next == MbNext(old(ps.Begun()), src, dst != null, len)
    ensures dst != null ==> forall k | len <= k < dst.Length :: dst[k] == old(dst[k])
  {
    hide ReadText, Run, Pending, BytesOf, Behind;
    ghost var p, t, got := ps.Begun(), ReadText(ps.Begun(), src), [];
    var s: nat, count: nat := 0, 0;
    assert src[0..] == src;
    NoneBehind(p, src);
    while dst == null || count < len
      invariant ps.Valid() && s <= |src| && 0 in src[s..] && |got| == count
      invariant var u := ReadText(ps.Begun(), src[s..]); t == Text(got + u.chars, u.ok)
      invariant count <= |t.chars| && Behind(p, src, count, ps.Begun(), s)
      invariant dst != null ==> count <= len && dst[..count] == got
      invariant dst != null ==> forall k | len <= k < dst.Length :: dst[k] == old(dst[k])
      decreases |src| - s
    {
      var wc: nat;
      ghost var p1 := ps.Begun();
      r, wc := ReadOne(src, s, ps);
      if dst != null && r >= 0 {
        dst[count] := wc;
      }
      if r < 0 {
        return INVALID, Unmoved;
      }
      if r == 0 {
        return count, if dst != null then Null else Unmoved;
      }
      OneBehind(p, src, count, p1, s, r);
      got := got + [wc];
      s := s + r;
      count := count + 1;
    }
    BehindAll(p, src, count, ps.Begun(), s);
    return count, if dst != null then At(s) else Unmoved;
  }

  /** One more character encoded. */
  lemma EncodeNext(src: seq<int>, k: nat)
    requires Begins(src, k) && k < |src| && Scalar(src[k])
    ensures Scalars(src[..k + 1]) && EncodeText(src[..k + 1]) == EncodeText(src[..k]) + Encode(src[k])
    ensures src[k] != 0 ==> Begins(src, k + 1)
  {
    hide Encode;
    assert src[..k + 1] == src[..k] + [src[k]];
  }

  // The copying loop of wcsrtombs.
  method Store(dst: array<u8>, count: nat, buf: array<u8>, n: nat)
    requires count + n <= dst.Length && n <= buf.Length && dst != buf
    modifies dst
    ensures dst[..count + n] == old(dst[..count]) + buf[..n]
    ensures forall k | count + n <= k < dst.Length :: dst[k] == old(dst[k])
  {
    for i := 0 to n
      invariant dst[..count + i] == old(dst[..count]) + buf[..i]
      invariant forall k | count + i <= k < dst.Length :: dst[k] == old(dst[k])
    {
      dst[count + i] := buf[i];
    }
  }

  /** wcsrtombs: `k` characters are converted, as many as fit, or up to the one that cannot be encoded. */
  method Wcsrtombs(dst: array?<u8>, src: seq<int>, len: nat) returns (r: int, next: Next, ghost k: nat)
    requires 0 in src && (dst != null ==> len <= dst.Length)
    requires forall i | 0 <= i < |src| :: -0x8000_0000 <= src[i] < 0x8000_0000
    modifies if dst == null then {} else {dst}
    ensures Begins(src, k)
    ensures r == INVALID ==>
      next == Unmoved && k < |src| && !Scalar(src[k]) && (dst != null ==> |EncodeText(src[..k])| <= len)
    ensures r != INVALID ==>
      r == |EncodeText(src[..k])| && (dst != null ==> r <= len && dst[..r] == EncodeText(src[..k]))
    ensures r != INVALID ==>
      match next {
        case Unmoved => dst == null && Ends(src, k)
        case Null => dst != null && Ends(src, k) && r < len && dst[r] == 0
        case At(pos) => dst != null && pos == k
          && (r == len || (k < |src| && Scalar(src[k]) && r + |Encode(src[k])| > len))
      }
    // *src is as section 7.24.6.4 of C99 asks exactly when no character was converted before an error.
    ensures StandardNext(dst != null, Ends(src, k) && |EncodeText(src[..k])| < len, k, next) <==>
      !(dst != null && r == INVALID && k > 0)
    ensures dst != null ==> forall i | len <= i < dst.Length :: dst[i] == old(dst[i])
  {
    hide Encode, EncodeText, Scalars;
    k := 0;
    var ws: nat, count: nat := 0, 0;
    var buf := new u8[4];
    BeginsNone(src);
    EncodeNul();
    while true
      invariant ws < |src| && Begins(src, ws) && 0 in src[ws..] && ws == k
      invariant count == |EncodeText(src[..ws])|
      invariant dst != null ==> count <= len && dst[..count] == EncodeText(src[..ws])
      invariant dst != null ==> forall i | len <= i < dst.Length :: dst[i] == old(dst[i])
      decreases |src| - ws
    {
      var wc := src[ws];
      var n := Wcrtomb(buf, wc);
      if n == INVALID {
        return INVALID, Unmoved, k;
      }
      EncodeNext(src, k);
      if dst != null {
        if count + n > len {
          break;
        }
        Store(dst, count, buf, n);
      }
      count := count + n;
      if wc == 0 {
        assert dst != null ==> dst[..count - 1] == EncodeText(src[..k]);
        return count - 1, if dst != null then Null else Unmoved, k;
      }
      ws := ws + 1;
      k := k + 1;
      if dst != null && count == len {
        break;
      }
    }
    return count, if dst != null then At(ws) else Unmoved, k;
  }

  lemma BeginsNone(src: seq<int>)
    ensures Begins(src, 0) && EncodeText(src[..0]) == []
  {
  }

  lemma EncodeNul()
    ensures Encode(0) == [0]
  {
  }
}

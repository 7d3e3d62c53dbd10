/** The write side of a buffered stream: no byte is lost, doubled or reordered, whatever the kernel
    takes of each write. */
module Stdio {
  import opened Utf8
  import opened Words

  const EOF: int := -1

  /** What the kernel answers to one write: EINTR, another error, or how many bytes it takes at most. */
  datatype Reply = Interrupted | Failed | Takes(n: nat)

  // Answers a flush gets over.
  predicate Harmless(reply: Reply) {
    reply.Interrupted? || (reply.Takes? && reply.n > 0)
  }

  predicate Healthy(replies: seq<Reply>) {
    forall k | 0 <= k < |replies| :: Harmless(replies[k])
  }

  predicate Uninterrupted(replies: seq<Reply>) {
    forall k | 0 <= k < |replies| :: !replies[k].Interrupted?
  }

  // What is left of the answers after some writes.
  predicate Rest(later: seq<Reply>, replies: seq<Reply>) {
    |later| <= |replies| && later == replies[|replies| - |later|..]
  }

  lemma RestTrans(a: seq<Reply>, b: seq<Reply>, c: seq<Reply>)
    requires Rest(a, b) && Rest(b, c)
    ensures Rest(a, c)
  {
  }

  lemma RestSame(replies: seq<Reply>)
    ensures Rest(replies, replies)
  {
  }

  lemma RestHealthy(later: seq<Reply>, replies: seq<Reply>)
    requires Rest(later, replies)
    ensures Healthy(replies) ==> Healthy(later)
    ensures Uninterrupted(replies) ==> Uninterrupted(later)
  {
  }

  // ---- which answers a call survives

  /** Whether a flush of n pending bytes succeeds, and the answers it leaves: EINTR is tried again. */
  function FlushAfter(n: nat, replies: seq<Reply>): (bool, seq<Reply>)
    decreases |replies|
  {
    if n == 0 || replies == [] then (true, replies)
    else match replies[0]
      case Interrupted => FlushAfter(n, replies[1..])
      case Failed => (false, replies[1..])
      case Takes(k) =>
        if k == 0 then (false, replies[1..]) else FlushAfter(if k < n then n - k else 0, replies[1..])
  }

  /** Whether fwrite gets n bytes out, with `room` left in a buffer of `bsize`: what a flush makes room for is
      buffered if it is less than the buffer, and otherwise written through, where EINTR is not tried again. */
  predicate PutAfter(n: nat, room: nat, bsize: nat, replies: seq<Reply>)
    decreases n
  {
    n <= room ||
      var (flushed, later) := FlushAfter(bsize, replies);
      var left := n - room;
      flushed && (left < bsize || later == [] || (later[0].Takes? && later[0].n > 0
        && PutAfter(if later[0].n < left then left - later[0].n else 0, bsize, bsize, later[1..])))
  }

  // One write of a flush: w bytes taken, or none with or without EINTR.
  lemma FlushWrite(n: nat, replies: seq<Reply>, w: int, eintr: bool, later: seq<Reply>)
    requires n > 0 && later == if replies != [] then replies[1..] else []
    requires if replies == [] then w == n else
      match replies[0]
      case Interrupted => w == -1 && eintr
      case Failed => w == -1 && !eintr
      case Takes(k) => w == if k < n then k else n
    ensures FlushAfter(n, replies) ==
      if w > 0 then FlushAfter(n - w, later) else if w < 0 && eintr then FlushAfter(n, later) else (false, later)
  {
  }

  lemma FlushNothing(replies: seq<Reply>)
    ensures FlushAfter(0, replies) == (true, replies)
  {
  }

  /** A flush survives everything harmless. */
  lemma {:induction false} FlushSurvives(n: nat, replies: seq<Reply>)
    requires Healthy(replies)
    ensures var (flushed, later) := FlushAfter(n, replies);
      flushed && Healthy(later) && (Uninterrupted(replies) ==> Uninterrupted(later))
    decreases |replies|
  {
    if n > 0 && replies != [] {
      var reply, rest := replies[0], replies[1..];
      assert Healthy(rest) && (Uninterrupted(replies) ==> Uninterrupted(rest));
      assert Harmless(reply);
      FlushSurvives(if reply.Interrupted? then n else if reply.n < n then n - reply.n else 0, rest);
    }
  }

  /** So does fwrite, if nothing is interrupted or all that is left behind the flush fits the buffer. */
  lemma {:induction false} PutSurvives(n: nat, room: nat, bsize: nat, replies: seq<Reply>)
    requires bsize > 0 && Healthy(replies) && (Uninterrupted(replies) || n < bsize + room)
    ensures PutAfter(n, room, bsize, replies)
    decreases n
  {
    FlushSurvives(bsize, replies);
    var (_, later) := FlushAfter(bsize, replies);
    if n >= bsize + room && later != [] {
      assert Harmless(later[0]) && !later[0].Interrupted?;
      assert Healthy(later[1..]) && Uninterrupted(later[1..]);
      var left := n - room;
      PutSurvives(if later[0].n < left then left - later[0].n else 0, bsize, bsize, later[1..]);
    }
  }

  /** fwrite survives every run of harmless answers exactly when the data is shorter than the buffer and what
      is free in it together. */
  lemma PutSurvivesAll(n: nat, room: nat, bsize: nat)
    requires bsize > 0
    ensures (forall replies | Healthy(replies) :: PutAfter(n, room, bsize, replies)) <==> n < bsize + room
  {
    if n < bsize + room {
      forall replies | Healthy(replies) ensures PutAfter(n, room, bsize, replies) {
        PutSurvives(n, room, bsize, replies);
      }
    } else {
      // The flush takes the first answer, the write past the buffer is interrupted.
      var replies := [Takes(bsize), Interrupted];
      assert replies[1..] == [Interrupted];
      assert FlushAfter(bsize, replies) == (true, [Interrupted]);
      assert Healthy(replies) && !PutAfter(n, room, bsize, replies);
    }
  }

  // Some of what was to be delivered was.
  predicate Between(a: seq<u8>, b: seq<u8>, c: seq<u8>) {
    |a| <= |b| <= |c| && b[..|a|] == a && c[..|b|] == b
  }

  lemma TakeMore(b: seq<u8>, d: seq<u8>, p: nat, n: nat, w: nat)
    requires p + n <= |b| && w <= n
    ensures d + b[..p] + b[p..p + n][..w] == d + b[..p + w]
  {
    assert b[..p] + b[p..p + n][..w] == b[..p + w];
  }

  lemma BetweenTaken(b: seq<u8>, d: seq<u8>, p: nat, n: nat)
    requires p <= n <= |b|
    ensures Between(d, d + b[..p], d + b[..n])
  {
  }

  /** struct __sFILE, buffered; the file it writes to and the answers still to come are part of it. */
  class File {
    const base: array<u8>
    const bsize: nat
    var ptr: nat
    var cnt: nat
    var rd: bool
    var wr: bool
    var err: bool
    var dirty: bool
    var lbf: bool
    var delivered: seq<u8>
    var replies: seq<Reply>

    /** (ptr - base) + cnt == bsize while writing, and pending bytes mean DIRTY. */
    ghost predicate Valid()
      reads this, base
    {
      && base.Length == bsize > 0 && !(rd && wr)
      && (wr ==> ptr + cnt == bsize && (ptr > 0 ==> dirty))
      && (!wr ==> !dirty)
      && (!wr && !rd ==> ptr == 0 && (cnt == 0 || cnt == bsize))
    }

    /** The bytes in the buffer that the file has not got yet. */
    ghost function Pending(): seq<u8>
      requires Valid()
      reads this, base
    {
      if wr then base[..ptr] else []
    }

    /** Everything written so far, in order. */
    ghost function Written(): seq<u8>
      requires Valid()
      reads this, base
    {
      delivered + Pending()
    }

    /** What is free in the buffer once the stream is writing. */
    ghost function Room(): nat
      reads this
    {
      if wr then cnt else bsize
    }

    /** A stream open for writing. */
    constructor (size: nat, lineBuffered: bool, script: seq<Reply>)
      requires size > 0
      ensures Valid() && fresh(base) && wr && !err && Written() == [] && replies == script && bsize == size
    {
      base := new u8[size];
      bsize := size;
      ptr, cnt, rd, wr, err, dirty, lbf := 0, size, false, true, false, false, lineBuffered;
      delivered, replies := [], script;
    }

    /** write(2): -1 with or without EINTR, or the number of bytes taken. */
    method SysWrite(p: seq<u8>) returns (written: int, eintr: bool)
      modifies this`delivered, this`replies
      ensures Rest(replies, old(replies)) && -1 <= written <= |p|
      ensures replies == if |old(replies)| > 0 then old(replies)[1..] else []
      ensures delivered == if written > 0 then old(delivered) + p[..written] else old(delivered)
      ensures if |old(replies)| == 0 then written == |p| else
        match old(replies)[0]
        case Interrupted => written == -1 && eintr
        case Failed => written == -1 && !eintr
        case Takes(n) => written == if n < |p| then n else |p|
    {
      eintr := false;
      var reply := Takes(|p|);
      if |replies| > 0 {
        reply := replies[0];
        replies := replies[1..];
      }
      match reply
      case Interrupted => written, eintr := -1, true;
      case Failed => written := -1;
      case Takes(n) =>
        written := if n < |p| then n else |p|;
        delivered := delivered + p[..written];
    }

    /** The loop of __stdio_flush_impl: writes the buffer out, over short and interrupted writes. */
    method Drain() returns (ok: bool)
      requires Valid() && wr
      modifies this`err, this`delivered, this`replies
      ensures Rest(replies, old(replies))
      ensures ok ==> delivered == old(delivered) + base[..ptr] && err == old(err)
      ensures !ok ==> err && Between(old(delivered), delivered, old(delivered) + base[..ptr])
      ensures (ok, replies) == FlushAfter(ptr, old(replies))
    {
      hide Rest, Between, FlushAfter;
      RestSame(replies);
      ghost var b, d := base[..ptr], delivered;
      var size: nat, p: nat := ptr, 0;
      assert d + b[..0] == d;
      while size > 0
        invariant p + size == ptr && err == old(err) && delivered == d + b[..p] && Rest(replies, old(replies))
        invariant FlushAfter(size, replies) == FlushAfter(ptr, old(replies))
        decreases size, |replies|
      {
        ghost var before := replies;
        assert base[p..p + size] == b[p..p + size];
        var written, eintr := SysWrite(base[p..p + size]);
        RestTrans(replies, before, old(replies));
        FlushWrite(size, before, written, eintr, replies);
        if written <= 0 {
          if written < 0 && eintr {
            continue;
          }
          err := true;
          BetweenTaken(b, d, p, |b|);
          assert b[..|b|] == b;
          return false;
        }
        TakeMore(b, d, p, size, written);
        p := p + written;
        size := size - written;
      }
      assert b[..p] == b;
      FlushNothing(replies);
      return true;
    }

    /** __stdio_flush_impl: all pending bytes reach the file, or an error is reported. */
    method Flush() returns (r: int)
      requires Valid()
      modifies this`ptr, this`cnt, this`err, this`dirty, this`delivered, this`replies
      ensures Valid() && Rest(replies, old(replies)) && (r == 0 || r == EOF)
      ensures r == 0 ==> delivered == Written() == old(Written()) && Pending() == [] && err == old(err)
      ensures r == 0 && wr ==> ptr == 0 && cnt == bsize && !dirty
      ensures r == EOF ==> err && ptr == old(ptr) && cnt == old(cnt) && dirty && wr
      ensures r == EOF ==> Between(old(delivered), delivered, old(Written()))
      ensures (r == 0, replies) == if old(dirty && wr) then FlushAfter(old(ptr), old(replies)) else (true, old(replies))
      ensures Healthy(old(replies)) ==> r == 0
    {
      hide Rest, Between, FlushAfter;
      if Healthy(replies) {
        FlushSurvives(ptr, replies);
      }
      RestSame(replies);
      if dirty && wr {
        var ok := Drain();
        if !ok {
          return EOF;
        }
        ptr := 0;
        cnt := bsize;
        dirty := false;
      }
      assert wr ==> base[..ptr] == [];
      assert delivered + [] == delivered;
      return 0;
    }

    // How each of the writing functions begins: from reading, or from neither, to writing.
    method StartWriting()
      requires Valid()
      modifies this`ptr, this`cnt, this`rd, this`wr
      ensures Valid() && wr && !rd && Written() == old(Written()) && cnt == old(Room())
      ensures Pending() == old(Pending())
    {
      if rd {
        rd := false;
        wr := true;
        cnt := bsize;
        ptr := 0;
      } else if !wr {
        wr := true;
        if cnt == 0 && ptr == 0 {
          cnt := bsize;
        }
      }
      assert base[..0] == [];
    }

    // memcpy into the buffer.
    method Fill(p: seq<u8>)
      requires Valid() && wr && |p| <= cnt && p != []
      modifies this`ptr, this`cnt, this`dirty, base
      ensures Valid() && ptr == old(ptr) + |p| && Written() == old(Written()) + p
      ensures Pending() == old(Pending()) + p
    {
      ghost var pending := Pending();
      forall i | 0 <= i < |p| {
        base[ptr + i] := p[i];
      }
      assert base[..ptr + |p|] == pending + p;
      ptr := ptr + |p|;
      cnt := cnt - |p|;
      dirty := true;
    }

    // The next `n` bytes of the data into the buffer.
    method PutChunk(data: seq<u8>, p: nat, n: nat, ghost start: seq<u8>)
      requires Valid() && wr && 0 < n <= cnt && p + n <= |data| && Written() == start + data[..p]
      modifies this`ptr, this`cnt, this`dirty, base
      ensures Valid() && ptr == old(ptr) + n && Written() == start + data[..p + n]
      ensures Pending() == old(Pending()) + data[p..p + n]
    {
      Fill(data[p..p + n]);
      assert data[..p] + data[p..p + n] == data[..p + n];
    }

    /** fputc */
    method Fputc(c: int) returns (r: int)
      requires Valid()
      modifies this, base
      ensures Valid() && Rest(replies, old(replies)) && (r == c % 256 || r == EOF)
      ensures r != EOF ==> Written() == old(Written()) + [c % 256] && err == old(err)
      ensures r == EOF ==> err
      ensures Healthy(old(replies)) ==> r != EOF
      // A newline on a line-buffered stream, and a full buffer, leave nothing pending.
      ensures r != EOF && ((lbf && c == 10) || old(Room()) == 1) ==> Pending() == []
      ensures r != EOF ==> cnt > 0
    {
      hide Rest, Between, FlushAfter, Healthy, Uninterrupted;
      RestSame(replies);
      var ch: u8 := c % 256;
      StartWriting();
      if cnt == 0 {
        var f := Flush();
        if f != 0 {
          return EOF;
        }
      }
      Fill([ch]);
      ghost var before := replies;
      RestHealthy(replies, old(replies));
      if cnt == 0 || (lbf && c == 10) {
        var f := Flush();
        RestTrans(replies, before, old(replies));
        if f != 0 {
          return EOF;
        }
      }
      return ch;
    }

    // A flush somewhere behind the first of the given answers.
    method FlushOn(ghost script: seq<Reply>) returns (r: int)
      requires Valid() && wr && Rest(replies, script)
      modifies this`ptr, this`cnt, this`err, this`dirty, this`delivered, this`replies
      ensures Valid() && Rest(replies, script) && (r == 0 || r == EOF)
      ensures r == 0 ==> Written() == old(Written()) && ptr == 0 && cnt == bsize && err == old(err) && Pending() == []
      ensures r == EOF ==> err
      ensures Healthy(script) ==> r == 0
    {
      hide Rest, Between, File.Written, File.Pending, FlushAfter, Healthy, Uninterrupted;
      ghost var before := replies;
      RestHealthy(replies, script);
      r := Flush();
      RestTrans(replies, before, script);
    }

    /** fputs, of a string that is not empty. */
    method Fputs(s: seq<u8>) returns (r: int)
      requires Valid()
      modifies this, base
      ensures Valid() && Rest(replies, old(replies)) && (r == 0 || r == EOF)
      ensures r == 0 ==> Written() == old(Written()) + s && err == old(err)
      ensures r == EOF ==> err
      ensures Healthy(old(replies)) ==> r == 0
      // On a line-buffered stream no line that was ended is pending.
      ensures r == 0 && lbf && (10 in s || 10 !in old(Pending())) ==> 10 !in Pending()
      ensures r == 0 && s != [] ==> cnt > 0
    {
      hide Rest, Between, File.Written, File.Pending, FlushAfter, Healthy, Uninterrupted;
      RestSame(replies);
      if |s| == 0 {
        return 0;
      }
      StartWriting();
      var p: nat := 0;
      while p < |s|
        invariant Valid() && wr && p <= |s| && Rest(replies, old(replies)) && err == old(err)
        invariant Written() == old(Written()) + s[..p]
        invariant lbf && (10 in s[..p] || 10 !in old(Pending())) ==> 10 !in Pending()
        decreases |s| - p
      {
        if cnt == 0 {
          r := FlushOn(old(replies));
          if r != 0 {
            return EOF;
          }
        }
        var remaining := |s| - p;
        var toCopy := if remaining < cnt then remaining else cnt;
        PutChunk(s, p, toCopy, old(Written()));
        if lbf && 10 in s[p..p + toCopy] {
          r := FlushOn(old(replies));
          if r != 0 {
            return EOF;
          }
        }
        assert s[..p + toCopy] == s[..p] + s[p..p + toCopy];
        p := p + toCopy;
      }
      r := 0;
      assert s[..p] == s;
      if cnt == 0 {
        r := FlushOn(old(replies));
      }
    }

    // The part of fwrite that fills the rest of the buffer and flushes it.
    method Spill(data: seq<u8>, p: nat, ghost start: seq<u8>) returns (f: int)
      requires Valid() && wr && !rd && p + cnt < |data| && Written() == start + data[..p]
      modifies this`ptr, this`cnt, this`dirty, this`err, this`delivered, this`replies, base
      ensures Valid() && Rest(replies, old(replies)) && (f == 0 || f == EOF)
      ensures (f == 0, replies) == FlushAfter(bsize, old(replies))
      ensures f == 0 ==> ptr == 0 && cnt == bsize && err == old(err) && Written() == start + data[..p + old(cnt)]
      ensures f == EOF ==> err
    {
      hide Rest, Between, File.Written, File.Pending, FlushAfter, Healthy;
      var space := cnt;
      if space > 0 {
        PutChunk(data, p, space, start);
      }
      f := Flush();
    }

    // The write past the buffer in fwrite.
    method PutDirect(data: seq<u8>, p: nat, n: nat, ghost start: seq<u8>) returns (w: int)
      requires Valid() && wr && ptr == 0 && p + n <= |data| && n > 0 && Written() == start + data[..p]
      modifies this`delivered, this`replies, this`err
      ensures Valid() && Rest(replies, old(replies)) && w <= n
      ensures if w > 0 then err == old(err) && Written() == start + data[..p + w] else err
      ensures w > 0 <==> old(replies) == [] || (old(replies)[0].Takes? && old(replies)[0].n > 0)
      ensures w > 0 ==> w == if old(replies) != [] && old(replies)[0].n < n then old(replies)[0].n else n
      ensures replies == if old(replies) == [] then [] else old(replies)[1..]
    {
      hide Rest;
      assert base[..0] == [] && delivered + [] == delivered;
      var eintr: bool;
      w, eintr := SysWrite(data[p..p + n]);
      if w <= 0 {
        err := true;
        return;
      }
      TakeMore(data, start, p, n, w);
      assert delivered + [] == delivered;
    }

    /** The loop of fwrite: buffered while it fits, flushed and written through when it does not. */
    method WriteOut(data: seq<u8>) returns (p: nat)
      requires Valid() && wr && !rd
      modifies this, base
      ensures Valid() && Rest(replies, old(replies)) && p <= |data|
      ensures if p == |data| then Written() == old(Written()) + data && err == old(err) else err
      ensures p == |data| <==> PutAfter(|data|, old(cnt), bsize, old(replies))
    {
      hide Rest, Between, File.Written, File.Pending, FlushAfter, Healthy;
      RestSame(replies);
      p := 0;
      var toWrite: nat := |data|;
      assert Written() + data[..0] == Written();
      while toWrite > 0
        invariant Valid() && wr && p + toWrite == |data| && Rest(replies, old(replies)) && err == old(err)
        invariant Written() == old(Written()) + data[..p]
        invariant PutAfter(toWrite, cnt, bsize, replies) <==> PutAfter(|data|, old(cnt), bsize, old(replies))
        decreases toWrite, if cnt == 0 then 1 else 0
      {
        var space := cnt;
        if toWrite <= space {
          PutChunk(data, p, toWrite, old(Written()));
          p := p + toWrite;
          toWrite := 0;
          break;
        }
        ghost var before := replies;
        var f := Spill(data, p, old(Written()));
        RestTrans(replies, before, old(replies));
        p := p + space;
        toWrite := toWrite - space;
        if f == EOF {
          return;
        }
        if toWrite >= bsize {
          ghost var again := replies;
          var w := PutDirect(data, p, toWrite, old(Written()));
          RestTrans(replies, again, old(replies));
          if w <= 0 {
            return;
          }
          p := p + w;
          toWrite := toWrite - w;
        }
      }
      assert data[..p] == data;
    }

    /** fwrite of nmemb objects of the given size. */
    method Fwrite(data: seq<u8>, size: nat, nmemb: nat) returns (r: nat)
      requires Valid() && |data| == size * nmemb
      modifies this, base
      ensures Valid() && Rest(replies, old(replies)) && (size > 0 ==> r <= nmemb)
      ensures size > 0 && r == nmemb ==> Written() == old(Written()) + data && err == old(err)
      ensures size > 0 && r < nmemb ==> err
      ensures size > 0 ==> (r == nmemb <==> PutAfter(|data|, old(Room()), bsize, old(replies)))
    {
      hide Rest, Between, File.Written, File.Pending, FlushAfter;
      RestSame(replies);
      if size == 0 || nmemb == 0 {
        assert data == [];
        assert Written() + [] == Written();
        return 0;
      }
      StartWriting();
      var p := WriteOut(data);
      Whole(p, size, nmemb);
      r := p / size;
    }
  }

  /** A call on a stream. */
  datatype Call =
    | CallFputc(c: int)
    | CallFputs(s: seq<u8>)
    | CallFwrite(data: seq<u8>, size: nat, nmemb: nat)
    | CallFlush
  {
    // Short enough to get over EINTR with `room` free in the buffer.
    predicate Fits(bsize: nat, room: nat) {
      CallFwrite? ==> |data| < bsize + room
    }

    predicate Legal() {
      CallFwrite? ==> size > 0 && |data| == size * nmemb
    }

    function Bytes(): seq<u8> {
      match this
      case CallFputc(c) => [c % 256]
      case CallFputs(s) => s
      case CallFwrite(data, _, _) => data
      case CallFlush => []
    }
  }

  function Output(calls: seq<Call>): seq<u8> {
    if calls == [] then [] else Output(calls[..|calls| - 1]) + calls[|calls| - 1].Bytes()
  }

  /** One call: what it reports, as success or failure. */
  method Perform(f: File, call: Call) returns (ok: bool)
    requires f.Valid() && call.Legal()
    modifies f, f.base
    ensures f.Valid() && Rest(f.replies, old(f.replies))
    ensures ok ==> f.Written() == old(f.Written()) + call.Bytes() && f.err == old(f.err)
    ensures !ok ==> f.err
    ensures call.CallFwrite? ==> (ok <==> PutAfter(|call.data|, old(f.Room()), f.bsize, old(f.replies)))
    ensures Healthy(old(f.replies)) && (Uninterrupted(old(f.replies)) || call.Fits(f.bsize, old(f.Room()))) ==> ok
  {
    hide Rest, File.Written, File.Pending, PutAfter, Healthy, Uninterrupted;
    if call.CallFwrite? && Healthy(f.replies) && (Uninterrupted(f.replies) || call.Fits(f.bsize, f.Room())) {
      PutSurvives(|call.data|, f.Room(), f.bsize, f.replies);
    }
    match call
    case CallFputc(c) =>
      var r := f.Fputc(c);
      ok := r != EOF;
    case CallFputs(s) =>
      var r := f.Fputs(s);
      ok := r == 0;
    case CallFwrite(data, size, nmemb) =>
      var r := f.Fwrite(data, size, nmemb);
      ok := r == nmemb;
    case CallFlush =>
      var r := f.Flush();
      assert f.Written() + [] == f.Written();
      ok := r == 0;
  }

  /** Any sequence of calls: as long as none reports an error, what the file got and what is still in
      the buffer are together all the bytes written, in order; flushed at the end, the file has them. */
  method Session(f: File, calls: seq<Call>) returns (ok: bool)
    requires f.Valid() && forall k | 0 <= k < |calls| :: calls[k].Legal()
    modifies f, f.base
    ensures f.Valid()
    ensures ok ==> f.delivered == old(f.Written()) + Output(calls) && f.Pending() == []
    ensures Healthy(old(f.replies)) && Uninterrupted(old(f.replies)) ==> ok
    ensures Healthy(old(f.replies)) && (forall k | 0 <= k < |calls| :: calls[k].Fits(f.bsize, 0)) ==> ok
  {
    hide Rest, File.Written, Call.Bytes, PutAfter, Healthy, Uninterrupted;
    RestSame(f.replies);
    assert f.Written() + [] == f.Written();
    for i := 0 to |calls|
      invariant f.Valid() && Rest(f.replies, old(f.replies))
      invariant f.Written() == old(f.Written()) + Output(calls[..i])
    {
      ghost var before := f.replies;
      RestHealthy(f.replies, old(f.replies));
      ok := Perform(f, calls[i]);
      RestTrans(f.replies, before, old(f.replies));
      if !ok {
        return;
      }
      assert calls[..i + 1][..i] == calls[..i];
    }
    assert calls[..|calls|] == calls;
    RestHealthy(f.replies, old(f.replies));
    var r := f.Flush();
    ok := r == 0;
  }

  /** How many whole objects p bytes are. */
  lemma Whole(p: nat, size: nat, nmemb: nat)
    requires size > 0 && p <= size * nmemb
    ensures p / size <= nmemb && (p / size == nmemb <==> p == size * nmemb)
  {
    var q, r := p / size, p % size;
    assert p == q * size + r;
    if p < size * nmemb {
      MulLess(q, nmemb, size);
    } else {
      DivUnique(p, size, nmemb, 0);
    }
  }
}

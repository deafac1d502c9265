/** The buffer under the reader: bytes are taken from the source in pieces of any
    size and slide to the front of the buffer when more are needed. What the
    reader of RespIO assumes of it is proved here. ReadReply works on the buffer
    itself: it peeks at the type byte, reads the line, and looks at the same slot
    of the buffer again. */
module Bufio {
  import opened Basics
  import opened Resp
  import opened RespIO

  /** The length of the line that the bytes to come start with. */
  ghost function LineLen(rest: Bytes): (n: nat) {
    FirstLF(rest)
  }

  /** How much of it goes through the buffer in whole buffers. */
  ghost function Passed(rest: Bytes, B: nat): nat
    requires B > 0
  {
    WholeBuffers(FirstLF(rest), B)
  }

  /** The buffer starts with the first w of the bytes to come, and holds behind
      them what it held before. */
  ghost predicate Slid(buf: Bytes, w: nat, rest: Bytes, was: Bytes) {
    w <= |rest| && w <= |buf| == |was| && buf[..w] == rest[..w] && forall i :: w <= i < |buf| ==> buf[i] == was[i]
  }

  lemma SlidFurther(a: Bytes, v: nat, b: Bytes, w: nat, rest: Bytes, was: Bytes)
    requires Slid(a, v, rest, was) && Slid(b, w, rest, a) && v <= w
    ensures Slid(b, w, rest, was)
  {
  }

  /** The same for a line that has gone through the buffer in whole buffers of
      `whole` bytes before its last piece. */
  ghost predicate Refilled(buf: Bytes, w: nat, rest: Bytes, whole: nat, was: Bytes) {
    0 < w <= |buf| == |was| && whole + w <= |rest| && (whole == 0 || |buf| <= whole) &&
    buf[..w] == rest[whole..whole + w] &&
    forall i :: w <= i < |buf| ==> buf[i] == if whole == 0 then was[i] else rest[whole - |buf| + i]
  }

  lemma RefilledFirst(buf: Bytes, w: nat, rest: Bytes, was: Bytes)
    requires Slid(buf, w, rest, was) && w > 0
    ensures Refilled(buf, w, rest, 0, was)
  {
  }

  lemma RefilledAgain(buf: Bytes, w: nat, rest: Bytes, line: Bytes, before: Bytes, was: Bytes)
    requires rest == line + before && w > 0 && |line| >= |buf| == |was|
    requires Slid(buf, w, before, line[|line| - |buf|..])
    ensures Refilled(buf, w, rest, |line|, was)
  {
  }

  /** Looked at again, the slot tells the type of the line: the byte that is there
      now is of the line's type, or is the type byte still. */
  predicate TypeKept(rest: Bytes, slot: nat, w: nat, whole: nat, B: nat)
    requires rest != []
  {
    if slot < w then whole + slot < |rest| && (rest[whole + slot] == '+' <==> rest[0] == '+')
    else whole == 0 ||
         (0 <= whole - B + slot < |rest| && (rest[whole - B + slot] == '+' <==> rest[0] == '+'))
  }

  /** The buffer is as it was but for `used` bytes that were consumed. */
  predicate Kept(buf: Bytes, r: nat, w: nat, buf0: Bytes, r0: nat, w0: nat, used: int) {
    buf == buf0 && w == w0 && r == r0 + used
  }

  // ------------------------------------------------------- replies up to type

  predicate IsText(r: Reply) {
    r.Simple? || r.Error?
  }

  /** The replies differ at most in the types of simple strings and errors. */
  predicate SameButType(a: Reply, b: Reply) {
    match b
    case Simple(s) => a == Simple(s) || a == Error(s)
    case Error(s) => a == Simple(s) || a == Error(s)
    case Array(bs) => a.Array? && |a.elems| == |bs| && forall i :: 0 <= i < |bs| ==> SameButType(a.elems[i], bs[i])
    case _ => a == b
  }

  predicate SameAllButType(as_: seq<Reply>, bs: seq<Reply>) {
    |as_| == |bs| && forall i :: 0 <= i < |bs| ==> SameButType(as_[i], bs[i])
  }

  predicate HasNoText(r: Reply) {
    match r
    case Simple(_) => false
    case Error(_) => false
    case Array(a) => forall i :: 0 <= i < |a| ==> HasNoText(a[i])
    case _ => true
  }

  lemma {:induction false} NoTextExact(a: Reply, b: Reply)
    requires SameButType(a, b) && HasNoText(b)
    ensures a == b
    decreases b
  {
    if b.Array? {
      forall i | 0 <= i < |b.elems| ensures a.elems[i] == b.elems[i] {
        NoTextExact(a.elems[i], b.elems[i]);
      }
      assert a.elems == b.elems;
    }
  }

  lemma {:induction false} SameItself(a: Reply)
    ensures SameButType(a, a)
    decreases a
  {
    if a.Array? {
      forall i | 0 <= i < |a.elems| ensures SameButType(a.elems[i], a.elems[i]) { SameItself(a.elems[i]); }
    }
  }

  /** The outcome is what the function says, up to the types of texts. */
  predicate Resembles(r: Outcome<Reply>, rest: Bytes, p: Parsed<Reply>) {
    match p
    case Got(v, tail) => r.Done? && SameButType(r.val, v) && rest == tail
    case Bad(e) => r == Failed(e)
  }

  class Buffer {
    const B: nat
    var buf: Bytes
    /** buf[r..w] has been taken from the source and not consumed yet. */
    var r: nat
    var w: nat
    var src: Bytes

    ghost predicate Valid()
      reads this
    {
      |buf| == B > 0 && r <= w <= B
    }

    /** The bytes to come. */
    ghost function Rest(): Bytes
      reads this
      requires Valid()
    {
      buf[r..w] + src
    }

    constructor (stream: Bytes, size: nat)
      requires size > 0
      ensures Valid() && Rest() == stream && B == size && r == w == 0
    {
      B := size;
      buf := seq(size, _ => '\0');
      r, w := 0, 0;
      src := stream;
    }

    /** A buffer in the middle of its work. */
    constructor Holding(buf: Bytes, r: nat, w: nat, src: Bytes)
      requires |buf| > 0 && r <= w <= |buf|
      ensures Valid() && this.buf == buf && this.r == r && this.w == w && this.src == src
    {
      B := |buf|;
      this.buf, this.r, this.w, this.src := buf, r, w, src;
    }

    /** fill: slide what is left to the front, then take some more. */
    method Fill()
      requires Valid() && w - r < B && src != []
      modifies this
      ensures Valid() && Rest() == old(Rest())
      ensures r == 0 && w > old(w - r) && |src| < old(|src|)
      ensures Slid(buf, w, Rest(), old(buf))
    {
      ghost var rest, was := Rest(), buf;
      buf := buf[r..w] + buf[w - r..];
      r, w := 0, w - r;
      var k: nat :| 0 < k <= |src| && k <= B - w;
      buf := buf[..w] + src[..k] + buf[w + k..];
      assert buf[..w + k] + src[k..] == rest by {
        assert src == src[..k] + src[k..];
      }
      src := src[k..];
      w := w + k;
    }

    /** Peek(1): the position of the next byte in the buffer. */
    method Peek() returns (slot: Option<nat>)
      requires Valid()
      modifies this
      ensures Valid() && Rest() == old(Rest())
      ensures slot.None? <==> old(Rest()) == []
      ensures slot.Some? ==> slot.value == r < w && buf[r] == Rest()[0]
      ensures slot.Some? && old(r < w) ==> buf == old(buf) && r == old(r) && w == old(w)
      ensures slot.Some? && old(r == w) ==> r == 0
    {
      if r == w {
        if src == [] {
          return None;
        }
        Fill();
      }
      return Some(r);
    }

    /** ReadSlice('\n') takes what the reader says it takes. A line that is in the
        buffer already leaves the buffer alone; otherwise the line is at the front
        of the buffer afterwards. */
    method ReadSlice() returns (frag: Bytes, end: SliceEnd)
      requires Valid()
      modifies this
      ensures Valid() && Sliced(old(Rest()), frag, end, Rest(), B)
      ensures LineLen(old(Rest())) < old(w - r) ==>
                Kept(buf, r, w, old(buf), old(r), old(w), LineLen(old(Rest())) + 1)
      ensures end.BufferFull? ==> r == w && buf == frag
      ensures end.Found? && old(w - r) <= LineLen(old(Rest())) ==>
                LineLen(old(Rest())) < w && Slid(buf, w, old(Rest()), old(buf))
    {
      hide FirstLF, Sliced, Slid;
      ghost var rest := Rest();
      ghost var n := LineLen(rest);
      while true
        invariant Valid() && Rest() == rest
        invariant (buf == old(buf) && r == old(r) && w == old(w)) ||
                  (old(w - r) <= n && r == 0 && Slid(buf, w, rest, old(buf)))
        decreases |src|
      {
        ghost var held := buf[r..w];
        var at := FirstLF(buf[r..w]);
        LFInBuffer(held, src);
        if at < w - r {
          TookLine(held, src, at, B);
          frag, end := buf[r..r + at + 1], Found;
          assert frag == held[..at + 1] && buf[r + at + 1..w] == held[at + 1..];
          r := r + at + 1;
          return;
        }
        if w - r >= B {
          TookBuffer(held, src, B);
          frag, end := buf[r..w], BufferFull;
          r := w;
          assert buf[r..w] + src == src;
          return;
        }
        if src == [] {
          TookAll(held, B);
          frag, end := buf[r..w], EndOfStream;
          r := w;
          assert held + [] == rest && buf[r..w] + src == [];
          return;
        }
        ghost var was, v := buf, w;
        Fill();
        if Slid(was, v, rest, old(buf)) && v <= w { SlidFurther(was, v, buf, w, rest, old(buf)); }
      }
    }

    /** readLine on the buffer. */
    method ReadLine(max: int) returns (line: Outcome<Bytes>)
      requires Valid()
      modifies this
      ensures Valid() && Agrees(line, Rest(), LineRead(old(Rest()), B, max))
      ensures LineLen(old(Rest())) < old(w - r) ==>
                Kept(buf, r, w, old(buf), old(r), old(w), LineLen(old(Rest())) + 1)
      ensures line.Done? && old(w - r) <= LineLen(old(Rest())) ==>
                LineLen(old(Rest())) < Passed(old(Rest()), B) + w &&
                Refilled(buf, w, old(Rest()), Passed(old(Rest()), B), old(buf))
    {
      hide LineLen, Passed, Collecting, LineRead, Slid, Refilled, Sliced;
      ghost var rest := Rest();
      var acc: Bytes := [];
      CollectStart(rest, B);
      while true
        invariant Valid() && Collecting(rest, acc, Rest(), B) && (acc == [] || |acc| <= max)
        invariant acc == [] ==> Rest() == rest && buf == old(buf) && r == old(r) && w == old(w)
        invariant acc != [] ==> r == w && |acc| >= B && buf == acc[|acc| - B..] && old(w - r) <= LineLen(rest)
        decreases |Rest()|
      {
        ghost var before, held := Rest(), w - r;
        var frag, end := ReadSlice();
        if end.BufferFull? {
          CollectBuffer(rest, acc, before, frag, Rest(), B, max);
          FullBuffer(rest, acc, before, frag, Rest(), B);
          acc := acc + frag;
          if |acc| > max {
            return Failed(Protocol);
          }
          continue;
        }
        if end.EndOfStream? {
          CollectEnd(rest, acc, before, frag, Rest(), B, max);
          EndWithoutLF(rest, acc, before, frag, Rest(), B);
          return Failed(Eof);
        }
        CollectLine(rest, acc, before, frag, Rest(), B, max);
        LastPiece(rest, acc, before, frag, Rest(), B);
        if held <= LineLen(before) {
          if acc == [] {
            RefilledFirst(buf, w, rest, old(buf));
          } else {
            RefilledAgain(buf, w, rest, acc, before, old(buf));
          }
        }
        acc := (acc + frag)[..|acc + frag| - 1];
        ghost var text := DropCR(acc);
        if |acc| > 0 && acc[|acc| - 1] == '\r' {
          acc := acc[..|acc| - 1];
        }
        assert acc == text;
        if |acc| > max {
          return Failed(Protocol);
        }
        return Done(acc);
      }
    }

    /** The line of a simple string or an error. The slot that was peeked at tells
        which, and it is looked at after the line has been read. For a line that is
        in the buffer already it holds the type byte still. For any other the type
        is right if and only if the byte that is there now says the same. */
    method ReadReplyLine(lim: Limits) returns (reply: Outcome<Reply>)
      requires Valid() && r < w && (buf[r] == '+' || buf[r] == '-')
      modifies this
      ensures Valid() && Resembles(reply, Rest(), ReplyLine(old(Rest()), B, lim))
      ensures LineLen(old(Rest())) < old(w - r) ==>
                Agrees(reply, Rest(), ReplyLine(old(Rest()), B, lim)) &&
                Kept(buf, r, w, old(buf), old(r), old(w), LineLen(old(Rest())) + 1)
      ensures ReplyLine(old(Rest()), B, lim).Got? && old(w - r) <= LineLen(old(Rest())) ==>
                LineLen(old(Rest())) < Passed(old(Rest()), B) + w &&
                (Agrees(reply, Rest(), ReplyLine(old(Rest()), B, lim)) <==>
                 TypeKept(old(Rest()), old(r), w, Passed(old(Rest()), B), B))
      ensures old(r) == 0 && LineLen(old(Rest())) < B ==> Agrees(reply, Rest(), ReplyLine(old(Rest()), B, lim))
    {
      hide LineLen, Passed, LineRead;
      ghost var rest := Rest();
      assert rest[0] == buf[r];
      ShortPasses(rest, B);
      var slot := r;
      var line := ReadLine(lim.maxInlineLen);
      if line.Failed? {
        return Failed(line.err);
      }
      if |line.val| == 0 {
        return Failed(Protocol);
      }
      if buf[slot] == '+' {
        return Done(Simple(line.val[1..]));
      }
      return Done(Error(line.val[1..]));
    }

    /** Read: what is buffered, or else one piece from the source, past the buffer
        when at least a buffer is asked for. */
    method Read(n: nat) returns (piece: Bytes)
      requires Valid() && n > 0
      modifies this
      ensures Valid() && old(Rest()) == piece + Rest() && |piece| <= n
      ensures piece == [] ==> old(Rest()) == []
      ensures n <= old(w - r) ==> |piece| == n && Kept(buf, r, w, old(buf), old(r), old(w), n)
    {
      hide Slid;
      if r == w {
        if src == [] {
          return [];
        }
        if n >= B {
          var k: nat :| 0 < k <= |src| && k <= n;
          piece, src := src[..k], src[k..];
          return;
        }
        Fill();
      }
      piece := Copy(n);
    }

    /** Read from what is buffered. */
    method Copy(n: nat) returns (piece: Bytes)
      requires Valid() && n > 0 && r < w
      modifies this`r
      ensures Valid() && old(Rest()) == piece + Rest() && 0 < |piece| <= n
      ensures r == old(r) + |piece| && (n <= old(w - r) ==> |piece| == n)
    {
      var end := if r + n <= w then r + n else w;
      piece := buf[r..end];
      SplitAt(buf[r..w], src, end - r);
      assert buf[r..w][..end - r] == piece && buf[r..w][end - r..] == buf[end..w];
      r := end;
    }

    /** io.ReadFull: n bytes, or all there are. */
    method ReadFull(n: nat) returns (got: Bytes)
      requires Valid()
      modifies this
      ensures Valid() && old(Rest()) == got + Rest()
      ensures |got| <= n && (|got| < n ==> Rest() == [])
      ensures n <= old(w - r) ==> Kept(buf, r, w, old(buf), old(r), old(w), n)
    {
      hide Kept;
      got := [];
      assert [] + Rest() == Rest();
      if n == 0 {
        assert Kept(buf, r, w, old(buf), old(r), old(w), 0) by { KeptSame(buf, r, w); }
        return;
      }
      got := Read(n);
      while got != [] && |got| < n
        invariant Valid() && old(Rest()) == got + Rest() && |got| <= n
        invariant got == [] ==> old(Rest()) == []
        invariant n <= old(w - r) ==> |got| == n && Kept(buf, r, w, old(buf), old(r), old(w), n)
        decreases n - |got|
      {
        ghost var before := Rest();
        var piece := Read(n - |got|);
        if piece == [] {
          return;
        }
        assert got + before == (got + piece) + Rest();
        got := got + piece;
      }
    }

    /** A bulk body and the check of its CR LF. */
    method ReadBody(len: nat) returns (body: Outcome<Bytes>)
      requires Valid()
      modifies this
      ensures Valid() && Agrees(body, Rest(), BulkBody(old(Rest()), len))
      ensures len + 2 <= old(w - r) ==> Kept(buf, r, w, old(buf), old(r), old(w), len + 2)
    {
      hide Kept;
      ghost var rest := Rest();
      var got := ReadFull(len + 2);
      BodyOf(rest, got, Rest(), len);
      if |got| < len + 2 {
        return Failed(if got == [] then Eof else Torn);
      }
      if got[len] != '\r' || got[len + 1] != '\n' {
        return Failed(Protocol);
      }
      return Done(got[..len]);
    }

    method ReadIntegerReply(lim: Limits) returns (reply: Outcome<Reply>)
      requires Valid()
      modifies this
      ensures Valid() && Agrees(reply, Rest(), IntegerReply(old(Rest()), B, lim))
      ensures reply.Done? && |old(Rest())| - |Rest()| <= old(w - r) ==>
                Kept(buf, r, w, old(buf), old(r), old(w), |old(Rest())| - |Rest()|)
    {
      hide LineLen, Passed, LineRead, Kept, Refilled;
      LineUse(Rest(), B, lim.maxHeaderLen);
      var line := ReadLine(lim.maxHeaderLen);
      if line.Failed? {
        return Failed(line.err);
      }
      if |line.val| < 2 {
        return Failed(Protocol);
      }
      var n := ParseInt(line.val[1..]);
      if n.None? {
        return Failed(Protocol);
      }
      return Done(Integer(n.value));
    }

    method ReadBulkReply(lim: Limits) returns (reply: Outcome<Reply>)
      requires Valid() && Rest() != [] && Rest()[0] == '$'
      modifies this
      ensures Valid() && Agrees(reply, Rest(), BulkReply(old(Rest()), B, lim))
      ensures reply.Done? && |old(Rest())| - |Rest()| <= old(w - r) ==>
                Kept(buf, r, w, old(buf), old(r), old(w), |old(Rest())| - |Rest()|)
    {
      hide LineLen, Passed, LineRead, Refilled;
      HeaderConsumes(Rest(), B, lim);
      LineUse(Rest(), B, lim.maxHeaderLen);
      var line := ReadLine(lim.maxHeaderLen);
      if line.Failed? {
        return Failed(line.err);
      }
      var n := ParseInt(line.val[1..]);
      if n.None? || n.value < -1 || n.value > lim.maxBulkLen {
        return Failed(Protocol);
      }
      if n.value == -1 {
        return Done(NullBulk);
      }
      var body := ReadBody(n.value);
      if body.Failed? {
        return Failed(body.err);
      }
      return Done(Bulk(body.val));
    }

    /** ReadReply. Whatever the pieces in which the bytes arrive, failures and the
        position are those of the definition, and so is the reply, up to the types
        of texts in it. These too are right for a reply that is in the buffer
        already, and for a text that starts on a drained buffer and fits in it; of
        every other text the type is right if and only if the byte that has got
        into the slot says the same. */
    method ReadReply(lim: Limits) returns (reply: Outcome<Reply>)
      requires Valid()
      modifies this
      ensures Valid() && Resembles(reply, Rest(), Decode(old(Rest()), B, lim))
      ensures reply.Done? && |old(Rest())| - |Rest()| <= old(w - r) ==>
                Agrees(reply, Rest(), Decode(old(Rest()), B, lim)) &&
                Kept(buf, r, w, old(buf), old(r), old(w), |old(Rest())| - |Rest()|)
      ensures reply.Done? && IsText(reply.val) && old(r == w) && LineLen(old(Rest())) < B ==>
                Agrees(reply, Rest(), Decode(old(Rest()), B, lim))
      ensures reply.Done? && IsText(reply.val) &&
              LineLen(old(Rest())) >= (if old(r == w) then B else old(w - r)) ==>
                LineLen(old(Rest())) < Passed(old(Rest()), B) + w &&
                (Agrees(reply, Rest(), Decode(old(Rest()), B, lim)) <==>
                 TypeKept(old(Rest()), if old(r == w) then 0 else old(r), w, Passed(old(Rest()), B), B))
      decreases |Rest()|, 1
    {
      hide LineLen, Passed, LineRead, ReplyLine, IntegerReply, BulkReply, TypeKept;
      var slot := Peek();
      if slot.None? {
        return Failed(Eof);
      }
      LineUse(Rest(), B, lim.maxInlineLen);
      ReplyLineUse(Rest(), B, lim);
      if buf[r] == '+' || buf[r] == '-' {
        reply := ReadReplyLine(lim);
      } else if buf[r] == ':' {
        reply := ReadIntegerReply(lim);
      } else if buf[r] == '$' {
        reply := ReadBulkReply(lim);
      } else if buf[r] == '*' {
        reply := ReadArrayReply(lim);
      } else {
        return Failed(Protocol);
      }
      if reply.Done? { SameItself(reply.val); }
    }

    method ReadArrayReply(lim: Limits) returns (reply: Outcome<Reply>)
      requires Valid() && Rest() != [] && Rest()[0] == '*'
      modifies this
      ensures Valid() && Resembles(reply, Rest(), Decode(old(Rest()), B, lim))
      ensures reply.Done? ==> !IsText(reply.val)
      ensures reply.Done? && |old(Rest())| - |Rest()| <= old(w - r) ==>
                Agrees(reply, Rest(), Decode(old(Rest()), B, lim)) &&
                Kept(buf, r, w, old(buf), old(r), old(w), |old(Rest())| - |Rest()|)
      decreases |Rest()|, 0
    {
      hide LineLen, Passed, LineRead, Refilled, Decode, SameButType;
      ghost var whole := Rest();
      ArrayReplyIs(whole, B, lim);
      HeaderConsumes(whole, B, lim);
      LineUse(whole, B, lim.maxHeaderLen);
      var line := ReadLine(lim.maxHeaderLen);
      if line.Failed? {
        return Failed(line.err);
      }
      var n := ParseInt(line.val[1..]);
      if n.None? || n.value < -1 || n.value > lim.maxArgs {
        return Failed(Protocol);
      }
      if n.value == -1 {
        SameItself(NullBulk);
        return Done(NullBulk);
      }
      ghost var start := Rest();
      var arr: seq<Reply> := [];
      ghost var exact: seq<Reply> := [];
      PrependNil(DecodeAll(start, n.value, B, lim));
      for i := 0 to n.value
        invariant Valid() && |Rest()| <= |start| < |whole|
        invariant DecodeAll(start, n.value, B, lim) == Prepend(exact, DecodeAll(Rest(), n.value - i, B, lim))
        invariant SameAllButType(arr, exact)
        invariant |whole| - |Rest()| <= old(w - r) ==>
                    arr == exact && Kept(buf, r, w, old(buf), old(r), old(w), |whole| - |Rest()|)
      {
        ghost var before := Rest();
        ghost var next := Decode(before, B, lim);
        DecodeAllIs(before, n.value - i, B, lim);
        var el := ReadReply(lim);
        if el.Failed? {
          return Failed(el.err);
        }
        PrependCons(exact, next.val, DecodeAll(Rest(), n.value - i - 1, B, lim));
        arr, exact := arr + [el.val], exact + [next.val];
      }
      assert exact + [] == exact;
      ArrayResembles(arr, exact);
      return Done(Array(arr));
    }
  }

  lemma KeptSame(buf: Bytes, r: nat, w: nat)
    ensures Kept(buf, r, w, buf, r, w, 0)
  {
  }

  lemma ShortPasses(rest: Bytes, B: nat)
    requires B > 0
    ensures LineLen(rest) < B ==> Passed(rest, B) == 0
  {
  }

  /** A line that was read has used up its bytes and the LF. */
  lemma LineUse(rest: Bytes, B: nat, max: int)
    requires B > 0
    ensures var p := LineRead(rest, B, max); p.Got? ==> |rest| - |p.rest| == LineLen(rest) + 1
  {
  }

  lemma ReplyLineUse(rest: Bytes, B: nat, lim: Limits)
    requires B > 0 && rest != []
    ensures var p := ReplyLine(rest, B, lim); p.Got? ==> |rest| - |p.rest| == LineLen(rest) + 1 && IsText(p.val)
    ensures IntegerReply(rest, B, lim).Got? ==> !IsText(IntegerReply(rest, B, lim).val)
    ensures rest[0] == '$' && BulkReply(rest, B, lim).Got? ==> !IsText(BulkReply(rest, B, lim).val)
  {
    LineUse(rest, B, lim.maxInlineLen);
    hide LineLen, LineRead, ParseInt;
  }

  lemma BodyOf(rest: Bytes, got: Bytes, after: Bytes, len: nat)
    requires rest == got + after && |got| <= len + 2 && (|got| < len + 2 ==> after == [])
    ensures if |got| < len + 2 then BulkBody(rest, len) == Bad(if got == [] then Eof else Torn)
            else if got[len] != '\r' || got[len + 1] != '\n' then BulkBody(rest, len) == Bad(Protocol)
            else BulkBody(rest, len) == Got(got[..len], after)
  {
    if |got| == len + 2 {
      assert rest[len..len + 2] == [got[len], got[len + 1]];
      assert rest[..len] == got[..len] && rest[len + 2..] == after;
    }
  }

  lemma DecodeAllIs(rest: Bytes, n: nat, B: nat, lim: Limits)
    requires B > 0 && n > 0
    ensures var el := Decode(rest, B, lim);
            if el.Bad? then DecodeAll(rest, n, B, lim) == Bad(el.err)
            else DecodeAll(rest, n, B, lim) == Prepend([el.val], DecodeAll(el.rest, n - 1, B, lim))
  {
  }

  lemma ArrayReplyIs(rest: Bytes, B: nat, lim: Limits)
    requires B > 0 && rest != [] && rest[0] == '*'
    ensures var line := LineRead(rest, B, lim.maxHeaderLen);
            if line.Bad? then Decode(rest, B, lim) == Bad(line.err)
            else
              |line.val| > 0 &&
              var n := ParseInt(line.val[1..]);
              if n.None? || n.value < -1 || n.value > lim.maxArgs then Decode(rest, B, lim) == Bad(Protocol)
              else if n.value == -1 then Decode(rest, B, lim) == Got(NullBulk, line.rest)
              else
                var all := DecodeAll(line.rest, n.value, B, lim);
                Decode(rest, B, lim) == if all.Bad? then Bad(all.err) else Got(Array(all.val), all.rest)
  {
    HeaderConsumes(rest, B, lim);
    hide LineRead, ParseInt;
  }

  lemma ArrayResembles(a: seq<Reply>, b: seq<Reply>)
    requires SameAllButType(a, b)
    ensures SameButType(Array(a), Array(b))
  {
  }

  /** After a full buffer the line goes on beyond what was buffered at first. */
  lemma FullBuffer(rest: Bytes, acc: Bytes, before: Bytes, frag: Bytes, after: Bytes, B: nat)
    requires B > 0 && Collecting(rest, acc, before, B) && Sliced(before, frag, BufferFull, after, B)
    ensures B <= LineLen(rest) && (acc + frag)[|acc + frag| - B..] == frag
  {
  }

  lemma EndWithoutLF(rest: Bytes, acc: Bytes, before: Bytes, frag: Bytes, after: Bytes, B: nat)
    requires B > 0 && Collecting(rest, acc, before, B) && Sliced(before, frag, EndOfStream, after, B)
    ensures acc == [] ==> LineLen(rest) == LineLen(before) == |before|
  {
  }

  lemma LastPiece(rest: Bytes, acc: Bytes, before: Bytes, frag: Bytes, after: Bytes, B: nat)
    requires B > 0 && Collecting(rest, acc, before, B) && Sliced(before, frag, Found, after, B)
    ensures Passed(rest, B) == |acc| && LineLen(rest) == |acc| + LineLen(before)
    ensures rest == acc + before
  {
  }

  lemma LFInBuffer(a: Bytes, b: Bytes)
    ensures FirstLF(a) < |a| ==> FirstLF(a + b) == FirstLF(a)
    ensures FirstLF(a) == |a| ==> FirstLF(a + b) >= |a|
  {
    if FirstLF(a) < |a| { FirstLFIs(a + b, FirstLF(a)); }
    assert forall i :: 0 <= i < |a| ==> (a + b)[i] == a[i];
  }

  lemma SplitAt(held: Bytes, src: Bytes, k: nat)
    requires k <= |held|
    ensures held + src == held[..k] + (held[k..] + src)
  {
  }

  lemma TookLine(held: Bytes, src: Bytes, n: nat, B: nat)
    requires FirstLF(held + src) == n < |held| <= B
    ensures Sliced(held + src, held[..n + 1], Found, held[n + 1..] + src, B)
  {
    SplitAt(held, src, n + 1);
  }

  lemma TookBuffer(held: Bytes, src: Bytes, B: nat)
    requires FirstLF(held) == |held| == B
    ensures Sliced(held + src, held, BufferFull, src, B)
  {
    LFInBuffer(held, src);
  }

  lemma TookAll(held: Bytes, B: nat)
    requires FirstLF(held) == |held| < B
    ensures Sliced(held + [], held, EndOfStream, [], B)
  {
    assert held + [] == held;
  }

  // ------------------------------------------------------------ over the wire

  lemma TextLine(r: Reply, tail: Bytes, B: nat, lim: Limits)
    requires B > 0 && IsText(r) && Fits(r, B, lim)
    ensures LineLen(Encode(r) + tail) == |Encode(r)| - 1
  {
    var input := Encode(r) + tail;
    var n := |Encode(r)| - 1;
    forall i | 0 <= i < n ensures input[i] != '\n' {
      assert input[i] == Encode(r)[i];
      if 0 < i <= |r.str| { assert Encode(r)[i] == r.str[i - 1]; }
    }
    assert input[n] == '\n';
    FirstLFIs(input, n);
  }

  /** A reply that was written and is followed by any bytes, read through a buffer
      of any size that is filled in pieces of any size: exactly its bytes are
      used, and it comes back, up to the types of texts; exactly so when it holds
      no text, or is a text that fits the buffer. */
  method WriteThenRead(r: Reply, tail: Bytes, size: nat, lim: Limits) returns (got: Outcome<Reply>, ghost left: Bytes)
    requires size > 0 && Sane(lim) && Fits(r, size, lim)
    ensures got.Done? && SameButType(got.val, r) && left == tail
    ensures HasNoText(r) ==> got == Done(r)
    ensures IsText(r) && |Encode(r)| <= size ==> got == Done(r)
  {
    hide LineLen, Passed, TypeKept, Decode, Encode;
    var w := new Writer();
    w.WriteReply(r);
    assert [] + Encode(r) == Encode(r);
    var b := new Buffer(w.out + tail, size);
    ReplyRoundTrip(r, tail, size, lim);
    if IsText(r) { TextLine(r, tail, size, lim); }
    got := b.ReadReply(lim);
    if HasNoText(r) { NoTextExact(got.val, r); }
    left := b.Rest();
  }

  /** A simple string that comes out as an error: a buffer of 16 bytes has got an
      integer reply, which has been read, and the first two bytes of the next
      reply when that is read. */
  method MisreadReply() returns (reply: Outcome<Reply>)
    ensures reply == Done(Error("QUEUED"))
    ensures Decode("+QUEUED\r\n", 16, DefaultLimits()) == Got(Simple("QUEUED"), "")
  {
    hide Decode, LineLen, Passed, ReplyLine;
    var rest := "+QUEUED\r\n";
    var r := Simple("QUEUED");
    assert Encode(r) == rest && rest + [] == rest;
    ReplyRoundTrip(r, [], 16, DefaultLimits());
    TextLine(r, [], 16, DefaultLimits());
    ShortPasses(rest, 16);
    var b := new Buffer.Holding(":12\r\n" + "+Q" + "---------", 5, 7, "UEUED\r\n");
    assert b.Rest() == rest;
    assert rest[5] == 'E';
    reply := b.ReadReply(DefaultLimits());
  }
}

/** The codec as it runs: a reader that consumes a stream and a writer that
    fills a buffer, proved against the functions of Resp. */
module RespIO {
  import opened Basics
  import opened Resp

  datatype Outcome<+T> = Done(val: T) | Failed(err: ReadError)

  /** The outcome is what the function says, and on success the stream is where
      the function leaves it. */
  predicate Agrees<T(==)>(r: Outcome<T>, rest: Bytes, p: Parsed<T>) {
    match p
    case Got(v, tail) => r == Done(v) && rest == tail
    case Bad(e) => r == Failed(e)
  }

  /** How a bufio.Reader.ReadSlice call ends. */
  datatype SliceEnd = Found | BufferFull | EndOfStream

  /** `line` is made of the whole buffers read so far, none of which holds an
      LF, and `rest` is still to come. */
  ghost predicate Collecting(input: Bytes, line: Bytes, rest: Bytes, B: nat)
    requires B > 0
  {
    input == line + rest &&
    FirstLF(input) == |line| + FirstLF(rest) &&
    WholeBuffers(FirstLF(input), B) == |line| + WholeBuffers(FirstLF(rest), B)
  }

  /** What one ReadSlice takes from the stream: up to and including the LF if
      the buffer reaches it, else a full buffer, else what is left. */
  ghost predicate Sliced(before: Bytes, frag: Bytes, end: SliceEnd, rest: Bytes, B: nat) {
    before == frag + rest &&
    match end
    case Found => FirstLF(before) < B && |frag| == FirstLF(before) + 1
    case BufferFull => |frag| == B <= FirstLF(before)
    case EndOfStream => rest == [] && |frag| < B && FirstLF(before) == |before|
  }

  lemma CollectStart(input: Bytes, B: nat)
    requires B > 0
    ensures Collecting(input, [], input, B)
  {
    assert [] + input == input;
  }

  lemma CollectBuffer(input: Bytes, line: Bytes, before: Bytes, frag: Bytes, rest: Bytes, B: nat, max: int)
    requires B > 0 && Collecting(input, line, before, B) && Sliced(before, frag, BufferFull, rest, B)
    ensures Collecting(input, line + frag, rest, B)
    ensures |rest| < |before|
    ensures |line + frag| > 0
    ensures |line + frag| > max ==> LineRead(input, B, max) == Bad(Protocol)
  {
    FirstLFSplit(frag, rest);
    assert line + (frag + rest) == (line + frag) + rest;
  }

  lemma CollectEnd(input: Bytes, line: Bytes, before: Bytes, frag: Bytes, rest: Bytes, B: nat, max: int)
    requires B > 0 && Collecting(input, line, before, B) && Sliced(before, frag, EndOfStream, rest, B)
    requires |line| == 0 || |line| <= max
    ensures LineRead(input, B, max) == Bad(Eof)
  {
  }

  lemma CollectLine(input: Bytes, line: Bytes, before: Bytes, frag: Bytes, rest: Bytes, B: nat, max: int)
    requires B > 0 && Collecting(input, line, before, B) && Sliced(before, frag, Found, rest, B)
    requires |line| == 0 || |line| <= max
    ensures |line + frag| > 0
    ensures var text := DropCR((line + frag)[..|line + frag| - 1]);
            LineRead(input, B, max) == if |text| > max then Bad(Protocol) else Got(text, rest)
  {
    hide FirstLF, WholeBuffers, DropCR;
    var whole := line + frag;
    FewBytes(FirstLF(before), B);
    assert input == whole + rest;
    CutLine(input, whole, rest);
  }

  lemma FewBytes(n: nat, B: nat)
    requires n < B
    ensures WholeBuffers(n, B) == 0
  {
  }

  lemma CutLine(input: Bytes, whole: Bytes, rest: Bytes)
    requires input == whole + rest && |whole| > 0
    ensures whole[..|whole| - 1] == input[..|whole| - 1] && rest == input[|whole|..]
  {
  }

  class Reader {
    /** The size of the buffer. */
    const B: nat
    /** The bytes of the stream not consumed yet. */
    var rest: Bytes

    ghost predicate Valid() { B > 0 }

    constructor (stream: Bytes, size: nat)
      requires size > 0
      ensures Valid() && rest == stream && B == size
    {
      B := size;
      rest := stream;
    }

    /** bufio's ReadSlice('\n'). */
    method ReadSlice() returns (frag: Bytes, end: SliceEnd)
      requires Valid()
      modifies this
      ensures Sliced(old(rest), frag, end, rest, B)
    {
      var n := FirstLF(rest);
      var size := B;
      if n < |rest| && n < B {
        size, end := n + 1, Found;
      } else if |rest| >= B {
        end := BufferFull;
      } else {
        size, end := |rest|, EndOfStream;
      }
      assert rest == rest[..size] + rest[size..];
      assert |rest| == size ==> rest[..size] == rest;
      frag, rest := rest[..size], rest[size..];
    }

    /** readLine: fragments are collected until one ends in LF. */
    method ReadLine(max: int) returns (r: Outcome<Bytes>)
      requires Valid()
      modifies this
      ensures Agrees(r, rest, LineRead(old(rest), B, max))
    {
      hide FirstLF, WholeBuffers, Collecting, Sliced, LineRead;
      var line: Bytes := [];
      CollectStart(rest, B);
      while true
        invariant Collecting(old(rest), line, rest, B) && (line == [] || |line| <= max)
        decreases |rest|
      {
        ghost var before := rest;
        var frag, end := ReadSlice();
        if end.BufferFull? {
          CollectBuffer(old(rest), line, before, frag, rest, B, max);
          line := line + frag;
          if |line| > max {
            return Failed(Protocol);
          }
          continue;
        }
        if end.EndOfStream? {
          CollectEnd(old(rest), line, before, frag, rest, B, max);
          return Failed(Eof);
        }
        CollectLine(old(rest), line, before, frag, rest, B, max);
        line := (line + frag)[..|line + frag| - 1];
        ghost var text := DropCR(line);
        if |line| > 0 && line[|line| - 1] == '\r' {
          line := line[..|line| - 1];
        }
        assert line == text;
        if |line| > max {
          return Failed(Protocol);
        }
        return Done(line);
      }
    }

    /** io.ReadFull of a bulk body, then the check of its CR LF. */
    method ReadBody(len: nat) returns (r: Outcome<Bytes>)
      modifies this
      ensures Agrees(r, rest, BulkBody(old(rest), len))
    {
      if rest == [] {
        return Failed(Eof);
      }
      if |rest| < len + 2 {
        return Failed(Torn);
      }
      var buf := rest[..len + 2];
      rest := rest[len + 2..];
      assert old(rest)[len..len + 2] == [buf[len], buf[len + 1]];
      if buf[len] != '\r' || buf[len + 1] != '\n' {
        return Failed(Protocol);
      }
      assert buf[..len] == old(rest)[..len];
      return Done(buf[..len]);
    }

    method ReadBulkArg(lim: Limits) returns (r: Outcome<Bytes>)
      requires Valid()
      modifies this
      ensures Agrees(r, rest, BulkArg(old(rest), B, lim))
    {
      var line := ReadLine(lim.maxHeaderLen);
      if line.Failed? {
        return Failed(line.err);
      }
      if |line.val| == 0 || line.val[0] != '$' {
        return Failed(Protocol);
      }
      var n := ParseInt(line.val[1..]);
      if n.None? || n.value < 0 || n.value > lim.maxBulkLen {
        return Failed(Protocol);
      }
      r := ReadBody(n.value);
    }

    /** readMultibulk: the loop over the announced number of arguments. */
    method ReadMultibulk(lim: Limits) returns (r: Outcome<seq<Bytes>>)
      requires Valid() && rest != [] && rest[0] == '*'
      modifies this
      ensures Agrees(r, rest, Multibulk(old(rest), B, lim))
    {
      hide BulkArg, LineRead;
      var line := ReadLine(lim.maxHeaderLen);
      if line.Failed? {
        return Failed(line.err);
      }
      HeaderConsumes(old(rest), B, lim);
      var n := ParseInt(line.val[1..]);
      if n.None? || n.value <= 0 || n.value > lim.maxArgs {
        return Failed(Protocol);
      }
      ghost var start := rest;
      var args: seq<Bytes> := [];
      PrependNil(BulkArgs(start, n.value, B, lim));
      for i := 0 to n.value
        invariant |args| == i
        invariant BulkArgs(start, n.value, B, lim) == Prepend(args, BulkArgs(rest, n.value - i, B, lim))
      {
        ghost var left := BulkArgs(rest, n.value - i, B, lim);
        var arg := ReadBulkArg(lim);
        if arg.Failed? {
          return Failed(arg.err);
        }
        PrependCons(args, arg.val, BulkArgs(rest, n.value - i - 1, B, lim));
        args := args + [arg.val];
      }
      assert args + [] == args;
      return Done(args);
    }

    method ReadInline(lim: Limits) returns (r: Outcome<seq<Bytes>>)
      requires Valid()
      modifies this
      ensures Agrees(r, rest, Inline(old(rest), B, lim))
    {
      var line := ReadLine(lim.maxInlineLen);
      if line.Failed? {
        return Failed(line.err);
      }
      var fields := Fields(line.val);
      if |fields| == 0 || |fields| > lim.maxArgs {
        return Failed(Protocol);
      }
      return Done(fields);
    }

    method ReadCommand(lim: Limits) returns (r: Outcome<seq<Bytes>>)
      requires Valid()
      modifies this
      ensures Agrees(r, rest, Command(old(rest), B, lim))
    {
      if rest == [] {
        return Failed(Eof);
      }
      if rest[0] == '*' {
        r := ReadMultibulk(lim);
      } else {
        r := ReadInline(lim);
      }
    }
  }

  lemma HeaderConsumes(input: Bytes, B: nat, lim: Limits)
    requires B > 0 && input != [] && (input[0] == '*' || input[0] == '$')
    ensures var p := LineRead(input, B, lim.maxHeaderLen);
            p.Got? ==> |p.val| > 0 && |p.rest| < |input|
  {
  }

  ghost function Prepend<T>(a: seq<T>, p: Parsed<seq<T>>): Parsed<seq<T>> {
    match p
    case Got(v, rest) => Got(a + v, rest)
    case Bad(e) => Bad(e)
  }

  lemma PrependNil<T>(p: Parsed<seq<T>>)
    ensures Prepend([], p) == p
  {
    if p.Got? { assert [] + p.val == p.val; }
  }

  lemma PrependCons<T>(a: seq<T>, x: T, p: Parsed<seq<T>>)
    ensures Prepend(a + [x], p) == Prepend(a, Prepend([x], p))
  {
    if p.Got? { assert (a + [x]) + p.val == a + ([x] + p.val); }
  }

  lemma {:induction false} FirstLFSplit(a: Bytes, b: Bytes)
    requires FirstLF(a + b) >= |a|
    ensures FirstLF(a + b) == |a| + FirstLF(b)
  {
    if a != [] {
      assert (a + b)[1..] == a[1..] + b;
      FirstLFSplit(a[1..], b);
    } else {
      assert a + b == b;
    }
  }

  class Writer {
    var out: Bytes

    constructor ()
      ensures out == []
    {
      out := [];
    }

    method WriteLine(prefix: char, s: Bytes)
      modifies this
      ensures out == old(out) + ([prefix] + s + "\r\n")
    {
      out := out + [prefix];
      out := out + s;
      out := out + "\r\n";
    }

    method WriteBulk(b: Bytes)
      modifies this
      ensures out == old(out) + EncodeBulk(b)
    {
      out := out + ['$'];
      out := out + FormatInt(|b|);
      out := out + "\r\n";
      out := out + b;
      out := out + "\r\n";
    }

    method WriteArrayLen(n: nat)
      modifies this
      ensures out == old(out) + EncodeLen(n)
    {
      out := out + ['*'];
      out := out + FormatInt(n);
      out := out + "\r\n";
    }

    /** Reply.WriteTo. */
    method WriteReply(r: Reply)
      modifies this
      ensures out == old(out) + Encode(r)
      decreases r, 1
    {
      match r
      case Simple(s) => WriteLine('+', s);
      case Error(s) => WriteLine('-', s);
      case Integer(n) => WriteLine(':', FormatInt(n));
      case Bulk(b) => WriteBulk(b);
      case NullBulk => out := out + "$-1\r\n";
      case Array(a) =>
        WriteArrayLen(|a|);
        WriteElements(a);
        assert out == old(out) + (EncodeLen(|a|) + EncodeAll(a));
    }

    /** The loop over the elements of an array. */
    method WriteElements(a: seq<Reply>)
      modifies this
      ensures out == old(out) + EncodeAll(a)
      decreases a, 0
    {
      hide Encode, EncodeAll;
      assert EncodeAll(a[..0]) == [] by { EmptyElements(); }
      for i := 0 to |a|
        invariant out == old(out) + EncodeAll(a[..i])
      {
        WriteReply(a[i]);
        EncodeAllExtend(a[..i], a[i]);
        assert a[..i + 1] == a[..i] + [a[i]];
      }
      assert a[..|a|] == a;
    }
  }

  lemma EmptyElements()
    ensures EncodeAll([]) == []
  {
  }

  lemma {:induction false} EncodeAllExtend(a: seq<Reply>, r: Reply)
    ensures EncodeAll(a + [r]) == EncodeAll(a) + Encode(r)
  {
    if a == [] {
      assert [r][1..] == [];
    } else {
      assert (a + [r])[1..] == a[1..] + [r];
      EncodeAllExtend(a[1..], r);
    }
  }
}

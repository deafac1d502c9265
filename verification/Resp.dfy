/** The wire codec: a reader over a bufio buffer of B bytes, a writer, and the
    reply tree both exchange. Streams are byte sequences; a read error other
    than the end of the stream is not modelled. */
module Resp {
  import opened Basics

  datatype Limits = Limits(maxBulkLen: int, maxArgs: int, maxInlineLen: int, maxHeaderLen: int)

  function DefaultLimits(): Limits {
    Limits(64 * 1024 * 1024, 1024 * 1024, 64 * 1024, 64)
  }

  /** io.EOF, io.ErrUnexpectedEOF, and a violation of the protocol. */
  datatype ReadError = Eof | Torn | Protocol

  datatype Parsed<+T> = Got(val: T, rest: Bytes) | Bad(err: ReadError)

  // ------------------------------------------------------------------ lines

  /** The position of the first LF, or the length when there is none. */
  function FirstLF(s: Bytes): (n: nat)
    ensures n <= |s|
    ensures n < |s| ==> s[n] == '\n'
    ensures forall i :: 0 <= i < n ==> s[i] != '\n'
  {
    if s == [] || s[0] == '\n' then 0 else 1 + FirstLF(s[1..])
  }

  function DropCR(s: Bytes): Bytes {
    if |s| > 0 && s[|s| - 1] == '\r' then s[..|s| - 1] else s
  }

  /** The simple rule: cut at the first LF, drop one CR, accept up to max. */
  function LineRule(input: Bytes, max: int): Parsed<Bytes> {
    var n := FirstLF(input);
    if n == |input| then Bad(Eof)
    else if |DropCR(input[..n])| > max then Bad(Protocol)
    else Got(DropCR(input[..n]), input[n + 1..])
  }

  /** How many of n bytes fill whole buffers of B bytes. */
  function WholeBuffers(n: nat, B: nat): (w: nat)
    requires B > 0
    ensures w <= n < w + B
  {
    if n < B then 0 else B + WholeBuffers(n - B, B)
  }

  /** What the fragment loop does: it also gives up as soon as whole buffers
      without an LF add up to more than max. */
  function LineRead(input: Bytes, B: nat, max: int): Parsed<Bytes>
    requires B > 0
  {
    var whole := WholeBuffers(FirstLF(input), B);
    if whole > 0 && whole > max then Bad(Protocol) else LineRule(input, max)
  }

  /** The fragments and the simple rule disagree about a stream in exactly two
      cases: max bytes followed by CR LF, when max + 1 bytes fill whole buffers,
      and a stream that ends without an LF after whole buffers of more than max
      bytes. */
  lemma FragmentsAgree(input: Bytes, B: nat, max: int)
    requires B > 0
    ensures LineRead(input, B, max) == LineRule(input, max) <==>
            var n := FirstLF(input);
            if n == |input| then WholeBuffers(n, B) == 0 || WholeBuffers(n, B) <= max
            else !(max >= 0 && WholeBuffers(max + 1, B) == max + 1 && n == max + 1 && input[max] == '\r')
  {
  }

  /** Short lines are read whole, whatever the buffer size. */
  lemma ShortLine(text: Bytes, tail: Bytes, B: nat, max: int)
    requires B > 0 && '\n' !in text
    requires |text| < max || (|text| == max && WholeBuffers(max + 1, B) != max + 1)
    ensures LineRead(text + "\r\n" + tail, B, max) == Got(text, tail)
  {
    var input := text + "\r\n" + tail;
    var n := |text| + 1;
    assert input[n] == '\n';
    forall i | 0 <= i < n ensures input[i] != '\n' {
      if i < |text| { assert input[i] == text[i]; } else { assert input[i] == '\r'; }
    }
    FirstLFIs(input, n);
    assert input[..n] == text + ['\r'];
    assert input[n + 1..] == tail;
    assert DropCR(input[..n]) == text;
    FragmentsAgree(input, B, max);
  }

  lemma {:induction false} FirstLFIs(s: Bytes, n: nat)
    requires n <= |s| && forall i :: 0 <= i < n ==> s[i] != '\n'
    requires n < |s| ==> s[n] == '\n'
    ensures FirstLF(s) == n
  {
  }

  // ------------------------------------------------------------ the commands

  /** The body of a bulk string after its header: len bytes, then CR LF. */
  function BulkBody(input: Bytes, len: nat): Parsed<Bytes> {
    if input == [] then Bad(Eof)
    else if |input| < len + 2 then Bad(Torn)
    else if input[len..len + 2] != "\r\n" then Bad(Protocol)
    else Got(input[..len], input[len + 2..])
  }

  function BulkArg(input: Bytes, B: nat, lim: Limits): (r: Parsed<Bytes>)
    requires B > 0
    ensures r.Got? ==> |r.rest| < |input|
  {
    match LineRead(input, B, lim.maxHeaderLen)
    case Bad(e) => Bad(e)
    case Got(line, rest) =>
      if line == [] || line[0] != '$' then Bad(Protocol)
      else
        var n := ParseInt(line[1..]);
        if n.None? || n.value < 0 || n.value > lim.maxBulkLen then Bad(Protocol)
        else BulkBody(rest, n.value)
  }

  function BulkArgs(input: Bytes, n: nat, B: nat, lim: Limits): (r: Parsed<seq<Bytes>>)
    requires B > 0
    ensures r.Got? ==> |r.val| == n && |r.rest| <= |input|
    decreases n
  {
    if n == 0 then Got([], input)
    else
      match BulkArg(input, B, lim)
      case Bad(e) => Bad(e)
      case Got(arg, rest) =>
        match BulkArgs(rest, n - 1, B, lim)
        case Bad(e) => Bad(e)
        case Got(args, end) => Got([arg] + args, end)
  }

  function Multibulk(input: Bytes, B: nat, lim: Limits): (r: Parsed<seq<Bytes>>)
    requires B > 0 && input != [] && input[0] == '*'
    ensures r.Got? ==> |r.rest| < |input| && |r.val| > 0
  {
    match LineRead(input, B, lim.maxHeaderLen)
    case Bad(e) => Bad(e)
    case Got(line, rest) =>
      var n := ParseInt(line[1..]);
      if n.None? || n.value <= 0 || n.value > lim.maxArgs then Bad(Protocol)
      else BulkArgs(rest, n.value, B, lim)
  }

  predicate IsSpace(c: char) {
    c == ' ' || '\t' as int <= c as int <= '\r' as int
  }

  /** bytes.Fields: the runs of bytes between white space. */
  function Fields(s: Bytes): (r: seq<Bytes>) {
    var n := WordEnd(s);
    if s == [] then []
    else if n == 0 then Fields(s[1..])
    else [s[..n]] + Fields(s[n..])
  }

  function WordEnd(s: Bytes): (n: nat)
    ensures n <= |s|
    ensures n < |s| ==> IsSpace(s[n])
    ensures forall i :: 0 <= i < n ==> !IsSpace(s[i])
  {
    if s == [] || IsSpace(s[0]) then 0 else 1 + WordEnd(s[1..])
  }

  function Inline(input: Bytes, B: nat, lim: Limits): (r: Parsed<seq<Bytes>>)
    requires B > 0
    ensures r.Got? ==> |r.rest| < |input| && |r.val| > 0
  {
    match LineRead(input, B, lim.maxInlineLen)
    case Bad(e) => Bad(e)
    case Got(line, rest) =>
      var fields := Fields(line);
      if fields == [] || |fields| > lim.maxArgs then Bad(Protocol) else Got(fields, rest)
  }

  function Command(input: Bytes, B: nat, lim: Limits): (r: Parsed<seq<Bytes>>)
    requires B > 0
    ensures r.Got? ==> |r.rest| < |input| && |r.val| > 0
  {
    if input == [] then Bad(Eof)
    else if input[0] == '*' then Multibulk(input, B, lim)
    else Inline(input, B, lim)
  }

  // ------------------------------------------------------------- the replies

  datatype Reply =
    | Simple(str: Bytes)
    | Error(str: Bytes)
    | Integer(n: int)
    | Bulk(str: Bytes)
    | NullBulk
    | Array(elems: seq<Reply>)

  function EncodeBulk(b: Bytes): Bytes {
    "$" + FormatInt(|b|) + "\r\n" + (b + "\r\n")
  }

  function EncodeLen(n: nat): Bytes {
    "*" + FormatInt(n) + "\r\n"
  }

  /** The bytes of a reply on the wire. */
  function Encode(r: Reply): Bytes
    decreases r, 1
  {
    match r
    case Simple(s) => "+" + s + "\r\n"
    case Error(s) => "-" + s + "\r\n"
    case Integer(n) => ":" + FormatInt(n) + "\r\n"
    case Bulk(b) => EncodeBulk(b)
    case NullBulk => "$-1\r\n"
    case Array(a) => EncodeLen(|a|) + EncodeAll(a)
  }

  function EncodeAll(a: seq<Reply>): Bytes
    decreases a, 0
  {
    if a == [] then [] else Encode(a[0]) + EncodeAll(a[1..])
  }

  function ReplyLine(input: Bytes, B: nat, lim: Limits): (r: Parsed<Reply>)
    requires B > 0 && input != []
    ensures r.Got? ==> |r.rest| < |input|
  {
    match LineRead(input, B, lim.maxInlineLen)
    case Bad(e) => Bad(e)
    case Got(line, rest) =>
      if line == [] then Bad(Protocol)
      else if input[0] == '+' then Got(Simple(line[1..]), rest)
      else Got(Error(line[1..]), rest)
  }

  function IntegerReply(input: Bytes, B: nat, lim: Limits): (r: Parsed<Reply>)
    requires B > 0
    ensures r.Got? ==> |r.rest| < |input|
  {
    match LineRead(input, B, lim.maxHeaderLen)
    case Bad(e) => Bad(e)
    case Got(line, rest) =>
      if |line| < 2 then Bad(Protocol)
      else
        var n := ParseInt(line[1..]);
        if n.None? then Bad(Protocol) else Got(Integer(n.value), rest)
  }

  function BulkReply(input: Bytes, B: nat, lim: Limits): (r: Parsed<Reply>)
    requires B > 0 && input != [] && input[0] == '$'
    ensures r.Got? ==> |r.rest| < |input|
  {
    match LineRead(input, B, lim.maxHeaderLen)
    case Bad(e) => Bad(e)
    case Got(line, rest) =>
      var n := ParseInt(line[1..]);
      if n.None? || n.value < -1 || n.value > lim.maxBulkLen then Bad(Protocol)
      else if n.value == -1 then Got(NullBulk, rest)
      else
        match BulkBody(rest, n.value)
        case Bad(e) => Bad(e)
        case Got(b, end) => Got(Bulk(b), end)
  }

  /** ReadReply as a function of the bytes to come. */
  function Decode(input: Bytes, B: nat, lim: Limits): (r: Parsed<Reply>)
    requires B > 0
    ensures r.Got? ==> |r.rest| < |input|
    decreases |input|, 0
  {
    if input == [] then Bad(Eof)
    else if input[0] == '+' || input[0] == '-' then ReplyLine(input, B, lim)
    else if input[0] == ':' then IntegerReply(input, B, lim)
    else if input[0] == '$' then BulkReply(input, B, lim)
    else if input[0] == '*' then
      match LineRead(input, B, lim.maxHeaderLen)
      case Bad(e) => Bad(e)
      case Got(line, rest) =>
        var n := ParseInt(line[1..]);
        if n.None? || n.value < -1 || n.value > lim.maxArgs then Bad(Protocol)
        else if n.value == -1 then Got(NullBulk, rest)
        else
          match DecodeAll(rest, n.value, B, lim)
          case Bad(e) => Bad(e)
          case Got(a, end) => Got(Array(a), end)
    else Bad(Protocol)
  }

  function DecodeAll(input: Bytes, n: nat, B: nat, lim: Limits): (r: Parsed<seq<Reply>>)
    requires B > 0
    ensures r.Got? ==> |r.rest| <= |input|
    decreases |input|, 1, n
  {
    if n == 0 then Got([], input)
    else
      match Decode(input, B, lim)
      case Bad(e) => Bad(e)
      case Got(el, rest) =>
        match DecodeAll(rest, n - 1, B, lim)
        case Bad(e) => Bad(e)
        case Got(els, end) => Got([el] + els, end)
  }

  // ------------------------------------------------------------- round trips

  /** Limits under which every header the writer produces can be read back. */
  predicate Sane(lim: Limits) {
    lim.maxHeaderLen >= 22 && 0 <= lim.maxBulkLen < TWO63 && Int64(lim.maxArgs)
  }

  /** A line of n bytes is accepted, with its CR LF, by a buffer of B bytes. */
  predicate LineFits(n: nat, B: nat, max: int)
    requires B > 0
  {
    n < max || (n == max && WholeBuffers(max + 1, B) != max + 1)
  }

  predicate Fits(r: Reply, B: nat, lim: Limits)
    requires B > 0
  {
    match r
    case Simple(s) => '\n' !in s && LineFits(1 + |s|, B, lim.maxInlineLen)
    case Error(s) => '\n' !in s && LineFits(1 + |s|, B, lim.maxInlineLen)
    case Integer(n) => Int64(n)
    case Bulk(b) => |b| <= lim.maxBulkLen
    case NullBulk => true
    case Array(a) => |a| <= lim.maxArgs && forall i :: 0 <= i < |a| ==> Fits(a[i], B, lim)
  }

  lemma {:induction false} DigitsHaveNoLF(n: nat)
    ensures '\n' !in FormatNat(n)
  {
    assert forall i :: 0 <= i < |FormatNat(n)| ==> IsDigit(FormatNat(n)[i]);
  }

  lemma FormatHasNoLF(n: int)
    ensures '\n' !in FormatInt(n)
  {
    DigitsHaveNoLF(if n < 0 then -n else n);
  }

  /** A type byte and a number make a readable header line. */
  lemma HeaderLine(c: char, n: int, tail: Bytes, B: nat, lim: Limits)
    requires B > 0 && Sane(lim) && Int64(n) && c != '\n'
    ensures LineRead([c] + FormatInt(n) + "\r\n" + tail, B, lim.maxHeaderLen) == Got([c] + FormatInt(n), tail)
    ensures ParseInt(([c] + FormatInt(n))[1..]) == Some(n)
  {
    FormatHasNoLF(n);
    FormatIntLength(n);
    ShortLine([c] + FormatInt(n), tail, B, lim.maxHeaderLen);
    assert ([c] + FormatInt(n))[1..] == FormatInt(n);
    ParseFormat(n);
  }

  lemma BodyRoundTrip(b: Bytes, tail: Bytes)
    ensures BulkBody(b + "\r\n" + tail, |b|) == Got(b, tail)
  {
    var input := b + "\r\n" + tail;
    assert input[|b|..|b| + 2] == "\r\n";
    assert input[..|b|] == b && input[|b| + 2..] == tail;
  }

  lemma BulkReplyRoundTrip(b: Bytes, tail: Bytes, B: nat, lim: Limits)
    requires B > 0 && Sane(lim) && |b| <= lim.maxBulkLen
    ensures Decode(EncodeBulk(b) + tail, B, lim) == Got(Bulk(b), tail)
  {
    hide LineRead, ParseInt, FormatInt;
    var body := b + "\r\n" + tail;
    assert EncodeBulk(b) + tail == ['$'] + FormatInt(|b|) + "\r\n" + body;
    HeaderLine('$', |b|, body, B, lim);
    BodyRoundTrip(b, tail);
  }

  lemma NullRoundTrip(tail: Bytes, B: nat, lim: Limits)
    requires B > 0 && Sane(lim)
    ensures Decode(Encode(NullBulk) + tail, B, lim) == Got(NullBulk, tail)
  {
    assert FormatInt(-1) == "-1";
    assert Encode(NullBulk) + tail == ['$'] + FormatInt(-1) + "\r\n" + tail;
    HeaderLine('$', -1, tail, B, lim);
  }

  /** ReadReply undoes WriteTo, at any nesting depth, and takes no byte more. */
  lemma {:induction false} ReplyRoundTrip(r: Reply, tail: Bytes, B: nat, lim: Limits)
    requires B > 0 && Sane(lim) && Fits(r, B, lim)
    ensures Decode(Encode(r) + tail, B, lim) == Got(r, tail)
    decreases r, 1
  {
    hide LineRead, ParseInt, FormatInt, EncodeBulk;
    match r
    case Simple(s) =>
      assert Encode(r) + tail == (['+'] + s) + "\r\n" + tail;
      ShortLine(['+'] + s, tail, B, lim.maxInlineLen);
      assert (['+'] + s)[1..] == s;
    case Error(s) =>
      assert Encode(r) + tail == (['-'] + s) + "\r\n" + tail;
      ShortLine(['-'] + s, tail, B, lim.maxInlineLen);
      assert (['-'] + s)[1..] == s;
    case Integer(n) =>
      assert Encode(r) + tail == [':'] + FormatInt(n) + "\r\n" + tail;
      HeaderLine(':', n, tail, B, lim);
    case Bulk(b) =>
      BulkReplyRoundTrip(b, tail, B, lim);
    case NullBulk =>
      NullRoundTrip(tail, B, lim);
    case Array(a) =>
      var body := EncodeAll(a) + tail;
      assert Encode(r) + tail == ['*'] + FormatInt(|a|) + "\r\n" + body;
      HeaderLine('*', |a|, body, B, lim);
      ElementsRoundTrip(a, tail, B, lim);
  }

  lemma {:induction false} ElementsRoundTrip(a: seq<Reply>, tail: Bytes, B: nat, lim: Limits)
    requires B > 0 && Sane(lim) && forall i :: 0 <= i < |a| ==> Fits(a[i], B, lim)
    ensures DecodeAll(EncodeAll(a) + tail, |a|, B, lim) == Got(a, tail)
    decreases a, 0
  {
    hide Encode, Decode, Fits, Sane;
    if a == [] {
      assert EncodeAll(a) + tail == tail;
    } else {
      var rest := EncodeAll(a[1..]) + tail;
      assert EncodeAll(a) + tail == Encode(a[0]) + rest;
      ReplyRoundTrip(a[0], rest, B, lim);
      ElementsRoundTrip(a[1..], tail, B, lim);
      assert [a[0]] + a[1..] == a;
    }
  }

  /** No two reply streams share their bytes unless they are the same. */
  lemma EncodeUnique(r: Reply, s: Reply, t: Bytes, u: Bytes, B: nat, lim: Limits)
    requires B > 0 && Sane(lim) && Fits(r, B, lim) && Fits(s, B, lim)
    requires Encode(r) + t == Encode(s) + u
    ensures r == s && t == u
  {
    ReplyRoundTrip(r, t, B, lim);
    ReplyRoundTrip(s, u, B, lim);
  }

  // ------------------------------------------------- commands in the log file

  function EncodeBulks(args: seq<Bytes>): Bytes {
    if args == [] then [] else EncodeBulk(args[0]) + EncodeBulks(args[1..])
  }

  /** One log record: the array header and a bulk string per argument. */
  function EncodeCommand(args: seq<Bytes>): Bytes {
    EncodeLen(|args|) + EncodeBulks(args)
  }

  predicate ArgsFit(args: seq<Bytes>, lim: Limits) {
    forall i :: 0 <= i < |args| ==> |args[i]| <= lim.maxBulkLen
  }

  predicate CommandFits(args: seq<Bytes>, lim: Limits) {
    0 < |args| <= lim.maxArgs && ArgsFit(args, lim)
  }

  lemma {:induction false} BulkArgsFit(input: Bytes, n: nat, B: nat, lim: Limits)
    requires B > 0
    ensures var r := BulkArgs(input, n, B, lim); r.Got? ==> ArgsFit(r.val, lim)
    decreases n
  {
    hide LineRead, ParseInt;
    if n > 0 {
      var first := BulkArg(input, B, lim);
      if first.Got? { BulkArgsFit(first.rest, n - 1, B, lim); }
    }
  }

  lemma {:induction false} FieldsFit(s: Bytes)
    ensures forall i :: 0 <= i < |Fields(s)| ==> |Fields(s)[i]| <= |s|
    decreases |s|
  {
    if s != [] { FieldsFit(s[if WordEnd(s) == 0 then 1 else WordEnd(s)..]); }
  }

  /** Whatever ReadCommand accepts is within the limits it was given. */
  lemma ReadFits(input: Bytes, B: nat, lim: Limits)
    requires B > 0 && lim.maxInlineLen <= lim.maxBulkLen
    ensures var r := Command(input, B, lim); r.Got? ==> CommandFits(r.val, lim)
  {
    hide WholeBuffers, FirstLF, ParseInt, Fields;
    if input == [] {
    } else if input[0] == '*' {
      var line := LineRead(input, B, lim.maxHeaderLen);
      if line.Got? && ParseInt(line.val[1..]).Some? && ParseInt(line.val[1..]).value > 0 {
        BulkArgsFit(line.rest, ParseInt(line.val[1..]).value, B, lim);
      }
    } else {
      var line := LineRead(input, B, lim.maxInlineLen);
      if line.Got? { FieldsFit(line.val); }
    }
  }

  lemma BulkArgRoundTrip(b: Bytes, tail: Bytes, B: nat, lim: Limits)
    requires B > 0 && Sane(lim) && |b| <= lim.maxBulkLen
    ensures BulkArg(EncodeBulk(b) + tail, B, lim) == Got(b, tail)
  {
    var body := b + "\r\n" + tail;
    assert EncodeBulk(b) + tail == ['$'] + FormatInt(|b|) + "\r\n" + body;
    HeaderLine('$', |b|, body, B, lim);
    BodyRoundTrip(b, tail);
  }

  lemma {:induction false} BulkArgsRoundTrip(args: seq<Bytes>, tail: Bytes, B: nat, lim: Limits)
    requires B > 0 && Sane(lim) && ArgsFit(args, lim)
    ensures BulkArgs(EncodeBulks(args) + tail, |args|, B, lim) == Got(args, tail)
  {
    if args == [] {
      assert EncodeBulks(args) + tail == tail;
    } else {
      var rest := EncodeBulks(args[1..]) + tail;
      assert EncodeBulks(args) + tail == EncodeBulk(args[0]) + rest;
      BulkArgRoundTrip(args[0], rest, B, lim);
      BulkArgsRoundTrip(args[1..], tail, B, lim);
      assert [args[0]] + args[1..] == args;
    }
  }

  /** ReadCommand undoes Append. */
  lemma CommandRoundTrip(args: seq<Bytes>, tail: Bytes, B: nat, lim: Limits)
    requires B > 0 && Sane(lim) && CommandFits(args, lim)
    ensures Command(EncodeCommand(args) + tail, B, lim) == Got(args, tail)
  {
    var body := EncodeBulks(args) + tail;
    assert EncodeCommand(args) + tail == ['*'] + FormatInt(|args|) + "\r\n" + body;
    HeaderLine('*', |args|, body, B, lim);
    BulkArgsRoundTrip(args, tail, B, lim);
  }

  /** The lengths are those of Go slices. */
  predicate Sized(args: seq<Bytes>) {
    |args| < TWO63 && forall i :: 0 <= i < |args| ==> |args[i]| < TWO63
  }

  lemma LargeBulk(b: Bytes, tail: Bytes, B: nat, lim: Limits)
    requires B > 0 && Sane(lim) && lim.maxBulkLen < |b| < TWO63
    ensures BulkArg(EncodeBulk(b) + tail, B, lim) == Bad(Protocol)
  {
    hide LineRead, ParseInt, FormatInt;
    var body := b + "\r\n" + tail;
    assert EncodeBulk(b) + tail == ['$'] + FormatInt(|b|) + "\r\n" + body;
    HeaderLine('$', |b|, body, B, lim);
  }

  lemma {:induction false} LargeBulks(args: seq<Bytes>, tail: Bytes, B: nat, lim: Limits)
    requires B > 0 && Sane(lim) && Sized(args) && !ArgsFit(args, lim)
    ensures BulkArgs(EncodeBulks(args) + tail, |args|, B, lim) == Bad(Protocol)
  {
    hide EncodeBulk, BulkArg, Sane;
    var rest := EncodeBulks(args[1..]) + tail;
    assert EncodeBulks(args) + tail == EncodeBulk(args[0]) + rest;
    if |args[0]| > lim.maxBulkLen {
      LargeBulk(args[0], rest, B, lim);
    } else {
      BulkArgRoundTrip(args[0], rest, B, lim);
      LargeBulks(args[1..], tail, B, lim);
    }
  }

  /** A command beyond the limits is refused, however much of it there is. */
  lemma LargeCommand(args: seq<Bytes>, tail: Bytes, B: nat, lim: Limits)
    requires B > 0 && Sane(lim) && Sized(args) && !CommandFits(args, lim)
    ensures Command(EncodeCommand(args) + tail, B, lim) == Bad(Protocol)
  {
    hide LineRead, ParseInt, FormatInt, BulkArgs, EncodeBulks;
    var body := EncodeBulks(args) + tail;
    assert EncodeCommand(args) + tail == ['*'] + FormatInt(|args|) + "\r\n" + body;
    HeaderLine('*', |args|, body, B, lim);
    if 0 < |args| <= lim.maxArgs { LargeBulks(args, tail, B, lim); }
  }

  function BulkHeader(b: Bytes): Bytes {
    "$" + FormatInt(|b|) + "\r\n"
  }

  /** The cut leaves some, but not all, of the bytes of a bulk string after its
      header. */
  predicate InBody(args: seq<Bytes>, cut: int) {
    args != [] &&
    (if cut < |EncodeBulk(args[0])| then |BulkHeader(args[0])| < cut
     else InBody(args[1..], cut - |EncodeBulk(args[0])|))
  }

  /** A header line that was cut off reads as the end of the file. */
  lemma TornHeader(c: char, n: int, cut: nat, B: nat, lim: Limits)
    requires B > 0 && Sane(lim) && Int64(n) && c != '\n'
    requires cut < |[c] + FormatInt(n) + "\r\n"|
    ensures LineRead(([c] + FormatInt(n) + "\r\n")[..cut], B, lim.maxHeaderLen) == Bad(Eof)
  {
    var line := [c] + FormatInt(n) + "\r\n";
    FormatHasNoLF(n);
    FormatIntLength(n);
    forall i | 0 <= i < cut ensures line[..cut][i] != '\n' {
      if 0 < i <= |FormatInt(n)| { assert line[i] == FormatInt(n)[i - 1]; }
    }
    FirstLFIs(line[..cut], cut);
  }

  lemma TornBulk(b: Bytes, cut: nat, B: nat, lim: Limits)
    requires B > 0 && Sane(lim) && |b| <= lim.maxBulkLen && cut < |EncodeBulk(b)|
    ensures BulkArg(EncodeBulk(b)[..cut], B, lim) == Bad(if |BulkHeader(b)| < cut then Torn else Eof)
  {
    var header := ['$'] + FormatInt(|b|) + "\r\n";
    assert EncodeBulk(b) == header + (b + "\r\n");
    if cut < |header| {
      assert EncodeBulk(b)[..cut] == header[..cut];
      TornHeader('$', |b|, cut, B, lim);
    } else {
      var body := (b + "\r\n")[..cut - |header|];
      assert EncodeBulk(b)[..cut] == header + body;
      HeaderLine('$', |b|, body, B, lim);
    }
  }

  lemma {:induction false} TornBulks(args: seq<Bytes>, cut: nat, B: nat, lim: Limits)
    requires B > 0 && Sane(lim) && ArgsFit(args, lim) && cut < |EncodeBulks(args)|
    ensures BulkArgs(EncodeBulks(args)[..cut], |args|, B, lim) == Bad(if InBody(args, cut) then Torn else Eof)
  {
    hide EncodeBulk, BulkArg, Sane, BulkHeader;
    var first := EncodeBulk(args[0]);
    if cut < |first| {
      assert EncodeBulks(args)[..cut] == first[..cut];
      TornBulk(args[0], cut, B, lim);
    } else {
      var rest := EncodeBulks(args[1..])[..cut - |first|];
      assert EncodeBulks(args)[..cut] == first + rest;
      BulkArgRoundTrip(args[0], rest, B, lim);
      TornBulks(args[1..], cut - |first|, B, lim);
    }
  }

  /** A record that was cut off is never read as a command: it ends the file, as
      a clean end unless the cut is inside the bytes of an argument. */
  lemma TornCommand(args: seq<Bytes>, cut: nat, B: nat, lim: Limits)
    requires B > 0 && Sane(lim) && CommandFits(args, lim) && cut < |EncodeCommand(args)|
    ensures Command(EncodeCommand(args)[..cut], B, lim)
         == Bad(if InBody(args, cut - |EncodeLen(|args|)|) then Torn else Eof)
  {
    hide LineRead, FormatInt, ParseInt, EncodeBulks, EncodeBulk, BulkArgs, Inline;
    var header := ['*'] + FormatInt(|args|) + "\r\n";
    assert EncodeCommand(args) == header + EncodeBulks(args);
    assert header == EncodeLen(|args|);
    if cut < |header| {
      assert EncodeCommand(args)[..cut] == header[..cut];
      TornHeader('*', |args|, cut, B, lim);
    } else {
      var body := EncodeBulks(args)[..cut - |header|];
      assert EncodeCommand(args)[..cut] == header + body;
      HeaderLine('*', |args|, body, B, lim);
      TornBulks(args, cut - |header|, B, lim);
    }
  }

  // ---------------------------------------------------------- inline commands

  /** A word has no blank, tab, line feed, vertical tab, form feed or carriage
      return in it. */
  predicate IsWord(w: Bytes) {
    w != [] && ' ' !in w && forall i :: 0 <= i < |w| ==> !(9 <= w[i] as int <= 13)
  }

  predicate IsGap(g: Bytes) {
    forall i :: 0 <= i < |g| ==> g[i] == ' ' || g[i] as int == 9
  }

  /** Words with gaps before them; all gaps but the first have some length. */
  function Spread(words: seq<Bytes>, gaps: seq<Bytes>): Bytes
    requires |words| == |gaps|
  {
    if words == [] then [] else gaps[0] + words[0] + Spread(words[1..], gaps[1..])
  }

  predicate WellSpread(words: seq<Bytes>, gaps: seq<Bytes>) {
    |words| == |gaps| && (forall i :: 0 <= i < |words| ==> IsWord(words[i]) && IsGap(gaps[i])) &&
    forall i :: 0 < i < |gaps| ==> gaps[i] != []
  }

  lemma {:induction false} SkipGap(g: Bytes, s: Bytes)
    requires IsGap(g)
    ensures Fields(g + s) == Fields(s)
    decreases |g|
  {
    if g == [] {
      assert g + s == s;
    } else {
      assert IsSpace(g[0]) && (g + s)[0] == g[0];
      assert WordEnd(g + s) == 0;
      assert (g + s)[1..] == g[1..] + s;
      SkipGap(g[1..], s);
    }
  }

  lemma {:induction false} WordEndIs(w: Bytes, s: Bytes)
    requires (forall i :: 0 <= i < |w| ==> !IsSpace(w[i])) && (s == [] || IsSpace(s[0]))
    ensures WordEnd(w + s) == |w|
    decreases |w|
  {
    if w == [] {
      assert w + s == s;
    } else {
      assert (w + s)[0] == w[0] && (w + s)[1..] == w[1..] + s;
      WordEndIs(w[1..], s);
    }
  }

  lemma TakeWord(w: Bytes, s: Bytes)
    requires IsWord(w) && (s == [] || IsSpace(s[0]))
    ensures Fields(w + s) == [w] + Fields(s)
  {
    forall i | 0 <= i < |w| ensures !IsSpace(w[i]) { assert w[i] in w; }
    WordEndIs(w, s);
    assert (w + s)[..|w|] == w && (w + s)[|w|..] == s;
  }

  /** The fields of a line are its words, in order, however far apart. */
  lemma {:induction false} FieldsAre(words: seq<Bytes>, gaps: seq<Bytes>, last: Bytes)
    requires WellSpread(words, gaps) && IsGap(last)
    ensures Fields(Spread(words, gaps) + last) == words
    decreases |words|
  {
    if words == [] {
      assert [] + last == last == last + [];
      SkipGap(last, []);
    } else {
      var rest := Spread(words[1..], gaps[1..]) + last;
      assert Spread(words, gaps) + last == gaps[0] + (words[0] + rest);
      SkipGap(gaps[0], words[0] + rest);
      RestStarts(words[1..], gaps[1..], last);
      TakeWord(words[0], rest);
      assert WellSpread(words[1..], gaps[1..]) by {
        forall i | 0 <= i < |words[1..]| ensures IsWord(words[1..][i]) && IsGap(gaps[1..][i]) {
          assert words[1..][i] == words[i + 1] && gaps[1..][i] == gaps[i + 1];
        }
      }
      FieldsAre(words[1..], gaps[1..], last);
      assert [words[0]] + words[1..] == words;
    }
  }

  lemma RestStarts(words: seq<Bytes>, gaps: seq<Bytes>, last: Bytes)
    requires |words| == |gaps| && (forall i :: 0 <= i < |gaps| ==> IsGap(gaps[i]) && gaps[i] != []) && IsGap(last)
    ensures var s := Spread(words, gaps) + last; s == [] || IsSpace(s[0])
  {
    if words == [] {
      assert [] + last == last;
    } else {
      assert (Spread(words, gaps) + last)[0] == gaps[0][0];
    }
  }

  /** An inline command is read as its words, and nothing behind it is consumed. */
  lemma InlineMeans(words: seq<Bytes>, gaps: seq<Bytes>, last: Bytes, tail: Bytes, B: nat, lim: Limits)
    requires B > 0 && WellSpread(words, gaps) && IsGap(last) && 0 < |words| <= lim.maxArgs
    requires var line := Spread(words, gaps) + last;
             line[0] != '*' && '\n' !in line && LineFits(|line|, B, lim.maxInlineLen)
    ensures Command(Spread(words, gaps) + last + "\r\n" + tail, B, lim) == Got(words, tail)
  {
    hide LineRead, Fields;
    var line := Spread(words, gaps) + last;
    ShortLine(line, tail, B, lim.maxInlineLen);
    FieldsAre(words, gaps, last);
    assert (line + "\r\n" + tail)[0] == line[0];
  }

  // --------------------------------------------------------------- the bytes

  lemma SmallNumbers()
    ensures FormatInt(1) == "1" && FormatInt(2) == "2" && FormatInt(3) == "3" && FormatInt(-7) == "-7"
    ensures FormatInt(1024) == "1024"
  {
    assert FormatNat(1) == "1" && FormatNat(10) == "10" && FormatNat(102) == "102" && FormatNat(1024) == "1024";
  }

  /** One message of each kind, byte by byte. */
  lemma WireExamples()
    ensures Encode(Simple("OK")) == "+OK\r\n"
    ensures Encode(Error("ERR no")) == "-ERR no\r\n"
    ensures Encode(Integer(-7)) == ":-7\r\n"
    ensures Encode(Bulk("ab")) == "$2\r\nab\r\n"
    ensures Encode(NullBulk) == "$-1\r\n"
  {
    hide FormatInt;
    SmallNumbers();
  }

  lemma ArrayExample()
    ensures Encode(Array([NullBulk, Bulk("ab")])) == "*2\r\n$-1\r\n$2\r\nab\r\n"
  {
    hide FormatInt, EncodeBulk;
    SmallNumbers();
    WireExamples();
    var all := [NullBulk, Bulk("ab")];
    assert all[1..] == [Bulk("ab")] && all[1..][1..] == [];
    assert EncodeAll([]) == [];
    assert EncodeAll(all[1..]) == Encode(Bulk("ab")) + [];
    assert EncodeAll(all) == "$-1\r\n" + "$2\r\nab\r\n";
  }

  lemma CommandExample()
    ensures EncodeCommand(["GET", "k"]) == "*2\r\n$3\r\nGET\r\n$1\r\nk\r\n"
  {
    hide FormatInt;
    SmallNumbers();
    var args := ["GET", "k"];
    assert args[1..] == ["k"] && args[1..][1..] == [];
    assert EncodeBulks([]) == [];
    assert EncodeBulks(args[1..]) == "$1\r\nk\r\n";
    assert EncodeBulk("GET") == "$3\r\nGET\r\n";
    assert EncodeBulks(args) == "$3\r\nGET\r\n" + "$1\r\nk\r\n";
  }
}

/** Starting again on a file that was cut off: the file is loaded and new records
    are appended behind whatever the cut left. The file goes on being a log
    exactly when the cut fell between two records. */
module Restart {
  import opened Basics
  import Resp
  import R = Registry
  import P = Persist

  // --------------------------------------------- a torn record and what follows

  lemma StarIsNoNumber(s: Bytes)
    requires '*' in s
    ensures ParseInt(s).None?
  {
    var i :| 0 <= i < |s| && s[i] == '*';
    if i > 0 { assert s[1..][i - 1] == '*'; }
  }

  /** A line that starts without an LF and goes on with a `*` contains it. */
  lemma StarInLine(torn: Bytes, rest: Bytes, B: nat, max: int)
    requires B > 0 && '\n' !in torn && rest != [] && rest[0] == '*'
    ensures var p := Resp.LineRead(torn + rest, B, max); p.Got? ==> |torn| < |p.val| && p.val[|torn|] == '*'
    ensures var p := Resp.LineRead(torn + rest, B, max); p.Got? && torn != [] ==> '*' in p.val[1..]
  {
    var input := torn + rest;
    var n := Resp.FirstLF(input);
    forall i | 0 <= i <= |torn| ensures input[i] != '\n' {
      assert input[i] == (if i < |torn| then torn[i] else rest[0]);
    }
    var p := Resp.LineRead(input, B, max);
    if p.Got? {
      assert p.val == Resp.DropCR(input[..n]);
      assert input[|torn|] == '*';
      if torn != [] { assert p.val[1..][|torn| - 1] == '*'; }
    }
  }

  lemma CutHeader(c: char, n: int, cut: nat)
    requires c != '\n' && cut < |[c] + FormatInt(n) + "\r\n"|
    ensures '\n' !in ([c] + FormatInt(n) + "\r\n")[..cut]
  {
    var line := [c] + FormatInt(n) + "\r\n";
    Resp.FormatHasNoLF(n);
    forall i | 0 <= i < cut ensures line[..cut][i] != '\n' {
      if 0 < i <= |FormatInt(n)| { assert line[i] == FormatInt(n)[i - 1]; }
    }
  }

  /** A bulk string that was cut off is completed, if at all, with bytes of what
      follows it. */
  lemma TornBody(b: Bytes, cut: nat, rest: Bytes)
    requires cut < |b| + 2 && rest != [] && rest[0] == '*'
    ensures var p := Resp.BulkBody((b + "\r\n")[..cut] + rest, |b|); p.Got? ==> '*' in p.val
  {
    var input := (b + "\r\n")[..cut] + rest;
    assert input[cut] == '*';
    var p := Resp.BulkBody(input, |b|);
    if p.Got? {
      assert input[|b|] == input[|b|..|b| + 2][0] && input[|b| + 1] == input[|b|..|b| + 2][1];
      assert p.val[cut] == '*';
    }
  }

  lemma TornArg(b: Bytes, cut: nat, rest: Bytes, B: nat, lim: Resp.Limits)
    requires B > 0 && Resp.Sane(lim) && |b| <= lim.maxBulkLen && cut < |Resp.EncodeBulk(b)|
    requires rest != [] && rest[0] == '*'
    ensures var p := Resp.BulkArg(Resp.EncodeBulk(b)[..cut] + rest, B, lim); p.Got? ==> '*' in p.val
  {
    hide Resp.LineRead, ParseInt, FormatInt, Resp.BulkBody;
    var header := ['$'] + FormatInt(|b|) + "\r\n";
    var bulk := Resp.EncodeBulk(b);
    assert bulk == header + (b + "\r\n");
    if cut < |header| {
      assert bulk[..cut] == header[..cut];
      CutHeader('$', |b|, cut);
      StarInLine(header[..cut], rest, B, lim.maxHeaderLen);
      var p := Resp.LineRead(header[..cut] + rest, B, lim.maxHeaderLen);
      if p.Got? && cut > 0 { StarIsNoNumber(p.val[1..]); }
    } else {
      var body := (b + "\r\n")[..cut - |header|];
      assert bulk[..cut] + rest == header + (body + rest);
      Resp.HeaderLine('$', |b|, body + rest, B, lim);
      TornBody(b, cut - |header|, rest);
    }
  }

  ghost predicate HasStar(args: seq<Bytes>) {
    exists i :: 0 <= i < |args| && '*' in args[i]
  }

  lemma {:induction false} TornArgs(args: seq<Bytes>, cut: nat, rest: Bytes, B: nat, lim: Resp.Limits)
    requires B > 0 && Resp.Sane(lim) && Resp.ArgsFit(args, lim) && cut < |Resp.EncodeBulks(args)|
    requires rest != [] && rest[0] == '*'
    ensures var p := Resp.BulkArgs(Resp.EncodeBulks(args)[..cut] + rest, |args|, B, lim);
            p.Got? ==> HasStar(p.val)
  {
    hide Resp.EncodeBulk, Resp.BulkArg, Resp.Sane;
    var first, all := Resp.EncodeBulk(args[0]), Resp.EncodeBulks(args);
    if cut < |first| {
      assert all[..cut] == first[..cut];
      TornArg(args[0], cut, rest, B, lim);
      var p := Resp.BulkArgs(all[..cut] + rest, |args|, B, lim);
      if p.Got? { assert '*' in p.val[0]; }
    } else {
      var left := Resp.EncodeBulks(args[1..])[..cut - |first|];
      assert all[..cut] + rest == first + (left + rest);
      Resp.BulkArgRoundTrip(args[0], left + rest, B, lim);
      TornArgs(args[1..], cut - |first|, rest, B, lim);
      var q := Resp.BulkArgs(left + rest, |args| - 1, B, lim);
      if q.Got? {
        var i :| 0 <= i < |q.val| && '*' in q.val[i];
        assert ([args[0]] + q.val)[i + 1] == q.val[i];
      }
    }
  }

  /** A record that was cut off and has another one behind it is read, if at all,
      as a command with an argument that has swallowed some of that one. */
  lemma TornRecord(args: seq<Bytes>, cut: nat, rest: Bytes, B: nat, lim: Resp.Limits)
    requires B > 0 && Resp.Sane(lim) && Resp.CommandFits(args, lim)
    requires 0 < cut < |Resp.EncodeCommand(args)| && rest != [] && rest[0] == '*'
    ensures var p := Resp.Command(Resp.EncodeCommand(args)[..cut] + rest, B, lim); p.Got? ==> HasStar(p.val)
  {
    hide Resp.LineRead, ParseInt, FormatInt, Resp.EncodeBulks, Resp.BulkArgs, Resp.Inline, HasStar;
    var header := ['*'] + FormatInt(|args|) + "\r\n";
    var rec := Resp.EncodeCommand(args);
    assert rec == header + Resp.EncodeBulks(args);
    if cut < |header| {
      assert rec[..cut] == header[..cut];
      CutHeader('*', |args|, cut);
      StarInLine(header[..cut], rest, B, lim.maxHeaderLen);
      var p := Resp.LineRead(header[..cut] + rest, B, lim.maxHeaderLen);
      if p.Got? { StarIsNoNumber(p.val[1..]); }
    } else {
      var left := Resp.EncodeBulks(args)[..cut - |header|];
      assert rec[..cut] + rest == header + (left + rest);
      Resp.HeaderLine('*', |args|, left + rest, B, lim);
      TornArgs(args, cut - |header|, rest, B, lim);
    }
  }

  // ------------------------------------------------------------ the whole file

  /** The whole records before the cut are read first, whatever follows. */
  lemma {:induction false} LoadPrefix(recs: seq<seq<Bytes>>, tail: Bytes, B: nat, lim: Resp.Limits)
    requires B > 0 && Resp.Sane(lim) && P.AllFit(recs, lim)
    ensures P.LoadAll(R.EncodeLog(recs) + tail, B, lim).cmds == recs + P.LoadAll(tail, B, lim).cmds
  {
    hide Resp.EncodeCommand, Resp.Command, Resp.CommandFits, Resp.Sane;
    if recs == [] {
      assert R.EncodeLog(recs) + tail == tail;
    } else {
      P.LogHead(recs);
      var rest := R.EncodeLog(recs[1..]) + tail;
      assert R.EncodeLog(recs) + tail == Resp.EncodeCommand(recs[0]) + rest;
      Resp.CommandRoundTrip(recs[0], rest, B, lim);
      LoadPrefix(recs[1..], tail, B, lim);
      assert recs == [recs[0]] + recs[1..];
    }
  }

  /** The bytes of the record that the cut splits. */
  function Fragment(recs: seq<seq<Bytes>>, cut: nat): Bytes
    requires cut <= |R.EncodeLog(recs)|
  {
    P.WholeMeaning(recs, cut);
    R.EncodeLog(recs)[|R.EncodeLog(recs[..P.Whole(recs, cut)])|..cut]
  }

  lemma FragmentOf(recs: seq<seq<Bytes>>, cut: nat)
    requires cut <= |R.EncodeLog(recs)|
    ensures var w := P.Whole(recs, cut);
            R.EncodeLog(recs)[..cut] == R.EncodeLog(recs[..w]) + Fragment(recs, cut) &&
            if w == |recs| then Fragment(recs, cut) == []
            else |Fragment(recs, cut)| < |Resp.EncodeCommand(recs[w])| &&
                 Fragment(recs, cut) == Resp.EncodeCommand(recs[w])[..|Fragment(recs, cut)|]
  {
    hide Resp.EncodeCommand, R.EncodeLog, P.Whole;
    var w, file := P.Whole(recs, cut), R.EncodeLog(recs);
    var front := R.EncodeLog(recs[..w]);
    P.WholeMeaning(recs, cut);
    assert recs == recs[..w] + recs[w..];
    R.EncodeLogConcat(recs[..w], recs[w..]);
    assert file == front + R.EncodeLog(recs[w..]);
    if w < |recs| {
      P.LogHead(recs[w..]);
      var next := Resp.EncodeCommand(recs[w]);
      LogLast(recs, w);
      assert file[|front|..cut] == next[..cut - |front|];
    } else {
      assert recs[..w] == recs;
    }
  }

  lemma LogLast(recs: seq<seq<Bytes>>, w: nat)
    requires w < |recs|
    ensures R.EncodeLog(recs[..w + 1]) == R.EncodeLog(recs[..w]) + Resp.EncodeCommand(recs[w])
  {
    assert recs[..w + 1][..w] == recs[..w];
  }

  /** After a restart on a cut file, every later load finds the whole records and
      then the new ones, whatever is appended, if and only if the cut fell
      between two records. */
  lemma RestartExact(recs: seq<seq<Bytes>>, cut: nat, B: nat, lim: Resp.Limits)
    requires B > 0 && Resp.Sane(lim) && lim.maxArgs >= 1 && lim.maxBulkLen >= 7
    requires P.AllFit(recs, lim) && cut <= |R.EncodeLog(recs)|
    ensures (forall more :: P.AllFit(more, lim) ==> GoesOn(recs, cut, more, B, lim)) <==> Fragment(recs, cut) == []
  {
    hide R.EncodeLog, GoesOn, Fragment, P.AllFit, Resp.Sane;
    if Fragment(recs, cut) == [] {
      forall more | P.AllFit(more, lim) ensures GoesOn(recs, cut, more, B, lim) {
        CleanRestart(recs, cut, more, B, lim);
      }
    } else {
      TornRestart(recs, cut, B, lim);
    }
  }

  ghost predicate GoesOn(recs: seq<seq<Bytes>>, cut: nat, more: seq<seq<Bytes>>, B: nat, lim: Resp.Limits)
    requires B > 0 && cut <= |R.EncodeLog(recs)|
  {
    P.LoadAll(R.EncodeLog(recs)[..cut] + R.EncodeLog(more), B, lim).cmds == recs[..P.Whole(recs, cut)] + more
  }

  lemma CleanRestart(recs: seq<seq<Bytes>>, cut: nat, more: seq<seq<Bytes>>, B: nat, lim: Resp.Limits)
    requires B > 0 && Resp.Sane(lim) && P.AllFit(recs, lim) && P.AllFit(more, lim)
    requires cut <= |R.EncodeLog(recs)| && Fragment(recs, cut) == []
    ensures GoesOn(recs, cut, more, B, lim)
  {
    hide R.EncodeLog, P.LoadAll, P.Whole, Fragment;
    var front := recs[..P.Whole(recs, cut)];
    FragmentOf(recs, cut);
    assert R.EncodeLog(recs)[..cut] == R.EncodeLog(front);
    LoadPrefix(front, R.EncodeLog(more), B, lim);
    P.WholeFile(more, B, lim);
  }

  /** FLUSHDB after a cut inside a record is not what the next load finds. */
  lemma TornRestart(recs: seq<seq<Bytes>>, cut: nat, B: nat, lim: Resp.Limits)
    requires B > 0 && Resp.Sane(lim) && lim.maxArgs >= 1 && lim.maxBulkLen >= 7
    requires P.AllFit(recs, lim) && cut <= |R.EncodeLog(recs)| && Fragment(recs, cut) != []
    ensures P.AllFit([["FLUSHDB"]], lim) && !GoesOn(recs, cut, [["FLUSHDB"]], B, lim)
  {
    hide R.EncodeLog, P.Whole, Fragment, Resp.EncodeCommand, Resp.Command;
    var w, torn := P.Whole(recs, cut), Fragment(recs, cut);
    var more := [["FLUSHDB"]];
    var next := R.EncodeLog(more);
    FragmentOf(recs, cut);
    OneRecord("FLUSHDB");
    TornRecord(recs[w], |torn|, next, B, lim);
    LoadPrefix(recs[..w], torn + next, B, lim);
    assert R.EncodeLog(recs)[..cut] + next == R.EncodeLog(recs[..w]) + (torn + next);
    var found := P.LoadAll(torn + next, B, lim).cmds;
    assert found == [] || HasStar(found[0]);
    assert !HasStar(more[0]);
    SameFront(recs[..w], found, more);
  }

  lemma SameFront(front: seq<seq<Bytes>>, a: seq<seq<Bytes>>, b: seq<seq<Bytes>>)
    requires a != b
    ensures front + a != front + b
  {
    assert a == (front + a)[|front|..] && b == (front + b)[|front|..];
  }

  lemma OneRecord(name: Bytes)
    ensures R.EncodeLog([[name]]) != [] && R.EncodeLog([[name]])[0] == '*'
  {
    P.LogHead([[name]]);
  }

  /** What can happen instead: the server stopped right behind the header of its
      last argument, started again, and logged a record whose first line is as
      long as that argument. The next load runs a command that nobody sent, with
      that line for its last argument. */
  lemma SwallowedRecord(front: seq<Bytes>, b: Bytes, next: seq<Bytes>, B: nat, lim: Resp.Limits)
    requires B > 0 && Resp.Sane(lim) && Resp.CommandFits(front + [b], lim)
    requires |next| < TWO63 && |b| == 1 + |FormatInt(|next|)|
    ensures var torn := Resp.EncodeLen(|front| + 1) + Resp.EncodeBulks(front) + Resp.BulkHeader(b);
            Resp.Command(torn + Resp.EncodeCommand(next), B, lim)
            == Resp.Got(front + ["*" + FormatInt(|next|)], Resp.EncodeBulks(next))
  {
    hide Resp.LineRead, ParseInt, FormatInt, Resp.BulkBody;
    var line, tail := "*" + FormatInt(|next|), Resp.EncodeBulks(next);
    var body := line + "\r\n" + tail;
    var last := ['$'] + FormatInt(|b|) + "\r\n" + body;
    assert Resp.EncodeCommand(next) == body;
    var torn := Resp.EncodeLen(|front| + 1) + Resp.EncodeBulks(front) + Resp.BulkHeader(b);
    var bulks := Resp.EncodeBulks(front) + last;
    assert torn + Resp.EncodeCommand(next) == ['*'] + FormatInt(|front| + 1) + "\r\n" + bulks;
    Resp.HeaderLine('*', |front| + 1, bulks, B, lim);
    assert Resp.ArgsFit(front, lim) by {
      forall i | 0 <= i < |front| ensures |front[i]| <= lim.maxBulkLen { assert (front + [b])[i] == front[i]; }
    }
    assert (front + [b])[|front|] == b;
    Resp.HeaderLine('$', |b|, body, B, lim);
    Resp.BodyRoundTrip(line, tail);
    assert Resp.BulkArg(last, B, lim) == Resp.Got(line, tail);
    BulkArgsThen(front, last, line, tail, B, lim);
  }

  lemma {:induction false} BulkArgsThen(front: seq<Bytes>, last: Bytes, line: Bytes, tail: Bytes, B: nat,
                                        lim: Resp.Limits)
    requires B > 0 && Resp.Sane(lim) && Resp.ArgsFit(front, lim)
    requires Resp.BulkArg(last, B, lim) == Resp.Got(line, tail)
    ensures Resp.BulkArgs(Resp.EncodeBulks(front) + last, |front| + 1, B, lim) == Resp.Got(front + [line], tail)
  {
    hide Resp.EncodeBulk, Resp.BulkArg, Resp.Sane;
    if front == [] {
      assert Resp.EncodeBulks(front) + last == last;
      assert Resp.BulkArgs(tail, 0, B, lim) == Resp.Got([], tail);
      assert [line] + [] == front + [line];
    } else {
      var rest := Resp.EncodeBulks(front[1..]) + last;
      assert Resp.EncodeBulks(front) + last == Resp.EncodeBulk(front[0]) + rest;
      Resp.BulkArgRoundTrip(front[0], rest, B, lim);
      BulkArgsThen(front[1..], last, line, tail, B, lim);
      assert [front[0]] + (front[1..] + [line]) == front + [line];
    }
  }
}

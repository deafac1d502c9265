/** Sequential histories: operations in the order in which they took effect, and
    the contents they leave. */
module History {
  import opened Basics
  import opened TimedMap
  import opened Command

  /** An operation that has taken effect, with its clock readings. */
  datatype Atom = Atom(cmd: Cmd, tk: Ticks)

  ghost function Fold(hist: seq<Atom>, maxLen: int): Flat {
    if hist == [] then map[]
    else
      var a := hist[|hist| - 1];
      Exec(Fold(hist[..|hist| - 1], maxLen), a.cmd, a.tk, maxLen).m
  }

  lemma FoldNext(hist: seq<Atom>, cmd: Cmd, tk: Ticks, maxLen: int)
    ensures Fold(hist + [Atom(cmd, tk)], maxLen) == Exec(Fold(hist, maxLen), cmd, tk, maxLen).m
  {
    assert (hist + [Atom(cmd, tk)])[..|hist|] == hist;
  }
}

/**
 What the read loop guarantees: how the input is cut into lines, what -l
 does to the number of lines, how autoskip decides between rendering,
 eliding and the "*" marker, how the offset counter and the C declaration
 flag evolve, and what the stale line buffer holds.
 */
module RunFacts {
  import opened Encoding
  import opened Layout
  import opened Engine

  /** The octets read by the iterations of a trace, in order. */
  function ReadAll(t: seq<Iteration>): seq<Byte>
    requires forall k :: 0 <= k < |t| ==> t[k].n <= |t[k].line|
  {
    if |t| == 0 then [] else Read(t[0]) + ReadAll(t[1..])
  }

  /** Number of iterations of a trace whose buffer autoskip sees as zero. */
  function ZeroCount(cfg: Config, t: seq<Iteration>): nat {
    if |t| == 0 then 0 else (if ZeroLine(cfg, t[0]) then 1 else 0) + ZeroCount(cfg, t[1..])
  }

  /** No iteration of the trace was rendered. */
  predicate NoneRendered(t: seq<Iteration>) {
    forall j :: 0 <= j < |t| ==> t[j].action != Rendered
  }

  /** One turn of the loop: the first iteration and the rest of the trace. */
  lemma RunStep(cfg: Config, p: Params, rest: seq<Byte>, st: State)
    requires 0 <= p.cols && |st.line| == p.cols
    requires !Stops(cfg, p, rest, st)
    ensures var t := Run(cfg, p, rest, st);
            var n, line := ReadCount(p, rest), Fill(p, rest, st);
            && 1 <= |t|
            && t[0] == Iteration(st, line, n, Act(cfg, st, line))
            && t[1..] == Run(cfg, p, rest[n..], Next(cfg, st, line, Act(cfg, st, line)))
  {
  }

  // ---------------------------------------------------------------------------
  // Chunking

  /**
   Without -l, the lines partition the input in order: the octets read,
   concatenated, are the input, and every line but the last is full, so line
   k holds input[k·cols .. min((k+1)·cols, |input|)].
   */
  lemma {:induction false} RunChunks(cfg: Config, p: Params, rest: seq<Byte>, st: State)
    requires cfg.length == Unset
    requires 1 <= p.cols && |st.line| == p.cols
    ensures var t := Run(cfg, p, rest, st);
            && ReadAll(t) == rest
            && forall k :: 0 <= k < |t| - 1 ==> t[k].n == p.cols
    decreases |rest|
  {
    var t := Run(cfg, p, rest, st);
    if !Stops(cfg, p, rest, st) {
      RunStep(cfg, p, rest, st);
      var n, line := ReadCount(p, rest), Fill(p, rest, st);
      var t' := Run(cfg, p, rest[n..], Next(cfg, st, line, Act(cfg, st, line)));
      RunChunks(cfg, p, rest[n..], Next(cfg, st, line, Act(cfg, st, line)));
      assert Read(t[0]) == rest[..n];
      assert rest == rest[..n] + rest[n..];
      if |t'| > 0 {
        assert n == p.cols;
      }
      forall k | 1 <= k < |t| - 1 ensures t[k].n == p.cols {
        assert t[k] == t'[k - 1];
      }
    }
  }

  /** One more full line of c octets moves the bounds by one line. */
  lemma LineBoundsStep(m: int, c: int, r: int)
    requires (m - 1) * c < r - c <= m * c
    ensures m * c < r <= (m + 1) * c
  {
    assert (m - 1) * c == m * c - c;
    assert (m + 1) * c == m * c + c;
  }

  /** Without -l, the number of lines is the input length divided by cols,
      rounded up: (lines - 1)·cols < |input| <= lines·cols. */
  lemma {:induction false} RunLineCount(cfg: Config, p: Params, rest: seq<Byte>, st: State)
    requires cfg.length == Unset
    requires 1 <= p.cols && |st.line| == p.cols
    ensures var m := |Run(cfg, p, rest, st)|;
            (m - 1) * p.cols < |rest| <= m * p.cols
    decreases |rest|
  {
    if !Stops(cfg, p, rest, st) {
      RunStep(cfg, p, rest, st);
      var n, line := ReadCount(p, rest), Fill(p, rest, st);
      var st' := Next(cfg, st, line, Act(cfg, st, line));
      var m := |Run(cfg, p, rest, st)|;
      var m' := |Run(cfg, p, rest[n..], st')|;
      assert m == m' + 1;
      if |rest| <= p.cols {
        assert m' == 0;
      } else {
        RunLineCount(cfg, p, rest[n..], st');
        assert |rest[n..]| == |rest| - p.cols;
        LineBoundsStep(m', p.cols, |rest|);
      }
    }
  }

  /** The buffer past the octets read still holds what the previous iteration
      left there (the zeroed buffer of the initial state, for the first). */
  lemma {:induction false} RunStaleBuffer(cfg: Config, p: Params, rest: seq<Byte>, st: State)
    requires 0 <= p.cols && |st.line| == p.cols
    ensures var t := Run(cfg, p, rest, st);
            forall k :: 0 <= k < |t| ==>
              t[k].line == Read(t[k]) + (if k == 0 then st.line else t[k - 1].line)[t[k].n..]
    decreases |rest|
  {
    var t := Run(cfg, p, rest, st);
    if !Stops(cfg, p, rest, st) {
      RunStep(cfg, p, rest, st);
      var n, line := ReadCount(p, rest), Fill(p, rest, st);
      var st' := Next(cfg, st, line, Act(cfg, st, line));
      RunStaleBuffer(cfg, p, rest[n..], st');
      var t' := Run(cfg, p, rest[n..], st');
      assert t[0].line[..n] == rest[..n];
      assert t[0].line == Read(t[0]) + st.line[t[0].n..];
      forall k | 1 <= k < |t|
        ensures t[k].line == Read(t[k]) + t[k - 1].line[t[k].n..]
      {
        assert t[k] == t'[k - 1];
        if k == 1 {
          assert t[0].line == st'.line;
        } else {
          assert t[k - 1] == t'[k - 2];
        }
      }
    }
  }

  // ---------------------------------------------------------------------------
  // -l

  /**
   With -l m (m >= 0) the loop stops at its second iteration: at most one
   line, none when m is 0, and otherwise exactly one line holding the first
   min(cols, |input|) octets when the input is not empty.
   */
  lemma RunWithLength(cfg: Config, p: Params, rest: seq<Byte>, st: State)
    requires 0 <= cfg.length && st.totalOcts == 0
    requires 0 <= p.cols && |st.line| == p.cols
    ensures var t := Run(cfg, p, rest, st);
            && |t| <= 1
            && (cfg.length == 0 ==> |t| == 0)
            && (0 < cfg.length && 1 <= p.cols && 1 <= |rest| ==>
                  |t| == 1 && Read(t[0]) == rest[..Min(p.cols, |rest|)])
  {
    if !Stops(cfg, p, rest, st) {
      RunStep(cfg, p, rest, st);
      var n, line := ReadCount(p, rest), Fill(p, rest, st);
      var st' := Next(cfg, st, line, Act(cfg, st, line));
      assert Stops(cfg, p, rest[n..], st');
    }
  }

  // ---------------------------------------------------------------------------
  // Autoskip

  lemma {:induction false} ZeroCountAppend(cfg: Config, a: seq<Iteration>, b: seq<Iteration>)
    ensures ZeroCount(cfg, a + b) == ZeroCount(cfg, a) + ZeroCount(cfg, b)
    decreases |a|
  {
    if |a| > 0 {
      ZeroCountAppend(cfg, a[1..], b);
      assert (a + b)[0] == a[0];
      assert (a + b)[1..] == a[1..] + b;
    } else {
      assert a + b == b;
    }
  }

  /**
   nulLine counts the zero buffers met so far, and an iteration is elided
   exactly when its buffer is zero and an earlier one was, with the "*"
   marker exactly when exactly one earlier buffer was zero.
   */
  lemma {:induction false} RunAutoskip(cfg: Config, p: Params, rest: seq<Byte>, st: State)
    requires 0 <= p.cols && |st.line| == p.cols
    ensures var t := Run(cfg, p, rest, st);
            forall k :: 0 <= k < |t| ==>
              && t[k].pre.nulLine == st.nulLine + ZeroCount(cfg, t[..k])
              && (t[k].action.Elided? <==> ZeroLine(cfg, t[k]) && 1 <= t[k].pre.nulLine)
              && (t[k].action == Elided(true) <==> ZeroLine(cfg, t[k]) && t[k].pre.nulLine == 1)
    decreases |rest|
  {
    var t := Run(cfg, p, rest, st);
    if !Stops(cfg, p, rest, st) {
      RunStep(cfg, p, rest, st);
      var n, line := ReadCount(p, rest), Fill(p, rest, st);
      var a := Act(cfg, st, line);
      var st' := Next(cfg, st, line, a);
      assert st'.nulLine == st.nulLine + (if ZeroLine(cfg, t[0]) then 1 else 0);
      RunAutoskip(cfg, p, rest[n..], st');
      var t' := t[1..];
      assert t[..0] == [];
      assert ZeroCount(cfg, [t[0]]) == st'.nulLine - st.nulLine;
      forall k | 1 <= k < |t|
        ensures t[k].pre.nulLine == st.nulLine + ZeroCount(cfg, t[..k])
      {
        assert t[k] == t'[k - 1];
        PrefixCons(t, k);
        ZeroCountAppend(cfg, [t[0]], t'[..k - 1]);
      }
    }
  }

  /** ZeroCount over a prefix grows by one at each zero buffer. */
  lemma ZeroCountPrefix(cfg: Config, t: seq<Iteration>, j: nat, k: nat)
    requires j < k <= |t|
    ensures ZeroCount(cfg, t[..k]) >= ZeroCount(cfg, t[..j]) + (if ZeroLine(cfg, t[j]) then 1 else 0)
  {
    assert t[..k] == t[..j] + ([t[j]] + t[j + 1..k]);
    ZeroCountAppend(cfg, t[..j], [t[j]] + t[j + 1..k]);
    ZeroCountAppend(cfg, [t[j]], t[j + 1..k]);
    assert ZeroCount(cfg, [t[j]]) == (if ZeroLine(cfg, t[j]) then 1 else 0);
  }

  /**
   From the initial state: a buffer that is not zero is rendered; the first
   zero buffer is rendered; every later zero buffer is elided, however many
   non-zero lines came between (nulLine is never reset); and the "*" marker
   appears on at most one line, the second zero buffer.
   */
  lemma AutoskipFromStart(cfg: Config, p: Params, input: seq<Byte>)
    requires 0 <= p.cols
    ensures var t := Run(cfg, p, input, Initial(p));
            && (forall k :: 0 <= k < |t| && !ZeroLine(cfg, t[k]) ==> t[k].action == Rendered)
            && (forall k :: (0 <= k < |t| && ZeroLine(cfg, t[k]) && ZeroCount(cfg, t[..k]) == 0) ==>
                  t[k].action == Rendered)
            && (forall j, k :: (0 <= j < k < |t| && ZeroLine(cfg, t[j]) && ZeroLine(cfg, t[k])) ==>
                  t[k].action.Elided?)
            && (forall k :: 0 <= k < |t| ==>
                  (t[k].action == Elided(true) <==> ZeroLine(cfg, t[k]) && ZeroCount(cfg, t[..k]) == 1))
            && (forall j, k :: (0 <= j < |t| && 0 <= k < |t| &&
                  t[j].action == Elided(true) && t[k].action == Elided(true)) ==> j == k)
  {
    var t := Run(cfg, p, input, Initial(p));
    RunAutoskip(cfg, p, input, Initial(p));
    forall j, k | 0 <= j < k < |t| && ZeroLine(cfg, t[j])
      ensures ZeroCount(cfg, t[..k]) >= ZeroCount(cfg, t[..j]) + 1
    {
      ZeroCountPrefix(cfg, t, j, k);
    }
    forall k | 0 <= k < |t|
      ensures t[k].action == Elided(true) <==> ZeroLine(cfg, t[k]) && ZeroCount(cfg, t[..k]) == 1
    {
      RunAutoskip(cfg, p, input, Initial(p));
      assert Run(cfg, p, input, Initial(p))[k].pre.nulLine
             == Initial(p).nulLine + ZeroCount(cfg, Run(cfg, p, input, Initial(p))[..k]);
    }
    forall j, k | 0 <= j < |t| && 0 <= k < |t| &&
                  t[j].action == Elided(true) && t[k].action == Elided(true)
      ensures j == k
    {
    }
  }

  // ---------------------------------------------------------------------------
  // Offsets and the C declaration

  /** When offsets are shown, the counter grows by one per line, rendered or
      elided: iteration k starts with lineOffset k more than the run did. */
  lemma {:induction false} RunOffsets(cfg: Config, p: Params, rest: seq<Byte>, st: State)
    requires ShowsOffsets(cfg)
    requires 0 <= p.cols && |st.line| == p.cols
    ensures var t := Run(cfg, p, rest, st);
            forall k :: 0 <= k < |t| ==> t[k].pre.lineOffset == st.lineOffset + k
    decreases |rest|
  {
    var t := Run(cfg, p, rest, st);
    if !Stops(cfg, p, rest, st) {
      RunStep(cfg, p, rest, st);
      var n, line := ReadCount(p, rest), Fill(p, rest, st);
      RunOffsets(cfg, p, rest[n..], Next(cfg, st, line, Act(cfg, st, line)));
    }
  }

  /** The first k elements of a sequence: its head, then k - 1 of its tail. */
  lemma PrefixCons<T>(t: seq<T>, k: nat)
    requires 1 <= k <= |t|
    ensures t[..k] == [t[0]] + t[1..][..k - 1]
  {
    var a, b := t[..k], [t[0]] + t[1..][..k - 1];
    assert forall i :: 1 <= i < k ==> a[i] == t[1..][i - 1] == b[i];
  }

  lemma NoneRenderedCons(it: Iteration, t: seq<Iteration>)
    ensures NoneRendered([it] + t) <==> it.action != Rendered && NoneRendered(t)
  {
    var s := [it] + t;
    assert s[0] == it;
    if NoneRendered(s) {
      forall j | 0 <= j < |t| ensures t[j].action != Rendered {
        assert s[j + 1] == t[j];
      }
    }
    if it.action != Rendered && NoneRendered(t) {
      forall j | 1 <= j < |s| ensures s[j].action != Rendered {
        assert s[j] == t[j - 1];
      }
    }
  }

  /** The C declaration flag is still set at iteration k exactly when it was
      set at the start and, in a dump that writes the declaration, no earlier
      iteration was rendered. */
  lemma {:induction false} RunDeclaration(cfg: Config, p: Params, rest: seq<Byte>, st: State)
    requires 0 <= p.cols && |st.line| == p.cols
    ensures var t := Run(cfg, p, rest, st);
            forall k :: 0 <= k < |t| ==>
              (t[k].pre.doCHeader <==>
                 st.doCHeader && (WritesDeclaration(cfg) ==> NoneRendered(t[..k])))
    decreases |rest|
  {
    var t := Run(cfg, p, rest, st);
    if !Stops(cfg, p, rest, st) {
      RunStep(cfg, p, rest, st);
      var n, line := ReadCount(p, rest), Fill(p, rest, st);
      var a := Act(cfg, st, line);
      var st' := Next(cfg, st, line, a);
      assert st'.doCHeader == (st.doCHeader && (a == Rendered ==> !WritesDeclaration(cfg)));
      RunDeclaration(cfg, p, rest[n..], st');
      var t' := t[1..];
      assert NoneRendered(t[..0]);
      forall k | 1 <= k < |t|
        ensures NoneRendered(t[..k]) <==> a != Rendered && NoneRendered(t'[..k - 1])
      {
        PrefixCons(t, k);
        NoneRenderedCons(t[0], t'[..k - 1]);
      }
    }
  }
}

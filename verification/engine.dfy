/**
 The read loop of the dump engine and the dump as a whole.

 Run follows the loop from one state to the next and records each iteration
 that got past the end-of-input and length checks: the state it started in,
 the line buffer after the read, the number of octets read, and whether the
 line was rendered or elided by autoskip. Emit renders that trace; Dump is
 the whole transform from flags, file name and input octets to output text.
 */
module Engine {
  import opened Encoding
  import opened Layout
  import opened Render

  /**
   The variables the loop carries from one iteration to the next. `line` is
   the buffer reads land in; a short read overwrites only its first n octets.
   */
  datatype State = State(
    lineOffset: nat,   // lines rendered or skipped so far (with offsets shown)
    nulLine: nat,      // all-zero buffers met so far under autoskip; never reset
    totalOcts: int,    // grows by -l once per iteration when -l is given
    doCHeader: bool,   // the C declaration is still to be written
    line: seq<Byte>)

  /** The state before the first read: a zeroed line buffer of cols octets. */
  function Initial(p: Params): State
    requires 0 <= p.cols
  {
    State(0, 0, 0, true, Zeros(p.cols))
  }

  /** What an iteration did with its line: rendered it, or skipped it (with the
      "*" marker when it was the second all-zero buffer). */
  datatype Action = Rendered | Elided(star: bool)

  datatype Iteration = Iteration(pre: State, line: seq<Byte>, n: nat, action: Action)

  /** The octets an iteration read (the buffer past n is left from earlier reads). */
  function Read(it: Iteration): seq<Byte>
    requires it.n <= |it.line|
  {
    it.line[..it.n]
  }

  /** Whether autoskip treats a buffer as a zero line. */
  predicate ZeroLineBuffer(cfg: Config, line: seq<Byte>) {
    cfg.autoskip && Empty(line)
  }

  predicate ZeroLine(cfg: Config, it: Iteration) {
    ZeroLineBuffer(cfg, it.line)
  }

  predicate WellFormed(p: Params, it: Iteration) {
    1 <= it.n <= |it.line| == p.cols
  }

  function Min(a: int, b: int): int {
    if a < b then a else b
  }

  /** How many octets io.ReadFull puts into the line buffer. */
  function ReadCount(p: Params, rest: seq<Byte>): nat
    requires 0 <= p.cols
  {
    Min(p.cols, |rest|)
  }

  /** The loop ends: nothing was read, or -l is given and totalOcts reached it. */
  predicate Stops(cfg: Config, p: Params, rest: seq<Byte>, st: State)
    requires 0 <= p.cols
  {
    ReadCount(p, rest) == 0 || (cfg.length != Unset && st.totalOcts == cfg.length)
  }

  /** The line buffer after the read: the octets read, then what the buffer held. */
  function Fill(p: Params, rest: seq<Byte>, st: State): (line: seq<Byte>)
    requires 0 <= p.cols && |st.line| == p.cols
    // the octets read land at the front; the rest of the buffer is untouched
    ensures |line| == p.cols
    ensures line[..ReadCount(p, rest)] == rest[..ReadCount(p, rest)]
    ensures line[ReadCount(p, rest)..] == st.line[ReadCount(p, rest)..]
  {
    var n := ReadCount(p, rest);
    rest[..n] + st.line[n..]
  }

  /** Autoskip's decision on a buffer: nulLine is incremented for a zero
      buffer, and the line is skipped when the incremented count exceeds 1,
      after "*" when the count before was 1. */
  function Act(cfg: Config, st: State, line: seq<Byte>): (a: Action)
    ensures a.Elided? <==>
              cfg.autoskip && (forall i :: 0 <= i < |line| ==> line[i] == 0) && 1 <= st.nulLine
    ensures a == Elided(true) <==> a.Elided? && st.nulLine == 1
  {
    if cfg.autoskip && Empty(line) && st.nulLine + 1 > 1 then Elided(st.nulLine == 1) else Rendered
  }

  /** The state after an iteration with the given action. The counters never
      go back, and a cleared declaration flag stays cleared. */
  function Next(cfg: Config, st: State, line: seq<Byte>, action: Action): (st': State)
    ensures st.nulLine <= st'.nulLine && st.lineOffset <= st'.lineOffset
    ensures cfg.length == Unset ==> st'.totalOcts == st.totalOcts
    ensures 0 <= cfg.length ==> st.totalOcts <= st'.totalOcts
    ensures !st.doCHeader ==> !st'.doCHeader
  {
    var nul := if cfg.autoskip && Empty(line) then st.nulLine + 1 else st.nulLine;
    var total := if cfg.length != Unset then st.totalOcts + cfg.length else st.totalOcts;
    match action
    case Elided(_) => State(st.lineOffset + 1, nul, total, st.doCHeader, line)
    case Rendered =>
      State(if ShowsOffsets(cfg) then st.lineOffset + 1 else st.lineOffset,
            nul, total, st.doCHeader && !WritesDeclaration(cfg), line)
  }

  /**
   The loop over the remaining input `rest`: io.ReadFull fills up to cols
   octets of the line buffer; a read of no octets ends the run, and so does -l
   once totalOcts has reached it; an all-zero buffer under autoskip is skipped
   once an earlier one was seen, with "*" for the second.
   */
  function Run(cfg: Config, p: Params, rest: seq<Byte>, st: State): (t: seq<Iteration>)
    requires 0 <= p.cols && |st.line| == p.cols
    ensures forall k :: 0 <= k < |t| ==> WellFormed(p, t[k])
    decreases |rest|
  {
    if Stops(cfg, p, rest, st) then []
    else
      var n := ReadCount(p, rest);
      var line := Fill(p, rest, st);
      var action := Act(cfg, st, line);
      [Iteration(st, line, n, action)] + Run(cfg, p, rest[n..], Next(cfg, st, line, action))
  }

  /** Text that is empty or ends in a newline: a sequence of whole lines. */
  predicate WholeLines(s: string) {
    |s| == 0 || s[|s| - 1] == '\n'
  }

  lemma WholeLinesAppend(a: string, b: string)
    ensures WholeLines(a) && WholeLines(b) ==> WholeLines(a + b)
  {
    if |b| > 0 {
      assert (a + b)[|a + b| - 1] == b[|b| - 1];
    } else {
      assert a + b == a;
    }
  }

  /** The outcomes of consecutive writes put together: the first panic, or
      all the texts one after the other. */
  function Join(os: seq<Outcome>): (r: Outcome)
    ensures r.Text? <==> forall k :: 0 <= k < |os| ==> os[k].Text?
    ensures r.Panic? ==> r in os
    ensures r.Text? && (forall k :: 0 <= k < |os| ==> WholeLines(os[k].text)) ==> WholeLines(r.text)
  {
    if |os| == 0 then Text("")
    else if os[0].Panic? then os[0]
    else
      var rest := Join(os[1..]);
      assert forall k :: 1 <= k < |os| ==> os[1..][k - 1] == os[k];
      if rest.Panic? then rest
      else
        WholeLinesAppend(os[0].text, rest.text);
        Text(os[0].text + rest.text)
  }

  /** Joining two runs of writes: the text of the first, then that of the
      second, unless one of them panics (the first panic wins). */
  lemma {:induction false} JoinAppend(o1: seq<Outcome>, o2: seq<Outcome>)
    ensures var a, b := Join(o1), Join(o2);
            Join(o1 + o2) == if a.Panic? then a else if b.Panic? then b else Text(a.text + b.text)
    decreases |o1|
  {
    if |o1| == 0 {
      assert o1 + o2 == o2;
    } else {
      var o, rest := o1[0], o1[1..];
      assert o1 == [o] + rest;
      assert o1 + o2 == [o] + (rest + o2);
      JoinCons(o, rest);
      JoinCons(o, rest + o2);
      JoinAppend(rest, o2);
      if o.Text? {
        var a', b := Join(rest), Join(o2);
        if a'.Text? && b.Text? {
          assert o.text + (a'.text + b.text) == (o.text + a'.text) + b.text;
        }
      }
    }
  }

  /** One write in front of others: its panic, theirs, or its text first. */
  lemma JoinCons(o: Outcome, os: seq<Outcome>)
    ensures var b := Join(os);
            Join([o] + os) == if o.Panic? then o else if b.Panic? then b else Text(o.text + b.text)
  {
    assert ([o] + os)[0] == o;
    assert ([o] + os)[1..] == os;
  }

  /** In the joined text, write k follows the writes before it. */
  lemma JoinAt(os: seq<Outcome>, k: nat)
    requires k < |os| && Join(os).Text?
    ensures Join(os[..k]).Text? && os[k].Text?
    ensures var off, w := |Join(os[..k]).text|, os[k].text;
            HoldsAt(Join(os).text, off, w)
  {
    var pre, post := os[..k], os[k..];
    assert os == pre + post;
    JoinAppend(pre, post);
    JoinStep(post);
    assert post[0] == os[k];
    Infix(Join(pre).text, os[k].text, Join(post[1..]).text);
  }

  /** A join that does not panic starts with the first write's text. */
  lemma JoinStep(os: seq<Outcome>)
    requires 1 <= |os| && Join(os).Text?
    ensures os[0].Text? && Join(os[1..]).Text?
    ensures Join(os).text == os[0].text + Join(os[1..]).text
  {
  }

  /** The middle of a + (w + c) is w. */
  lemma Infix(a: string, w: string, c: string)
    ensures (a + (w + c))[|a|..|a| + |w|] == w
  {
  }

  /** What one iteration writes: its rendered line, the "*" marker line, or
      nothing for a silently skipped line. */
  function Written(cfg: Config, p: Params, cname: string, it: Iteration): (r: Outcome)
    requires WellFormed(p, it)
    ensures r.Panic? ==> it.action == Rendered && r.fault != NegativeLineSize
    ensures r.Text? ==> WholeLines(r.text)
    ensures it.action == Elided(true) ==> r == Text("*\n")
    ensures it.action == Elided(false) ==> r == Text("")
  {
    match it.action
    case Elided(star) => Text(if star then "*\n" else "")
    case Rendered => RenderLine(cfg, p, cname, it.pre.lineOffset, it.pre.doCHeader, it.line, it.n)
  }

  /** The writes of each iteration of a trace, in order. */
  function Lines(cfg: Config, p: Params, cname: string, t: seq<Iteration>): (os: seq<Outcome>)
    requires forall k :: 0 <= k < |t| ==> WellFormed(p, t[k])
    ensures |os| == |t|
    ensures forall k :: 0 <= k < |t| ==> os[k] == Written(cfg, p, cname, t[k])
  {
    seq(|t|, k requires 0 <= k < |t| && WellFormed(p, t[k]) => Written(cfg, p, cname, t[k]))
  }

  /** Renders the trace; the first panic ends the run. The text is made of
      whole lines, and only make can report a negative line size. */
  function Emit(cfg: Config, p: Params, cname: string, t: seq<Iteration>): (r: Outcome)
    requires forall k :: 0 <= k < |t| ==> WellFormed(p, t[k])
    ensures r.Panic? ==> r.fault != NegativeLineSize
    ensures r.Text? ==> WholeLines(r.text)
  {
    Join(Lines(cfg, p, cname, t))
  }

  /** Rendering two traces one after the other: the text of the first, then
      the text of the second, unless one of them panics (the first panic wins). */
  lemma EmitAppend(cfg: Config, p: Params, cname: string, t1: seq<Iteration>, t2: seq<Iteration>)
    requires forall k :: 0 <= k < |t1| ==> WellFormed(p, t1[k])
    requires forall k :: 0 <= k < |t2| ==> WellFormed(p, t2[k])
    ensures forall k :: 0 <= k < |t1 + t2| ==> WellFormed(p, (t1 + t2)[k])
    ensures var a, b := Emit(cfg, p, cname, t1), Emit(cfg, p, cname, t2);
            Emit(cfg, p, cname, t1 + t2) ==
              if a.Panic? then a else if b.Panic? then b else Text(a.text + b.text)
  {
    var t := t1 + t2;
    forall k | 0 <= k < |t| ensures WellFormed(p, t[k]) {
      if k < |t1| { assert t[k] == t1[k]; } else { assert t[k] == t2[k - |t1|]; }
    }
    var l1, l2 := Lines(cfg, p, cname, t1), Lines(cfg, p, cname, t2);
    assert Lines(cfg, p, cname, t) == l1 + l2;
    JoinAppend(l1, l2);
  }

  /** In the text of a trace, iteration k's text follows the text of the
      iterations before it. */
  lemma EmitAt(cfg: Config, p: Params, cname: string, t: seq<Iteration>, k: nat)
    requires forall k :: 0 <= k < |t| ==> WellFormed(p, t[k])
    requires k < |t| && Emit(cfg, p, cname, t).Text?
    ensures forall j :: 0 <= j < k ==> WellFormed(p, t[..k][j])
    ensures Emit(cfg, p, cname, t[..k]).Text? && Written(cfg, p, cname, t[k]).Text?
    ensures var off, w := |Emit(cfg, p, cname, t[..k]).text|, Written(cfg, p, cname, t[k]).text;
            var s := Emit(cfg, p, cname, t).text;
            HoldsAt(s, off, w)
  {
    LinesPrefix(cfg, p, cname, t, k);
    JoinAt(Lines(cfg, p, cname, t), k);
  }

  /** What the first k iterations write starts the text of the whole trace,
      and succeeds when the whole trace does. */
  lemma EmitPrefix(cfg: Config, p: Params, cname: string, t: seq<Iteration>, k: nat)
    requires forall k :: 0 <= k < |t| ==> WellFormed(p, t[k])
    requires k <= |t| && Emit(cfg, p, cname, t).Text?
    ensures forall j :: 0 <= j < k ==> WellFormed(p, t[..k][j])
    ensures Emit(cfg, p, cname, t[..k]).Text?
    ensures var pre, s := Emit(cfg, p, cname, t[..k]).text, Emit(cfg, p, cname, t).text;
            |pre| <= |s| && s[..|pre|] == pre
  {
    LinesPrefix(cfg, p, cname, t, k);
    var os := Lines(cfg, p, cname, t);
    assert os == os[..k] + os[k..];
    JoinAppend(os[..k], os[k..]);
  }

  /** Within the first m iterations of a trace, iteration k's text follows
      the text of the iterations before it. */
  lemma EmitWithin(cfg: Config, p: Params, cname: string, t: seq<Iteration>, m: nat, k: nat)
    requires forall k :: 0 <= k < |t| ==> WellFormed(p, t[k])
    requires k < m <= |t| && Emit(cfg, p, cname, t[..m]).Text?
    ensures forall j :: 0 <= j < k ==> WellFormed(p, t[..k][j])
    ensures Emit(cfg, p, cname, t[..k]).Text? && Written(cfg, p, cname, t[k]).Text?
    ensures var off, w := |Emit(cfg, p, cname, t[..k]).text|, Written(cfg, p, cname, t[k]).text;
            var s := Emit(cfg, p, cname, t[..m]).text;
            HoldsAt(s, off, w)
  {
    LinesPrefix(cfg, p, cname, t, m);
    LinesPrefix(cfg, p, cname, t, k);
    JoinWithin(Lines(cfg, p, cname, t), m, k);
  }

  /** The text of the first m iterations ends with what iteration m - 1 writes. */
  lemma EmitLast(cfg: Config, p: Params, cname: string, t: seq<Iteration>, m: nat)
    requires forall k :: 0 <= k < |t| ==> WellFormed(p, t[k])
    requires 0 < m <= |t| && Emit(cfg, p, cname, t[..m]).Text?
    ensures Written(cfg, p, cname, t[m - 1]).Text?
    ensures EndsWith(Emit(cfg, p, cname, t[..m]).text, Written(cfg, p, cname, t[m - 1]).text)
  {
    LinesPrefix(cfg, p, cname, t, m);
    JoinLast(Lines(cfg, p, cname, t), m);
  }

  /** Within the first m writes, write k follows the writes before it. */
  lemma JoinWithin(os: seq<Outcome>, m: nat, k: nat)
    requires k < m <= |os| && Join(os[..m]).Text?
    ensures Join(os[..k]).Text? && os[k].Text?
    ensures var off, w, s := |Join(os[..k]).text|, os[k].text, Join(os[..m]).text;
            HoldsAt(s, off, w)
  {
    JoinAt(os[..m], k);
    assert os[..m][..k] == os[..k];
  }

  /** The join of the first m writes ends with write m - 1. */
  lemma JoinLast(os: seq<Outcome>, m: nat)
    requires 0 < m <= |os| && Join(os[..m]).Text?
    ensures os[m - 1].Text?
    ensures EndsWith(Join(os[..m]).text, os[m - 1].text)
  {
    var pre := os[..m - 1];
    assert os[..m] == pre + [os[m - 1]];
    JoinAppend(pre, [os[m - 1]]);
    JoinOne(os[m - 1]);
  }

  /** In an encoding mode a rendered iteration writes the tokens of the
      octets it read right after its nine-character header. */
  lemma WrittenTokens(cfg: Config, p: Params, cname: string, it: Iteration)
    requires WellFormed(p, it) && it.action == Rendered && Encodes(PayloadMode(cfg))
    requires Written(cfg, p, cname, it).Text?
    ensures DigitWidth(PayloadMode(cfg)) <= p.octs
    ensures HoldsAt(Written(cfg, p, cname, it).text, 9,
                    Tokens(Encoded(PayloadMode(cfg), Caps(cfg), p.octs, it.line, it.n), 0,
                           PayloadMode(cfg) != Plain))
  {
    LineTokens(cfg, p, cname, it.pre.lineOffset, it.pre.doCHeader, it.line, it.n);
  }

  /** In an encoding mode, any text holding what a rendered iteration wrote
      reads back, after the line's header, the octets it read. */
  lemma WrittenCut(cfg: Config, p: Params, cname: string, it: Iteration, s: string, off: nat)
    requires WellFormed(p, it) && it.action == Rendered && Encodes(PayloadMode(cfg))
    requires Written(cfg, p, cname, it).Text? && HoldsAt(s, off, Written(cfg, p, cname, it).text)
    ensures ReadsBack(s, off + 9, PayloadMode(cfg), Caps(cfg), p.octs, Read(it))
  {
    WrittenTokens(cfg, p, cname, it);
    CutWithin(s, off, Written(cfg, p, cname, it).text, PayloadMode(cfg), Caps(cfg), p.octs, it.line, it.n);
  }

  /** An empty trace writes nothing. */
  lemma EmitEmpty(cfg: Config, p: Params, cname: string)
    ensures Emit(cfg, p, cname, []) == Text("")
  {
    assert Lines(cfg, p, cname, []) == [];
  }

  /** With offsets shown, a rendered line starts with the header of its offset. */
  lemma WrittenHeader(cfg: Config, p: Params, cname: string, it: Iteration)
    requires WellFormed(p, it) && ShowsOffsets(cfg) && it.action == Rendered
    requires Written(cfg, p, cname, it).Text?
    ensures it.pre.lineOffset < 0x1000000
    ensures HoldsAt(Written(cfg, p, cname, it).text, 0, Header(it.pre.lineOffset))
  {
  }

  /** With the declaration in place of offsets, a rendered line whose
      declaration flag is still set starts with the C declaration. */
  lemma WrittenDeclaration(cfg: Config, p: Params, cname: string, it: Iteration)
    requires WellFormed(p, it) && WritesDeclaration(cfg) && it.action == Rendered && it.pre.doCHeader
    requires Written(cfg, p, cname, it).Text?
    ensures HoldsAt(Written(cfg, p, cname, it).text, 0, "unsigned char " + cname + "[] = {")
  {
  }

  /** Joining a single write gives that write. */
  lemma JoinOne(o: Outcome)
    ensures Join([o]) == o
  {
    assert [o][1..] == [];
    if o.Text? {
      assert o.text + "" == o.text;
    }
  }

  /** The writes of a prefix of a trace are the prefix of its writes. */
  lemma LinesPrefix(cfg: Config, p: Params, cname: string, t: seq<Iteration>, k: nat)
    requires forall k :: 0 <= k < |t| ==> WellFormed(p, t[k])
    requires k <= |t|
    ensures forall j :: 0 <= j < k ==> WellFormed(p, t[..k][j])
    ensures Lines(cfg, p, cname, t[..k]) == Lines(cfg, p, cname, t)[..k]
  {
    assert forall j :: 0 <= j < k ==> t[..k][j] == t[j];
  }

  /**
   How many iterations reach the output: every one up to the last rendered
   line. The writer is flushed only after a rendered line, so the "*" marker
   written after the last one stays in the buffer when the dump returns.
   */
  function Flushed(t: seq<Iteration>): (m: nat)
    ensures m <= |t|
    ensures 0 < m ==> t[m - 1].action == Rendered
    ensures forall k :: m <= k < |t| ==> t[k].action.Elided?
  {
    if |t| == 0 then 0
    else if t[|t| - 1].action == Rendered then |t|
    else
      var m := Flushed(t[..|t| - 1]);
      assert forall k :: m <= k < |t| - 1 ==> t[..|t| - 1][k] == t[k];
      m
  }

  /** xxd(r, fname): the whole dump of `input`, as far as it is flushed. The
      text is made of whole lines; what the lines are is stated in DumpFacts. */
  function Dump(cfg: Config, fname: string, input: seq<Byte>): (r: Outcome)
    ensures r == Panic(NegativeLineSize) <==> Resolve(cfg).cols < 0
    ensures r.Text? ==> WholeLines(r.text)
  {
    var p := Resolve(cfg);
    if p.cols < 0 then Panic(NegativeLineSize)
    else
      var t := Run(cfg, p, input, Initial(p));
      Emit(cfg, p, CName(fname), t[..Flushed(t)])
  }
}

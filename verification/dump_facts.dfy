/**
 What the whole dump guarantees: when it panics and when it does not, what
 an empty input gives, and where the offset header of each line comes from.
 */
module DumpFacts {
  import opened Encoding
  import opened Layout
  import opened Render
  import opened Engine
  import opened RunFacts

  /** Any negative -l other than -1 makes the dump panic in make, whatever -c says. */
  lemma DumpNegativeWidth(cfg: Config, fname: string, input: seq<Byte>)
    requires cfg.length < 0 && cfg.length != Unset
    ensures Dump(cfg, fname, input) == Panic(NegativeLineSize)
  {
  }

  /** An empty input gives empty output (when the width is not negative). */
  lemma DumpEmptyInput(cfg: Config, fname: string)
    requires 0 <= Resolve(cfg).cols
    ensures Dump(cfg, fname, []) == Text("")
  {
  }

  /** Rendering a trace succeeds when the digit buffer is large enough and
      every rendered line's offset fits in six hex digits. */
  lemma EmitSucceeds(cfg: Config, p: Params, cname: string, t: seq<Iteration>)
    requires forall k :: 0 <= k < |t| ==> WellFormed(p, t[k])
    requires !BufferTooSmall(cfg, p)
    requires ShowsOffsets(cfg) ==> forall k :: 0 <= k < |t| ==> t[k].pre.lineOffset < 0x1000000
    ensures Emit(cfg, p, cname, t).Text?
  {
    var os := Lines(cfg, p, cname, t);
    forall k | 0 <= k < |t| ensures os[k].Text? {
      assert WellFormed(p, t[k]);
    }
  }

  /** A trace of m lines over at most 16^6 full lines of c octets has its
      last line numbered below 16^6. */
  lemma FewLines(m: int, c: int, len: int)
    requires 1 <= c && (m - 1) * c < len <= 0x1000000 * c
    ensures m - 1 < 0x1000000
  {
  }

  /**
   The dump does not panic when the width is not negative, the digit buffer
   holds the mode's digits, and (when offsets are shown and -l is not given)
   the input has at most 16^6 lines.
   */
  lemma DumpSucceeds(cfg: Config, fname: string, input: seq<Byte>)
    requires 0 <= Resolve(cfg).cols
    requires !BufferTooSmall(cfg, Resolve(cfg))
    requires ShowsOffsets(cfg) && cfg.length == Unset ==> |input| <= 0x1000000 * Resolve(cfg).cols
    ensures Dump(cfg, fname, input).Text?
  {
    var p := Resolve(cfg);
    var t := Run(cfg, p, input, Initial(p));
    OffsetsFit(cfg, input);
    EmitSucceeds(cfg, p, CName(fname), t);
    EmitPrefix(cfg, p, CName(fname), t, Flushed(t));
  }

  /** Every line of the trace carries a number below bound. */
  predicate LinesNumberedBelow(t: seq<Iteration>, bound: nat) {
    forall k :: 0 <= k < |t| ==> t[k].pre.lineOffset < bound
  }

  /** Under the same bound, every line of the trace is numbered below 16^6. */
  lemma OffsetsFit(cfg: Config, input: seq<Byte>)
    requires 0 <= Resolve(cfg).cols
    requires ShowsOffsets(cfg) && cfg.length == Unset ==> |input| <= 0x1000000 * Resolve(cfg).cols
    ensures ShowsOffsets(cfg) ==> LinesNumberedBelow(Run(cfg, Resolve(cfg), input, Initial(Resolve(cfg))), 0x1000000)
  {
    var p := Resolve(cfg);
    var t := Run(cfg, p, input, Initial(p));
    if ShowsOffsets(cfg) {
      RunOffsets(cfg, p, input, Initial(p));
      FewRunLines(cfg, input);
      forall k | 0 <= k < |t| ensures t[k].pre.lineOffset < 0x1000000 {
        assert t[k].pre.lineOffset == k;
      }
    }
  }

  /** A trace has at most 16^6 lines: -l caps it at one, and otherwise the
      input length does. */
  lemma FewRunLines(cfg: Config, input: seq<Byte>)
    requires 0 <= Resolve(cfg).cols
    requires cfg.length == Unset ==> |input| <= 0x1000000 * Resolve(cfg).cols
    ensures |Run(cfg, Resolve(cfg), input, Initial(Resolve(cfg)))| <= 0x1000000
  {
    var p := Resolve(cfg);
    var t := Run(cfg, p, input, Initial(p));
    if 1 <= |t| {
      if cfg.length == Unset {
        RunLineCount(cfg, p, input, Initial(p));
        FewLines(|t|, p.cols, |input|);
      } else {
        RunWithLength(cfg, p, input, Initial(p));
      }
    }
  }

  /**
   A digit buffer smaller than the mode's digits panics on the first octet:
   with a positive width, non-empty input and -l not 0, the first line is
   rendered (no zero buffer precedes it) and its offset is 0.
   */
  lemma DumpBufferTooSmall(cfg: Config, fname: string, input: seq<Byte>)
    requires 1 <= Resolve(cfg).cols && 1 <= |input| && cfg.length != 0
    requires BufferTooSmall(cfg, Resolve(cfg))
    ensures Dump(cfg, fname, input) == Panic(DigitBufferTooSmall)
  {
    var p := Resolve(cfg);
    RunStep(cfg, p, input, Initial(p));
  }

  /**
   With the C declaration in place of offsets (-ps and -i, without -b), the
   dump of non-empty input with a positive width and -l not 0 starts with
   "unsigned char <name>[] = {": the first line is rendered with the
   declaration flag still set.
   */
  lemma DumpDeclaration(cfg: Config, fname: string, input: seq<Byte>)
    requires WritesDeclaration(cfg) && 1 <= Resolve(cfg).cols && 1 <= |input| && cfg.length != 0
    requires Dump(cfg, fname, input).Text?
    ensures HoldsAt(Dump(cfg, fname, input).text, 0, "unsigned char " + CName(fname) + "[] = {")
  {
    var p, t := Resolve(cfg), Trace(cfg, input);
    RunStep(cfg, p, input, Initial(p));
    DumpFirstLine(cfg, fname, input);
    WrittenDeclaration(cfg, p, CName(fname), t[0]);
    HoldsPrefix(Dump(cfg, fname, input).text, 0, Written(cfg, p, CName(fname), t[0]).text,
                "unsigned char " + CName(fname) + "[] = {");
  }

  /** With -ps and -i, the dump of any single octet does not panic, so
      DumpDeclaration applies to it. */
  lemma DeclarationApplies(fname: string, v: Byte)
    ensures var cfg := Defaults.(postscript := true, cfmt := true);
            && WritesDeclaration(cfg) && 1 <= Resolve(cfg).cols && cfg.length != 0
            && Dump(cfg, fname, [v]).Text?
  {
    DumpSucceeds(Defaults.(postscript := true, cfmt := true), fname, [v]);
  }

  /** When some line is rendered, the dump starts with what the first iteration wrote. */
  lemma DumpFirstLine(cfg: Config, fname: string, input: seq<Byte>)
    requires 0 <= Resolve(cfg).cols
    requires Dump(cfg, fname, input).Text? && 0 < Flushed(Trace(cfg, input))
    ensures Written(cfg, Resolve(cfg), CName(fname), Trace(cfg, input)[0]).Text?
    ensures HoldsAt(Dump(cfg, fname, input).text, 0,
                    Written(cfg, Resolve(cfg), CName(fname), Trace(cfg, input)[0]).text)
  {
    var t := Trace(cfg, input);
    DumpLines(cfg, fname, input, 0);
    assert t[..0] == [];
    EmitEmpty(cfg, Resolve(cfg), CName(fname));
  }

  /** With offsets shown, the header of line k (rendered or elided) carries
      the number k: "0000000: ", "0000010: ", ... whatever the width, so the
      header equals the octet offset only for a width of 16. */
  lemma HeaderOfLine(cfg: Config, input: seq<Byte>, k: nat)
    requires ShowsOffsets(cfg) && 0 <= Resolve(cfg).cols
    requires k < |Run(cfg, Resolve(cfg), input, Initial(Resolve(cfg)))|
    requires k < 0x1000000
    ensures var it := Run(cfg, Resolve(cfg), input, Initial(Resolve(cfg)))[k];
            Heading(cfg, "", it.pre.lineOffset, it.pre.doCHeader) == Text(Header(k))
  {
    RunOffsets(cfg, Resolve(cfg), input, Initial(Resolve(cfg)));
  }

  /** Every iteration of the dump loop over `input`; only a prefix of them reaches the output. */
  function Trace(cfg: Config, input: seq<Byte>): seq<Iteration>
    requires 0 <= Resolve(cfg).cols
  {
    Run(cfg, Resolve(cfg), input, Initial(Resolve(cfg)))
  }

  /**
   The dump's text is the iterations' writes in order: for every iteration up
   to the last rendered line, what it writes (its rendered line, "*\n", or
   nothing) follows what the iterations before it wrote.
   */
  lemma DumpLines(cfg: Config, fname: string, input: seq<Byte>, k: nat)
    requires 0 <= Resolve(cfg).cols
    requires Dump(cfg, fname, input).Text?
    requires k < Flushed(Trace(cfg, input))
    ensures var p, t, cname := Resolve(cfg), Trace(cfg, input), CName(fname);
            && (forall j :: 0 <= j < k ==> WellFormed(p, t[..k][j]))
            && Emit(cfg, p, cname, t[..k]).Text?
            && Written(cfg, p, cname, t[k]).Text?
            && var off, w := |Emit(cfg, p, cname, t[..k]).text|, Written(cfg, p, cname, t[k]).text;
               var s := Dump(cfg, fname, input).text;
               HoldsAt(s, off, w)
  {
    var t := Trace(cfg, input);
    EmitWithin(cfg, Resolve(cfg), CName(fname), t, Flushed(t), k);
  }

  /**
   The dump ends with the last rendered line: "*" markers written after it
   never reach the output.
   */
  lemma DumpEndsWithLastLine(cfg: Config, fname: string, input: seq<Byte>)
    requires 0 <= Resolve(cfg).cols
    requires Dump(cfg, fname, input).Text?
    requires 0 < Flushed(Trace(cfg, input))
    ensures var p, t := Resolve(cfg), Trace(cfg, input);
            var m := Flushed(t);
            && t[m - 1].action == Rendered
            && Written(cfg, p, CName(fname), t[m - 1]).Text?
            && EndsWith(Dump(cfg, fname, input).text, Written(cfg, p, CName(fname), t[m - 1]).text)
  {
    var t := Trace(cfg, input);
    EmitLast(cfg, Resolve(cfg), CName(fname), t, Flushed(t));
  }

  /** A dump that renders no line is empty, even when "*" markers were written. */
  lemma DumpNothingRendered(cfg: Config, fname: string, input: seq<Byte>)
    requires 0 <= Resolve(cfg).cols
    requires Flushed(Trace(cfg, input)) == 0
    ensures Dump(cfg, fname, input) == Text("")
  {
    var t := Trace(cfg, input);
    assert t[..0] == [];
    EmitEmpty(cfg, Resolve(cfg), CName(fname));
  }

  /**
   The dump reads back: in the binary, postscript and hex layouts, cutting the
   dump after the header of rendered line k gives tokens that decode to the
   octets that line read.
   */
  lemma DumpRoundTrip(cfg: Config, fname: string, input: seq<Byte>, k: nat)
    requires 0 <= Resolve(cfg).cols && Encodes(PayloadMode(cfg))
    requires Dump(cfg, fname, input).Text?
    requires k < Flushed(Trace(cfg, input)) && Trace(cfg, input)[k].action == Rendered
    ensures var p, t := Resolve(cfg), Trace(cfg, input);
            && (forall j :: 0 <= j < k ==> WellFormed(p, t[..k][j]))
            && Emit(cfg, p, CName(fname), t[..k]).Text?
            && ReadsBack(Dump(cfg, fname, input).text, |Emit(cfg, p, CName(fname), t[..k]).text| + 9,
                         PayloadMode(cfg), Caps(cfg), p.octs, Read(t[k]))
  {
    var p, t := Resolve(cfg), Trace(cfg, input);
    assert WellFormed(p, t[k]);
    DumpLines(cfg, fname, input, k);
    WrittenCut(cfg, p, CName(fname), t[k], Dump(cfg, fname, input).text, |Emit(cfg, p, CName(fname), t[..k]).text|);
  }

  /** The default hex dump of any single octet renders its one line without
      panic, so DumpRoundTrip reads that octet back from it. */
  lemma RoundTripApplies(fname: string, v: Byte)
    ensures var cfg, input := Defaults, [v];
            && 0 <= Resolve(cfg).cols && Encodes(PayloadMode(cfg))
            && Dump(cfg, fname, input).Text?
            && 0 < Flushed(Trace(cfg, input)) && Trace(cfg, input)[0].action == Rendered
  {
    var cfg, input := Defaults, [v];
    var p := Resolve(cfg);
    RunStep(cfg, p, input, Initial(p));
    DumpSucceeds(cfg, fname, input);
  }

  /** With offsets shown, a rendered line k of the dump starts with the header of k. */
  lemma DumpHeaderAt(cfg: Config, fname: string, input: seq<Byte>, k: nat)
    requires ShowsOffsets(cfg) && 0 <= Resolve(cfg).cols
    requires Dump(cfg, fname, input).Text?
    requires k < Flushed(Trace(cfg, input)) && Trace(cfg, input)[k].action == Rendered
    ensures var p, t := Resolve(cfg), Trace(cfg, input);
            && (forall j :: 0 <= j < k ==> WellFormed(p, t[..k][j]))
            && Emit(cfg, p, CName(fname), t[..k]).Text?
            && k < 0x1000000
            && HoldsAt(Dump(cfg, fname, input).text, |Emit(cfg, p, CName(fname), t[..k]).text|, Header(k))
  {
    var p, t, cname := Resolve(cfg), Trace(cfg, input), CName(fname);
    DumpLines(cfg, fname, input, k);
    RenderedHeader(cfg, cname, input, k);
    HoldsPrefix(Dump(cfg, fname, input).text, |Emit(cfg, p, cname, t[..k]).text|,
                Written(cfg, p, cname, t[k]).text, Header(k));
  }

  /** With offsets shown, rendered line k starts with the header of k. */
  lemma RenderedHeader(cfg: Config, cname: string, input: seq<Byte>, k: nat)
    requires ShowsOffsets(cfg) && 0 <= Resolve(cfg).cols
    requires k < |Trace(cfg, input)| && Trace(cfg, input)[k].action == Rendered
    requires Written(cfg, Resolve(cfg), cname, Trace(cfg, input)[k]).Text?
    ensures k < 0x1000000
    ensures HoldsAt(Written(cfg, Resolve(cfg), cname, Trace(cfg, input)[k]).text, 0, Header(k))
  {
    TraceOffsets(cfg, input, k);
    WrittenHeader(cfg, Resolve(cfg), cname, Trace(cfg, input)[k]);
  }

  /** With offsets shown, iteration k of the dump starts at line offset k. */
  lemma TraceOffsets(cfg: Config, input: seq<Byte>, k: nat)
    requires ShowsOffsets(cfg) && 0 <= Resolve(cfg).cols
    requires k < |Run(cfg, Resolve(cfg), input, Initial(Resolve(cfg)))|
    ensures Run(cfg, Resolve(cfg), input, Initial(Resolve(cfg)))[k].pre.lineOffset == k
  {
    RunOffsets(cfg, Resolve(cfg), input, Initial(Resolve(cfg)));
  }
}

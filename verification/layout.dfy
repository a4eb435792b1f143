/**
 The flag configuration the dump engine reads, and the parameters it derives
 from it before the first read: octets per line (`cols`), the size of the
 per-octet digit buffer (`octs`), the digit table, the layout mode, and the
 C identifier made from the file name.
 */
module Layout {
  import opened Encoding

  /** The value the integer flags `-c`, `-g` and `-l` hold when not given. */
  const Unset: int := -1

  /** The flags of xxd.go that the dump engine consults. */
  datatype Config = Config(
    autoskip: bool,    // -a
    binary: bool,      // -b
    columns: int,      // -c
    ebcdic: bool,      // -E
    group: int,        // -g
    cfmt: bool,        // -i
    length: int,       // -l
    postscript: bool,  // -ps
    upper: bool        // -u
  )

  /** The configuration with every flag at its default. */
  const Defaults: Config := Config(false, false, Unset, false, Unset, false, Unset, false, false)

  /** The resolved line width and per-octet digit buffer size. */
  datatype Params = Params(cols: int, octs: int)

  /** Line width when `-c` is not given: postscript wins over C, C over binary. */
  function DefaultCols(cfg: Config): int {
    if cfg.postscript then 30
    else if cfg.cfmt then 12
    else if cfg.binary then 6
    else 16
  }

  /** Digit buffer size when `-g` is not given: binary wins over postscript and C. */
  function DefaultOcts(cfg: Config): int {
    if cfg.binary then 8
    else if cfg.postscript || cfg.cfmt then 0
    else 2
  }

  /** The line width asked for, before `-l` clamps it. */
  function RequestedCols(cfg: Config): int {
    if cfg.columns == Unset then DefaultCols(cfg) else cfg.columns
  }

  /** The group size asked for, before a value below 1 is replaced. */
  function RequestedOcts(cfg: Config): int {
    if cfg.group == Unset then DefaultOcts(cfg) else cfg.group
  }

  /** Derives `cols` and `octs` from the flags. */
  function Resolve(cfg: Config): (p: Params)
    // the width asked for, unless a smaller -l replaces it
    ensures p.cols == RequestedCols(cfg) || p.cols == cfg.length
    ensures p.cols <= RequestedCols(cfg)
    ensures cfg.length != Unset ==> p.cols <= cfg.length
    ensures cfg.length == Unset || RequestedCols(cfg) <= cfg.length ==> p.cols == RequestedCols(cfg)
    // the group asked for when it is at least 1, otherwise the line width
    ensures 1 <= RequestedOcts(cfg) ==> p.octs == RequestedOcts(cfg)
    ensures RequestedOcts(cfg) < 1 ==> p.octs == p.cols
  {
    var cols := RequestedCols(cfg);
    var cols := if cfg.length != Unset && cfg.length < cols then cfg.length else cols;
    var octs := RequestedOcts(cfg);
    Params(cols, if octs < 1 then cols else octs)
  }

  /** The two mode priorities disagree: with both -b and -ps given and neither
      -c nor -g, the line width is postscript's and the group is binary's. */
  lemma MixedModePriorities(cfg: Config)
    requires cfg.binary && cfg.postscript
    requires cfg.columns == Unset && cfg.group == Unset && cfg.length == Unset
    ensures Resolve(cfg) == Params(30, 8)
  {
  }

  /** Without -c and -g, and with -l not given or at least the mode's default
      width, the width is the mode default 30, 12, 6 or 16, and the group is 8
      for binary, the whole line for postscript and C, and 2 otherwise. */
  lemma DefaultParams(cfg: Config)
    requires cfg.columns == Unset && cfg.group == Unset
    requires cfg.length == Unset || DefaultCols(cfg) <= cfg.length
    ensures Resolve(cfg).cols ==
              if cfg.postscript then 30 else if cfg.cfmt then 12 else if cfg.binary then 6 else 16
    ensures Resolve(cfg).octs ==
              if cfg.binary then 8 else if cfg.postscript || cfg.cfmt then Resolve(cfg).cols else 2
  {
  }

  /** Parameters resolved once are a fixed point: a configuration that spells
      them out explicitly resolves to the same parameters. */
  lemma ResolveExplicit(cfg: Config)
    requires 1 <= Resolve(cfg).cols
    ensures var p := Resolve(cfg);
            Resolve(cfg.(columns := p.cols, group := p.octs)) == p
  {
  }

  /** The postscript-and-C combination (`odd`): such a dump has no offsets and no sidebar. */
  predicate Odd(cfg: Config) {
    cfg.postscript && cfg.cfmt
  }

  /** Whether lines carry an offset header and a character sidebar (`*binary || !odd`). */
  predicate ShowsOffsets(cfg: Config) {
    cfg.binary || !Odd(cfg)
  }

  /** Whether the first rendered line is preceded by the C array declaration. */
  predicate WritesDeclaration(cfg: Config) {
    !ShowsOffsets(cfg) && cfg.cfmt
  }

  lemma DeclarationIffOdd(cfg: Config)
    ensures WritesDeclaration(cfg) <==> cfg.postscript && cfg.cfmt && !cfg.binary
  {
  }

  /** How the octets of a line are written: binary wins over C, C over postscript. */
  datatype Mode = Bits | CArray | Plain | Hex

  function PayloadMode(cfg: Config): (m: Mode)
    ensures m == Bits <==> cfg.binary
    ensures m == CArray <==> cfg.cfmt && !cfg.binary
    ensures m == Plain <==> cfg.postscript && !cfg.cfmt && !cfg.binary
    // every mode that writes the octets also writes the offsets and the sidebar
    ensures m != CArray ==> ShowsOffsets(cfg)
  {
    if cfg.binary then Bits
    else if cfg.cfmt then CArray
    else if cfg.postscript then Plain
    else Hex
  }

  /** The hex digit table; `-u` selects upper case. */
  function Caps(cfg: Config): (t: string)
    ensures IsDigitTable(t)
    ensures t[..10] == "0123456789"
    ensures t[10..] == if cfg.upper then "ABCDEF" else "abcdef"
  {
    DigitTablesAreTables();
    if cfg.upper then UpperDigits else LowerDigits
  }

  /** The digit of value d spelled out arithmetically: '0' + d below ten,
      then 'a' + (d - 10), or 'A' + (d - 10) in upper case. */
  function DigitOf(d: nat, upper: bool): char
    requires d < 16
  {
    if d < 10 then ('0' as int + d) as char
    else ((if upper then 'A' else 'a') as int + (d - 10)) as char
  }

  /** Position d of the selected table is the digit of value d in the case -u asks for. */
  lemma {:induction false} CapsSpellsValues(cfg: Config)
    ensures forall d :: 0 <= d < 16 ==> Caps(cfg)[d] == DigitOf(d, cfg.upper)
  {
    forall d | 0 <= d < 16
      ensures Caps(cfg)[d] == DigitOf(d, cfg.upper)
    {
      if d < 10 {
        assert Caps(cfg)[d] == Caps(cfg)[..10][d];
      } else {
        assert Caps(cfg)[d] == Caps(cfg)[10..][d - 10];
      }
    }
  }

  /** Flipping -u changes exactly the six letter digits. */
  lemma CapsCase(cfg: Config)
    ensures forall d :: 0 <= d < 16 ==>
              (Caps(cfg)[d] == Caps(cfg.(upper := !cfg.upper))[d] <==> d < 10)
  {
    CapsSpellsValues(cfg);
    CapsSpellsValues(cfg.(upper := !cfg.upper));
  }

  /**
   The C variable made from the file name: each '.' becomes '_' and every
   other character is kept, so the name keeps its length.
   */
  function CName(fname: string): (r: string)
    ensures |r| == |fname|
    ensures forall i :: 0 <= i < |fname| ==>
              r[i] == if fname[i] == '.' then '_' else fname[i]
    ensures '.' !in r
  {
    if |fname| == 0 then []
    else [if fname[0] == '.' then '_' else fname[0]] + CName(fname[1..])
  }

  /** The rewrite is idempotent and leaves a name without '.' unchanged. */
  lemma CNameFixedPoints(fname: string)
    ensures CName(CName(fname)) == CName(fname)
    ensures CName(fname) == fname <==> '.' !in fname
  {
    if '.' in fname {
      var i :| 0 <= i < |fname| && fname[i] == '.';
      assert CName(fname)[i] != fname[i];
    }
  }
}

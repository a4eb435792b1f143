/**
 One rendered line of the dump: the heading (offset header or C declaration),
 the encoded octets, the padding of a short line, the separating space, the
 sidebar and the newline; and the runtime panics rendering a line can hit.
 */
module Render {
  import opened Encoding
  import opened Layout
  import opened Sidebar

  /** The Go runtime panics the dump engine can reach. */
  datatype Fault =
    | NegativeLineSize     // make([]byte, cols) with cols < 0
    | OffsetTooWide        // zeroHeader[0:6-len] with more than six offset digits
    | DigitBufferTooSmall  // an encoder indexing past the end of the digit buffer

  /** What a run, or a piece of one, produces: text, or a panic. */
  datatype Outcome = Text(text: string) | Panic(fault: Fault)

  // ---------------------------------------------------------------------------
  // Offset header

  /** strconv.AppendInt(_, v, 16): the shortest lower-case hex spelling of v. */
  function FormatHex(v: nat): (s: string)
    ensures 1 <= |s|
    ensures forall i :: 0 <= i < |s| ==> s[i] in LowerDigits
    decreases v
  {
    if v < 16 then [LowerDigits[v]]
    else FormatHex(v / 16) + [LowerDigits[v % 16]]
  }

  /** The value of a string of lower-case hex digits. */
  function HexValue(s: string): int {
    if |s| == 0 then 0
    else 16 * HexValue(s[..|s| - 1]) + IndexOf(LowerDigits, s[|s| - 1])
  }

  /** 16 to the power k. */
  function Pow16(k: nat): (p: nat)
    ensures 1 <= p
  {
    if k == 0 then 1 else 16 * Pow16(k - 1)
  }

  /** FormatHex is read back by HexValue, and its first digit is never a
      padding zero unless v is 0. */
  lemma {:induction false} FormatHexRoundTrip(v: nat)
    ensures HexValue(FormatHex(v)) == v
    ensures v != 0 ==> FormatHex(v)[0] != '0'
    decreases v
  {
    DigitTablesAreTables();
    var s := FormatHex(v);
    if v < 16 {
      IndexOfDigit(LowerDigits, v);
      assert s[..0] == [];
    } else {
      FormatHexRoundTrip(v / 16);
      IndexOfDigit(LowerDigits, v % 16);
      assert s[..|s| - 1] == FormatHex(v / 16);
    }
  }

  /** v has at most k hex digits exactly when v < 16^k. */
  lemma {:induction false} FormatHexWidth(v: nat, k: nat)
    requires 1 <= k
    ensures |FormatHex(v)| <= k <==> v < Pow16(k)
    decreases v
  {
    if v >= 16 {
      if k == 1 {
        assert |FormatHex(v)| >= 2;
      } else {
        FormatHexWidth(v / 16, k - 1);
      }
    }
  }

  /** A run of '0' digits has the value 0. */
  lemma {:induction false} ZerosValue(k: nat)
    ensures HexValue(Repeat('0', k)) == 0
  {
    if k > 0 {
      var z := Repeat('0', k);
      assert z[..k - 1] == Repeat('0', k - 1);
      ZerosValue(k - 1);
      assert IndexOf(LowerDigits, '0') == 0;
    }
  }

  /** Appending a digit multiplies the value by 16 and adds the digit's. */
  lemma HexValueAppend(a: string, c: char)
    ensures HexValue(a + [c]) == 16 * HexValue(a) + IndexOf(LowerDigits, c)
  {
    assert (a + [c])[..|a|] == a;
  }

  /** Leading '0' digits do not change a hex value. */
  lemma {:induction false} LeadingZeros(k: nat, s: string)
    ensures HexValue(Repeat('0', k) + s) == HexValue(s)
    decreases |s|
  {
    var z := Repeat('0', k);
    if |s| == 0 {
      assert z + s == z;
      ZerosValue(k);
    } else {
      var init, last := s[..|s| - 1], s[|s| - 1];
      assert s == init + [last];
      assert z + s == (z + init) + [last];
      HexValueAppend(z + init, last);
      HexValueAppend(init, last);
      LeadingZeros(k, init);
    }
  }

  /**
   The offset header: the hex digits of lineOffset left-padded with '0' to six
   digits, then "0: ". Nine characters, lower case whatever -u says, reading
   back as lineOffset.
   */
  function Header(lineOffset: nat): (h: string)
    requires lineOffset < 0x1000000
    ensures |h| == 9
    ensures forall i :: 0 <= i < 6 ==> h[i] in LowerDigits
    ensures HexValue(h[..6]) == lineOffset
    ensures h[6..] == "0: "
  {
    FormatHexWidth(lineOffset, 6);
    var digits := FormatHex(lineOffset);
    var h := Repeat('0', 6 - |digits|) + digits + "0: ";
    assert h[..6] == Repeat('0', 6 - |digits|) + digits;
    LeadingZeros(6 - |digits|, digits);
    FormatHexRoundTrip(lineOffset);
    h
  }

  lemma HeaderOfZero()
    ensures Header(0) == "0000000: "
  {
    assert FormatHex(0) == "0";
    assert Repeat('0', 5) == "00000";
  }

  /** The line's heading: offset header, or the C declaration on the first
      line of a postscript-and-C dump, or nothing. */
  function Heading(cfg: Config, cname: string, lineOffset: nat, doCHeader: bool): (r: Outcome)
    ensures r.Panic? <==> ShowsOffsets(cfg) && 0x1000000 <= lineOffset
    ensures r.Text? && ShowsOffsets(cfg) ==> r.text == Header(lineOffset)
    ensures r.Text? && !ShowsOffsets(cfg) ==>
              r.text == if doCHeader then "unsigned char " + cname + "[] = {" else ""
  {
    if ShowsOffsets(cfg) then
      var digits := FormatHex(lineOffset);
      FormatHexWidth(lineOffset, 6);
      if |digits| > 6 then Panic(OffsetTooWide) else Text(Header(lineOffset))
    else if doCHeader && cfg.cfmt then Text("unsigned char " + cname + "[] = {")
    else Text("")
  }

  // ---------------------------------------------------------------------------
  // Octets

  /** How many digits the encoder of a mode writes into the digit buffer. */
  function DigitWidth(mode: Mode): nat {
    if mode == Bits then 8 else 2
  }

  /** The modes whose loop encodes octets; the C loop never runs. */
  predicate Encodes(mode: Mode) {
    mode != CArray
  }

  /** The encoder of a mode applied to a digit buffer. */
  function EncodeInto(mode: Mode, caps: string, buf: string, v: Byte): (r: string)
    requires |caps| == 16
    requires DigitWidth(mode) <= |buf|
  {
    if mode == Bits then BinaryEncode(buf, [v]) else HexEncode(buf, [v], caps)
  }

  /** The low d bits of v as '0'/'1' digits, most significant first. */
  function BitDigits(v: Byte, d: nat): (r: string)
    ensures |r| == d
  {
    if d == 0 then [] else [BitChar(BitSet(v, d - 1))] + BitDigits(v, d - 1)
  }

  /** Digit k of BitDigits(v, d) is bit d - 1 - k of v. */
  lemma {:induction false} BitDigitsAt(v: Byte, d: nat)
    ensures forall k :: 0 <= k < d ==> BitDigits(v, d)[k] == BitChar(BitSet(v, d - 1 - k))
  {
    if d > 0 {
      BitDigitsAt(v, d - 1);
      var r := BitDigits(v, d);
      assert forall k :: 1 <= k < d ==> r[k] == BitDigits(v, d - 1)[k - 1];
    }
  }

  /** The digits the encoder of a mode writes for one octet: the eight bits of
      v, most significant first, or its two hex digits from the table. */
  function Digits(mode: Mode, caps: string, v: Byte): (d: string)
    requires |caps| == 16
    ensures |d| == DigitWidth(mode)
  {
    if mode == Bits then BitDigits(v, 8)
    else [caps[v / 16], caps[v % 16]]
  }

  /**
   What `w.Write(char)` emits for one octet: the whole digit buffer of octs
   characters after the encoder ran, i.e. the digits followed by the part of
   the buffer no encoder writes, which stays NUL.
   */
  function Token(mode: Mode, caps: string, octs: int, v: Byte): (t: string)
    requires IsDigitTable(caps)
    requires DigitWidth(mode) <= octs
    ensures |t| == octs
  {
    Digits(mode, caps, v) + Repeat(Nul, octs - DigitWidth(mode))
  }

  /** Past its digits a token is NUL: a digit buffer wider than the mode's
      digits writes NUL characters into the output after every octet. */
  lemma TokenNulTail(mode: Mode, caps: string, octs: int, v: Byte)
    requires IsDigitTable(caps)
    requires DigitWidth(mode) <= octs
    ensures var t := Token(mode, caps, octs, v);
            forall k :: DigitWidth(mode) <= k < octs ==> t[k] == Nul
  {
  }

  /** With a two-octet digit buffer a hex token is exactly the two digits. */
  lemma HexTokenDigits(mode: Mode, caps: string, v: Byte)
    requires IsDigitTable(caps) && mode != Bits
    ensures Token(mode, caps, 2, v) == [caps[v / 16], caps[v % 16]]
  {
    assert Repeat(Nul, 0) == [];
  }

  /** Reads one token back: the eight binary digits, or the two hex digits. */
  function DecodeToken(mode: Mode, caps: string, t: string): int
    requires DigitWidth(mode) <= |t|
  {
    if mode == Bits then BitsValue(t[..8])
    else IndexOf(caps, t[0]) * 16 + IndexOf(caps, t[1])
  }

  /**
   The digit buffer is made once and reused for every octet of every line.
   Encoding into any buffer whose part past the digits is still NUL gives the
   token and leaves that part NUL, so reuse never changes what is written.
   */
  lemma ReusedBufferToken(mode: Mode, caps: string, buf: string, v: Byte)
    requires IsDigitTable(caps)
    requires DigitWidth(mode) <= |buf|
    requires forall k :: DigitWidth(mode) <= k < |buf| ==> buf[k] == Nul
    ensures EncodeInto(mode, caps, buf, v) == Token(mode, caps, |buf|, v)
  {
    var a, b := EncodeInto(mode, caps, buf, v), Token(mode, caps, |buf|, v);
    BitDigitsAt(v, 8);
    assert forall k :: 0 <= k < DigitWidth(mode) ==> b[k] == Digits(mode, caps, v)[k];
    assert forall k :: 0 <= k < |buf| ==> a[k] == b[k];
  }

  /** A token reads back as the octet it encodes, whatever the NUL tail. */
  lemma TokenRoundTrip(mode: Mode, caps: string, octs: int, v: Byte)
    requires IsDigitTable(caps)
    requires DigitWidth(mode) <= octs
    ensures DecodeToken(mode, caps, Token(mode, caps, octs, v)) == v
  {
    ReusedBufferToken(mode, caps, Repeat(Nul, octs), v);
    if mode == Bits {
      BinaryEncodeRoundTrip(Repeat(Nul, octs), [v]);
    } else {
      HexEncodeRoundTrip(Repeat(Nul, octs), [v], caps);
    }
  }

  /** The space written after the octet at odd index i when the mode groups. */
  function Sep(grouped: bool, i: nat): string {
    if grouped && i % 2 == 1 then " " else ""
  }

  /** A string made of a head, a body and a tail holds each at its place. */
  lemma Framed(head: string, body: string, tail: string)
    ensures var s := head + body + tail;
            && |s| == |head| + |body| + |tail|
            && s[..|head|] == head
            && s[|head|..|head| + |body|] == body
            && s[|head| + |body|..] == tail
            && s[|s| - |tail|..] == tail
  {
  }

  /** The token the loop writes for each of the first n octets of the line. */
  function Encoded(mode: Mode, caps: string, octs: int, line: seq<Byte>, n: nat): (toks: seq<string>)
    requires IsDigitTable(caps)
    requires DigitWidth(mode) <= octs
    requires n <= |line|
    ensures |toks| == n
    ensures forall k :: 0 <= k < n ==> toks[k] == Token(mode, caps, octs, line[k])
  {
    seq(n, k requires 0 <= k < n => Token(mode, caps, octs, line[k]))
  }

  /** Tokens written one after the other, the first for the octet at index i,
      each followed by its separator. */
  function Tokens(toks: seq<string>, i: nat, grouped: bool): string
    decreases |toks|
  {
    if |toks| == 0 then ""
    else toks[0] + Sep(grouped, i) + Tokens(toks[1..], i + 1, grouped)
  }

  /** Two octets in hex with two-digit groups: four digits, then the space
      after the odd index. */
  lemma HexPairTokens(caps: string, a: Byte, b: Byte)
    requires IsDigitTable(caps)
    ensures Tokens(Encoded(Hex, caps, 2, [a, b], 2), 0, true)
            == [caps[a / 16], caps[a % 16], caps[b / 16], caps[b % 16], ' ']
  {
    var toks := Encoded(Hex, caps, 2, [a, b], 2);
    HexTokenDigits(Hex, caps, a);
    HexTokenDigits(Hex, caps, b);
    assert toks[1..][1..] == [];
    assert Tokens(toks[1..], 1, true) == [caps[b / 16], caps[b % 16], ' '];
  }

  /** Number of odd indices below n, i.e. of group separators after n octets. */
  function OddsBelow(n: nat): nat {
    if n == 0 then 0 else OddsBelow(n - 1) + |Sep(true, n - 1)|
  }

  /** There are n/2 odd indices below n. */
  lemma {:induction false} OddsBelowHalf(n: nat)
    ensures OddsBelow(n) == n / 2
  {
    if n > 0 {
      OddsBelowHalf(n - 1);
    }
  }

  lemma MulSucc(k: int, m: int)
    ensures (k + 1) * m == m + k * m
  {
  }

  /** Tokens of width w each take w characters, plus one per odd index when
      grouped. */
  lemma {:induction false} TokensLength(toks: seq<string>, i: nat, grouped: bool, w: nat)
    requires forall k :: 0 <= k < |toks| ==> |toks[k]| == w
    ensures |Tokens(toks, i, grouped)| ==
              |toks| * w + (if grouped then OddsBelow(i + |toks|) - OddsBelow(i) else 0)
    decreases |toks|
  {
    if |toks| > 0 {
      TokensLength(toks[1..], i + 1, grouped, w);
      assert i + 1 + |toks[1..]| == i + |toks|;
      MulSucc(|toks| - 1, w);
      assert OddsBelow(i + 1) == OddsBelow(i) + |Sep(true, i)|;
    }
  }

  /** Cuts a string of tokens of octs characters back into the tokens,
      skipping the separators. */
  function SplitTokens(s: string, octs: nat, i: nat, n: nat, grouped: bool): seq<string>
    decreases n - i
  {
    if n <= i || |s| < octs + |Sep(grouped, i)| then []
    else [s[..octs]] + SplitTokens(s[octs + |Sep(grouped, i)|..], octs, i + 1, n, grouped)
  }

  /** Tokens of octs characters are cut back out unchanged, whatever text
      follows them: the separators never run into a token. */
  lemma {:induction false} TokensRoundTrip(toks: seq<string>, i: nat, grouped: bool, octs: nat, after: string)
    requires forall k :: 0 <= k < |toks| ==> |toks[k]| == octs
    ensures SplitTokens(Tokens(toks, i, grouped) + after, octs, i, i + |toks|, grouped) == toks
    decreases |toks|
  {
    if |toks| > 0 {
      var rest := Tokens(toks[1..], i + 1, grouped) + after;
      assert Tokens(toks, i, grouped) + after == toks[0] + Sep(grouped, i) + rest;
      Framed(toks[0], Sep(grouped, i), rest);
      TokensRoundTrip(toks[1..], i + 1, grouped, octs, after);
      assert i + 1 + |toks[1..]| == i + |toks|;
      assert toks == [toks[0]] + toks[1..];
    }
  }

  /** A text that starts with the tokens cuts back into them, whatever follows. */
  lemma CutTokens(s: string, toks: seq<string>, octs: nat, grouped: bool)
    requires forall k :: 0 <= k < |toks| ==> |toks[k]| == octs
    requires |Tokens(toks, 0, grouped)| <= |s| && s[..|Tokens(toks, 0, grouped)|] == Tokens(toks, 0, grouped)
    ensures SplitTokens(s, octs, 0, |toks|, grouped) == toks
  {
    var t := Tokens(toks, 0, grouped);
    assert s == t + s[|t|..];
    TokensRoundTrip(toks, 0, grouped, octs, s[|t|..]);
    assert 0 + |toks| == |toks|;
  }

  /** Each token written for a line decodes back to its octet. */
  lemma EncodedRoundTrip(mode: Mode, caps: string, octs: int, line: seq<Byte>, n: nat)
    requires IsDigitTable(caps)
    requires DigitWidth(mode) <= octs
    requires n <= |line|
    ensures var toks := Encoded(mode, caps, octs, line, n);
            forall k :: 0 <= k < n ==> |toks[k]| == octs && DecodeToken(mode, caps, toks[k]) == line[k]
  {
    forall k | 0 <= k < n
      ensures DecodeToken(mode, caps, Token(mode, caps, octs, line[k])) == line[k]
    {
      TokenRoundTrip(mode, caps, octs, line[k]);
    }
  }

  /** The octets of a line as the mode writes them: binary and hex tokens with
      a space after each odd index, postscript tokens back to back, and for C
      only the leading space, because its loop guard `i != 0` fails at once. */
  function Payload(cfg: Config, p: Params, line: seq<Byte>, n: nat): (s: string)
    requires n <= |line|
    requires Encodes(PayloadMode(cfg)) ==> DigitWidth(PayloadMode(cfg)) <= p.octs
    ensures PayloadMode(cfg) == CArray ==> s == " "
    ensures PayloadMode(cfg) == Plain ==> |s| == n * p.octs
    ensures PayloadMode(cfg) in {Hex, Bits} ==> |s| == n * p.octs + n / 2
  {
    var mode := PayloadMode(cfg);
    if mode == CArray then " "
    else
      var toks := Encoded(mode, Caps(cfg), p.octs, line, n);
      TokensLength(toks, 0, mode != Plain, p.octs);
      OddsBelowHalf(n);
      Tokens(toks, 0, mode != Plain)
  }

  /** The octets of line[..n] are recovered from the payload of an encoding
      mode: cut into tokens, each token decodes to its octet. */
  lemma PayloadRoundTrip(cfg: Config, p: Params, line: seq<Byte>, n: nat)
    requires n <= |line|
    requires Encodes(PayloadMode(cfg)) && DigitWidth(PayloadMode(cfg)) <= p.octs
    ensures var mode := PayloadMode(cfg);
            var toks := SplitTokens(Payload(cfg, p, line, n), p.octs, 0, n, mode != Plain);
            && |toks| == n
            && forall k :: 0 <= k < n ==>
                 |toks[k]| == p.octs && DecodeToken(mode, Caps(cfg), toks[k]) == line[k]
  {
    var mode := PayloadMode(cfg);
    var toks := Encoded(mode, Caps(cfg), p.octs, line, n);
    assert Payload(cfg, p, line, n) == Tokens(toks, 0, mode != Plain) + "";
    TokensRoundTrip(toks, 0, mode != Plain, p.octs, "");
    assert SplitTokens(Payload(cfg, p, line, n), p.octs, 0, n, mode != Plain) == toks;
    forall k | 0 <= k < n
      ensures |toks[k]| == p.octs && DecodeToken(mode, Caps(cfg), toks[k]) == line[k]
    {
      TokenRoundTrip(mode, Caps(cfg), p.octs, line[k]);
    }
  }

  /** Filler for the octet positions n..cols of a short line: two spaces each,
      plus one after each odd position, in every mode. */
  function Padding(i: nat, cols: int): (s: string)
    ensures forall k :: 0 <= k < |s| ==> s[k] == ' '
    decreases cols - i
  {
    if cols <= i then ""
    else "  " + Sep(true, i) + Padding(i + 1, cols)
  }

  lemma {:induction false} PaddingLength(i: nat, cols: int)
    requires i <= cols
    ensures |Padding(i, cols)| == 2 * (cols - i) + OddsBelow(cols) - OddsBelow(i)
    decreases cols - i
  {
    if i < cols {
      PaddingLength(i + 1, cols);
      assert OddsBelow(i + 1) == OddsBelow(i) + |Sep(true, i)|;
    }
  }

  /** Payload plus padding of a grouped encoding mode: each octet read costs
      octs characters, each missing one two. */
  lemma GroupedWidth(cfg: Config, p: Params, line: seq<Byte>, n: nat)
    requires n <= |line| == p.cols
    requires PayloadMode(cfg) in {Hex, Bits} && DigitWidth(PayloadMode(cfg)) <= p.octs
    ensures |Payload(cfg, p, line, n) + Padding(n, p.cols)| ==
              n * p.octs + 2 * (p.cols - n) + p.cols / 2
  {
    PaddingLength(n, p.cols);
    OddsBelowHalf(n);
    OddsBelowHalf(p.cols);
  }

  /** In hex mode with two-digit groups, payload plus padding is 2·cols + cols/2
      characters whatever the number of octets read, so the sidebar column is
      the same on a short last line as on full lines. */
  lemma HexColumnsAligned(cfg: Config, p: Params, line: seq<Byte>, n: nat)
    requires n <= |line| == p.cols
    requires PayloadMode(cfg) == Hex && p.octs == 2
    ensures |Payload(cfg, p, line, n) + Padding(n, p.cols)| == 2 * p.cols + p.cols / 2
  {
    GroupedWidth(cfg, p, line, n);
  }

  // ---------------------------------------------------------------------------
  // A whole line

  /** Whether encoding the octets of a line indexes past the digit buffer. */
  predicate BufferTooSmall(cfg: Config, p: Params) {
    Encodes(PayloadMode(cfg)) && p.octs < DigitWidth(PayloadMode(cfg))
  }

  /** Text s holds w at offset off. */
  predicate HoldsAt(s: string, off: nat, w: string) {
    off + |w| <= |s| && s[off..off + |w|] == w
  }

  /** Text s ends with w. */
  predicate EndsWith(s: string, w: string) {
    |w| <= |s| && s[|s| - |w|..] == w
  }

  /** A text holding w at off also holds there whatever w starts with. */
  lemma HoldsPrefix(s: string, off: nat, w: string, u: string)
    requires HoldsAt(s, off, w) && HoldsAt(w, 0, u)
    ensures HoldsAt(s, off, u)
  {
    assert s[off..off + |u|] == s[off..off + |w|][..|u|];
  }

  /** A text holding w at off holds, at off + at, whatever w holds at at. */
  lemma HoldsWithin(s: string, off: nat, w: string, at: nat, u: string)
    requires HoldsAt(s, off, w) && HoldsAt(w, at, u)
    ensures HoldsAt(s, off + at, u)
  {
    forall i | 0 <= i < |u| ensures s[off + at + i] == u[i] {
      assert u[i] == w[at..at + |u|][i] == w[at + i];
      assert w[at + i] == s[off..off + |w|][at + i];
    }
  }

  /** text is head, then body, then exactly tailLen more characters. */
  predicate Frames(text: string, head: string, body: string, tailLen: nat) {
    && |text| == |head| + |body| + tailLen
    && text[..|head|] == head
    && text[|head|..|head| + |body|] == body
  }

  /**
   Renders a line of n freshly read octets (n >= 1) held in the line buffer:
   heading, payload, padding, a space, the sidebar of line[..n] when offsets
   are shown, and a newline. Panics when the offset needs more than six digits
   or the digit buffer is too small for the encoder.
   */
  function RenderLine(cfg: Config, p: Params, cname: string, lineOffset: nat, doCHeader: bool,
                      line: seq<Byte>, n: nat): (r: Outcome)
    requires 1 <= n <= |line| == p.cols
    ensures r.Panic? <==> (ShowsOffsets(cfg) && 0x1000000 <= lineOffset) || BufferTooSmall(cfg, p)
    ensures r.Text? ==> 1 <= |r.text| && r.text[|r.text| - 1] == '\n'
    ensures r.Text? && ShowsOffsets(cfg) ==>
              && 9 <= |r.text|
              && r.text[..9] == Header(lineOffset)
              && var side := " " + Side(line[..n], cfg.ebcdic) + "\n";
                 |side| <= |r.text| && r.text[|r.text| - |side|..] == side
    ensures r.Text? && !ShowsOffsets(cfg) ==> 2 <= |r.text| && r.text[|r.text| - 2..] == " \n"
    // the heading, then the octets and the padding, then the closing characters
    ensures r.Text? ==>
              && Heading(cfg, cname, lineOffset, doCHeader).Text?
              && Frames(r.text, Heading(cfg, cname, lineOffset, doCHeader).text,
                        Payload(cfg, p, line, n) + Padding(n, p.cols),
                        (if ShowsOffsets(cfg) then n else 0) + 2)
  {
    var head := Heading(cfg, cname, lineOffset, doCHeader);
    if head.Panic? then head
    else if BufferTooSmall(cfg, p) then Panic(DigitBufferTooSmall)
    else Text(Assemble(cfg, p, head.text, line, n))
  }

  /** A line after its heading: the payload, the padding, a space, the sidebar
      when offsets are shown, and the newline. */
  function Assemble(cfg: Config, p: Params, head: string, line: seq<Byte>, n: nat): (s: string)
    requires 1 <= n <= |line| == p.cols
    requires !BufferTooSmall(cfg, p)
    ensures 1 <= |s| && s[|s| - 1] == '\n'
    ensures ShowsOffsets(cfg) ==>
              var side := " " + Side(line[..n], cfg.ebcdic) + "\n";
              |side| <= |s| && s[|s| - |side|..] == side
    ensures !ShowsOffsets(cfg) ==> 2 <= |s| && s[|s| - 2..] == " \n"
    ensures Frames(s, head, Payload(cfg, p, line, n) + Padding(n, p.cols),
                   (if ShowsOffsets(cfg) then n else 0) + 2)
  {
    var side := if ShowsOffsets(cfg) then Side(line[..n], cfg.ebcdic) else "";
    var tail := " " + side + "\n";
    var body := Payload(cfg, p, line, n) + Padding(n, p.cols);
    Framed(head, body, tail);
    head + body + tail
  }

  /** A text holding pre + post at position at holds pre at the start of its tail from there. */
  lemma PrefixAt(s: string, at: nat, pre: string, post: string)
    requires at + |pre + post| <= |s| && s[at..at + |pre + post|] == pre + post
    ensures |pre| <= |s[at..]| && s[at..][..|pre|] == pre
  {
    assert s[at..][..|pre|] == s[at..at + |pre + post|][..|pre|];
  }

  /** In a rendered line of an encoding mode, the tokens of the octets read
      follow the nine-character header. */
  lemma LineTokens(cfg: Config, p: Params, cname: string, lineOffset: nat, doCHeader: bool,
                   line: seq<Byte>, n: nat)
    requires 1 <= n <= |line| == p.cols
    requires Encodes(PayloadMode(cfg))
    requires RenderLine(cfg, p, cname, lineOffset, doCHeader, line, n).Text?
    ensures DigitWidth(PayloadMode(cfg)) <= p.octs
    ensures HoldsAt(RenderLine(cfg, p, cname, lineOffset, doCHeader, line, n).text, 9,
                    Tokens(Encoded(PayloadMode(cfg), Caps(cfg), p.octs, line, n), 0, PayloadMode(cfg) != Plain))
  {
    PayloadTokens(cfg, p, line, n);
    FramesHolds(RenderLine(cfg, p, cname, lineOffset, doCHeader, line, n).text,
                Heading(cfg, cname, lineOffset, doCHeader).text,
                Payload(cfg, p, line, n), Padding(n, p.cols), n + 2);
  }

  /** The payload of an encoding mode is the tokens of the octets read. */
  lemma PayloadTokens(cfg: Config, p: Params, line: seq<Byte>, n: nat)
    requires n <= |line| && Encodes(PayloadMode(cfg)) && DigitWidth(PayloadMode(cfg)) <= p.octs
    ensures Payload(cfg, p, line, n) ==
              Tokens(Encoded(PayloadMode(cfg), Caps(cfg), p.octs, line, n), 0, PayloadMode(cfg) != Plain)
  {
  }

  /** A framed text holds the start of its body right after the head. */
  lemma FramesHolds(text: string, head: string, pre: string, post: string, tailLen: nat)
    requires Frames(text, head, pre + post, tailLen)
    ensures HoldsAt(text, |head|, pre)
  {
    assert text[|head|..|head| + |pre|] == text[|head|..|head| + |pre + post|][..|pre|];
  }

  /** Cutting s after off into tokens of octs characters gives back
      `octets`: one token per octet, each decoding to it. */
  predicate ReadsBack(s: string, off: nat, mode: Mode, caps: string, octs: int, octets: seq<Byte>) {
    0 <= octs && off <= |s| && Decodes(SplitTokens(s[off..], octs, 0, |octets|, mode != Plain), mode, caps, octs, octets)
  }

  /** One token of octs characters per octet, each decoding to it. */
  predicate Decodes(toks: seq<string>, mode: Mode, caps: string, octs: int, octets: seq<Byte>) {
    && |toks| == |octets|
    && forall k :: 0 <= k < |octets| ==>
         |toks[k]| == octs && DigitWidth(mode) <= octs && DecodeToken(mode, caps, toks[k]) == octets[k]
  }

  /** The tokens of n octets, found at off in any text, cut back out of it
      and decode to those octets. */
  lemma CutDecodes(s: string, off: nat, mode: Mode, caps: string, octs: int, line: seq<Byte>, n: nat)
    requires IsDigitTable(caps) && DigitWidth(mode) <= octs && n <= |line|
    requires HoldsAt(s, off, Tokens(Encoded(mode, caps, octs, line, n), 0, mode != Plain))
    ensures ReadsBack(s, off, mode, caps, octs, line[..n])
  {
    var toks := Encoded(mode, caps, octs, line, n);
    var text := Tokens(toks, 0, mode != Plain);
    EncodedRoundTrip(mode, caps, octs, line, n);
    assert s[off..][..|text|] == s[off..off + |text|];
    CutTokens(s[off..], toks, octs, mode != Plain);
    assert |line[..n]| == n;
    assert Decodes(toks, mode, caps, octs, line[..n]);
  }

  /** A text holding, at off, a line whose tokens follow its nine-character
      header reads back the octets of those tokens from off + 9. */
  lemma CutWithin(s: string, off: nat, w: string, mode: Mode, caps: string, octs: int,
                  line: seq<Byte>, n: nat)
    requires IsDigitTable(caps) && DigitWidth(mode) <= octs && n <= |line|
    requires HoldsAt(s, off, w) && HoldsAt(w, 9, Tokens(Encoded(mode, caps, octs, line, n), 0, mode != Plain))
    ensures ReadsBack(s, off + 9, mode, caps, octs, line[..n])
  {
    HoldsWithin(s, off, w, 9, Tokens(Encoded(mode, caps, octs, line, n), 0, mode != Plain));
    CutDecodes(s, off + 9, mode, caps, octs, line, n);
  }

  /** Where the sidebar of a hex line with two-digit groups starts: after the
      nine-character header, 2·cols digits, cols/2 group spaces and one space. */
  function HexSidebarColumn(cols: int): int {
    9 + 2 * cols + cols / 2 + 1
  }

  /**
   A rendered line gives back the octets it shows: in binary, postscript and
   hex modes, cutting the text after the nine-character header into tokens
   yields n tokens that decode to line[..n].
   */
  lemma LineRoundTrip(cfg: Config, p: Params, cname: string, lineOffset: nat, doCHeader: bool,
                      line: seq<Byte>, n: nat)
    requires 1 <= n <= |line| == p.cols
    requires Encodes(PayloadMode(cfg)) && DigitWidth(PayloadMode(cfg)) <= p.octs
    requires lineOffset < 0x1000000
    ensures var r := RenderLine(cfg, p, cname, lineOffset, doCHeader, line, n);
            && r.Text?
            && 9 <= |r.text|
            && var toks := SplitTokens(r.text[9..], p.octs, 0, n, PayloadMode(cfg) != Plain);
               && |toks| == n
               && forall k :: 0 <= k < n ==>
                    |toks[k]| == p.octs && DecodeToken(PayloadMode(cfg), Caps(cfg), toks[k]) == line[k]
  {
    var mode := PayloadMode(cfg);
    var r := RenderLine(cfg, p, cname, lineOffset, doCHeader, line, n);
    var toks := Encoded(mode, Caps(cfg), p.octs, line, n);
    var payload := Payload(cfg, p, line, n);
    assert |Heading(cfg, cname, lineOffset, doCHeader).text| == 9;
    PrefixAt(r.text, 9, payload, Padding(n, p.cols));
    assert payload == Tokens(toks, 0, mode != Plain);
    EncodedRoundTrip(mode, Caps(cfg), p.octs, line, n);
    CutTokens(r.text[9..], toks, p.octs, mode != Plain);
  }

  /**
   In hex mode with two-digit groups the sidebar of every line starts in the
   same column, HexSidebarColumn(cols), whether the line is full or short:
   the text from the column before it on is the space, the sidebar of the
   octets read and the newline.
   */
  lemma HexLineColumns(cfg: Config, p: Params, cname: string, lineOffset: nat, doCHeader: bool,
                       line: seq<Byte>, n: nat)
    requires 1 <= n <= |line| == p.cols
    requires PayloadMode(cfg) == Hex && p.octs == 2
    requires lineOffset < 0x1000000
    ensures var r := RenderLine(cfg, p, cname, lineOffset, doCHeader, line, n);
            && r.Text?
            && |r.text| == HexSidebarColumn(p.cols) + n + 1
            && r.text[HexSidebarColumn(p.cols) - 1..] == " " + Side(line[..n], cfg.ebcdic) + "\n"
  {
    var r := RenderLine(cfg, p, cname, lineOffset, doCHeader, line, n);
    var side := " " + Side(line[..n], cfg.ebcdic) + "\n";
    HexColumnsAligned(cfg, p, line, n);
    assert ShowsOffsets(cfg);
    assert |Heading(cfg, cname, lineOffset, doCHeader).text| == 9;
    assert |side| == n + 2;
    assert |r.text| == HexSidebarColumn(p.cols) + n + 1;
    assert r.text[|r.text| - |side|..] == side;
  }
}

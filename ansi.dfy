/** The escape-sequence handling of the text console (src/drivers/renderer.cpp:84-116 and
    136-259): `print` collects the bytes after an ESC and hands them to `escapeAnsi`, which
    applies the `;`-separated parameters of a Select Graphic Rendition control sequence
    (section 8.3.117 of ECMA-48). Everything here is a pure description of what the console's
    methods do; the colours are those of the `Color` enum in src/core/utils.h. */
module Ansi {
  import opened Bits
  import opened CStrings

  const ESC: u8 := 0x1B
  const LEFT_BRACKET: u8 := 0x5B
  const SEMICOLON: u8 := 0x3B
  /** Final bytes of a control sequence, '@' to '~'. */
  const FINAL_FIRST: u8 := 0x40
  const FINAL_LAST: u8 := 0x7E
  /** `ESCAPE_SIZE`: the escape buffer and `escapeAnsi`'s copy of it hold 15 bytes and a NUL. */
  const ESCAPE_SIZE: nat := 16
  const ESCAPE_MAX: nat := ESCAPE_SIZE - 1

  const BLACK: u32 := 0x000000
  const RED: u32 := 0xFF0000
  const GREEN: u32 := 0x00FF00
  const YELLOW: u32 := 0xFFFF00
  const BLUE: u32 := 0x0000FF
  const MAGENTA: u32 := 0xFF00FF
  const CYAN: u32 := 0x00FFFF
  const WHITE: u32 := 0xFFFFFF
  const LIGHT_BLACK: u32 := 0x808080
  const LIGHT_RED: u32 := 0xFF8080
  const LIGHT_GREEN: u32 := 0x80FF80
  const LIGHT_YELLOW: u32 := 0xFFFF80
  const LIGHT_BLUE: u32 := 0x8080FF
  const LIGHT_MAGENTA: u32 := 0xFF80FF
  const LIGHT_CYAN: u32 := 0x80FFFF
  const LIGHT_WHITE: u32 := 0xE0E0E0

  /** The eight colours in SGR order (black, red, green, yellow, blue, magenta, cyan, white),
      normal and bright. */
  const NORMAL: seq<u32> := [BLACK, RED, GREEN, YELLOW, BLUE, MAGENTA, CYAN, WHITE]
  const BRIGHT: seq<u32> := [LIGHT_BLACK, LIGHT_RED, LIGHT_GREEN, LIGHT_YELLOW, LIGHT_BLUE,
                             LIGHT_MAGENTA, LIGHT_CYAN, LIGHT_WHITE]

  /** The foreground and background colour `print` draws with. */
  datatype Pen = Pen(fg: u32, bg: u32)

  /** A call `print` makes on the console: `printChar(c, fg, bg)` or `clear(color)`. */
  datatype Output = Glyph(c: u8, fg: u32, bg: u32) | Clear(color: u32)

  predicate SetsColour(code: int)
  {
    code == 0 || 30 <= code <= 37 || 40 <= code <= 47 || 90 <= code <= 97 || 100 <= code <= 107
  }

  /** The colour part of one parameter: the `switch` of renderer.cpp:149-257. Code 0 restores
      both defaults, 30-37 and 90-97 pick a foreground, 40-47 and 100-107 a background, in SGR
      colour order; every other code leaves the pen alone. */
  function ApplyCode(code: int, pen: Pen, defaults: Pen): (r: Pen)
    ensures code == 0 ==> r == defaults
    ensures 30 <= code <= 37 ==> r == pen.(fg := NORMAL[code - 30])
    ensures 90 <= code <= 97 ==> r == pen.(fg := BRIGHT[code - 90])
    ensures 40 <= code <= 47 ==> r == pen.(bg := NORMAL[code - 40])
    ensures 100 <= code <= 107 ==> r == pen.(bg := BRIGHT[code - 100])
    ensures !SetsColour(code) ==> r == pen
  {
    match code
    case 0 => defaults
    case 30 => pen.(fg := BLACK)
    case 31 => pen.(fg := RED)
    case 32 => pen.(fg := GREEN)
    case 33 => pen.(fg := YELLOW)
    case 34 => pen.(fg := BLUE)
    case 35 => pen.(fg := MAGENTA)
    case 36 => pen.(fg := CYAN)
    case 37 => pen.(fg := WHITE)
    case 40 => pen.(bg := BLACK)
    case 41 => pen.(bg := RED)
    case 42 => pen.(bg := GREEN)
    case 43 => pen.(bg := YELLOW)
    case 44 => pen.(bg := BLUE)
    case 45 => pen.(bg := MAGENTA)
    case 46 => pen.(bg := CYAN)
    case 47 => pen.(bg := WHITE)
    case 90 => pen.(fg := LIGHT_BLACK)
    case 91 => pen.(fg := LIGHT_RED)
    case 92 => pen.(fg := LIGHT_GREEN)
    case 93 => pen.(fg := LIGHT_YELLOW)
    case 94 => pen.(fg := LIGHT_BLUE)
    case 95 => pen.(fg := LIGHT_MAGENTA)
    case 96 => pen.(fg := LIGHT_CYAN)
    case 97 => pen.(fg := LIGHT_WHITE)
    case 100 => pen.(bg := LIGHT_BLACK)
    case 101 => pen.(bg := LIGHT_RED)
    case 102 => pen.(bg := LIGHT_GREEN)
    case 103 => pen.(bg := LIGHT_YELLOW)
    case 104 => pen.(bg := LIGHT_BLUE)
    case 105 => pen.(bg := LIGHT_MAGENTA)
    case 106 => pen.(bg := LIGHT_CYAN)
    case 107 => pen.(bg := LIGHT_WHITE)
    case _ => pen
  }

  /** The console call one parameter makes: code 2 clears the screen with the current
      background. */
  function CodeOutput(code: int, pen: Pen): seq<Output>
  {
    if code == 2 then [Clear(pen.bg)] else []
  }

  /** The parameters applied left to right: the final pen and the calls made on the way. */
  function ApplySgr(codes: seq<int>, pen: Pen, defaults: Pen): (Pen, seq<Output>)
    decreases |codes|
  {
    if codes == [] then (pen, [])
    else
      var next := ApplySgr(codes[1..], ApplyCode(codes[0], pen, defaults), defaults);
      (next.0, CodeOutput(codes[0], pen) + next.1)
  }

  /** Parameters are applied in order: a list of them acts as its first part followed by its
      second part, so a later parameter overrides an earlier one. */
  lemma {:induction false} ApplySgrAppend(a: seq<int>, b: seq<int>, pen: Pen, defaults: Pen)
    ensures ApplySgr(a + b, pen, defaults).0 ==
            ApplySgr(b, ApplySgr(a, pen, defaults).0, defaults).0
    ensures ApplySgr(a + b, pen, defaults).1 ==
            ApplySgr(a, pen, defaults).1 + ApplySgr(b, ApplySgr(a, pen, defaults).0, defaults).1
    decreases |a|
  {
    if a != [] {
      assert (a + b)[0] == a[0] && (a + b)[1..] == a[1..] + b;
      ApplySgrAppend(a[1..], b, ApplyCode(a[0], pen, defaults), defaults);
    } else {
      assert a + b == b;
    }
  }

  /** The last parameter is applied to the pen the others leave. */
  lemma ApplySgrLast(codes: seq<int>, code: int, pen: Pen, defaults: Pen)
    ensures ApplySgr(codes + [code], pen, defaults).0 ==
            ApplyCode(code, ApplySgr(codes, pen, defaults).0, defaults)
  {
    ApplySgrAppend(codes, [code], pen, defaults);
    assert [code][1..] == [];
  }

  lemma ApplySgrOne(code: int, pen: Pen, defaults: Pen)
    ensures ApplySgr([code], pen, defaults) == (ApplyCode(code, pen, defaults), CodeOutput(code, pen))
  {
    assert [code][0] == code && [code][1..] == [];
    var next := ApplySgr([], ApplyCode(code, pen, defaults), defaults);
    assert next == (ApplyCode(code, pen, defaults), []);
    assert CodeOutput(code, pen) + [] == CodeOutput(code, pen);
  }

  /** Without a clearing code, no call is made on the console. */
  lemma {:induction false} ApplySgrNoClear(codes: seq<int>, pen: Pen, defaults: Pen)
    requires forall i :: 0 <= i < |codes| ==> codes[i] != 2
    ensures ApplySgr(codes, pen, defaults).1 == []
    decreases |codes|
  {
    if codes != [] {
      ApplySgrNoClear(codes[1..], ApplyCode(codes[0], pen, defaults), defaults);
    }
  }

  // ------------------------------------------------------------------ fields

  /** The length of the run of bytes other than ';' at the start of s. */
  function FieldLength(s: seq<u8>): (n: nat)
    ensures n <= |s| && (n < |s| ==> s[n] == SEMICOLON)
    ensures forall j :: 0 <= j < n ==> s[j] != SEMICOLON
  {
    if s == [] || s[0] == SEMICOLON then 0 else 1 + FieldLength(s[1..])
  }

  /** The non-empty `;`-separated fields of s, in order: what successive `strtok(…, ";")`
      calls return. */
  function Fields(s: seq<u8>): seq<seq<u8>>
    decreases |s|
  {
    if s == [] then []
    else if s[0] == SEMICOLON then Fields(s[1..])
    else [s[..FieldLength(s)]] + Fields(s[FieldLength(s)..])
  }

  /** Every field is non-empty and holds no ';'. */
  lemma {:induction false} FieldsShape(s: seq<u8>)
    ensures forall i :: 0 <= i < |Fields(s)| ==> Fields(s)[i] != [] && SEMICOLON !in Fields(s)[i]
    decreases |s|
  {
    if s != [] {
      if s[0] == SEMICOLON {
        FieldsShape(s[1..]);
      } else {
        var n := FieldLength(s);
        FieldsShape(s[n..]);
        assert s[..n][0] == s[0];
        assert forall i :: 0 <= i < |Fields(s)| - 1 ==> Fields(s)[i + 1] == Fields(s[n..])[i];
      }
    }
  }

  /** Splitting at a ';' splits the fields: the fields of `a;b` are those of a, then those of
      b. */
  lemma {:induction false} FieldsJoin(a: seq<u8>, b: seq<u8>)
    ensures Fields(a + [SEMICOLON] + b) == Fields(a) + Fields(b)
    decreases |a|
  {
    var s := a + [SEMICOLON] + b;
    if a == [] {
      assert s[0] == SEMICOLON && s[1..] == b;
    } else if a[0] == SEMICOLON {
      assert s[0] == SEMICOLON && s[1..] == a[1..] + [SEMICOLON] + b;
      FieldsJoin(a[1..], b);
    } else {
      var n := FieldLength(a);
      FieldRunJoin(a, b);
      assert s[..n] == a[..n] && s[n..] == a[n..] + [SEMICOLON] + b;
      if n < |a| {
        FieldsJoin(a[n..], b);
      } else {
        assert a[n..] == [] && s[n..] == [SEMICOLON] + b;
        assert Fields(s[n..]) == Fields(b) by {
          assert s[n..][0] == SEMICOLON && s[n..][1..] == b;
        }
      }
    }
  }

  lemma FieldRunJoin(a: seq<u8>, b: seq<u8>)
    requires a != [] && a[0] != SEMICOLON
    ensures FieldLength(a + [SEMICOLON] + b) == FieldLength(a)
  {
    var s := a + [SEMICOLON] + b;
    var n := FieldLength(a);
    FieldLengthIs(s, n);
  }

  /** A run length is determined by where the first ';' is. */
  lemma {:induction false} FieldLengthIs(s: seq<u8>, n: nat)
    requires n <= |s| && (n < |s| ==> s[n] == SEMICOLON)
    requires forall j :: 0 <= j < n ==> s[j] != SEMICOLON
    ensures FieldLength(s) == n
    decreases n
  {
    if n > 0 {
      FieldLengthIs(s[1..], n - 1);
    }
  }

  /** A string without ';' is one field. */
  lemma FieldsOfOne(s: seq<u8>)
    requires s != [] && SEMICOLON !in s
    ensures Fields(s) == [s]
  {
    FieldLengthIs(s, |s|);
    assert s[|s|..] == [] && s[..|s|] == s;
  }

  /** The value `atoi` reads from a field: its decimal number, the field being followed by the
      NUL `strtok` writes. */
  function FieldCode(f: seq<u8>): i32
  {
    var t := f + [NUL];
    assert t[|f|] == NUL;
    AtoiValue(t)
  }

  function Codes(fields: seq<seq<u8>>): seq<int>
  {
    seq(|fields|, i requires 0 <= i < |fields| => FieldCode(fields[i]) as int)
  }

  lemma CodesAppend(a: seq<seq<u8>>, b: seq<seq<u8>>)
    ensures Codes(a + b) == Codes(a) + Codes(b)
  {
  }

  /** The delimiter string `";"` that `escapeAnsi` hands to `strtok`. */
  const DELIMS: seq<u8> := [SEMICOLON, NUL]

  lemma SemicolonDelims(b: u8)
    ensures Terminated(DELIMS, 0) && StrEnd(DELIMS, 0) == 1
    ensures InDelims(DELIMS, b) <==> b == SEMICOLON
  {
    assert DELIMS[1] == NUL;
    assert DELIMS[..1] == [SEMICOLON];
  }

  /** Leading ';' bytes contribute no field. */
  lemma {:induction false} FieldsSkip(t: seq<u8>, k: nat)
    requires k <= |t| && forall j :: 0 <= j < k ==> t[j] == SEMICOLON
    ensures Fields(t) == Fields(t[k..])
    decreases k
  {
    if k == 0 {
      assert t[0..] == t;
    } else {
      FieldsSkip(t[1..], k - 1);
      assert t[1..][k - 1..] == t[k..];
    }
  }

  lemma DelimIsSemicolon()
    ensures Terminated(DELIMS, 0)
    ensures forall b: u8 :: InDelims(DELIMS, b) <==> b == SEMICOLON
  {
    SemicolonDelims(0);
    forall b: u8
      ensures InDelims(DELIMS, b) <==> b == SEMICOLON
    {
      SemicolonDelims(b);
    }
  }

  /** The bytes of a buffer holding `params[p..]` and then a NUL. */
  ghost predicate Holds(s: seq<u8>, params: seq<u8>, p: nat)
  {
    p <= |params| < |s| && s[|params|] == NUL && s[p..|params|] == params[p..] && NUL !in params
  }

  lemma HoldsAt(s: seq<u8>, params: seq<u8>, p: nat, j: nat)
    requires Holds(s, params, p) && p <= j < |params|
    ensures s[j] == params[j] && s[j] != NUL
  {
    assert s[p..|params|][j - p] == params[p..][j - p];
  }

  /** Skipping the delimiters moves to the next field, or to the NUL when none is left. */
  lemma SkipToField(s: seq<u8>, params: seq<u8>, p: nat)
    requires Holds(s, params, p)
    ensures Terminated(s, p) && Terminated(DELIMS, 0)
    ensures var q := SkipDelims(s, DELIMS, p);
            q <= |params| && Fields(params[p..]) == Fields(params[q..])
            && (s[q] == NUL <==> q == |params|)
            && (q < |params| ==> params[q] != SEMICOLON && Holds(s, params, q))
  {
    var len := |params|;
    assert Terminated(s, p) by {
      assert s[len] == NUL;
    }
    DelimIsSemicolon();
    var q := SkipDelims(s, DELIMS, p);
    assert q <= len by {
      assert s[len] == NUL;
    }
    forall j | 0 <= j < q - p
      ensures params[p..][j] == SEMICOLON
    {
      HoldsAt(s, params, p, p + j);
    }
    FieldsSkip(params[p..], q - p);
    assert params[p..][q - p..] == params[q..];
    if q < len {
      HoldsAt(s, params, p, q);
      assert s[q..len] == params[q..] by {
        assert s[q..len] == s[p..len][q - p..];
      }
    }
  }

  /** Where the token starting at the first byte of a field ends. */
  lemma TokenEndFacts(s: seq<u8>, params: seq<u8>, q: nat)
    requires Holds(s, params, q) && q < |params| && params[q] != SEMICOLON
    ensures Terminated(s, q) && Terminated(DELIMS, 0)
    ensures var e := TokenEnd(s, DELIMS, q);
            q < e <= |params| && s[q..e] == params[q..e]
            && FieldLength(params[q..]) == e - q
            && (e < |params| ==> s[e] == SEMICOLON && params[e] == SEMICOLON)
            && (e == |params| ==> s[e] == NUL)
  {
    var len := |params|;
    assert Terminated(s, q) by {
      assert s[len] == NUL;
    }
    DelimIsSemicolon();
    HoldsAt(s, params, q, q);
    var e := TokenEnd(s, DELIMS, q);
    assert e <= len by {
      assert s[len] == NUL;
    }
    forall j | 0 <= j < e - q
      ensures params[q..][j] != SEMICOLON
    {
      HoldsAt(s, params, q, q + j);
    }
    if e < len {
      HoldsAt(s, params, q, e);
      assert params[q..][e - q] == SEMICOLON;
    }
    FieldLengthIs(params[q..], e - q);
    assert s[q..e] == params[q..e] by {
      assert s[q..e] == s[q..len][..e - q];
    }
  }

  /** From the first byte of a field, the token ends where the field does. */
  lemma TokenToFieldEnd(s: seq<u8>, params: seq<u8>, q: nat)
    requires Holds(s, params, q) && q < |params| && params[q] != SEMICOLON
    ensures Terminated(s, q) && Terminated(DELIMS, 0)
    ensures var e := TokenEnd(s, DELIMS, q);
            q < e <= |params| && s[q..e] == params[q..e]
            && (e < |params| ==> s[e] == SEMICOLON && Fields(params[q..]) == [params[q..e]] + Fields(params[e + 1..]))
            && (e == |params| ==> s[e] == NUL && Fields(params[q..]) == [params[q..e]])
  {
    TokenEndFacts(s, params, q);
    FieldAt(params, q, TokenEnd(s, DELIMS, q));
  }

  /** The field of params that starts at q and ends at e, with a ';' or the end there. */
  lemma FieldAt(params: seq<u8>, q: nat, e: nat)
    requires q < e <= |params| && params[q] != SEMICOLON && FieldLength(params[q..]) == e - q
    requires e < |params| ==> params[e] == SEMICOLON
    ensures e < |params| ==> Fields(params[q..]) == [params[q..e]] + Fields(params[e + 1..])
    ensures e == |params| ==> Fields(params[q..]) == [params[q..e]]
  {
    var t := params[q..];
    assert t[..e - q] == params[q..e] && t[e - q..] == params[e..];
    if e < |params| {
      FieldsSkip(params[e..], 1);
      assert params[e..][1..] == params[e + 1..];
    } else {
      assert params[e..] == [];
    }
  }

  /** `strtok` ends the token at e: a ';' there becomes the NUL, and the rest of the
      parameters is left intact after it. */
  lemma TokenCut(s: seq<u8>, params: seq<u8>, q: nat, e: nat)
    requires Holds(s, params, q) && q < e <= |params| && s[q..e] == params[q..e]
    requires e < |params| ==> s[e] == SEMICOLON
    ensures var t := if e < |params| then s[e := NUL] else s;
            Holds(t, params, if e < |params| then e + 1 else e)
            && t[e] == NUL && t[q..e] == params[q..e]
  {
    var len := |params|;
    if e < len {
      var t := s[e := NUL];
      assert t[q..e] == s[q..e];
      assert t[e + 1..len] == s[e + 1..len];
      assert s[e + 1..len] == s[q..len][e + 1 - q..] && params[e + 1..] == params[q..][e + 1 - q..];
    } else {
      assert s[len..len] == params[len..];
    }
  }

  // ------------------------------------------------------------------ escapeAnsi

  /** The bytes `escapeAnsi` copies after the '[': at most 15. */
  function Params(esc: seq<u8>): seq<u8>
    requires esc != []
  {
    if |esc| <= ESCAPE_SIZE then esc[1..] else esc[1..ESCAPE_SIZE]
  }

  /** renderer.cpp:136-260 on the collected bytes `esc` (the C string up to its NUL): nothing
      unless they start with '[', otherwise the SGR parameters applied in order. */
  function Escape(esc: seq<u8>, pen: Pen, defaults: Pen): (r: (Pen, seq<Output>))
    ensures esc == [] || esc[0] != LEFT_BRACKET ==> r == (pen, [])
  {
    if esc == [] || esc[0] != LEFT_BRACKET then (pen, [])
    else ApplySgr(Codes(Fields(Params(esc))), pen, defaults)
  }

  // ------------------------------------------------------------------ print's loop

  /** The variables of `print`'s loop: `inEscape`, the collected bytes `escBuf[..escLen]`, the
      colours, and the console calls made so far. */
  datatype ScanState = ScanState(inEscape: bool, esc: seq<u8>, pen: Pen, out: seq<Output>)

  predicate IsFinalByte(c: u8)
  {
    FINAL_FIRST <= c <= FINAL_LAST
  }

  /** renderer.cpp:97 as written: the sequence ends at the first final byte collected or when
      15 bytes are collected. The '[' that introduces a control sequence is itself in the
      final range, so it ends the sequence at once. */
  predicate EndsEscape(esc: seq<u8>, c: u8): (r: bool)
    ensures c == LEFT_BRACKET ==> r
    ensures |esc| >= ESCAPE_MAX ==> r
    ensures 0x30 <= c <= 0x3F ==> (r <==> |esc| >= ESCAPE_MAX)
  {
    IsFinalByte(c) || |esc| >= ESCAPE_MAX
  }

  /** The termination a control sequence evidently needs: the introducing '[' is not its
      final byte. */
  predicate EndsCsi(esc: seq<u8>, c: u8): (r: bool)
    ensures esc == [LEFT_BRACKET] ==> !r
    ensures esc != [LEFT_BRACKET] ==> (r <==> EndsEscape(esc, c))
  {
    (IsFinalByte(c) && esc != [LEFT_BRACKET]) || |esc| >= ESCAPE_MAX
  }

  /** One iteration of renderer.cpp:91-115 on byte c. With `corrected`, the sequence ends by
      `EndsCsi` instead of the source's `EndsEscape`. */
  function Step(st: ScanState, c: u8, defaults: Pen, corrected: bool): ScanState
  {
    if st.inEscape then
      var esc := if |st.esc| < ESCAPE_MAX then st.esc + [c] else st.esc;
      if (if corrected then EndsCsi(esc, c) else EndsEscape(esc, c)) then
        var r := Escape(esc, st.pen, defaults);
        ScanState(false, [], r.0, st.out + r.1)
      else
        ScanState(true, esc, st.pen, st.out)
    else if c == ESC then
      ScanState(true, [], st.pen, st.out)
    else
      ScanState(false, st.esc, st.pen, st.out + [Glyph(c, st.pen.fg, st.pen.bg)])
  }

  /** The loop run over the bytes s from the state st. */
  function Run(st: ScanState, s: seq<u8>, defaults: Pen, corrected: bool): ScanState
    decreases |s|
  {
    if s == [] then st else Run(Step(st, s[0], defaults, corrected), s[1..], defaults, corrected)
  }

  /** The state `print` starts from: out of any sequence, in the default colours. */
  function Start(defaults: Pen): ScanState
  {
    ScanState(false, [], defaults, [])
  }

  lemma {:induction false} RunAppend(st: ScanState, a: seq<u8>, b: seq<u8>, defaults: Pen, corrected: bool)
    ensures Run(st, a + b, defaults, corrected) == Run(Run(st, a, defaults, corrected), b, defaults, corrected)
    decreases |a|
  {
    if a == [] {
      assert a + b == b;
    } else {
      assert (a + b)[0] == a[0] && (a + b)[1..] == a[1..] + b;
      RunAppend(Step(st, a[0], defaults, corrected), a[1..], b, defaults, corrected);
    }
  }

  /** The loop's shape: inside a sequence fewer than 15 bytes are held, outside none, so
      `escBuf` never overflows. */
  ghost predicate Sane(st: ScanState)
  {
    if st.inEscape then |st.esc| < ESCAPE_MAX else st.esc == []
  }

  lemma {:induction false} RunSane(st: ScanState, s: seq<u8>, defaults: Pen, corrected: bool)
    requires Sane(st)
    ensures Sane(Run(st, s, defaults, corrected))
    decreases |s|
  {
    if s != [] {
      RunSane(Step(st, s[0], defaults, corrected), s[1..], defaults, corrected);
    }
  }

  /** The glyph calls for plain text t: each byte drawn in the pen's colours. */
  function Glyphs(t: seq<u8>, pen: Pen): (r: seq<Output>)
    ensures |r| == |t|
    ensures forall i :: 0 <= i < |t| ==> r[i] == Glyph(t[i], pen.fg, pen.bg)
  {
    if t == [] then [] else [Glyph(t[0], pen.fg, pen.bg)] + Glyphs(t[1..], pen)
  }

  /** Text without ESC is drawn byte for byte in the current colours. */
  lemma {:induction false} RunPlain(st: ScanState, t: seq<u8>, defaults: Pen, corrected: bool)
    requires !st.inEscape && ESC !in t
    ensures Run(st, t, defaults, corrected) == st.(out := st.out + Glyphs(t, st.pen))
    decreases |t|
  {
    if t == [] {
      assert st.out + Glyphs(t, st.pen) == st.out;
    } else {
      var next := st.(out := st.out + [Glyph(t[0], st.pen.fg, st.pen.bg)]);
      assert Step(st, t[0], defaults, corrected) == next;
      assert ESC !in t[1..] by {
        assert forall i :: 0 <= i < |t[1..]| ==> t[1..][i] == t[i + 1];
      }
      RunPlain(next, t[1..], defaults, corrected);
      assert Glyphs(t, st.pen) == [Glyph(t[0], st.pen.fg, st.pen.bg)] + Glyphs(t[1..], st.pen);
      assert next.out + Glyphs(t[1..], st.pen) == st.out + Glyphs(t, st.pen);
    }
  }

  /** One more byte is one more step: the loop's state after a prefix and a byte. */
  lemma RunSnoc(st: ScanState, s: seq<u8>, c: u8, defaults: Pen, corrected: bool)
    ensures Run(st, s + [c], defaults, corrected) == Step(Run(st, s, defaults, corrected), c, defaults, corrected)
  {
    RunAppend(st, s, [c], defaults, corrected);
    var mid := Run(st, s, defaults, corrected);
    assert [c][0] == c && [c][1..] == [];
    assert Run(mid, [c], defaults, corrected) == Run(Step(mid, c, defaults, corrected), [], defaults, corrected);
  }

  /** Two bytes are two steps. */
  lemma RunTwo(st: ScanState, a: u8, b: u8, defaults: Pen, corrected: bool)
    ensures Run(st, [a, b], defaults, corrected) == Step(Step(st, a, defaults, corrected), b, defaults, corrected)
  {
    assert [a, b][0] == a && [a, b][1..] == [b];
    assert Run(st, [a, b], defaults, corrected) == Run(Step(st, a, defaults, corrected), [b], defaults, corrected);
    assert [b][0] == b && [b][1..] == [];
  }

  /** Bytes 0x30-0x3F, the parameter bytes of a control sequence. */
  predicate IsParamByte(c: u8)
  {
    0x30 <= c <= 0x3F
  }

  /** As written: ESC '[' is a whole sequence that does nothing, so what follows it, the
      parameters and the final byte included, is drawn as text in the current colours. */
  lemma IntroducerEndsEscape(st: ScanState, t: seq<u8>, defaults: Pen)
    requires !st.inEscape && ESC !in t
    ensures Run(st, [ESC, LEFT_BRACKET] + t, defaults, false) == st.(esc := [], out := st.out + Glyphs(t, st.pen))
  {
    RunAppend(st, [ESC, LEFT_BRACKET], t, defaults, false);
    var mid := Run(st, [ESC, LEFT_BRACKET], defaults, false);
    assert mid == st.(esc := []) by {
      RunTwo(st, ESC, LEFT_BRACKET, defaults, false);
      assert Escape([LEFT_BRACKET], st.pen, defaults) == (st.pen, []) by {
        assert Params([LEFT_BRACKET]) == [];
      }
    }
    RunPlain(mid, t, defaults, false);
  }

  /** With the corrected termination, ESC '[' p f, for parameter bytes p and a final byte f,
      is consumed whole: nothing is drawn and the pen is what `escapeAnsi` makes of
      '[' p f. */
  lemma CsiApplied(st: ScanState, p: seq<u8>, f: u8, defaults: Pen)
    requires !st.inEscape && st.esc == []
    requires |p| < ESCAPE_MAX - 1 && (forall i :: 0 <= i < |p| ==> IsParamByte(p[i])) && IsFinalByte(f)
    ensures var r := Escape([LEFT_BRACKET] + p + [f], st.pen, defaults);
            Run(st, [ESC, LEFT_BRACKET] + p + [f], defaults, true) == ScanState(false, [], r.0, st.out + r.1)
  {
    var open := Step(Step(st, ESC, defaults, true), LEFT_BRACKET, defaults, true);
    assert open == ScanState(true, [LEFT_BRACKET], st.pen, st.out);
    RunAppend(st, [ESC, LEFT_BRACKET], p + [f], defaults, true);
    assert [ESC, LEFT_BRACKET] + p + [f] == [ESC, LEFT_BRACKET] + (p + [f]);
    RunTwo(st, ESC, LEFT_BRACKET, defaults, true);
    CollectParams(open, p, defaults);
    RunAppend(open, p, [f], defaults, true);
    var held := ScanState(true, [LEFT_BRACKET] + p, st.pen, st.out);
    assert Run(held, [f], defaults, true) == Step(held, f, defaults, true);
  }

  /** Parameter bytes are collected, none of them ending the sequence. */
  lemma {:induction false} CollectParams(st: ScanState, p: seq<u8>, defaults: Pen)
    requires st.inEscape && st.esc != [] && |st.esc| + |p| < ESCAPE_MAX
    requires forall i :: 0 <= i < |p| ==> IsParamByte(p[i])
    ensures Run(st, p, defaults, true) == st.(esc := st.esc + p)
    decreases |p|
  {
    if p == [] {
      assert st.esc + p == st.esc;
    } else {
      var next := Step(st, p[0], defaults, true);
      assert next == st.(esc := st.esc + [p[0]]);
      CollectParams(next, p[1..], defaults);
      assert st.esc + [p[0]] + p[1..] == st.esc + p;
    }
  }

  const BANNER_CODE: seq<u8> := [ESC, LEFT_BRACKET, '3' as u8, '2' as u8, 'm' as u8]

  /** The banner of src/core/kernel.cpp:18 starts with ESC "[32m". As written, the `32m` is
      drawn in the default colours. */
  lemma BannerAsWritten(defaults: Pen, text: seq<u8>)
    requires ESC !in text
    ensures Run(Start(defaults), BANNER_CODE + text, defaults, false).out ==
            Glyphs(['3' as u8, '2' as u8, 'm' as u8] + text, defaults)
  {
    var rest := ['3' as u8, '2' as u8, 'm' as u8] + text;
    assert BANNER_CODE + text == [ESC, LEFT_BRACKET] + rest;
    assert ESC !in rest by {
      assert forall i :: 0 <= i < |rest| ==> rest[i] != ESC by {
        forall i | 0 <= i < |rest| ensures rest[i] != ESC {
          if i >= 3 {
            assert rest[i] == text[i - 3];
          }
        }
      }
    }
    IntroducerEndsEscape(Start(defaults), rest, defaults);
  }

  /** With the corrected termination, the text after ESC "[32m" is drawn in green. */
  lemma BannerCorrected(defaults: Pen, text: seq<u8>)
    requires ESC !in text
    ensures Run(Start(defaults), BANNER_CODE + text, defaults, true).out == Glyphs(text, defaults.(fg := GREEN))
  {
    RunAppend(Start(defaults), BANNER_CODE, text, defaults, true);
    BannerCodeRun(defaults);
    RunPlain(ScanState(false, [], defaults.(fg := GREEN), []), text, defaults, true);
  }

  lemma BannerCodeRun(defaults: Pen)
    ensures Run(Start(defaults), BANNER_CODE, defaults, true) == ScanState(false, [], defaults.(fg := GREEN), [])
  {
    var digits := ['3' as u8, '2' as u8];
    var final := 'm' as u8;
    assert BANNER_CODE == [ESC, LEFT_BRACKET] + digits + [final];
    assert [LEFT_BRACKET] + digits + [final] == [LEFT_BRACKET, '3' as u8, '2' as u8, 'm' as u8];
    CsiApplied(Start(defaults), digits, final, defaults);
    EscapeGreen(defaults);
  }

  /** `escapeAnsi("[32m")` sets the foreground to green and makes no call. */
  lemma EscapeGreen(defaults: Pen)
    ensures Escape([LEFT_BRACKET, '3' as u8, '2' as u8, 'm' as u8], defaults, defaults) ==
            (defaults.(fg := GREEN), [])
  {
    var field := ['3' as u8, '2' as u8, 'm' as u8];
    assert Params([LEFT_BRACKET, '3' as u8, '2' as u8, 'm' as u8]) == field;
    FieldsOfOne(field);
    ThirtyTwo(field);
    assert Codes([field]) == [32];
    assert ApplyCode(32, defaults, defaults) == defaults.(fg := GREEN);
    ApplySgrOne(32, defaults, defaults);
  }

  lemma ThirtyTwo(field: seq<u8>)
    requires field == ['3' as u8, '2' as u8, 'm' as u8]
    ensures FieldCode(field) == 32
  {
    var t := field + [NUL];
    assert t[3] == NUL;
    assert SkipBlanks(t, 0) == 0;
    assert DigitsStart(t) == 0;
    assert DigitsEnd(t, 2) == 2;
    assert DigitsEnd(t, 0) == 2;
    assert t[0..2] == ['3' as u8, '2' as u8];
    assert ParseDigits(['3' as u8], 10) == 3 by {
      assert ['3' as u8][..0] == [];
    }
    assert ParseDigits(['3' as u8, '2' as u8], 10) == 32 by {
      assert ['3' as u8, '2' as u8][..1] == ['3' as u8];
    }
  }
}

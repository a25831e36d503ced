/** The freestanding C-string routines of src/core/utils.cpp: atoi, utoa, strchr and strtok_r.
    A C string is a byte sequence (or, where the routine writes, a byte array) holding a NUL
    at or after the position the routine starts from. `char` is signed on x86-64; the bytes
    are kept unsigned here and a conversion to `int` is written out where the source makes one. */
module CStrings {
  import opened Bits
  import opened Wrappers

  const NUL: u8 := 0
  const TAB: u8 := 9
  const SPACE: u8 := 32
  const PLUS: u8 := 43
  const MINUS: u8 := 45
  const ZERO: u8 := 48

  const INT_MAX: int := 0x7FFF_FFFF
  const INT_MIN: int := -0x8000_0000

  /** A C `int`. */
  type i32 = x: int | INT_MIN <= x <= INT_MAX

  /** A `char` read as an `int` (sign-extended: `char` is signed on x86-64). */
  function SignedChar(b: u8): (r: int)
    ensures -128 <= r < 128 && r % 256 == b
    ensures r == 0 <==> b == 0
  {
    if b < 128 then b else b - 256
  }

  /** There is a NUL at or after position i. */
  ghost predicate Terminated(s: seq<u8>, i: nat)
  {
    exists j :: i <= j < |s| && s[j] == NUL
  }

  /** The position of the first NUL at or after i: where the string starting at i ends. */
  function StrEnd(s: seq<u8>, i: nat): (r: nat)
    requires Terminated(s, i)
    ensures i <= r < |s| && s[r] == NUL
    ensures forall j :: i <= j < r ==> s[j] != NUL
    decreases |s| - i
  {
    if s[i] == NUL then i else TerminatedNext(s, i); StrEnd(s, i + 1)
  }

  lemma TerminatedNext(s: seq<u8>, i: nat)
    requires Terminated(s, i) && i < |s| && s[i] != NUL
    ensures Terminated(s, i + 1)
  {
    var j :| i <= j < |s| && s[j] == NUL;
    assert j != i;
  }

  predicate IsDigit(b: u8)
  {
    ZERO <= b <= ZERO + 9
  }

  /** The value of a digit character in bases up to 36, either case; 36 for anything else. */
  function DigitValue(b: u8): nat
  {
    if IsDigit(b) then b - ZERO
    else if 'a' as u8 <= b <= 'z' as u8 then b - 'a' as u8 + 10
    else if 'A' as u8 <= b <= 'A' as u8 + 25 then b - 'A' as u8 + 10
    else 36
  }

  /** The number a digit string denotes in `base`, most significant digit first. */
  function ParseDigits(ds: seq<u8>, base: nat): nat
  {
    if ds == [] then 0 else ParseDigits(ds[..|ds| - 1], base) * base + DigitValue(ds[|ds| - 1])
  }

  /** A longer digit string denotes a value at least as large. */
  lemma {:induction false} ParsePrefix(ds: seq<u8>, k: nat, base: nat)
    requires k <= |ds| && base >= 1
    ensures ParseDigits(ds[..k], base) <= ParseDigits(ds, base)
    decreases |ds|
  {
    if k < |ds| {
      var init := ds[..|ds| - 1];
      assert init[..k] == ds[..k];
      ParsePrefix(init, k, base);
      MulGrows(ParseDigits(init, base), base);
    } else {
      assert ds[..k] == ds;
    }
  }

  lemma MulGrows(x: nat, b: nat)
    requires b >= 1
    ensures x * b >= x
  {
  }

  lemma DivMod(v: nat, b: nat)
    requires b > 0
    ensures (v / b) * b + v % b == v
  {
  }

  lemma DivShrinks(v: nat, b: nat)
    requires b >= 2 && v > 0
    ensures v / b < v
  {
  }

  // ---------------------------------------------------------------- atoi

  /** The first position at or after i that holds neither a space nor a tab. */
  function SkipBlanks(s: seq<u8>, i: nat): (r: nat)
    requires Terminated(s, i)
    ensures i <= r < |s| && s[r] != SPACE && s[r] != TAB && Terminated(s, r)
    ensures forall j :: i <= j < r ==> s[j] == SPACE || s[j] == TAB
    decreases |s| - i
  {
    if s[i] == SPACE || s[i] == TAB then TerminatedNext(s, i); SkipBlanks(s, i + 1) else i
  }

  /** The first position at or after i that does not hold a decimal digit. */
  function DigitsEnd(s: seq<u8>, i: nat): (r: nat)
    requires Terminated(s, i)
    ensures i <= r < |s| && !IsDigit(s[r])
    ensures forall j :: i <= j < r ==> IsDigit(s[j])
    decreases |s| - i
  {
    if IsDigit(s[i]) then TerminatedNext(s, i); DigitsEnd(s, i + 1) else i
  }

  /** Where the digits start: after the blanks and one optional sign. */
  function DigitsStart(s: seq<u8>): (r: nat)
    requires Terminated(s, 0)
    ensures r <= |s| && Terminated(s, r)
  {
    var i := SkipBlanks(s, 0);
    if s[i] == MINUS || s[i] == PLUS then i + 1 else i
  }

  /** What atoi returns: the decimal number after blanks and an optional sign, negated after
      '-', and INT_MAX (INT_MIN after '-') when the digits denote more than INT_MAX. */
  function AtoiValue(s: seq<u8>): i32
    requires Terminated(s, 0)
  {
    var negative := s[SkipBlanks(s, 0)] == MINUS;
    var j := DigitsStart(s);
    var d := ParseDigits(s[j..DigitsEnd(s, j)], 10);
    if d > INT_MAX then (if negative then INT_MIN else INT_MAX)
    else if negative then -(d as int) else d
  }

  /** utils.cpp:3-25. */
  method Atoi(str: seq<u8>) returns (r: i32)
    requires Terminated(str, 0)
    ensures r == AtoiValue(str)
  {
    var negative := false;
    var p := 0;
    ghost var blanks := SkipBlanks(str, 0);
    while str[p] == SPACE || str[p] == TAB
      invariant p <= blanks
      decreases blanks - p
    {
      p := p + 1;
    }
    assert p == blanks;
    if str[p] == MINUS {
      negative := true;
      p := p + 1;
    } else if str[p] == PLUS {
      p := p + 1;
    }
    assert p == DigitsStart(str) && negative == (str[blanks] == MINUS);
    var result := AccumulateDigits(str, p);
    if result.None? {
      return if negative then INT_MIN else INT_MAX;
    }
    return if negative then -(result.value as int) else result.value;
  }

  /** Lines 16-23 of atoi: the digits from `start` on, accumulated while the next step stays
      within INT_MAX; None where the source returns early because it would not. */
  method AccumulateDigits(str: seq<u8>, start: nat) returns (r: Option<nat>)
    requires Terminated(str, start)
    ensures var d := ParseDigits(str[start..DigitsEnd(str, start)], 10);
            if d > INT_MAX then r.None? else r == Some(d)
  {
    var result := 0;
    var p := start;
    ghost var k := DigitsEnd(str, start);
    while IsDigit(str[p])
      invariant start <= p <= k && result == ParseDigits(str[start..p], 10) && result <= INT_MAX
      decreases k - p
    {
      var digit := str[p] - ZERO;
      ParseStep(str, start, p);
      Guard(result, digit);
      if result > (INT_MAX - digit) / 10 {
        ParseMono(str, start, p + 1, k);
        return None;
      }
      result := result * 10 + digit;
      p := p + 1;
    }
    return Some(result);
  }

  /** The digits from j to p denote no more than the digits from j to k. */
  lemma ParseMono(s: seq<u8>, j: nat, p: nat, k: nat)
    requires j <= p <= k <= |s|
    ensures ParseDigits(s[j..p], 10) <= ParseDigits(s[j..k], 10)
  {
    assert s[j..k][..p - j] == s[j..p];
    ParsePrefix(s[j..k], p - j, 10);
  }

  /** One more digit: the value grows to ten times the old one plus the digit. */
  lemma ParseStep(s: seq<u8>, j: nat, p: nat)
    requires j <= p < |s|
    ensures ParseDigits(s[j..p + 1], 10) == ParseDigits(s[j..p], 10) * 10 + DigitValue(s[p])
  {
    assert s[j..p + 1][..p - j] == s[j..p];
  }

  /** The overflow test of utils.cpp:19: the next step would exceed INT_MAX. */
  lemma Guard(result: nat, digit: nat)
    requires digit <= 9
    ensures result > (INT_MAX - digit) / 10 <==> result * 10 + digit > INT_MAX
  {
  }

  // ---------------------------------------------------------------- utoa

  /** `digits[d]` of the upper- or lower-case digit table. */
  function DigitChar(d: nat, upper: bool): (r: u8)
    requires d < 36
    ensures DigitValue(r) == d
    ensures d < 10 ==> IsDigit(r)
  {
    if d < 10 then ZERO + d else if upper then 'A' as u8 + (d - 10) else 'a' as u8 + (d - 10)
  }

  /** The digits of v in `base`, most significant first, without leading zeros ("0" for 0). */
  function ToDigits(v: nat, base: nat, upper: bool): (r: seq<u8>)
    requires 2 <= base <= 36
    ensures |r| >= 1
    decreases v
  {
    if v < base then [DigitChar(v, upper)]
    else
      DivShrinks(v, base);
      DivBounds(v, base);
      ToDigits(v / base, base, upper) + [DigitChar(v % base, upper)]
  }

  /** Reading the digits back gives the number: ToDigits and ParseDigits are inverse. */
  lemma {:induction false} ParseToDigits(v: nat, base: nat, upper: bool)
    requires 2 <= base <= 36
    ensures ParseDigits(ToDigits(v, base, upper), base) == v
    decreases v
  {
    if v >= base {
      var q, d := v / base, v % base;
      DivShrinks(v, base);
      var t := ToDigits(q, base, upper);
      assert ToDigits(v, base, upper) == t + [DigitChar(d, upper)];
      ParseToDigits(q, base, upper);
      ParseAppend(t, DigitChar(d, upper), base);
      assert ParseDigits(t, base) == q;
      DivMod(v, base);
      assert ParseDigits(ToDigits(v, base, upper), base) == q * base + d;
    }
  }

  lemma ParseAppend(t: seq<u8>, c: u8, base: nat)
    ensures ParseDigits(t + [c], base) == ParseDigits(t, base) * base + DigitValue(c)
  {
    assert (t + [c])[..|t|] == t;
  }

  /** The digits the utoa loop stores in at most k steps from value v, in memory order: the
      loop stops when v reaches 0 or the buffer start is passed. */
  function Emit(v: nat, base: nat, upper: bool, k: nat): seq<u8>
    requires 2 <= base <= 36
    decreases k
  {
    if k == 0 || v == 0 then []
    else
      DivBounds(v, base);
      Emit(v / base, base, upper, k - 1) + [DigitChar(v % base, upper)]
  }

  /** One step of the loop: the last digit stored is v's lowest. */
  lemma EmitStep(v: nat, base: nat, upper: bool, k: nat)
    requires 2 <= base <= 36 && v > 0 && k > 0
    ensures 0 <= v / base
    ensures Emit(v, base, upper, k) == Emit(v / base, base, upper, k - 1) + [DigitChar(v % base, upper)]
  {
    DivBounds(v, base);
  }

  lemma DivBounds(v: nat, base: nat)
    requires base >= 2
    ensures 0 <= v / base && 0 <= v % base < base
  {
  }

  /** The loop stores the low-order `k` digits of v: all of them when there is room. */
  lemma {:induction false} EmitDigits(v: nat, base: nat, upper: bool, k: nat)
    requires 2 <= base <= 36 && v > 0
    ensures var t := ToDigits(v, base, upper);
            Emit(v, base, upper, k) == if k < |t| then t[|t| - k..] else t
    decreases k
  {
    var t := ToDigits(v, base, upper);
    if k > 0 {
      EmitStep(v, base, upper, k);
      var q, d := v / base, DigitChar(v % base, upper);
      if v < base {
        SmallQuotient(v, base);
        assert Emit(q, base, upper, k - 1) == [];
      } else {
        QuotientPositive(v, base);
        var t' := ToDigits(q, base, upper);
        assert t == t' + [d];
        EmitDigits(q, base, upper, k - 1);
        if k < |t| {
          SuffixSnoc(t', d, k);
        }
      }
    }
  }

  lemma SuffixSnoc(t: seq<u8>, d: u8, k: nat)
    requires 1 <= k <= |t|
    ensures (t + [d])[|t + [d]| - k..] == t[|t| - (k - 1)..] + [d]
  {
  }

  lemma SmallQuotient(v: nat, base: nat)
    requires v < base
    ensures v / base == 0 && v % base == v
  {
  }

  lemma QuotientPositive(v: nat, base: nat)
    requires 2 <= base <= v
    ensures v / base >= 1
  {
  }

  /** The text utoa leaves before the NUL in a buffer of `cap` + 1 bytes. */
  function Shown(v: nat, base: nat, upper: bool, cap: nat): seq<u8>
    requires 2 <= base <= 36
  {
    if v == 0 then [ZERO] else Emit(v, base, upper, cap)
  }

  /** With room for every digit, utoa shows exactly the digits of v, so parsing its output
      gives v back; with less room it shows the low-order digits only. */
  lemma UtoaShowsDigits(v: nat, base: nat, upper: bool, cap: nat)
    requires 2 <= base <= 36 && cap >= 1
    ensures var t := ToDigits(v, base, upper);
            Shown(v, base, upper, cap) == if cap < |t| then t[|t| - cap..] else t
    ensures |ToDigits(v, base, upper)| <= cap ==> ParseDigits(Shown(v, base, upper, cap), base) == v
  {
    if v > 0 {
      EmitDigits(v, base, upper, cap);
    }
    ParseToDigits(v, base, upper);
  }

  /** utils.cpp:27-53. Writes the digits of `value` right-aligned before a NUL in the last
      byte of the buffer and returns where they start; null for a null buffer, a buffer of
      fewer than 2 bytes or a base outside 2..36. The buffer keeps `bufferSize` - 1 digits at
      most: the low-order ones. */
  method Utoa(value: u64, buffer: array?<u8>, bufferSize: nat, base: u8, uppercase: bool)
    returns (r: Option<nat>)
    requires buffer != null ==> bufferSize <= buffer.Length && bufferSize <= INT_MAX + 1
    modifies buffer
    ensures r.None? <==> buffer == null || bufferSize < 2 || base < 2 || base > 36
    ensures r.None? ==> buffer == null || buffer[..] == old(buffer[..])
    ensures r.Some? ==>
      buffer != null && 2 <= base <= 36 && r.value < bufferSize - 1
      && buffer[r.value..bufferSize - 1] == Shown(value, base, uppercase, bufferSize - 1)
      && buffer[bufferSize - 1] == NUL
      && buffer[..r.value] == old(buffer[..r.value])
      && buffer[bufferSize..] == old(buffer[bufferSize..])
  {
    if buffer == null || bufferSize < 2 || base < 2 || base > 36 {
      return None;
    }
    var index: int := bufferSize - 1;
    buffer[index] := NUL;
    index := index - 1;
    if value == 0 {
      buffer[index] := ZERO;
      index := index - 1;
    } else {
      index := StoreDigits(value, buffer, bufferSize, base as nat, uppercase);
    }
    r := Some(index + 1);
  }

  /** Lines 45-49 of utoa: digits stored right to left from `bufferSize` - 2 down while the value
      is non-zero and the buffer start is not passed; the new `index` is returned. */
  method StoreDigits(value: nat, buffer: array<u8>, bufferSize: nat, base: nat, uppercase: bool)
    returns (index: int)
    requires 2 <= base <= 36 && value > 0 && 2 <= bufferSize <= buffer.Length
    modifies buffer
    ensures -1 <= index < bufferSize - 2
    ensures buffer[index + 1..bufferSize - 1] == Emit(value, base, uppercase, bufferSize - 1)
    ensures buffer[..index + 1] == old(buffer[..index + 1])
    ensures buffer[bufferSize - 1..] == old(buffer[bufferSize - 1..])
  {
    index := bufferSize - 2;
    var v: nat := value;
    ghost var o := buffer[..];
    ghost var stored: seq<u8> := [];
    while v > 0 && index >= 0
      invariant -1 <= index <= bufferSize - 2 && (v == value || index < bufferSize - 2)
      invariant |stored| == bufferSize - 2 - index
      invariant buffer[..] == o[..index + 1] + stored + o[bufferSize - 1..]
      invariant Emit(v, base, uppercase, index + 1) + stored == Emit(value, base, uppercase, bufferSize - 1)
      decreases index
    {
      DivBounds(v, base);
      var c := DigitChar(v % base, uppercase);
      EmitAdvance(v, base, uppercase, index + 1, stored, Emit(value, base, uppercase, bufferSize - 1));
      PutDigit(buffer, index, bufferSize, c, o, stored);
      stored := [c] + stored;
      v := v / base;
      index := index - 1;
    }
    EmitDone(v, base, uppercase, index + 1);
    Pieces(buffer[..], o, index + 1, bufferSize, stored);
  }

  /** One step of the store loop: the digit taken off the value joins the stored digits. */
  lemma EmitAdvance(v: nat, base: nat, upper: bool, k: nat, stored: seq<u8>, target: seq<u8>)
    requires 2 <= base <= 36 && v > 0 && k > 0
    requires Emit(v, base, upper, k) + stored == target
    ensures Emit(v / base, base, upper, k - 1) + ([DigitChar(v % base, upper)] + stored) == target
  {
    EmitStep(v, base, upper, k);
  }

  /** The store loop ends with nothing left to emit. */
  lemma EmitDone(v: nat, base: nat, upper: bool, k: nat)
    requires 2 <= base <= 36 && (v == 0 || k == 0)
    ensures Emit(v, base, upper, k) == []
  {
  }

  /** `buffer[index] = digits[...]`: storing c right before the digits already stored extends
      them at the front and keeps the bytes outside them as they were. */
  method PutDigit(buffer: array<u8>, index: nat, size: nat, c: u8, ghost o: seq<u8>, ghost stored: seq<u8>)
    requires index < size - 1 && size <= buffer.Length == |o| && |stored| == size - 2 - index
    requires buffer[..] == o[..index + 1] + stored + o[size - 1..]
    modifies buffer
    ensures buffer[..] == o[..index] + ([c] + stored) + o[size - 1..]
  {
    ghost var a := buffer[..];
    buffer[index] := c;
    assert buffer[..] == a[index := c];
    Overwrite(a, o, index, size, c, stored);
  }

  lemma Overwrite(a: seq<u8>, o: seq<u8>, index: nat, size: nat, c: u8, stored: seq<u8>)
    requires index < size - 1 && size <= |o| && |stored| == size - 2 - index
    requires a == o[..index + 1] + stored + o[size - 1..]
    ensures a[index := c] == o[..index] + ([c] + stored) + o[size - 1..]
  {
    var b := o[..index] + ([c] + stored) + o[size - 1..];
    forall j | 0 <= j < |a| ensures a[index := c][j] == b[j] {
      if j < index {
        assert a[j] == o[..index + 1][j];
      } else if j > index {
        assert a[j] == (stored + o[size - 1..])[j - index - 1];
      }
    }
  }

  /** The three parts of a buffer laid out as prefix, digits and tail. */
  lemma Pieces(b: seq<u8>, o: seq<u8>, k: nat, size: nat, stored: seq<u8>)
    requires k <= size - 1 && size <= |o| && |stored| == size - 1 - k
    requires b == o[..k] + stored + o[size - 1..]
    ensures b[k..size - 1] == stored && b[..k] == o[..k] && b[size - 1..] == o[size - 1..]
  {
    assert b[..k] == (o[..k] + stored + o[size - 1..])[..k];
  }

  /** atoi reads back what utoa writes in base 10 with room for every digit. */
  lemma AtoiOfUtoa(v: nat, upper: bool)
    requires v <= INT_MAX
    ensures Terminated(ToDigits(v, 10, upper) + [NUL], 0)
    ensures AtoiValue(ToDigits(v, 10, upper) + [NUL]) == v
  {
    var t := ToDigits(v, 10, upper);
    var s := t + [NUL];
    assert s[|t|] == NUL;
    AllDecimal(v, upper);
    assert IsDigit(s[0]);
    assert DigitsStart(s) == 0;
    DigitsEndOfDigits(s, |t|);
    assert s[0..|t|] == t;
    ParseToDigits(v, 10, upper);
  }

  lemma {:induction false} AllDecimal(v: nat, upper: bool)
    ensures forall i :: 0 <= i < |ToDigits(v, 10, upper)| ==> IsDigit(ToDigits(v, 10, upper)[i])
    decreases v
  {
    if v >= 10 {
      AllDecimal(v / 10, upper);
    }
  }

  lemma DigitsEndOfDigits(s: seq<u8>, n: nat)
    requires n < |s| && s[n] == NUL && forall i :: 0 <= i < n ==> IsDigit(s[i])
    ensures Terminated(s, 0) && DigitsEnd(s, 0) == n
  {
    var e := DigitsEnd(s, 0);
    assert !IsDigit(s[n]) && !IsDigit(s[e]);
  }

  /** atoi reads nothing past the first NUL: two strings that agree up to and including a
      NUL convert to the same value. */
  lemma AtoiReadsToNul(s: seq<u8>, t: seq<u8>, n: nat)
    requires n < |s| && n < |t| && s[..n + 1] == t[..n + 1] && s[n] == NUL
    ensures Terminated(s, 0) && Terminated(t, 0) && AtoiValue(s) == AtoiValue(t)
  {
    SamePieces(s, t, n);
  }

  /** The positions and digits atoi looks at agree for two strings that agree up to the NUL. */
  lemma SamePieces(s: seq<u8>, t: seq<u8>, n: nat)
    requires n < |s| && n < |t| && s[..n + 1] == t[..n + 1] && s[n] == NUL
    ensures Terminated(s, 0) && Terminated(t, 0)
    ensures SkipBlanks(s, 0) == SkipBlanks(t, 0) && s[SkipBlanks(s, 0)] == t[SkipBlanks(t, 0)]
    ensures DigitsStart(s) == DigitsStart(t)
    ensures DigitsEnd(s, DigitsStart(s)) == DigitsEnd(t, DigitsStart(t))
    ensures s[DigitsStart(s)..DigitsEnd(s, DigitsStart(s))] == t[DigitsStart(t)..DigitsEnd(t, DigitsStart(t))]
  {
    AgreeFromPrefix(s, t, n);
    assert Terminated(t, 0) by {
      assert t[n] == NUL;
    }
    SameBlanks(s, t, n);
    var i := DigitsStart(s);
    assert i == DigitsStart(t) && i <= n;
    SameDigitsEnd(s, t, n, i);
    SameSlice(s, t, n, i, DigitsEnd(s, i));
  }

  lemma AgreeFromPrefix(s: seq<u8>, t: seq<u8>, n: nat)
    requires n < |s| && n < |t| && s[..n + 1] == t[..n + 1]
    ensures AgreeTo(s, t, n)
  {
    forall j | 0 <= j <= n ensures s[j] == t[j] {
      assert s[..n + 1][j] == s[j] && t[..n + 1][j] == t[j];
    }
  }

  lemma SameSlice(s: seq<u8>, t: seq<u8>, n: nat, i: nat, d: nat)
    requires AgreeTo(s, t, n) && i <= d <= n
    ensures s[i..d] == t[i..d]
  {
    forall j | 0 <= j < d - i ensures s[i..d][j] == t[i..d][j] {
      assert s[i + j] == t[i + j];
    }
  }

  /** s and t hold the same bytes up to and including position n. */
  ghost predicate AgreeTo(s: seq<u8>, t: seq<u8>, n: nat)
  {
    n < |s| && n < |t| && forall j :: 0 <= j <= n ==> s[j] == t[j]
  }

  lemma SameBlanks(s: seq<u8>, t: seq<u8>, n: nat)
    requires AgreeTo(s, t, n) && s[n] == NUL && Terminated(s, 0) && Terminated(t, 0)
    ensures SkipBlanks(s, 0) == SkipBlanks(t, 0) <= n
  {
    var a, b := SkipBlanks(s, 0), SkipBlanks(t, 0);
    assert t[n] == s[n];
    assert a <= n && b <= n;
  }

  lemma SameDigitsEnd(s: seq<u8>, t: seq<u8>, n: nat, i: nat)
    requires AgreeTo(s, t, n) && s[n] == NUL && i <= n && Terminated(s, i) && Terminated(t, i)
    ensures DigitsEnd(s, i) == DigitsEnd(t, i) <= n
  {
    var d, e := DigitsEnd(s, i), DigitsEnd(t, i);
    assert t[n] == s[n];
    assert d <= n && e <= n;
  }

  // ---------------------------------------------------------------- strchr

  /** utils.cpp:55-69. The first position before the NUL holding the byte `(unsigned char)c`;
      the NUL itself when c is 0; None otherwise. */
  method Strchr(str: seq<u8>, c: i32) returns (r: Option<nat>)
    requires Terminated(str, 0)
    ensures r.Some? ==> r.value <= StrEnd(str, 0)
    ensures r.Some? && r.value < StrEnd(str, 0) ==> str[r.value] == c % 256
    ensures r.Some? && r.value == StrEnd(str, 0) ==> c == 0
    ensures r.Some? ==> forall j :: 0 <= j < r.value ==> str[j] != c % 256
    ensures r.None? <==> c != 0 && forall j :: 0 <= j < StrEnd(str, 0) ==> str[j] != c % 256
  {
    var p := 0;
    ghost var e := StrEnd(str, 0);
    while str[p] != NUL
      invariant p <= e && forall j :: 0 <= j < p ==> str[j] != c % 256
      decreases e - p
    {
      if str[p] == c % 256 {
        return Some(p);
      }
      p := p + 1;
    }
    // The do-while of lines 65-66 runs once: str[p] is the terminating NUL.
    if SignedChar(str[p]) == c {
      return Some(p);
    }
    return None;
  }

  // ---------------------------------------------------------------- strtok_r

  /** `strchr(delim, b) != null` for a non-NUL byte b. */
  ghost predicate InDelims(delim: seq<u8>, b: u8)
    requires Terminated(delim, 0)
  {
    b in delim[..StrEnd(delim, 0)]
  }

  /** The first position at or after i holding the NUL or a byte that is not a delimiter. */
  ghost function SkipDelims(s: seq<u8>, delim: seq<u8>, i: nat): (r: nat)
    requires Terminated(s, i) && Terminated(delim, 0)
    ensures i <= r < |s| && (s[r] == NUL || !InDelims(delim, s[r])) && Terminated(s, r)
    ensures forall j :: i <= j < r ==> s[j] != NUL && InDelims(delim, s[j])
    decreases |s| - i
  {
    if s[i] != NUL && InDelims(delim, s[i]) then TerminatedNext(s, i); SkipDelims(s, delim, i + 1) else i
  }

  /** The first position at or after i holding the NUL or a delimiter. */
  ghost function TokenEnd(s: seq<u8>, delim: seq<u8>, i: nat): (r: nat)
    requires Terminated(s, i) && Terminated(delim, 0)
    ensures i <= r < |s| && (s[r] == NUL || InDelims(delim, s[r]))
    ensures forall j :: i <= j < r ==> s[j] != NUL && !InDelims(delim, s[j])
    decreases |s| - i
  {
    if s[i] != NUL && !InDelims(delim, s[i]) then TerminatedNext(s, i); TokenEnd(s, delim, i + 1) else i
  }

  /** Whether `strchr(delim, b)` finds b, for the non-NUL byte b. */
  method IsDelim(delim: seq<u8>, b: u8) returns (found: bool)
    requires Terminated(delim, 0) && b != NUL
    ensures found == InDelims(delim, b)
  {
    var hit := Strchr(delim, SignedChar(b));
    found := hit.Some?;
    if found {
      assert delim[hit.value] == b;
      assert delim[..StrEnd(delim, 0)][hit.value] == b;
    } else {
      assert forall j :: 0 <= j < StrEnd(delim, 0) ==> delim[..StrEnd(delim, 0)][j] != b;
    }
  }

  /** utils.cpp:71-91. The string being split lives in `buf`; `str` and the save pointer are
      positions in it (None for null), and the new save pointer is returned. Leading
      delimiters are skipped; the token runs to the next delimiter, which is overwritten with
      a NUL, and the save pointer moves just past it (or stays on the final NUL). */
  method Strtok(buf: array<u8>, str: Option<nat>, delim: seq<u8>, save: Option<nat>)
    returns (token: Option<nat>, newSave: Option<nat>)
    requires Terminated(delim, 0)
    requires var start := if str.Some? then str else save;
             start.Some? ==> start.value < buf.Length && Terminated(buf[..], start.value)
    modifies buf
    ensures var start := if str.Some? then str else save;
            start.None? ==> token == None && newSave == None && buf[..] == old(buf[..])
    ensures var start := if str.Some? then str else save;
            start.Some? ==>
              var q := SkipDelims(old(buf[..]), delim, start.value);
              if old(buf[q]) == NUL then
                token == None && newSave == Some(q) && buf[..] == old(buf[..])
              else
                var e := TokenEnd(old(buf[..]), delim, q);
                token == Some(q) && q < e
                && (old(buf[e]) == NUL ==> newSave == Some(e) && buf[..] == old(buf[..]))
                && (old(buf[e]) != NUL ==> newSave == Some(e + 1) && buf[..] == old(buf[..])[e := NUL])
  {
    var p: nat;
    if str.Some? {
      p := str.value;
    } else if save.Some? {
      p := save.value;
    } else {
      return None, None;
    }
    ghost var s := buf[..];
    ghost var q := SkipDelims(s, delim, p);
    while buf[p] != NUL
      invariant p <= q && buf[..] == s
      decreases q - p
    {
      var d := IsDelim(delim, buf[p]);
      if !d {
        break;
      }
      p := p + 1;
    }
    assert p == q;
    if buf[p] == NUL {
      return None, Some(p);
    }
    token := Some(p);
    ghost var e := TokenEnd(s, delim, q);
    while buf[p] != NUL
      invariant q <= p <= e && buf[..] == s
      decreases e - p
    {
      var d := IsDelim(delim, buf[p]);
      if d {
        break;
      }
      p := p + 1;
    }
    assert p == e;
    if buf[p] != NUL {
      buf[p] := NUL;
      p := p + 1;
    }
    newSave := Some(p);
  }
}

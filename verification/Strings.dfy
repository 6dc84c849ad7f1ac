/** String and numeral routines of lib.c: strlen, strncmp, strncpy, strrev, itoa and the number
    cases of printf. */
module Strings {
  import opened Bytes

  method Strlen(s: seq<Byte>) returns (len: nat)
    requires NUL in s
    ensures len == |CStr(s)| && len < |s|
  {
    len := 0;
    while s[len] != NUL
      invariant len < |s| && NUL in s[len..] && NUL !in s[..len]
      decreases |s| - len
    {
      assert s[len..] == [s[len]] + s[len + 1..];
      len := len + 1;
    }
    CStrUnique(s, len);
  }

  /** A byte as the int8_t it is to the string routines. */
  function Signed(b: Byte): int {
    if b < 128 then b else b - 256
  }

  /** The strings first differ at i. */
  ghost predicate DifferAt(s1: seq<Byte>, s2: seq<Byte>, i: int) {
    0 <= i < |s1| && i < |s2| && s1[..i] == s2[..i] && NUL !in s1[..i] && s1[i] != s2[i]
  }

  /** d is the difference of the first two characters, among n, that do not match. */
  ghost predicate FirstDifference(s1: seq<Byte>, s2: seq<Byte>, n: nat, d: int) {
    exists i :: 0 <= i < n && DifferAt(s1, s2, i) && d == Signed(s1[i]) - Signed(s2[i])
  }

  /** strncmp on two readable buffers: zero exactly when the strings agree up to n bytes, and otherwise
      the difference of the first characters that do not match. */
  method Strncmp(s1: seq<Byte>, s2: seq<Byte>, n: nat) returns (r: int)
    requires NUL in s1 || n <= |s1|
    requires NUL in s2 || n <= |s2|
    ensures r == 0 <==> CStr(s1[..Min(n, |s1|)]) == CStr(s2[..Min(n, |s2|)])
    ensures r != 0 ==> FirstDifference(s1, s2, n, r)
  {
    var i := 0;
    while i < n && s1[i] == s2[i] && s1[i] != NUL
      invariant 0 <= i <= n && i <= |s1| && i <= |s2|
      invariant i < n ==> i < |s1| && i < |s2|
      invariant s1[..i] == s2[..i] && NUL !in s1[..i]
    {
      InBounds(s1, i, n);
      InBounds(s2, i, n);
      assert s1[..i + 1] == s1[..i] + [s1[i]] && s2[..i + 1] == s2[..i] + [s2[i]];
      i := i + 1;
    }
    ghost var a, b := s1[..Min(n, |s1|)], s2[..Min(n, |s2|)];
    assert s1[..i] == a[..i] && s2[..i] == b[..i];
    if i == n {
      r := 0;
    } else {
      Disagree(a, b, i);
      r := Signed(s1[i]) - Signed(s2[i]);
      assert s1[i] != s2[i] ==> DifferAt(s1, s2, i);
    }
  }

  lemma InBounds(s: seq<Byte>, i: nat, n: nat)
    requires NUL in s || n <= |s|
    requires i < n && i < |s| && NUL !in s[..i] && s[i] != NUL
    ensures i + 1 < n ==> i + 1 < |s|
  {
    if |s| == i + 1 { assert s == s[..i] + [s[i]]; }
  }

  /** Where two strings first differ, or both end, decides whether they are equal. */
  lemma {:induction false} Disagree(a: seq<Byte>, b: seq<Byte>, i: nat)
    requires i < |a| && i < |b| && a[..i] == b[..i] && NUL !in a[..i]
    requires a[i] != b[i] || a[i] == NUL
    ensures a[i] == b[i] <==> CStr(a) == CStr(b)
  {
    if i > 0 {
      assert a[0] == a[..i][0] && b[0] == b[..i][0];
      assert a[1..][..i - 1] == a[..i][1..] && b[1..][..i - 1] == b[..i][1..];
      Disagree(a[1..], b[1..], i - 1);
      assert CStr(a)[1..] == CStr(a[1..]) && CStr(b)[1..] == CStr(b[1..]);
    }
  }

  /** strncpy copies up to the NUL and pads with NULs; the source is readable up to its NUL or index n. */
  method Strncpy(dest: array<Byte>, at: nat, src: seq<Byte>, n: nat)
    requires at + n <= dest.Length
    requires NUL in src || n < |src|
    modifies dest
    ensures dest[..] == Padded(old(dest[..]), at, CStr(src), n)
  {
    ghost var was, str := dest[..], CStr(src);
    var i := 0;
    if NUL in src { CStrEnds(src); }
    while src[i] != NUL && i < n
      invariant 0 <= i <= n && i <= |str| && i < |src|
      invariant dest[..] == Padded(was, at, str, i)
      decreases n - i
    {
      assert i < |str|;
      dest[at + i] := src[i];
      i := i + 1;
    }
    while i < n
      invariant Min(|str|, n) <= i <= n && dest[..] == Padded(was, at, str, i)
    {
      dest[at + i] := NUL;
      i := i + 1;
    }
  }

  /** m with the n bytes at `at` replaced by str cut or NUL-padded to n bytes. */
  function Padded(m: seq<Byte>, at: nat, str: seq<Byte>, n: nat): seq<Byte>
    requires at + n <= |m|
  {
    seq(|m|, i requires 0 <= i < |m| =>
      if !(at <= i < at + n) then m[i] else if i - at < |str| then str[i - at] else NUL)
  }

  lemma PaddedIs(m: seq<Byte>, at: nat, str: seq<Byte>, n: nat)
    requires at + n <= |m|
    ensures var k := Min(|str|, n); Padded(m, at, str, n) == m[..at] + str[..k] + Fill(NUL, n - k) + m[at + n..]
  {
  }

  lemma CStrEnds(s: seq<Byte>)
    requires NUL in s
    ensures |CStr(s)| < |s| && s[|CStr(s)|] == NUL
  {
    assert s == s[..|s|];
  }

  /** strrev reverses the string at `at` in place. */
  method Strrev(buf: array<Byte>, at: nat)
    requires at <= buf.Length && NUL in buf[at..]
    modifies buf
    ensures buf[..] == Replaced(old(buf[..]), at, Reverse(CStr(old(buf[at..]))))
  {
    ghost var str := CStr(buf[at..]);
    var len := Strlen(buf[at..]);
    SwapInward(buf, at, len);
  }

  /** The loop of strrev: swap from both ends until they meet. */
  method SwapInward(buf: array<Byte>, at: nat, len: nat)
    requires at + len <= buf.Length
    modifies buf
    ensures buf[..] == Swapped(old(buf[..]), at, len, len)
  {
    var beg: int, end: int := 0, len - 1;
    while beg < end
      invariant 0 <= beg && end == len - 1 - beg && -1 <= end && beg <= end + 2
      invariant buf[..] == Swapped(old(buf[..]), at, len, beg)
    {
      var tmp := buf[at + end];
      buf[at + end] := buf[at + beg];
      buf[at + beg] := tmp;
      beg, end := beg + 1, end - 1;
    }
  }

  /** m with s stored at `at`. */
  function Replaced(m: seq<Byte>, at: nat, s: seq<Byte>): seq<Byte>
    requires at + |s| <= |m|
  {
    seq(|m|, i requires 0 <= i < |m| => if at <= i < at + |s| then s[i - at] else m[i])
  }

  lemma ReplacedIs(m: seq<Byte>, at: nat, s: seq<Byte>)
    requires at + |s| <= |m|
    ensures Replaced(m, at, s) == m[..at] + s + m[at + |s|..]
  {
  }

  /** m with the outermost k positions of m[at..at + n] swapped with their mirror images. */
  function Swapped(m: seq<Byte>, at: nat, n: nat, k: nat): seq<Byte>
    requires at + n <= |m|
  {
    seq(|m|, i requires 0 <= i < |m| =>
      if at <= i < at + n && (i < at + k || at + n - k <= i) then m[at + n - 1 - (i - at)] else m[i])
  }

  // ---- Numerals ----

  function Digit(d: int): Byte
    requires 0 <= d < 36
  {
    if d < 10 then 48 + d else 55 + d
  }

  /** Digits are 0 to 9 and then A to Z. */
  lemma DigitCodes(d: nat)
    requires d < 36
    ensures Digit(d) == if d < 10 then 48 + d else 65 + (d - 10)
    ensures DigitValue(Digit(d)) == d
  {
  }

  /** The value of a digit character, or -1. */
  function DigitValue(b: Byte): int {
    if 48 <= b <= 57 then b - 48 else if 65 <= b <= 90 then b - 55 else -1
  }

  predicate IsDigit(b: Byte, radix: int) {
    0 <= DigitValue(b) < radix
  }

  /** Positional value, most significant digit first. */
  function Parse(s: seq<Byte>, radix: nat): int {
    if s == [] then 0 else Parse(s[..|s| - 1], radix) * radix + DigitValue(s[|s| - 1])
  }

  /** The canonical numeral of v. */
  function Numeral(v: nat, radix: nat): (s: seq<Byte>)
    requires 2 <= radix <= 36
    ensures s != [] && forall i :: 0 <= i < |s| ==> IsDigit(s[i], radix)
    decreases v
  {
    if v < radix then [Digit(v)] else DivFacts(v, radix); Numeral(v / radix, radix) + [Digit(v % radix)]
  }

  lemma DivFacts(v: nat, radix: nat)
    requires 2 <= radix
    ensures 0 <= v / radix && 0 <= v % radix < radix && v == (v / radix) * radix + v % radix
    ensures v > 0 ==> v / radix < v
    ensures v / radix <= v / 2
    ensures v >= radix ==> v / radix > 0
    ensures v < radix ==> v / radix == 0 && v % radix == v
  {
    var q, r := v / radix, v % radix;
    assert v == q * radix + r;
    MulBounds(q, radix);
  }

  lemma MulBounds(q: nat, radix: nat)
    requires 2 <= radix
    ensures q * radix >= 2 * q
    ensures q >= 1 ==> q * radix >= radix
  {
  }

  /** Digits in the order itoa produces them, least significant first. */
  ghost function LsbDigits(v: nat, radix: nat): (s: seq<Byte>)
    requires 2 <= radix <= 36
    ensures forall i :: 0 <= i < |s| ==> IsDigit(s[i], radix)
    decreases v
  {
    if v == 0 then [] else DivFacts(v, radix); [Digit(v % radix)] + LsbDigits(v / radix, radix)
  }

  lemma {:induction false} NumeralRoundTrip(v: nat, radix: nat)
    requires 2 <= radix <= 36
    ensures Parse(Numeral(v, radix), radix) == v
    ensures Numeral(v, radix)[0] == Digit(0) <==> v == 0
    decreases v
  {
    DivFacts(v, radix);
    var s := Numeral(v, radix);
    assert DigitValue(s[|s| - 1]) == v % radix;
    if v < radix {
      assert Parse(s[..0], radix) == 0;
    } else {
      NumeralRoundTrip(v / radix, radix);
      assert s[..|s| - 1] == Numeral(v / radix, radix);
    }
  }

  /** Any digit string without a leading zero is the numeral of its value. */
  lemma {:induction false} NumeralUnique(s: seq<Byte>, radix: nat)
    requires 2 <= radix <= 36
    requires s != [] && forall i :: 0 <= i < |s| ==> IsDigit(s[i], radix)
    requires |s| > 1 ==> s[0] != Digit(0)
    ensures Parse(s, radix) >= 0 && Numeral(Parse(s, radix), radix) == s
    ensures s[0] != Digit(0) ==> Parse(s, radix) > 0
  {
    var front, d := s[..|s| - 1], DigitValue(s[|s| - 1]);
    if front == [] {
      assert s == [Digit(d)];
      assert Parse(front, radix) == 0;
    } else {
      NumeralUnique(front, radix);
      var p := Parse(front, radix);
      assert front[0] == s[0];
      DivMod(p, radix, d);
      assert s == front + [Digit(d)];
    }
  }

  lemma DivMod(p: nat, radix: nat, d: nat)
    requires 0 < p && d < radix
    ensures p * radix + d >= radix
    ensures (p * radix + d) / radix == p && (p * radix + d) % radix == d
  {
    var v := p * radix + d;
    var q := v / radix;
    assert v == q * radix + v % radix;
    MulOrder(q, p, radix);
    MulOrder(p, q, radix);
    MulOrder(0, p, radix);
  }

  lemma MulOrder(a: nat, b: nat, radix: nat)
    ensures a < b ==> a * radix + radix <= b * radix
  {
    if a < b { assert (a + 1) * radix <= b * radix; }
  }

  lemma {:induction false} NumeralLength(v: nat, radix: nat, k: nat)
    requires 2 <= radix <= 36 && k >= 1 && v < Pow2(k)
    ensures |Numeral(v, radix)| <= k
    decreases v
  {
    if v >= radix {
      assert k > 1;
      DivFacts(v, radix);
      NumeralLength(v / radix, radix, k - 1);
    }
  }

  lemma {:induction false} LsbReversed(v: nat, radix: nat)
    requires 2 <= radix <= 36 && v > 0
    ensures Reverse(LsbDigits(v, radix)) == Numeral(v, radix)
    decreases v
  {
    DivFacts(v, radix);
    if v < radix {
      assert LsbDigits(v / radix, radix) == [];
    } else {
      LsbReversed(v / radix, radix);
      var t := LsbDigits(v / radix, radix);
      assert Reverse([Digit(v % radix)] + t) == Reverse(t) + [Digit(v % radix)];
    }
  }

  lemma Uint32Length(v: nat, radix: nat)
    requires 2 <= radix <= 36 && v < UINT32
    ensures |Numeral(v, radix)| <= 32
    ensures radix == 16 ==> |Numeral(v, radix)| <= 8
  {
    Pow32();
    NumeralLength(v, radix, 32);
    if radix == 16 { HexLength(v, 8); }
  }

  lemma Pow32()
    ensures Pow2(32) == UINT32
  {
    assert Pow2(4) == 16;
    PowAdd(4, 4);
    PowAdd(8, 8);
    PowAdd(16, 16);
  }

  lemma {:induction false} HexLength(v: nat, k: nat)
    requires k >= 1 && v < Pow2(4 * k)
    ensures |Numeral(v, 16)| <= k
  {
    if v >= 16 {
      PowAdd(4, 4 * k - 4);
      assert Pow2(4) == 16;
      HexLength(v / 16, k - 1);
    }
  }

  /** The digit loop of itoa: least significant digit first, then the NUL. */
  method DigitLoop(value: nat, buf: array<Byte>, at: nat, radix: nat)
    requires 2 <= radix <= 36 && at + |LsbDigits(value, radix)| < buf.Length
    modifies buf
    ensures buf[..] == Replaced(old(buf[..]), at, LsbDigits(value, radix) + [NUL])
  {
    ghost var digits := LsbDigits(value, radix);
    var newval, k := value, 0;
    while newval > 0
      invariant 0 <= newval && 0 <= k <= |digits| && digits[k..] == LsbDigits(newval, radix)
      invariant buf[..] == Replaced(old(buf[..]), at, digits[..k])
    {
      DivFacts(newval, radix);
      var i := newval % radix;
      assert digits[k] == Digit(i);
      buf[at + k] := Digit(i);
      newval := newval / radix;
      k := k + 1;
    }
    buf[at + k] := NUL;
    assert digits[..k] == digits;
  }

  lemma ReplacedString(m: seq<Byte>, at: nat, s: seq<Byte>)
    requires at + |s| < |m| && NUL !in s
    ensures var r := Replaced(m, at, s + [NUL]);
            NUL in r[at..] && CStr(r[at..]) == s && Replaced(r, at, Reverse(s)) == Replaced(m, at, Reverse(s) + [NUL])
  {
    var r := Replaced(m, at, s + [NUL]);
    assert r[at..][|s|] == NUL && r[at..][..|s|] == s;
    CStrUnique(r[at..], |s|);
  }

  /** itoa writes the canonical numeral and a NUL at `at`, in at most 33 bytes, and nothing else. */
  method Itoa(value: nat, buf: array<Byte>, at: nat, radix: nat)
    requires value < UINT32 && 2 <= radix <= 36 && at + 33 <= buf.Length
    modifies buf
    ensures |Numeral(value, radix)| <= 32
    ensures buf[..] == Replaced(old(buf[..]), at, Numeral(value, radix) + [NUL])
  {
    Uint32Length(value, radix);
    if value == 0 {
      buf[at] := 48;
      buf[at + 1] := NUL;
    } else {
      LsbReversed(value, radix);
      ReplacedString(buf[..], at, LsbDigits(value, radix));
      DigitLoop(value, buf, at, radix);
      assert buf[at..] == buf[..][at..];
      Strrev(buf, at);
    }
  }

  /** puts: the NUL-terminated string at `at`, byte by byte. */
  method Puts(buf: array<Byte>, at: nat) returns (out: seq<Byte>)
    requires at <= buf.Length && NUL in buf[at..]
    ensures out == CStr(buf[at..])
  {
    var index := 0;
    CStrEnds(buf[at..]);
    ghost var str := CStr(buf[at..]);
    out := [];
    while buf[at + index] != NUL
      invariant 0 <= index <= |str| && out == str[..index]
      decreases |str| - index
    {
      assert str[index] == buf[at..][index];
      out := out + [buf[at + index]];
      index := index + 1;
    }
    assert str[..index] == str;
  }

  /** printf's %u and %x: the digits put on the screen. */
  method FormatUnsigned(value: nat, radix: nat) returns (out: seq<Byte>)
    requires value < UINT32 && (radix == 10 || radix == 16)
    ensures out == Numeral(value, radix) && Parse(out, radix) == value
  {
    var conv := new Byte[64](_ => NUL);
    NumeralRoundTrip(value, radix);
    Uint32Length(value, radix);
    ReplacedString(conv[..], 0, Numeral(value, radix));
    Itoa(value, conv, 0, radix);
    assert conv[0..] == conv[..][0..];
    out := Puts(conv, 0);
  }

  /** printf's %#x builds the digits at offset 8 and then prepends zeros in the bytes below. */
  method FormatAlternateHex(value: nat) returns (out: seq<Byte>)
    requires value < UINT32
    ensures |Numeral(value, 16)| <= 8 && out == Fill(48, 8 - |Numeral(value, 16)|) + Numeral(value, 16)
  {
    var conv := new Byte[64](_ => NUL);
    AlternateBuffer(conv[..], value);
    ghost var was := conv[..];
    var starting := DigitsAtEight(value, conv);
    out := FillAndPut(conv, starting, was, Numeral(value, 16));
  }

  /** The zeros below the digits, and printing from the first of them. */
  method FillAndPut(conv: array<Byte>, starting: nat, ghost was: seq<Byte>, ghost digits: seq<Byte>)
    returns (out: seq<Byte>)
    requires conv.Length == 64 == |was| && starting == |digits| && PadsToEight(was, digits)
    requires conv[..] == Replaced(was, 8, digits + [NUL])
    modifies conv
    ensures out == Fill(48, 8 - |digits|) + digits
  {
    ZeroFill(conv, starting, 8);
    assert conv[starting..] == conv[..][starting..];
    out := Puts(conv, starting);
  }

  /** %#x always prints exactly eight hexadecimal digits of the value. */
  lemma AlternateHexValue(value: nat)
    requires value < UINT32
    ensures |Numeral(value, 16)| <= 8
    ensures var out := Fill(48, 8 - |Numeral(value, 16)|) + Numeral(value, 16);
            |out| == 8 && Parse(out, 16) == value && forall i :: 0 <= i < 8 ==> IsDigit(out[i], 16)
  {
    Uint32Length(value, 16);
    NumeralRoundTrip(value, 16);
    LeadingZeros(8 - |Numeral(value, 16)|, Numeral(value, 16), 16);
  }

  method DigitsAtEight(value: nat, conv: array<Byte>) returns (starting: nat)
    requires value < UINT32 && conv.Length == 64
    modifies conv
    ensures starting == |Numeral(value, 16)| <= 8
    ensures conv[..] == Replaced(old(conv[..]), 8, Numeral(value, 16) + [NUL])
  {
    Uint32Length(value, 16);
    Itoa(value, conv, 8, 16);
    ReplacedString(old(conv[..]), 8, Numeral(value, 16));
    assert conv[8..] == conv[..][8..];
    starting := Strlen(conv[8..]);
  }

  method ZeroFill(conv: array<Byte>, lo: nat, hi: nat)
    requires lo <= hi <= conv.Length
    modifies conv
    ensures conv[..] == Replaced(old(conv[..]), lo, Fill(48, hi - lo))
  {
    var i := lo;
    while i < hi
      invariant lo <= i <= hi && conv[..] == Replaced(old(conv[..]), lo, Fill(48, i - lo))
    {
      conv[i] := 48;
      i := i + 1;
    }
  }

  /** With digits stored at offset 8 and zeros filled in below, the string from |digits| on is the digits
      padded to eight characters. */
  ghost predicate PadsToEight(m: seq<Byte>, digits: seq<Byte>)
    requires |m| == 64
  {
    && |digits| <= 8
    && var filled := Replaced(Replaced(m, 8, digits + [NUL]), |digits|, Fill(48, 8 - |digits|))[|digits|..];
       NUL in filled && CStr(filled) == Fill(48, 8 - |digits|) + digits
  }

  lemma AlternateBuffer(m: seq<Byte>, value: nat)
    requires |m| == 64 && value < UINT32
    ensures PadsToEight(m, Numeral(value, 16))
  {
    Uint32Length(value, 16);
    NoNulInNumeral(value, 16);
    FilledString(m, Numeral(value, 16));
  }

  lemma NoNulInNumeral(value: nat, radix: nat)
    requires 2 <= radix <= 36
    ensures NUL !in Numeral(value, radix)
  {
    var digits := Numeral(value, radix);
    assert forall i :: 0 <= i < |digits| ==> IsDigit(digits[i], radix);
  }

  lemma FilledString(m: seq<Byte>, digits: seq<Byte>)
    requires |m| == 64 && |digits| <= 8 && NUL !in digits
    ensures PadsToEight(m, digits)
  {
    var filled := Replaced(Replaced(m, 8, digits + [NUL]), |digits|, Fill(48, 8 - |digits|))[|digits|..];
    assert filled[8] == NUL;
    assert filled[..8] == Fill(48, 8 - |digits|) + digits;
    CStrUnique(filled, 8);
  }

  lemma {:induction false} LeadingZeros(z: nat, s: seq<Byte>, radix: nat)
    ensures Parse(Fill(48, z) + s, radix) == Parse(s, radix)
    decreases z + |s|
  {
    var t := Fill(48, z) + s;
    if s != [] {
      LeadingZeros(z, s[..|s| - 1], radix);
      assert t[..|t| - 1] == Fill(48, z) + s[..|s| - 1];
    } else if z > 0 {
      LeadingZeros(z - 1, s, radix);
      assert t[..|t| - 1] == Fill(48, z - 1) + s;
    } else {
      assert t == s;
    }
  }

  /** printf's %d: a minus sign and the numeral of the negated value, which wraps at INT_MIN. */
  method FormatSigned(value: int) returns (out: seq<Byte>)
    requires -0x8000_0000 <= value < 0x8000_0000
    ensures if value < 0 then out == [45] + Numeral(-value, 10) else out == Numeral(value, 10)
    ensures Parse(if value < 0 then out[1..] else out, 10) == if value < 0 then -value else value
  {
    var magnitude := (if value < 0 then -value else value) % UINT32;   // as the uint32 itoa takes
    var digits := FormatUnsigned(magnitude, 10);
    out := if value < 0 then [45] + digits else digits;
    assert value < 0 ==> out[1..] == digits;
  }
}

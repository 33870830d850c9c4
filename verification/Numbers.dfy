/** Number printing: itoa with its in-place reversal, and the padded and signed forms of
    printf, each read back. */
module Numbers {
  import opened Arithmetic

  type Byte = b: int | 0 <= b < 256

  const TWO32 := 0x1_0000_0000
  const ZERO: Byte := 48
  const LETTER_A: Byte := 65
  const MINUS: Byte := 45

  // ----- digits

  function DigitChar(d: int): Byte
    requires 0 <= d < 36
  {
    if d < 10 then ZERO + d else LETTER_A + (d - 10)
  }

  /** The digits are the characters 0 to 9 and then A to Z. */
  lemma DigitsAre(d: int)
    requires 0 <= d < 36
    ensures DigitChar(d) == "0123456789ABCDEFGHIJKLMNOPQRSTUVWXYZ"[d] as int
    ensures DigitValue(DigitChar(d)) == d
  {
  }

  function DigitValue(c: Byte): int {
    if c < LETTER_A then c - ZERO else c - LETTER_A + 10
  }

  /** The number a digit string stands for, most significant digit first. */
  function Value(ds: seq<Byte>, radix: int): int {
    if ds == [] then 0 else Value(ds[..|ds| - 1], radix) * radix + DigitValue(ds[|ds| - 1])
  }

  /** The digits of v, least significant first; none for zero. */
  function LowFirst(v: nat, radix: int): (r: seq<Byte>)
    requires 2 <= radix <= 36
    ensures 0 !in r && (r == [] <==> v == 0)
  {
    if v == 0 then [] else
      Shrinks(v, radix);
      [DigitChar(v % radix)] + LowFirst(v / radix, radix)
  }

  lemma Shrinks(v: nat, radix: int)
    requires 2 <= radix && 0 < v
    ensures 0 <= v / radix < v && (v / radix == 0 ==> v % radix == v)
  {
    QuotientNat(v, radix);
    MulMono(v / radix, 2, radix);
  }

  function Reversed(s: seq<Byte>): (r: seq<Byte>)
    ensures |r| == |s|
  {
    if s == [] then [] else Reversed(s[1..]) + [s[0]]
  }

  lemma {:induction false} ReversedAt(s: seq<Byte>, k: nat)
    requires k < |s|
    ensures Reversed(s)[k] == s[|s| - 1 - k]
  {
    if k < |s| - 1 {
      ReversedAt(s[1..], k);
    }
  }

  /** Reading the reversed digits gives the number back, without a leading zero. */
  lemma {:induction false} DigitsRoundTrip(v: nat, radix: int)
    requires 2 <= radix <= 36
    ensures var ds := Reversed(LowFirst(v, radix));
      Value(ds, radix) == v && (v > 0 ==> ds != [] && ds[0] != ZERO)
    decreases v
  {
    if v > 0 {
      Shrinks(v, radix);
      var q, low, high := v / radix, LowFirst(v, radix), Reversed(LowFirst(v / radix, radix));
      DigitsRoundTrip(q, radix);
      assert low == [DigitChar(v % radix)] + LowFirst(q, radix);
      assert low[1..] == LowFirst(q, radix);
      assert Reversed(low) == high + [low[0]];
      ValueSnoc(high, low[0], radix);
      QuotientNat(v, radix);
    }
  }

  lemma ValueSnoc(ds: seq<Byte>, c: Byte, radix: int)
    ensures Value(ds + [c], radix) == Value(ds, radix) * radix + DigitValue(c)
  {
    assert (ds + [c])[..|ds|] == ds;
  }

  function Pow(b: int, n: nat): int { if n == 0 then 1 else b * Pow(b, n - 1) }

  /** A number below b^n has at most n digits in any radix from b up. */
  lemma {:induction false} DigitCount(v: nat, radix: int, b: int, n: nat)
    requires 2 <= b <= radix <= 36 && v < Pow(b, n)
    ensures |LowFirst(v, radix)| <= n
    decreases n
  {
    if v > 0 {
      Shrinks(v, radix);
      FewerDigits(v, radix, b, Pow(b, n - 1));
      DigitCount(v / radix, radix, b, n - 1);
    }
  }

  lemma FewerDigits(v: nat, radix: int, b: int, p: int)
    requires 2 <= b <= radix && v < b * p
    ensures v / radix < p
  {
    var q := v / radix;
    QuotientNat(v, radix);
    MulMono(q, b, radix);
    if q >= p {
      MulMono(b, p, q);
    }
  }

  lemma Powers()
    ensures Pow(2, 32) == TWO32 && Pow(16, 8) == TWO32
  {
    assert Pow(16, 2) == 256 && Pow(16, 4) == 65536 && Pow(16, 6) == 16777216;
    assert Pow(2, 4) == 16 && Pow(2, 8) == 256 && Pow(2, 12) == 4096 && Pow(2, 16) == 65536;
    assert Pow(2, 20) == 1048576 && Pow(2, 24) == 16777216 && Pow(2, 28) == 268435456;
  }

  function Zeros(n: nat): (r: seq<Byte>)
    ensures |r| == n && forall i :: 0 <= i < n ==> r[i] == ZERO
  {
    if n == 0 then [] else [ZERO] + Zeros(n - 1)
  }

  lemma {:induction false} LeadingZeros(n: nat, ds: seq<Byte>, radix: int)
    ensures Value(Zeros(n) + ds, radix) == Value(ds, radix)
    decreases n + |ds|
  {
    var all := Zeros(n) + ds;
    if ds != [] {
      assert all[..|all| - 1] == Zeros(n) + ds[..|ds| - 1];
      LeadingZeros(n, ds[..|ds| - 1], radix);
    } else if n > 0 {
      assert all[..|all| - 1] == Zeros(n - 1) + ds;
      LeadingZeros(n - 1, ds, radix);
    }
  }

  // ----- strings in a buffer

  /** The NUL-terminated string at `at`. */
  ghost predicate IsString(buf: seq<Byte>, at: nat, s: seq<Byte>) {
    && at + |s| < |buf| && buf[at..at + |s|] == s
    && 0 !in s && buf[at + |s|] == 0
  }

  /** A string's bytes, one by one. */
  lemma StringAt(buf: seq<Byte>, at: nat, s: seq<Byte>)
    requires IsString(buf, at, s)
    ensures forall k {:trigger s[k]} :: 0 <= k < |s| ==> buf[at + k] == s[k] && s[k] != 0
  {
    forall k | 0 <= k < |s|
      ensures buf[at + k] == s[k] && s[k] != 0
    {
      assert buf[at..at + |s|][k] == buf[at + k] && s[k] in s;
    }
  }

  method Strlen(buf: array<Byte>, at: nat, ghost s: seq<Byte>) returns (len: nat)
    requires IsString(buf[..], at, s)
    ensures len == |s|
  {
    len := 0;
    StringAt(buf[..], at, s);
    while buf[at + len] != 0
      invariant 0 <= len <= |s|
      invariant len < |s| ==> s[len] != 0
      decreases |s| - len
    {
      len := len + 1;
    }
  }

  lemma {:induction false} ReversedClean(s: seq<Byte>)
    requires 0 !in s
    ensures 0 !in Reversed(s)
  {
    if s != [] {
      assert s == [s[0]] + s[1..];
      ReversedClean(s[1..]);
    }
  }

  /** Reverses the string in place. */
  method Strrev(buf: array<Byte>, at: nat, ghost s: seq<Byte>)
    requires IsString(buf[..], at, s)
    modifies buf
    ensures IsString(buf[..], at, Reversed(s))
    ensures buf[..at] == old(buf[..at]) && buf[at + |s|..] == old(buf[at + |s|..])
  {
    var len: int := Strlen(buf, at, s);
    ghost var was, t := buf[..], s;
    var lo, hi := 0, len - 1;
    while lo < hi
      invariant 0 <= lo <= len && lo + hi == len - 1
      invariant Exchanged(s, t, lo) && HoldsText(was, buf[..], at, t)
    {
      ghost var now := buf[..];
      var tmp := buf[at + hi];
      buf[at + hi] := buf[at + lo];
      buf[at + lo] := tmp;
      t := ExchangeStep(was, now, buf[..], at, s, t, lo);
      lo := lo + 1;
      hi := hi - 1;
    }
    ExchangedIsReversed(s, t, lo);
    ReversedClean(s);
    HeldString(was, buf[..], at, t);
    assert buf[..at] == buf[..][..at] && buf[at + len..] == buf[..][at + len..];
  }

  /** t stands in the buffer at `at`, and nothing else has changed. */
  ghost predicate HoldsText(was: seq<Byte>, buf: seq<Byte>, at: nat, t: seq<Byte>) {
    && at + |t| <= |was| == |buf|
    && buf[..at] == was[..at] && buf[at..at + |t|] == t && buf[at + |t|..] == was[at + |t|..]
  }

  lemma HeldString(was: seq<Byte>, buf: seq<Byte>, at: nat, t: seq<Byte>)
    requires HoldsText(was, buf, at, t) && at + |t| < |was| && was[at + |t|] == 0 && 0 !in t
    ensures IsString(buf, at, t) && buf[..at] == was[..at] && buf[at + |t|..] == was[at + |t|..]
  {
    assert buf[at + |t|] == buf[at + |t|..][0] && was[at + |t|] == was[at + |t|..][0];
  }

  /** t is s with its outer `lo` bytes on either side exchanged. */
  ghost predicate Exchanged(s: seq<Byte>, t: seq<Byte>, lo: int) {
    && |t| == |s|
    && (forall k :: 0 <= k < |t| && (k < lo || |t| - lo <= k) ==> t[k] == s[|t| - 1 - k])
    && (forall k :: 0 <= k < |t| && lo <= k < |t| - lo ==> t[k] == s[k])
  }

  lemma ExchangeStep(was: seq<Byte>, now: seq<Byte>, next: seq<Byte>, at: nat, s: seq<Byte>, t: seq<Byte>, lo: int)
    returns (u: seq<Byte>)
    requires 0 <= lo && 2 * lo + 1 < |s| && Exchanged(s, t, lo) && HoldsText(was, now, at, t)
    requires var i, j := at + lo, at + |s| - 1 - lo; next == now[j := now[i]][i := now[j]]
    ensures Exchanged(s, u, lo + 1) && HoldsText(was, next, at, u)
  {
    var i, j := lo, |s| - 1 - lo;
    assert now[at + i] == t[i] && now[at + j] == t[j];
    var v := t[j := t[i]];
    u := v[i := t[j]];
    ExchangePair(s, t, u, lo, lo + 1);
    StoreText(was, now, at, t, j, t[i]);
    StoreText(was, now[at + j := t[i]], at, v, i, t[j]);
  }

  /** One byte of the text is stored. */
  lemma StoreText(was: seq<Byte>, buf: seq<Byte>, at: nat, t: seq<Byte>, k: nat, c: Byte)
    requires HoldsText(was, buf, at, t) && k < |t|
    ensures HoldsText(was, buf[at + k := c], at, t[k := c])
  {
    var next := buf[at + k := c];
    assert next[at..at + |t|] == t[k := c];
    assert next[..at] == buf[..at] && next[at + |t|..] == buf[at + |t|..];
  }

  lemma ExchangePair(s: seq<Byte>, t: seq<Byte>, u: seq<Byte>, lo: int, lo': int)
    requires 0 <= lo && lo' == lo + 1 && lo + lo' < |s| && Exchanged(s, t, lo)
    requires u == t[|s| - 1 - lo := t[lo]][lo := t[|s| - 1 - lo]]
    ensures Exchanged(s, u, lo')
  {
    forall k | 0 <= k < |u| && (k < lo' || |u| - lo' <= k)
      ensures u[k] == s[|u| - 1 - k]
    {
      assert k == lo || |u| - 1 - k == lo ==> u[k] == t[|u| - 1 - k] == s[|u| - 1 - k];
    }
  }

  lemma ExchangedIsReversed(s: seq<Byte>, t: seq<Byte>, lo: int)
    requires Exchanged(s, t, lo) && |s| <= 2 * lo + 1
    ensures t == Reversed(s)
  {
    var r := Reversed(s);
    forall k | 0 <= k < |s|
      ensures t[k] == r[k]
    {
      assert t[k] == s[|s| - 1 - k];
      ReversedAt(s, k);
    }
  }

  /** The text itoa leaves: "0" for zero, else the digits, most significant first. */
  function Digits(v: nat, radix: int): (r: seq<Byte>)
    requires 2 <= radix <= 36
  {
    if v == 0 then [ZERO] else Reversed(LowFirst(v, radix))
  }

  /** itoa's output read back is the value, for every 32-bit value and every radix; it has
      no leading zero, at most 32 digits, and at most 8 in radix 16. */
  lemma ItoaRoundTrip(v: nat, radix: int)
    requires v < TWO32 && 2 <= radix <= 36
    ensures var ds := Digits(v, radix);
      && Value(ds, radix) == v && (v > 0 ==> ds[0] != ZERO)
      && 1 <= |ds| <= 32 && (radix == 16 ==> |ds| <= 8)
  {
    Powers();
    DigitsRoundTrip(v, radix);
    DigitCount(v, radix, 2, 32);
    if radix == 16 {
      DigitCount(v, radix, 16, 8);
    }
    assert [ZERO][..0] == [];
  }

  method Itoa(value: nat, buf: array<Byte>, at: nat, radix: int)
    requires value < TWO32 && 2 <= radix <= 36
    requires at + |Digits(value, radix)| < buf.Length
    modifies buf
    ensures IsString(buf[..], at, Digits(value, radix))
    ensures buf[..at] == old(buf[..at])
  {
    if value == 0 {
      buf[at] := DigitChar(0);
      buf[at + 1] := 0;
      return;
    }
    ghost var low := LowFirst(value, radix);
    var newval, i := value, 0;
    while newval > 0
      invariant 0 <= i <= |low| && 0 <= newval < TWO32
      invariant low[i..] == LowFirst(newval, radix)
      invariant buf[at..at + i] == low[..i] && buf[..at] == old(buf[..at])
      decreases newval
    {
      Shrinks(newval, radix);
      assert low[i] == low[i..][0] && low[i + 1..] == low[i..][1..];
      buf[at + i] := DigitChar(newval % radix);
      i := i + 1;
      newval := newval / radix;
    }
    assert low[i..] == [] && low[..i] == low;
    buf[at + i] := 0;
    assert buf[..][at..at + i] == low;
    Strrev(buf, at, low);
  }

  // ----- printf's number formats

  /** The %#x format: always 8 digits that read back to the value. */
  method PutHexPadded(value: nat) returns (text: seq<Byte>)
    requires value < TWO32
    ensures |text| == 8 && Value(text, 16) == value
    ensures |Digits(value, 16)| <= 8 && text == Zeros(8 - |Digits(value, 16)|) + Digits(value, 16)
  {
    var buf := new Byte[64](_ => 0);
    ItoaRoundTrip(value, 16);
    ghost var ds := Digits(value, 16);
    var start := PadHex(value, buf, ds);
    text := Puts(buf, start, Zeros(8 - start) + ds);
    LeadingZeros(8 - start, ds, 16);
  }

  /** Leaves the 8 digits in the buffer from `start`, filling up with zeros to position 8. */
  method PadHex(value: nat, buf: array<Byte>, ghost ds: seq<Byte>) returns (start: nat)
    requires value < TWO32 && buf.Length == 64 && ds == Digits(value, 16) && |ds| <= 8
    modifies buf
    ensures start == |ds| && IsString(buf[..], start, Zeros(8 - start) + ds)
  {
    Itoa(value, buf, 8, 16);
    start := Strlen(buf, 8, ds);
    ghost var was := buf[..];
    PadZeros(buf, start);
    KeptString(was, buf[..], ds);
    PaddedString(buf[..], start, ds);
  }

  lemma PaddedString(buf: seq<Byte>, start: nat, ds: seq<Byte>)
    requires start <= 8 && IsString(buf, 8, ds) && buf[start..8] == Zeros(8 - start)
    ensures IsString(buf, start, Zeros(8 - start) + ds)
  {
    var s := Zeros(8 - start) + ds;
    assert buf[start..start + |s|] == buf[start..8] + buf[8..8 + |ds|];
    assert forall i :: 0 <= i < |s| ==> s[i] == if i < 8 - start then ZERO else ds[i - (8 - start)];
  }

  method PadZeros(buf: array<Byte>, start: nat)
    requires start <= 8 <= buf.Length
    modifies buf
    ensures buf[..][start..8] == Zeros(8 - start) && buf[8..] == old(buf[8..])
  {
    var i := start;
    while i < 8
      invariant start <= i <= 8
      invariant forall k :: start <= k < i ==> buf[k] == ZERO
      invariant buf[8..] == old(buf[8..])
    {
      buf[i] := ZERO;
      i := i + 1;
    }
  }

  lemma KeptString(was: seq<Byte>, buf: seq<Byte>, s: seq<Byte>)
    requires |was| == |buf| >= 8 && buf[8..] == was[8..] && IsString(was, 8, s)
    ensures IsString(buf, 8, s)
  {
    assert buf[8..8 + |s|] == buf[8..][..|s|] && was[8..8 + |s|] == was[8..][..|s|];
    assert buf[8 + |s|] == buf[8..][|s|] && was[8 + |s|] == was[8..][|s|];
  }

  /** puts: the characters up to the NUL. */
  method Puts(buf: array<Byte>, at: nat, ghost s: seq<Byte>) returns (text: seq<Byte>)
    requires IsString(buf[..], at, s)
    ensures text == s
  {
    var n := Strlen(buf, at, s);
    text := buf[at..at + n];
    assert text == buf[..][at..at + n];
  }

  lemma Prefixed(buf: seq<Byte>, s: seq<Byte>)
    requires IsString(buf, 1, s) && buf[0] != 0
    ensures IsString(buf, 0, [buf[0]] + s)
  {
    var t := [buf[0]] + s;
    assert buf[0..|t|] == [buf[0]] + buf[1..1 + |s|];
  }

  /** The %d format, for every 32-bit signed value: the magnitude's digits, after a minus
      sign when it is negative. */
  method PutSigned(value: int) returns (text: seq<Byte>)
    requires -0x8000_0000 <= value < 0x8000_0000
    ensures value < 0 ==> |text| > 1 && text[0] == '-' as int && Value(text[1..], 10) == -value
    ensures value >= 0 ==> Value(text, 10) == value && '-' as int !in text
  {
    var buf := new Byte[36](_ => 0);
    var magnitude := if value < 0 then -value else value;
    ItoaRoundTrip(magnitude, 10);
    NoMinus(magnitude, 10);
    ghost var ds := Digits(magnitude, 10);
    if value < 0 {
      buf[0] := MINUS;
      Itoa(magnitude, buf, 1, 10);
      assert buf[0] == buf[..1][0];
      Prefixed(buf[..], ds);
      text := Puts(buf, 0, [MINUS] + ds);
      assert text[1..] == ds;
    } else {
      Itoa(magnitude, buf, 0, 10);
      text := Puts(buf, 0, ds);
    }
  }

  lemma {:induction false} NoMinus(v: nat, radix: int)
    requires 2 <= radix <= 36
    ensures MINUS !in Digits(v, radix)
  {
    if v > 0 {
      NoMinusLow(v, radix);
      NoMinusReversed(LowFirst(v, radix));
    }
  }

  lemma {:induction false} NoMinusLow(v: nat, radix: int)
    requires 2 <= radix <= 36
    ensures MINUS !in LowFirst(v, radix)
    decreases v
  {
    if v > 0 {
      Shrinks(v, radix);
      NoMinusLow(v / radix, radix);
    }
  }

  lemma {:induction false} NoMinusReversed(s: seq<Byte>)
    requires MINUS !in s
    ensures MINUS !in Reversed(s)
  {
    if s != [] {
      assert s == [s[0]] + s[1..];
      NoMinusReversed(s[1..]);
    }
  }
}

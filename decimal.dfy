/** The digit string of the number actor: decimal formatting of the value
    into a fixed 16-character buffer (the "%i" conversion of g_snprintf)
    and the in-place filter of td_number_set_value that keeps only the
    characters '0' to '9' and the terminating NUL (tdnumber.c). */
module Decimal {

  /** The C string terminator. */
  const NUL: char := 0 as char
  /** Size of the digit buffer, terminator included. */
  const BUF_SIZE: int := 16
  /** Range of a C `int`. */
  const INT_MIN: int := -0x8000_0000
  const INT_MAX: int := 0x7fff_ffff

  predicate IsInt32(v: int) { INT_MIN <= v <= INT_MAX }

  predicate IsDigit(c: char) { '0' <= c <= '9' }

  predicate AllDigits(s: string) { forall k :: 0 <= k < |s| ==> IsDigit(s[k]) }

  function DigitChar(d: int): (c: char)
    requires 0 <= d < 10
    ensures IsDigit(c)
  {
    (d + '0' as int) as char
  }

  /** The glyph index of a digit character, `c - '0'` in the source. */
  function DigitValue(c: char): (d: int)
    requires IsDigit(c)
    ensures 0 <= d < 10 && DigitChar(d) == c
  {
    c as int - '0' as int
  }

  function Abs(v: int): nat { if v < 0 then -v else v }

  /** The decimal numeral of `n`, most significant digit first, with no
      leading zeros ("0" for zero). */
  function NatDigits(n: nat): (s: string)
    ensures |s| >= 1 && AllDigits(s)
    ensures n == 0 || s[0] != '0'
    decreases n
  {
    if n < 10 then [DigitChar(n)] else NatDigits(n / 10) + [DigitChar(n % 10)]
  }

  /** What the "%i" conversion produces: a minus sign for negative values,
      then the numeral of the magnitude. */
  function FormatInt(v: int): (s: string)
  {
    if v < 0 then ['-'] + NatDigits(-v) else NatDigits(v)
  }

  /** The characters of `s` that are decimal digits, in order. */
  function KeepDigits(s: string): (t: string)
    ensures |t| <= |s| && AllDigits(t)
    decreases |s|
  {
    if s == [] then []
    else KeepDigits(s[..|s| - 1]) + (if IsDigit(s[|s| - 1]) then [s[|s| - 1]] else [])
  }

  /** The value of a numeral (independent reference for NatDigits). */
  function ParseDigits(s: string): int
    requires AllDigits(s)
    decreases |s|
  {
    if s == [] then 0 else 10 * ParseDigits(s[..|s| - 1]) + DigitValue(s[|s| - 1])
  }

  function Pow10(k: nat): nat
  {
    if k == 0 then 1 else 10 * Pow10(k - 1)
  }

  /** Position of the first terminator in a buffer that holds one. */
  function NulIndex(s: seq<char>): (n: nat)
    requires NUL in s
    ensures n < |s| && s[n] == NUL && NUL !in s[..n]
  {
    if s[0] == NUL then 0
    else
      var m := NulIndex(s[1..]);
      assert s[..m + 1] == [s[0]] + s[1..][..m];
      m + 1
  }

  /** The C string held by a buffer: everything before the first NUL. */
  function CString(s: seq<char>): (t: string)
    requires NUL in s
    ensures NUL !in t && |t| < |s| && s[|t|] == NUL && t == s[..|t|]
  {
    s[..NulIndex(s)]
  }

  /** Scanning a buffer up to its terminator: the characters before the
      first NUL are the C string's own, and the first NUL is at its length. */
  lemma CStringAt(s: seq<char>, i: int)
    requires NUL in s && 0 <= i <= |CString(s)|
    ensures s[i] == NUL <==> i == |CString(s)|
    ensures i < |CString(s)| ==> s[i] == CString(s)[i]
  {
    var t := CString(s);
    if i < |t| {
      assert s[i] == s[..|t|][i];
    }
  }

  /** The buffer after g_snprintf(buf, |buf|, "%s", t): at most |buf| - 1
      characters of `t`, a terminator, and the rest of the buffer as it was. */
  function Formatted(buf: seq<char>, t: string): (r: seq<char>)
    requires |buf| >= 1
    ensures |r| == |buf|
  {
    var n := if |t| < |buf| - 1 then |t| else |buf| - 1;
    t[..n] + [NUL] + buf[n + 1..]
  }

  /** The buffer after the digit filter of td_number_set_value: the digits
      of its string, a terminator, and the rest of the buffer as it was. */
  function Filtered(buf: seq<char>): (r: seq<char>)
    requires NUL in buf
    ensures |r| == |buf|
  {
    var k := KeepDigits(CString(buf));
    k + [NUL] + buf[|k| + 1..]
  }

  /** Storing `c` at the write pointer `dst` of a buffer that agrees with
      `orig` from `dst` on. */
  lemma StoreAt(orig: seq<char>, before: seq<char>, after: seq<char>, dst: int, c: char)
    requires 0 <= dst < |before| == |orig| && before[dst..] == orig[dst..]
    requires after == before[dst := c]
    ensures after[..dst + 1] == before[..dst] + [c] && after[dst + 1..] == orig[dst + 1..]
  {
    assert after[dst + 1..] == before[dst + 1..];
  }

  /** g_snprintf (buf, 16, "%i", v), writing one character at a time. */
  method FormatInto(buf: array<char>, v: int)
    requires buf.Length == BUF_SIZE
    modifies buf
    ensures buf[..] == Formatted(old(buf[..]), FormatInt(v))
  {
    var t := FormatInt(v);
    var n := if |t| < BUF_SIZE - 1 then |t| else BUF_SIZE - 1;
    ghost var orig := buf[..];
    var i := 0;
    while i < n
      invariant 0 <= i <= n && |buf[..]| == |orig|
      invariant buf[..i] == t[..i]
      invariant buf[i..] == orig[i..]
    {
      ghost var before := buf[..];
      buf[i] := t[i];
      StoreAt(orig, before, buf[..], i, t[i]);
      assert t[..i + 1] == t[..i] + [t[i]];
      i := i + 1;
    }
    ghost var before := buf[..];
    buf[n] := NUL;
    StoreAt(orig, before, buf[..], n, NUL);
    assert buf[..] == buf[..n + 1] + buf[n + 1..];
  }

  /** The state of the filter loop over the original buffer `orig`, whose
      terminator is at `n`: `cur` is the buffer now, `src` and `dst` the two
      pointers, and `more` false once the terminator has been copied. */
  ghost predicate FilterState(orig: seq<char>, n: nat, cur: seq<char>, src: int, dst: int, more: bool)
    requires n < |orig|
  {
    && 0 <= dst <= src <= n + 1 && |cur| == |orig|
    && (more <==> src <= n)
    && cur[dst..] == orig[dst..]
    && cur[..dst] == if more then KeepDigits(orig[..src]) else KeepDigits(orig[..n]) + [NUL]
  }

  /** Scanning one more character of `s`. */
  lemma KeepDigitsStep(s: seq<char>, i: int)
    requires 0 <= i < |s|
    ensures KeepDigits(s[..i + 1]) == KeepDigits(s[..i]) + (if IsDigit(s[i]) then [s[i]] else [])
  {
    assert s[..i + 1][..i] == s[..i];
  }

  /** An iteration that copies the terminator ends the walk. */
  lemma FilterStoreNul(orig: seq<char>, n: nat, before: seq<char>, after: seq<char>, src: int, dst: int)
    requires n < |orig| && orig[n] == NUL && NUL !in orig[..n]
    requires FilterState(orig, n, before, src, dst, true)
    requires orig[src] == NUL && after == before[dst := NUL]
    ensures FilterState(orig, n, after, src + 1, dst + 1, false)
  {
    assert forall k | 0 <= k < n :: orig[k] == orig[..n][k];
    StoreAt(orig, before, after, dst, NUL);
  }

  /** An iteration that copies a digit. */
  lemma FilterStoreDigit(orig: seq<char>, n: nat, before: seq<char>, after: seq<char>, src: int, dst: int)
    requires n < |orig| && orig[n] == NUL
    requires FilterState(orig, n, before, src, dst, true)
    requires IsDigit(orig[src]) && after == before[dst := orig[src]]
    ensures FilterState(orig, n, after, src + 1, dst + 1, true)
  {
    StoreAt(orig, before, after, dst, orig[src]);
    KeepDigitsStep(orig, src);
  }

  /** An iteration that skips a character that is neither a digit nor the
      terminator. */
  lemma FilterSkip(orig: seq<char>, n: nat, cur: seq<char>, src: int, dst: int)
    requires n < |orig| && orig[n] == NUL
    requires FilterState(orig, n, cur, src, dst, true)
    requires orig[src] != NUL && !IsDigit(orig[src])
    ensures FilterState(orig, n, cur, src + 1, dst, true)
  {
    KeepDigitsStep(orig, src);
  }

  /** When the loop stops, the buffer is the filtered original. */
  lemma FilterDone(orig: seq<char>, n: nat, cur: seq<char>, src: int, dst: int)
    requires n < |orig| && orig[n] == NUL && NUL !in orig[..n]
    requires FilterState(orig, n, cur, src, dst, false)
    ensures cur == Filtered(orig)
  {
    FirstNul(orig, n);
    assert cur == cur[..dst] + cur[dst..];
  }

  /** The in-place filter: a read pointer `src` and a write pointer `dst`
      walk the string, every digit and the final NUL are copied down to
      `dst`, and the walk stops after the NUL has been copied. */
  method FilterDigits(buf: array<char>)
    requires NUL in buf[..]
    modifies buf
    ensures buf[..] == Filtered(old(buf[..]))
  {
    ghost var orig := buf[..];
    ghost var n := NulIndex(orig);
    var src, dst := 0, 0;
    var more := true;
    while more
      invariant FilterState(orig, n, buf[..], src, dst, more)
      decreases n + 1 - src
    {
      ghost var before := buf[..];
      var c := buf[src];
      if c == NUL || IsDigit(c) {
        buf[dst] := c;
        if c == NUL {
          FilterStoreNul(orig, n, before, buf[..], src, dst);
        } else {
          FilterStoreDigit(orig, n, before, buf[..], src, dst);
        }
        dst := dst + 1;
      } else {
        FilterSkip(orig, n, buf[..], src, dst);
      }
      more := c != NUL;
      src := src + 1;
    }
    FilterDone(orig, n, buf[..], src, dst);
  }

  // ---------------------------------------------------------------------
  // Properties of the digit string.

  /** The numeral of `n` reads back as `n`. */
  lemma {:induction false} ParseNatDigits(n: nat)
    ensures ParseDigits(NatDigits(n)) == n
    decreases n
  {
    if n >= 10 {
      ParseNatDigits(n / 10);
      var s := NatDigits(n);
      assert s[..|s| - 1] == NatDigits(n / 10);
    }
  }

  /** Filtering digits out of a concatenation filters each part. */
  lemma {:induction false} KeepDigitsAppend(a: string, b: string)
    ensures KeepDigits(a + b) == KeepDigits(a) + KeepDigits(b)
    decreases |b|
  {
    if b == [] {
      assert a + b == a;
    } else {
      var b' := b[..|b| - 1];
      assert (a + b)[..|a + b| - 1] == a + b';
      assert (a + b)[|a + b| - 1] == b[|b| - 1];
      KeepDigitsAppend(a, b');
      var last := if IsDigit(b[|b| - 1]) then [b[|b| - 1]] else [];
      assert KeepDigits(b) == KeepDigits(b') + last;
      assert KeepDigits(a + b) == KeepDigits(a) + KeepDigits(b') + last;
    }
  }

  /** A string of digits is kept whole. */
  lemma {:induction false} KeepAllDigits(s: string)
    requires AllDigits(s)
    ensures KeepDigits(s) == s
    decreases |s|
  {
    if s != [] {
      KeepAllDigits(s[..|s| - 1]);
    }
  }

  /** The filter strips exactly the sign: what remains of "%i" of `v` is
      the numeral of |v|. */
  lemma SignStripped(v: int)
    ensures KeepDigits(FormatInt(v)) == NatDigits(Abs(v))
  {
    KeepAllDigits(NatDigits(Abs(v)));
    if v < 0 {
      KeepDigitsAppend(['-'], NatDigits(-v));
      assert KeepDigits(['-']) == [];
    }
  }

  /** A number below 10^k has at most k digits. */
  lemma {:induction false} DigitsBound(n: nat, k: nat)
    requires 1 <= k && n < Pow10(k)
    ensures |NatDigits(n)| <= k
    decreases k
  {
    if n >= 10 {
      DigitsBound(n / 10, k - 1);
    }
  }

  /** A 32-bit value has at most 10 digits, so "%i" writes at most 11
      characters and always fits the 16-character buffer with its
      terminator. */
  lemma Int32Fits(v: int)
    requires IsInt32(v)
    ensures |NatDigits(Abs(v))| <= 10
    ensures |FormatInt(v)| <= 11 < BUF_SIZE
  {
    assert Pow10(10) == 10000000000;
    DigitsBound(Abs(v), 10);
  }

  /** A buffer's string ends at its first terminator. */
  lemma FirstNul(s: seq<char>, n: nat)
    requires n < |s| && s[n] == NUL && NUL !in s[..n]
    ensures NUL in s && CString(s) == s[..n]
  {
    var m := NulIndex(s);
    assert forall k | 0 <= k < n :: s[k] == s[..n][k];
    assert forall k | 0 <= k < m :: s[k] == s[..m][k];
  }

  /** When the text fits, the formatted buffer holds exactly that text. */
  lemma FormattedString(buf: seq<char>, t: string)
    requires |t| < |buf| && NUL !in t
    ensures NUL in Formatted(buf, t) && CString(Formatted(buf, t)) == t
  {
    var r := Formatted(buf, t);
    assert r[..|t|] == t;
    FirstNul(r, |t|);
  }

  /** The filtered buffer holds the kept digits of the original string. */
  lemma FilteredString(buf: seq<char>)
    requires NUL in buf
    ensures NUL in Filtered(buf) && CString(Filtered(buf)) == KeepDigits(CString(buf))
  {
    var k := KeepDigits(CString(buf));
    var r := Filtered(buf);
    assert NUL !in k;
    FormattedString(r, k);
    assert Formatted(r, k) == r;
  }

  /** set_value's two steps on a 32-bit value leave the numeral of its
      magnitude in the buffer. */
  lemma DigitsOfValue(buf: seq<char>, v: int)
    requires |buf| == BUF_SIZE && IsInt32(v)
    ensures NUL in Formatted(buf, FormatInt(v))
    ensures NUL in Filtered(Formatted(buf, FormatInt(v)))
    ensures CString(Filtered(Formatted(buf, FormatInt(v)))) == NatDigits(Abs(v))
  {
    var t := FormatInt(v);
    Int32Fits(v);
    assert forall k | 0 <= k < |t| :: t[k] == '-' || IsDigit(t[k]) by {
      if v < 0 {
        assert forall k | 1 <= k < |t| :: t[k] == NatDigits(-v)[k - 1];
      }
    }
    FormattedString(buf, t);
    FilteredString(Formatted(buf, t));
    SignStripped(v);
  }

  /** The two buffer steps of td_number_set_value: g_snprintf of "%i"
      into the 16-character buffer, then the digit filter. The buffer ends
      up holding the numeral of the value's magnitude. */
  method FormatDigits(buf: array<char>, v: int)
    requires buf.Length == BUF_SIZE && IsInt32(v)
    modifies buf
    ensures NUL in Formatted(old(buf[..]), FormatInt(v))
    ensures buf[..] == Filtered(Formatted(old(buf[..]), FormatInt(v)))
    ensures NUL in buf[..] && CString(buf[..]) == NatDigits(Abs(v))
  {
    ghost var before := buf[..];
    DigitsOfValue(before, v);
    FormatInto(buf, v);
    FilterDigits(buf);
  }
}

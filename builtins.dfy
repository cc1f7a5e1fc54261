/** The Python built-ins the launcher's string handling relies on: substring
    search (`in`, `str.find`), `str.split`, `str.strip`, `str.lower`, `int()` on a
    string, `min` and `urllib.parse.quote`. Strings are sequences of Unicode
    scalar values, as Python's `str` is. */
module Builtins {
  import opened Wrappers

  // ---------------------------------------------------------------- search

  /** `pat` occurs in `s` starting at index `i`. */
  predicate OccursAt(s: string, pat: string, i: nat)
  {
    i + |pat| <= |s| && s[i..i + |pat|] == pat
  }

  /** The first index at or after `from` where `pat` occurs. */
  function FindFrom(s: string, pat: string, from: nat): (r: Option<nat>)
    requires from <= |s|
    ensures r.Some? ==> from <= r.value <= |s| && OccursAt(s, pat, r.value)
    decreases |s| - from
  {
    if OccursAt(s, pat, from) then Some(from)
    else if from == |s| then None
    else FindFrom(s, pat, from + 1)
  }

  /** What `FindFrom` finds is the first occurrence at or after `from`. */
  lemma {:induction false} FindFromIsFirst(s: string, pat: string, from: nat)
    requires from <= |s|
    ensures var r := FindFrom(s, pat, from);
      forall j: nat :: from <= j && (r.None? || j < r.value) ==> !OccursAt(s, pat, j)
    decreases |s| - from
  {
    if !OccursAt(s, pat, from) && from < |s| {
      FindFromIsFirst(s, pat, from + 1);
    }
  }

  /** `str.find`, with None for Python's -1. */
  function Find(s: string, pat: string): Option<nat>
  {
    FindFrom(s, pat, 0)
  }

  /** Python's `pat in s` for strings. */
  function Contains(s: string, pat: string): bool
  {
    Find(s, pat).Some?
  }

  /** `pat in s` holds exactly when `pat` occurs somewhere in `s`. */
  lemma ContainsMeans(s: string, pat: string)
    ensures Contains(s, pat) <==> exists i: nat :: OccursAt(s, pat, i)
  {
    FindFromIsFirst(s, pat, 0);
    if Contains(s, pat) {
      assert OccursAt(s, pat, Find(s, pat).value);
    }
  }

  /** An occurrence with none before it is what `str.find` returns. */
  lemma FindIs(s: string, pat: string, k: nat)
    requires OccursAt(s, pat, k)
    requires forall j: nat :: j < k ==> !OccursAt(s, pat, j)
    ensures Find(s, pat) == Some(k)
  {
    FindFromIsFirst(s, pat, 0);
  }

  lemma OccursInPrefix(s: string, pat: string, i: nat, j: nat)
    requires i <= |s| && OccursAt(s[..i], pat, j)
    ensures OccursAt(s, pat, j)
  {
    assert s[..i][j..j + |pat|] == s[j..j + |pat|];
  }

  lemma OccursInSuffix(s: string, pat: string, i: nat, j: nat)
    requires i <= |s| && OccursAt(s[i..], pat, j)
    ensures OccursAt(s, pat, i + j)
  {
    assert s[i..][j..j + |pat|] == s[i + j..i + j + |pat|];
  }

  /** A one-character pattern occurs exactly when that character does. */
  lemma ContainsChar(s: string, c: char)
    ensures Contains(s, [c]) <==> c in s
  {
    ContainsMeans(s, [c]);
    if c in s {
      var k :| 0 <= k < |s| && s[k] == c;
      assert OccursAt(s, [c], k);
    }
    if Contains(s, [c]) {
      var k: nat :| OccursAt(s, [c], k);
      assert s[k] == s[k..k + 1][0] == c;
    }
  }

  /** An occurrence of a longer pattern contains one of each of its infixes. */
  lemma ContainsInfix(s: string, pat: string, lo: nat, hi: nat)
    requires lo <= hi <= |pat| && Contains(s, pat)
    ensures Contains(s, pat[lo..hi])
  {
    ContainsMeans(s, pat);
    ContainsMeans(s, pat[lo..hi]);
    var i: nat :| OccursAt(s, pat, i);
    forall k | 0 <= k < hi - lo
      ensures s[i + lo..i + hi][k] == pat[lo..hi][k]
    {
      assert s[i + lo + k] == s[i..i + |pat|][lo + k];
    }
    assert s[i + lo..i + hi] == pat[lo..hi];
    assert OccursAt(s, pat[lo..hi], i + lo);
  }

  // ---------------------------------------------------------------- split

  /** `s.split(sep)`: the pieces between the occurrences of `sep`, found left
      to right without overlapping. Python refuses an empty separator. */
  function Split(s: string, sep: string): (pieces: seq<string>)
    requires sep != []
    ensures |pieces| >= 1
    decreases |s|
  {
    match Find(s, sep)
    case None => [s]
    case Some(i) => [s[..i]] + Split(s[i + |sep|..], sep)
  }

  /** `sep.join(pieces)`. */
  function Join(pieces: seq<string>, sep: string): string
    requires |pieces| >= 1
  {
    if |pieces| == 1 then pieces[0] else pieces[0] + sep + Join(pieces[1..], sep)
  }

  /** Joining the pieces of a split with the same separator gives back the string. */
  lemma {:induction false} JoinSplit(s: string, sep: string)
    requires sep != []
    ensures Join(Split(s, sep), sep) == s
    decreases |s|
  {
    match Find(s, sep)
    case None =>
      assert Split(s, sep) == [s];
    case Some(i) =>
      var rest := s[i + |sep|..];
      assert Split(s, sep) == [s[..i]] + Split(rest, sep);
      JoinSplit(rest, sep);
      JoinCons(s[..i], Split(rest, sep), sep);
      Rejoin(s, sep, i);
  }

  lemma JoinCons(piece: string, pieces: seq<string>, sep: string)
    requires |pieces| >= 1
    ensures Join([piece] + pieces, sep) == piece + sep + Join(pieces, sep)
  {
    assert ([piece] + pieces)[1..] == pieces;
  }

  /** Cutting out an occurrence of `sep` and putting it back changes nothing. */
  lemma Rejoin(s: string, sep: string, i: nat)
    requires OccursAt(s, sep, i)
    ensures s[..i] + sep + s[i + |sep|..] == s
  {
    assert s == s[..i] + s[i..i + |sep|] + s[i + |sep|..];
  }

  /** No piece of a split contains the separator. */
  lemma {:induction false} SplitPiecesAreFree(s: string, sep: string)
    requires sep != []
    ensures forall k :: 0 <= k < |Split(s, sep)| ==> !Contains(Split(s, sep)[k], sep)
    decreases |s|
  {
    match Find(s, sep)
    case None =>
    case Some(i) =>
      var rest := s[i + |sep|..];
      SplitPiecesAreFree(rest, sep);
      FindFromIsFirst(s, sep, 0);
      assert Split(s, sep)[1..] == Split(rest, sep);
      if Contains(s[..i], sep) {
        var j: nat :| OccursAt(s[..i], sep, j);
        OccursInPrefix(s, sep, i, j);
      }
  }

  /** `s.split(sep)[0]`. */
  function BeforeFirst(s: string, sep: string): string
    requires sep != []
  {
    Split(s, sep)[0]
  }

  /** `s.split(sep)[-1]`. */
  function AfterLast(s: string, sep: string): string
    requires sep != []
  {
    var pieces := Split(s, sep);
    pieces[|pieces| - 1]
  }

  /** The first piece is the part of `s` before the first occurrence of `sep`,
      or all of `s` when there is none. */
  lemma BeforeFirstIsPrefix(s: string, sep: string)
    requires sep != []
    ensures var h := BeforeFirst(s, sep);
      && h == s[..|h|]
      && !Contains(h, sep)
      && (Contains(s, sep) ==> OccursAt(s, sep, |h|))
      && (!Contains(s, sep) ==> h == s)
  {
    SplitPiecesAreFree(s, sep);
  }

  /** When `sep` occurs in `s`, the last piece is what follows some
      occurrence of it, returned as `k`. */
  lemma {:induction false} AfterLastFollowsOccurrence(s: string, sep: string) returns (k: nat)
    requires sep != [] && Contains(s, sep)
    ensures OccursAt(s, sep, k) && s[k + |sep|..] == AfterLast(s, sep)
    decreases |s|
  {
    var i := Find(s, sep).value;
    var rest := s[i + |sep|..];
    AfterLastSkipsFirst(s, sep, i);
    if !Contains(rest, sep) {
      k := i;
    } else {
      var later := AfterLastFollowsOccurrence(rest, sep);
      OccursInSuffix(s, sep, i + |sep|, later);
      k := i + |sep| + later;
      assert rest[later + |sep|..] == s[k + |sep|..];
    }
  }

  /** Past a first occurrence at `i`, the last piece is the last piece of the rest. */
  lemma AfterLastSkipsFirst(s: string, sep: string, i: nat)
    requires sep != [] && Find(s, sep) == Some(i)
    ensures i + |sep| <= |s| && OccursAt(s, sep, i)
    ensures AfterLast(s, sep) == AfterLast(s[i + |sep|..], sep)
    ensures !Contains(s[i + |sep|..], sep) ==> AfterLast(s, sep) == s[i + |sep|..]
  {
    var rest := s[i + |sep|..];
    var pieces, later := Split(s, sep), Split(rest, sep);
    assert pieces == [s[..i]] + later;
    assert pieces[|pieces| - 1] == later[|later| - 1];
    if !Contains(rest, sep) {
      assert later == [rest];
    }
  }

  /** The last piece is free of `sep`. */
  lemma AfterLastIsFree(s: string, sep: string)
    requires sep != []
    ensures !Contains(AfterLast(s, sep), sep)
  {
    SplitPiecesAreFree(s, sep);
  }

  /** A '?'-free prefix followed by '?' is exactly the first piece. */
  lemma BeforeFirstChar(a: string, c: char, b: string)
    requires c !in a
    ensures BeforeFirst(a + [c] + b, [c]) == a
  {
    var s := a + [c] + b;
    assert OccursAt(s, [c], |a|);
    forall j: nat | j < |a| ensures !OccursAt(s, [c], j) {
      assert s[j..j + 1] == [a[j]];
    }
    FindIs(s, [c], |a|);
    assert s[..|a|] == a;
  }

  // ---------------------------------------------------------------- strip

  /** `c.isspace()`: the characters Python's `str.strip()` and `int()` remove. */
  predicate IsSpace(c: char)
  {
    || ('\t' <= c <= '\r')
    || ('\U{1C}' <= c <= ' ')
    || c == '\U{85}' || c == '\U{A0}' || c == '\U{1680}'
    || ('\U{2000}' <= c <= '\U{200A}')
    || c == '\U{2028}' || c == '\U{2029}' || c == '\U{202F}' || c == '\U{205F}' || c == '\U{3000}'
  }

  /** The first index at or after `i` that does not hold whitespace, or `|s|`. */
  function SkipSpaces(s: string, i: nat): (j: nat)
    requires i <= |s|
    ensures i <= j <= |s| && (j < |s| ==> !IsSpace(s[j]))
    decreases |s| - i
  {
    if i < |s| && IsSpace(s[i]) then SkipSpaces(s, i + 1) else i
  }

  /** The end of `s[lo..hi]` once its trailing whitespace is dropped. */
  function SkipSpacesBack(s: string, lo: nat, hi: nat): (j: nat)
    requires lo <= hi <= |s|
    ensures lo <= j <= hi && (j > lo ==> !IsSpace(s[j - 1]))
  {
    if hi > lo && IsSpace(s[hi - 1]) then SkipSpacesBack(s, lo, hi - 1) else hi
  }

  lemma {:induction false} SkipSpacesSkipsOnlySpaces(s: string, i: nat)
    requires i <= |s|
    ensures forall k :: i <= k < SkipSpaces(s, i) ==> IsSpace(s[k])
    decreases |s| - i
  {
    if i < |s| && IsSpace(s[i]) {
      SkipSpacesSkipsOnlySpaces(s, i + 1);
    }
  }

  lemma {:induction false} SkipSpacesBackSkipsOnlySpaces(s: string, lo: nat, hi: nat)
    requires lo <= hi <= |s|
    ensures forall k :: SkipSpacesBack(s, lo, hi) <= k < hi ==> IsSpace(s[k])
  {
    if hi > lo && IsSpace(s[hi - 1]) {
      SkipSpacesBackSkipsOnlySpaces(s, lo, hi - 1);
    }
  }

  /** How many leading whitespace characters `s.strip()` removes. */
  function LeadingSpaces(s: string): nat
  {
    SkipSpaces(s, 0)
  }

  /** `s.strip()`: `s` without its leading and trailing whitespace. */
  function Strip(s: string): (r: string)
    ensures |r| <= |s|
  {
    var lo := SkipSpaces(s, 0);
    s[lo..SkipSpacesBack(s, lo, |s|)]
  }

  /** The strip is the slice of `s` between its leading and its trailing
      whitespace, and neither starts nor ends with whitespace. */
  lemma StripSpec(s: string)
    ensures var r := Strip(s);
      && (r == [] || (!IsSpace(r[0]) && !IsSpace(r[|r| - 1])))
      && LeadingSpaces(s) + |r| <= |s| && r == s[LeadingSpaces(s)..LeadingSpaces(s) + |r|]
      && (forall k :: 0 <= k < LeadingSpaces(s) ==> IsSpace(s[k]))
      && (forall k :: LeadingSpaces(s) + |r| <= k < |s| ==> IsSpace(s[k]))
  {
    var lo := SkipSpaces(s, 0);
    var hi := SkipSpacesBack(s, lo, |s|);
    SkipSpacesSkipsOnlySpaces(s, 0);
    SkipSpacesBackSkipsOnlySpaces(s, lo, |s|);
    var r := s[lo..hi];
    assert r == Strip(s) && |r| == hi - lo;
    if r != [] {
      assert r[0] == s[lo] && r[|r| - 1] == s[hi - 1];
    }
  }

  /** A string that neither starts nor ends with whitespace is its own strip. */
  lemma StripUnchanged(s: string)
    requires s == [] || (!IsSpace(s[0]) && !IsSpace(s[|s| - 1]))
    ensures Strip(s) == s
  {
    if s != [] {
      assert SkipSpaces(s, 0) == 0;
      assert SkipSpacesBack(s, 0, |s|) == |s|;
    }
  }

  // ---------------------------------------------------------------- lower

  /** `str.lower()` on one character, for ASCII and the Latin-1 letters. */
  function LowerChar(c: char): char
  {
    if 'A' <= c <= 'Z' || ('\U{C0}' <= c <= '\U{DE}' && c != '\U{D7}') then (c as int + 32) as char else c
  }

  /** `s.lower()`, character by character. */
  function Lower(s: string): (r: string)
    ensures |r| == |s|
  {
    seq(|s|, k requires 0 <= k < |s| => LowerChar(s[k]))
  }

  /** Lower-casing never turns a space into a non-space or back. */
  lemma LowerKeepsSpaces(c: char)
    ensures IsSpace(LowerChar(c)) <==> IsSpace(c)
  {
  }

  /** Lower-casing twice is lower-casing once. */
  lemma LowerIdempotent(s: string)
    ensures Lower(Lower(s)) == Lower(s)
  {
  }

  // ---------------------------------------------------------------- int()

  predicate IsDigit(c: char)
  {
    '0' <= c <= '9'
  }

  function DigitValue(c: char): nat
    requires IsDigit(c)
  {
    c as int - '0' as int
  }

  function DigitChar(d: nat): (c: char)
    requires d < 10
    ensures IsDigit(c) && DigitValue(c) == d
  {
    ('0' as int + d) as char
  }

  /** Position `k` of `s` holds a digit, or an underscore followed by a digit. */
  predicate DigitOrJoiner(s: string, k: nat)
    requires k < |s|
  {
    IsDigit(s[k]) || (s[k] == '_' && k + 1 < |s| && IsDigit(s[k + 1]))
  }

  /** The digit grammar `int()` accepts: digits, with single underscores
      allowed between two digits. */
  predicate IsDigitRun(s: string)
  {
    && |s| >= 1
    && IsDigit(s[0])
    && forall k: nat :: k < |s| ==> DigitOrJoiner(s, k)
  }

  /** The decimal value of the digits of `s`, underscores skipped. */
  function DigitsValue(s: string): nat
  {
    if s == [] then 0
    else if IsDigit(s[|s| - 1]) then 10 * DigitsValue(s[..|s| - 1]) + DigitValue(s[|s| - 1])
    else DigitsValue(s[..|s| - 1])
  }

  /** `int(s)` for a `str` argument: surrounding whitespace, an optional sign,
      then a digit run; None where Python raises ValueError. */
  function ParseInt(s: string): (r: Option<int>)
  {
    var t := Strip(s);
    if |t| >= 1 && (t[0] == '-' || t[0] == '+') then
      if IsDigitRun(t[1..]) then
        var v: int := DigitsValue(t[1..]);
        Some(if t[0] == '-' then -v else v)
      else None
    else if IsDigitRun(t) then Some(DigitsValue(t))
    else None
  }

  /** The shortest decimal spelling of a natural number. */
  function Digits(n: nat): (s: string)
    ensures |s| >= 1 && forall k :: 0 <= k < |s| ==> IsDigit(s[k])
  {
    if n < 10 then [DigitChar(n)] else Digits(n / 10) + [DigitChar(n % 10)]
  }

  /** `str(n)` for an integer. */
  function Decimal(n: int): string
  {
    if n < 0 then "-" + Digits(-n) else Digits(n)
  }

  lemma {:induction false} DigitsValueOfDigits(n: nat)
    ensures DigitsValue(Digits(n)) == n
  {
    if n >= 10 {
      DigitsValueOfDigits(n / 10);
      var s := Digits(n);
      assert s[..|s| - 1] == Digits(n / 10);
    }
  }

  lemma DigitsAreDigitRun(s: string)
    requires |s| >= 1 && forall k :: 0 <= k < |s| ==> IsDigit(s[k])
    ensures IsDigitRun(s)
  {
  }

  /** A digit run ends with a digit. */
  lemma DigitRunEndsWithDigit(s: string)
    requires IsDigitRun(s)
    ensures IsDigit(s[|s| - 1])
  {
    assert DigitOrJoiner(s, |s| - 1);
  }

  /** `int()` of a sign-free digit run without surrounding spaces is its value. */
  lemma ParseIntOfDigitRun(s: string)
    requires IsDigitRun(s)
    ensures ParseInt(s) == Some(DigitsValue(s) as int)
  {
    DigitRunEndsWithDigit(s);
    assert !IsSpace(s[0]) && !IsSpace(s[|s| - 1]);
    StripUnchanged(s);
  }

  /** `int("-" + s)` of a digit run is its negated value. */
  lemma ParseIntOfNegatedRun(s: string)
    requires IsDigitRun(s)
    ensures ParseInt("-" + s) == Some(-(DigitsValue(s) as int))
  {
    DigitRunEndsWithDigit(s);
    var t := "-" + s;
    assert !IsSpace(t[0]) && t[|t| - 1] == s[|s| - 1] && !IsSpace(t[|t| - 1]);
    StripUnchanged(t);
    assert t[1..] == s;
  }

  /** `int(str(n)) == n`. */
  lemma ParseIntDecimal(n: int)
    ensures ParseInt(Decimal(n)) == Some(n)
  {
    var d: nat := if n < 0 then -n else n;
    DigitsValueOfDigits(d);
    DigitsAreDigitRun(Digits(d));
    if n < 0 {
      ParseIntOfNegatedRun(Digits(d));
    } else {
      ParseIntOfDigitRun(Digits(d));
    }
  }

  /** Two-digit, zero-padded spelling, as `f"{n:02d}"`. */
  function Pad2(n: nat): (s: string)
    requires n < 100
    ensures |s| == 2 && IsDigit(s[0]) && IsDigit(s[1])
  {
    [DigitChar(n / 10), DigitChar(n % 10)]
  }

  lemma ParseIntPad2(n: nat)
    requires n < 100
    ensures ParseInt(Pad2(n)) == Some(n) && Pad2(n)[..1] == [Pad2(n)[0]]
  {
    var s := Pad2(n);
    StripUnchanged(s);
    assert s[..1] == [s[0]];
    assert DigitsValue(s) == 10 * DigitsValue(s[..1]) + DigitValue(s[1]);
  }

  // ---------------------------------------------------------------- min

  /** `min(xs)` for a non-empty list (Python raises on an empty one). */
  function Min(xs: seq<int>): (m: int)
    requires xs != []
    ensures m in xs && forall x :: x in xs ==> m <= x
  {
    if |xs| == 1 then xs[0]
    else
      var rest := Min(xs[1..]);
      assert xs == [xs[0]] + xs[1..];
      if xs[0] <= rest then xs[0] else rest
  }

  // ---------------------------------------------------------------- quote

  type byte = b: int | 0 <= b < 256

  /** The UTF-8 encoding of one scalar value. */
  function Utf8(c: char): (bs: seq<byte>)
    ensures 1 <= |bs| <= 4
  {
    var n := c as int;
    if n < 0x80 then [n]
    else if n < 0x800 then [0xC0 + n / 64, 0x80 + n % 64]
    else if n < 0x1_0000 then [0xE0 + n / 4096, 0x80 + (n / 64) % 64, 0x80 + n % 64]
    else [0xF0 + n / 262144, 0x80 + (n / 4096) % 64, 0x80 + (n / 64) % 64, 0x80 + n % 64]
  }

  /** The characters `quote(s)` leaves alone: the unreserved characters of
      section 2.3 of RFC 3986, and '/', the default `safe` argument. */
  predicate IsSafe(c: char)
  {
    || 'A' <= c <= 'Z' || 'a' <= c <= 'z' || '0' <= c <= '9'
    || c == '_' || c == '.' || c == '-' || c == '~' || c == '/'
  }

  /** The digits `quote` writes its escapes with: upper-case hexadecimal. */
  predicate IsHexDigit(c: char)
  {
    '0' <= c <= '9' || 'A' <= c <= 'F'
  }

  /** The value of a hexadecimal digit. */
  function HexValue(c: char): (d: nat)
    requires IsHexDigit(c)
    ensures d < 16
  {
    if c <= '9' then c as int - '0' as int else c as int - 'A' as int + 10
  }

  /** The upper-case hexadecimal digit of `d`; it reads back as `d`. */
  function HexDigit(d: nat): (c: char)
    requires d < 16
    ensures IsHexDigit(c) && HexValue(c) == d
  {
    if d < 10 then DigitChar(d) else ('A' as int + d - 10) as char
  }

  /** The percent-escapes of the bytes `bs`: three characters per byte, each
      '%' or an upper-case hexadecimal digit (`PercentEncodeDecodes` reads
      every byte back). */
  function PercentEncode(bs: seq<byte>): (r: string)
    ensures |r| == 3 * |bs|
    ensures forall k :: 0 <= k < |r| ==> r[k] == '%' || IsHexDigit(r[k])
  {
    if bs == [] then [] else ['%', HexDigit(bs[0] / 16), HexDigit(bs[0] % 16)] + PercentEncode(bs[1..])
  }

  /** Escape `i` of `PercentEncode(bs)` is '%' and two hexadecimal digits
      that read back as byte `i`. */
  lemma {:induction false} PercentEncodeDecodes(bs: seq<byte>, i: nat)
    requires i < |bs|
    ensures var r := PercentEncode(bs);
      && r[3 * i] == '%' && IsHexDigit(r[3 * i + 1]) && IsHexDigit(r[3 * i + 2])
      && 16 * HexValue(r[3 * i + 1]) + HexValue(r[3 * i + 2]) == bs[i]
  {
    var r := PercentEncode(bs);
    var head := ['%', HexDigit(bs[0] / 16), HexDigit(bs[0] % 16)];
    assert r == head + PercentEncode(bs[1..]);
    if i > 0 {
      PercentEncodeDecodes(bs[1..], i - 1);
      var rest := PercentEncode(bs[1..]);
      assert r[3 * i] == rest[3 * (i - 1)];
      assert r[3 * i + 1] == rest[3 * (i - 1) + 1];
      assert r[3 * i + 2] == rest[3 * (i - 1) + 2];
    }
  }

  /** `urllib.parse.quote(s)`: every character outside the safe set becomes
      the percent-escapes of its UTF-8 bytes, in upper-case hexadecimal. The
      result holds only safe characters and '%', so it can never end a query
      value early ('?', '&', '#', '=' and space are all escaped), and a string
      of safe characters is returned unchanged. */
  function Quote(s: string): (r: string)
    ensures forall k :: 0 <= k < |r| ==> IsSafe(r[k]) || r[k] == '%'
    ensures (forall k :: 0 <= k < |s| ==> IsSafe(s[k])) ==> r == s
  {
    if s == [] then []
    else (if IsSafe(s[0]) then [s[0]] else PercentEncode(Utf8(s[0]))) + Quote(s[1..])
  }
}

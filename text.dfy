/**
 * The pieces of Rust's `str` and `fmt` machinery that the parsers and
 * formatters rely on: `char::is_whitespace`, `trim`, `lines`, `split`,
 * `str::repeat`, `{:<w}`/`{:>w}` padding and decimal integers in both
 * directions (`{}` formatting and `str::parse`).
 */
module Text {
  import opened Wrappers

  /** Rust's `char::is_whitespace`: the Unicode White_Space property. */
  predicate IsWhitespace(c: char) {
    c == ' ' || ('\t' <= c <= '\r') || c == '\U{85}' || c == '\U{A0}' || c == '\U{1680}'
    || ('\U{2000}' <= c <= '\U{200A}') || c == '\U{2028}' || c == '\U{2029}'
    || c == '\U{202F}' || c == '\U{205F}' || c == '\U{3000}'
  }

  predicate AllWhitespace(s: string) {
    forall k :: 0 <= k < |s| ==> IsWhitespace(s[k])
  }

  /** Number of occurrences of `c` in `s`. */
  function Count<T(==)>(c: T, s: seq<T>): nat {
    if s == [] then 0 else (if s[0] == c then 1 else 0) + Count(c, s[1..])
  }

  lemma {:induction false} CountAppend<T>(c: T, a: seq<T>, b: seq<T>)
    ensures Count(c, a + b) == Count(c, a) + Count(c, b)
  {
    if a == [] {
      assert a + b == b;
    } else {
      assert (a + b)[1..] == a[1..] + b;
      CountAppend(c, a[1..], b);
    }
  }

  lemma {:induction false} CountAbsent<T>(c: T, s: seq<T>)
    requires c !in s
    ensures Count(c, s) == 0
  {
    if s != [] {
      assert c !in s[1..];
      CountAbsent(c, s[1..]);
    }
  }

  /** A prefix one element longer is the prefix with that element appended. */
  lemma TakeSnoc<T>(s: seq<T>, i: nat)
    requires i < |s|
    ensures s[..i + 1] == s[..i] + [s[i]]
  {
  }

  /** The prefix of full length is the whole sequence. */
  lemma TakeAll<T>(s: seq<T>)
    ensures s[..|s|] == s
  {
  }

  // ---------------------------------------------------------------- trim

  /** The number of whitespace characters `s` starts with. */
  function LeadingWhitespace(s: string): (n: nat)
    ensures n <= |s|
  {
    if s != [] && IsWhitespace(s[0]) then 1 + LeadingWhitespace(s[1..]) else 0
  }

  /** The number of whitespace characters `s` ends with. */
  function TrailingWhitespace(s: string): (n: nat)
    ensures n <= |s|
  {
    if s != [] && IsWhitespace(s[|s| - 1]) then 1 + TrailingWhitespace(s[..|s| - 1]) else 0
  }

  /** Rust's `trim_start`. */
  function TrimStart(s: string): string {
    s[LeadingWhitespace(s)..]
  }

  /** Rust's `trim_end`. */
  function TrimEnd(s: string): string {
    s[..|s| - TrailingWhitespace(s)]
  }

  /** Rust's `trim`: `s` without its leading and trailing whitespace. */
  function Trim(s: string): string {
    TrimEnd(TrimStart(s))
  }

  /** The leading run is whitespace and is followed by a character that is not. */
  lemma {:induction false} LeadingWhitespaceSpec(s: string)
    ensures var n := LeadingWhitespace(s);
      AllWhitespace(s[..n]) && (n < |s| ==> !IsWhitespace(s[n]))
  {
    if s != [] && IsWhitespace(s[0]) {
      LeadingWhitespaceSpec(s[1..]);
      var n := LeadingWhitespace(s);
      assert s[..n] == [s[0]] + s[1..][..n - 1];
    }
  }

  /** The trailing run is whitespace and is preceded by a character that is not. */
  lemma {:induction false} TrailingWhitespaceSpec(s: string)
    ensures var n := TrailingWhitespace(s);
      AllWhitespace(s[|s| - n..]) && (n < |s| ==> !IsWhitespace(s[|s| - n - 1]))
  {
    if s != [] && IsWhitespace(s[|s| - 1]) {
      var init := s[..|s| - 1];
      TrailingWhitespaceSpec(init);
      var n := TrailingWhitespace(s);
      var tail := s[|s| - n..];
      var initTail := init[|init| - (n - 1)..];
      forall k | 0 <= k < |tail|
        ensures IsWhitespace(tail[k])
      {
        if k < n - 1 {
          assert tail[k] == initTail[k];
        } else {
          assert tail[k] == s[|s| - 1];
        }
      }
    }
  }

  /**
   * What `trim` keeps is the middle of `s`, neither starting nor ending in
   * whitespace, and what it drops on either side is whitespace.
   */
  lemma {:induction false} TrimIsMiddle(s: string)
    ensures LeadingWhitespace(s) + |Trim(s)| <= |s|
    ensures s[LeadingWhitespace(s)..LeadingWhitespace(s) + |Trim(s)|] == Trim(s)
    ensures AllWhitespace(s[..LeadingWhitespace(s)])
    ensures AllWhitespace(s[LeadingWhitespace(s) + |Trim(s)|..])
    ensures Trim(s) != [] ==> !IsWhitespace(Trim(s)[0]) && !IsWhitespace(Trim(s)[|Trim(s)| - 1])
  {
    var i := LeadingWhitespace(s);
    var m := TrailingWhitespace(s[i..]);
    LeadingWhitespaceSpec(s);
    TrailingWhitespaceSpec(s[i..]);
    MiddleOf(s, i, s[i..], m, Trim(s));
  }

  /**
   * Cutting a whitespace run of `i` off the front of `s` and then one of
   * `m` off the back leaves `r`, a slice of `s` with whitespace on either side.
   */
  lemma MiddleOf(s: string, i: nat, t: string, m: nat, r: string)
    requires i <= |s| && t == s[i..] && m <= |t| && r == t[..|t| - m]
    requires AllWhitespace(s[..i]) && (i < |s| ==> !IsWhitespace(s[i]))
    requires AllWhitespace(t[|t| - m..]) && (m < |t| ==> !IsWhitespace(t[|t| - m - 1]))
    ensures i + |r| <= |s| && s[i..i + |r|] == r
    ensures AllWhitespace(s[..i]) && AllWhitespace(s[i + |r|..])
    ensures r != [] ==> !IsWhitespace(r[0]) && !IsWhitespace(r[|r| - 1])
  {
    assert s[i + |r|..] == t[|t| - m..];
    if r != [] {
      assert r[0] == s[i];
      assert r[|r| - 1] == t[|t| - m - 1];
    }
  }

  /** `trim` yields the empty string exactly on all-whitespace input. */
  lemma TrimEmpty(s: string)
    ensures Trim(s) == [] <==> AllWhitespace(s)
  {
    TrimIsMiddle(s);
    var i := LeadingWhitespace(s);
    if Trim(s) == [] {
      assert s == s[..i] + s[i..];
    } else {
      assert Trim(s)[0] == s[i];
    }
  }

  /** `trim` leaves text that neither starts nor ends with whitespace unchanged. */
  lemma TrimClean(s: string)
    requires s == [] || (!IsWhitespace(s[0]) && !IsWhitespace(s[|s| - 1]))
    ensures Trim(s) == s
  {
  }

  // ---------------------------------------------------------------- search

  /** Index of the first `c` in `s`, or `|s|` when `s` has none. */
  function IndexOf(s: string, c: char): (i: nat)
    ensures i <= |s|
  {
    if s == [] then 0 else if s[0] == c then 0 else 1 + IndexOf(s[1..], c)
  }

  /** `IndexOf` finds the first occurrence, and no other. */
  lemma {:induction false} IndexOfSpec(s: string, c: char)
    ensures var i := IndexOf(s, c); (i < |s| ==> s[i] == c) && c !in s[..i]
  {
    if s != [] && s[0] != c {
      IndexOfSpec(s[1..], c);
      var i := IndexOf(s, c);
      assert s[..i] == [s[0]] + s[1..][..i - 1];
    }
  }

  /** A position holding `c` with no `c` before it is what `IndexOf` finds. */
  lemma {:induction false} IndexOfFirst(s: string, c: char, n: nat)
    requires n <= |s| && (n < |s| ==> s[n] == c) && c !in s[..n]
    ensures IndexOf(s, c) == n
  {
    if n > 0 {
      assert s[0] == s[..n][0];
      assert s[1..][..n - 1] == s[..n][1..];
      IndexOfFirst(s[1..], c, n - 1);
    }
  }

  /** The text of `s` before its first `c` (all of `s` when it has none). */
  function UpTo(s: string, c: char): (r: string)
    ensures r <= s
  {
    s[..IndexOf(s, c)]
  }

  // ---------------------------------------------------------------- lines

  /** `line` without one trailing carriage return. */
  function StripCr(line: string): string {
    if line != [] && line[|line| - 1] == '\r' then line[..|line| - 1] else line
  }

  /**
   * Rust's `str::lines`: the pieces between line feeds, each without the
   * `"\n"` or `"\r\n"` that ended it; a final line feed does not start an
   * empty line, and a final piece with no line feed is kept as it is.
   */
  function Lines(s: string): seq<string>
    decreases |s|
  {
    if s == [] then []
    else
      var i := IndexOf(s, '\n');
      if i == |s| then [s] else [StripCr(s[..i])] + Lines(s[i + 1..])
  }

  /** Every line followed by `"\r\n"`, as the Windows tools print them. */
  function CrlfText(ls: seq<string>): string {
    if ls == [] then [] else ls[0] + "\r\n" + CrlfText(ls[1..])
  }

  /** `lines` takes CRLF-terminated output back to the lines it was made of. */
  lemma {:induction false} LinesOfCrlfText(ls: seq<string>)
    requires forall k :: 0 <= k < |ls| ==> '\n' !in ls[k]
    ensures Lines(CrlfText(ls)) == ls
  {
    if ls != [] {
      var s := CrlfText(ls);
      var l := ls[0];
      assert s == l + "\r\n" + CrlfText(ls[1..]);
      assert s[..|l| + 1] == l + "\r";
      IndexOfFirst(s, '\n', |l| + 1);
      assert StripCr(s[..|l| + 1]) == l;
      assert s[|l| + 2..] == CrlfText(ls[1..]);
      LinesOfCrlfText(ls[1..]);
    }
  }

  /** Three lines without line feeds, written out with CR LF endings, read back as themselves. */
  lemma LinesOfThree(a: string, b: string, c: string)
    requires '\n' !in a && '\n' !in b && '\n' !in c
    ensures Lines(CrlfText([a, b, c])) == [a, b, c]
  {
    var ls := [a, b, c];
    assert forall k :: 0 <= k < |ls| ==> '\n' !in ls[k] by {
      assert ls[0] == a && ls[1] == b && ls[2] == c;
    }
    LinesOfCrlfText(ls);
  }

  /** 1 when `s` ends in a piece that no line feed terminates. */
  function UnterminatedTail(s: string): nat {
    if s != [] && s[|s| - 1] != '\n' then 1 else 0
  }

  /** The number of lines is the number of line feeds, plus one for an unterminated last line. */
  lemma {:induction false} LinesCount(s: string)
    ensures |Lines(s)| == Count('\n', s) + UnterminatedTail(s)
    decreases |s|
  {
    if s != [] {
      var i := IndexOf(s, '\n');
      IndexOfSpec(s, '\n');
      if i == |s| {
        assert s[..i] == s;
        CountAbsent('\n', s);
      } else {
        var rest := s[i + 1..];
        assert s == s[..i] + [s[i]] + rest;
        CountAppend('\n', s[..i] + [s[i]], rest);
        CountAppend('\n', s[..i], [s[i]]);
        CountAbsent('\n', s[..i]);
        assert Count('\n', [s[i]]) == 1;
        LinesCount(rest);
        if rest != [] { assert rest[|rest| - 1] == s[|s| - 1]; }
      }
    }
  }

  // ---------------------------------------------------------------- split

  /** Rust's `str::split` on one character. */
  function Split(s: string, sep: char): (parts: seq<string>)
    ensures |parts| >= 1
    decreases |s|
  {
    var i := IndexOf(s, sep);
    if i == |s| then [s] else [s[..i]] + Split(s[i + 1..], sep)
  }

  /** The pieces put back together with `sep` between them. */
  function Join(parts: seq<string>, sep: char): string {
    if parts == [] then []
    else if |parts| == 1 then parts[0]
    else parts[0] + [sep] + Join(parts[1..], sep)
  }

  /** No piece of a split holds the separator, and joining the pieces gives back the text. */
  lemma {:induction false} JoinSplit(s: string, sep: char)
    ensures forall k :: 0 <= k < |Split(s, sep)| ==> sep !in Split(s, sep)[k]
    ensures Join(Split(s, sep), sep) == s
    decreases |s|
  {
    var i := IndexOf(s, sep);
    IndexOfSpec(s, sep);
    if i < |s| {
      JoinSplit(s[i + 1..], sep);
      assert s == s[..i] + [sep] + s[i + 1..];
    } else {
      assert s[..i] == s;
    }
  }

  /** A text without the separator is one piece. */
  lemma SplitNone(s: string, sep: char)
    requires sep !in s
    ensures Split(s, sep) == [s]
  {
    IndexOfFirst(s, sep, |s|);
    assert s[..|s|] == s;
  }

  /** A first piece without the separator is split off, and the rest is split on its own. */
  lemma SplitCons(p: string, sep: char, rest: string)
    requires sep !in p
    ensures Split(p + [sep] + rest, sep) == [p] + Split(rest, sep)
  {
    var s := p + [sep] + rest;
    assert s[..|p|] == p && s[|p|] == sep && s[|p| + 1..] == rest;
    IndexOfFirst(s, sep, |p|);
  }

  /** Joining adds no character other than the separator. */
  lemma {:induction false} JoinExcludes(parts: seq<string>, sep: char, c: char)
    requires c != sep && forall k :: 0 <= k < |parts| ==> c !in parts[k]
    ensures c !in Join(parts, sep)
  {
    if |parts| > 1 {
      assert c !in parts[0];
      JoinExcludes(parts[1..], sep, c);
    }
  }

  /** Splitting joined pieces that hold no separator gives back the pieces. */
  lemma {:induction false} SplitJoin(parts: seq<string>, sep: char)
    requires parts != []
    requires forall k :: 0 <= k < |parts| ==> sep !in parts[k]
    ensures Split(Join(parts, sep), sep) == parts
  {
    var s := Join(parts, sep);
    var p := parts[0];
    if |parts| == 1 {
      assert s[..|s|] == p;
      IndexOfFirst(s, sep, |s|);
    } else {
      var rest := Join(parts[1..], sep);
      assert s == p + [sep] + rest;
      assert s[..|p|] == p && s[|p|] == sep && s[|p| + 1..] == rest;
      IndexOfFirst(s, sep, |p|);
      SplitJoin(parts[1..], sep);
    }
  }

  /** The `n`-th element of `xs`, as Rust's `Iterator::nth`. */
  function Nth<T>(xs: seq<T>, n: nat): (r: Option<T>)
    ensures r.Some? <==> n < |xs|
  {
    if n < |xs| then Some(xs[n]) else None
  }

  // ---------------------------------------------------------------- repeat and pad

  /** Rust's `str::repeat` for a one-character string. */
  function Repeat(c: char, n: nat): (r: string)
    ensures |r| == n && forall k :: 0 <= k < n ==> r[k] == c
  {
    if n == 0 then [] else [c] + Repeat(c, n - 1)
  }

  lemma {:induction false} CountRepeat(c: char, d: char, n: nat)
    ensures Count(c, Repeat(d, n)) == if c == d then n else 0
  {
    if n > 0 {
      assert Repeat(d, n)[1..] == Repeat(d, n - 1);
      CountRepeat(c, d, n - 1);
    }
  }

  /** `{:<w}`: `s` followed by spaces up to width `w`. */
  function PadRight(s: string, w: nat): (r: string)
    ensures s <= r && |r| == if |s| < w then w else |s|
    ensures forall k :: |s| <= k < |r| ==> r[k] == ' '
  {
    if |s| < w then s + Repeat(' ', w - |s|) else s
  }

  /** `{:>w}`: spaces up to width `w`, then `s`. */
  function PadLeft(s: string, w: nat): (r: string)
    ensures |r| == if |s| < w then w else |s|
    ensures r[|r| - |s|..] == s && forall k :: 0 <= k < |r| - |s| ==> r[k] == ' '
  {
    if |s| < w then Repeat(' ', w - |s|) + s else s
  }

  /** Spaces before text that does not start with whitespace are all of its leading whitespace. */
  lemma {:induction false} LeadingSpaces(k: nat, s: string)
    requires s == [] || !IsWhitespace(s[0])
    ensures LeadingWhitespace(Repeat(' ', k) + s) == k
  {
    if k > 0 {
      assert (Repeat(' ', k) + s)[1..] == Repeat(' ', k - 1) + s;
      LeadingSpaces(k - 1, s);
    }
  }

  /** `trim` undoes `{:>w}` on text with clean ends. */
  lemma TrimPadLeft(s: string, w: nat)
    requires s != [] && !IsWhitespace(s[0]) && !IsWhitespace(s[|s| - 1])
    ensures Trim(PadLeft(s, w)) == s
  {
    var k := if |s| < w then w - |s| else 0;
    assert PadLeft(s, w) == Repeat(' ', k) + s;
    LeadingSpaces(k, s);
    assert TrimStart(PadLeft(s, w)) == s;
    TrimClean(s);
  }

  /** `t` occurs in `s` starting at index `i`. */
  predicate OccursAt(s: string, t: string, i: int) {
    0 <= i && i + |t| <= |s| && s[i..i + |t|] == t
  }

  /** An occurrence survives appending text after it. */
  lemma OccursAtAppend(s: string, t: string, i: int, u: string)
    requires OccursAt(s, t, i)
    ensures OccursAt(s + u, t, i)
  {
    assert (s + u)[i..i + |t|] == s[i..i + |t|];
  }

  /** An occurrence survives prepending text, shifted by its length. */
  lemma OccursAtPrepend(u: string, s: string, t: string, i: int)
    requires OccursAt(s, t, i)
    ensures OccursAt(u + s, t, |u| + i)
  {
    assert (u + s)[|u| + i..|u| + i + |t|] == s[i..i + |t|];
  }

  /** An occurrence in the first of three concatenated parts. */
  lemma OccursInFirst(a: string, b: string, c: string, t: string, i: int)
    requires OccursAt(a, t, i)
    ensures OccursAt(a + b + c, t, i)
  {
    assert (a + b + c)[i..i + |t|] == a[i..i + |t|];
  }

  /** An occurrence in the last of three concatenated parts. */
  lemma OccursInThird(a: string, b: string, c: string, t: string, i: int)
    requires OccursAt(c, t, i)
    ensures OccursAt(a + b + c, t, |a| + |b| + i)
  {
    assert (a + b + c)[|a| + |b| + i..|a| + |b| + i + |t|] == c[i..i + |t|];
  }

  /** A slice of the second part of a concatenation. */
  lemma SliceOfSecond(a: string, b: string, i: nat, j: nat)
    requires i <= j <= |b|
    ensures (a + b)[|a| + i..|a| + j] == b[i..j]
  {
  }

  /** A suffix of the second part of a concatenation. */
  lemma SuffixOfSecond(a: string, b: string, i: nat)
    requires i <= |b|
    ensures (a + b)[|a| + i..] == b[i..]
  {
  }

  /** A right-aligned field, with the first character after it, occurs where the padding ends. */
  lemma OccursRightAligned(pre: string, d: string, w: nat, post: string)
    requires |d| <= w && post != []
    ensures OccursAt(pre + PadLeft(d, w) + post, d + post[..1], |pre| + w - |d|)
  {
    var a := pre + PadLeft(d, w);
    SuffixOfSecond(pre, PadLeft(d, w), w - |d|);
    OccursBeforeNext(a, d, post);
  }

  /** A suffix of `a`, with the first character of what follows `a`, occurs where the suffix starts. */
  lemma OccursBeforeNext(a: string, t: string, u: string)
    requires |t| <= |a| && a[|a| - |t|..] == t && u != []
    ensures OccursAt(a + u, t + u[..1], |a| - |t|)
  {
    var s := a + u;
    var j := |a| - |t|;
    assert s[j..|a|] == t;
    assert s[|a|..|a| + 1] == u[..1];
    assert s[j..|a| + 1] == s[j..|a|] + s[|a|..|a| + 1];
  }

  /** `s.contains(t)`: `t` occurs in `s` at some offset. */
  ghost predicate Contains(s: string, t: string) {
    exists i :: OccursAt(s, t, i)
  }

  // ---------------------------------------------------------------- decimal numbers

  predicate IsDigit(c: char) {
    '0' <= c <= '9'
  }

  predicate AllDigits(s: string) {
    forall k :: 0 <= k < |s| ==> IsDigit(s[k])
  }

  function DigitChar(d: nat): (c: char)
    requires d < 10
    ensures IsDigit(c)
  {
    ('0' as int + d) as char
  }

  /** `{}` of an unsigned integer: its decimal digits, without leading zeros. */
  function NatToString(n: nat): (s: string)
    ensures 1 <= |s| && AllDigits(s)
    ensures |s| > 1 ==> s[0] != '0'
    decreases n
  {
    if n < 10 then [DigitChar(n)] else NatToString(n / 10) + [DigitChar(n % 10)]
  }

  /** The number a string of decimal digits denotes. */
  function DigitsValue(s: string): nat
    requires AllDigits(s)
  {
    if s == [] then 0 else DigitsValue(s[..|s| - 1]) * 10 + (s[|s| - 1] as int - '0' as int)
  }

  /** Rust's `str::parse` for an unsigned integer of unbounded width: an optional `+`, then one or more digits. */
  function ParseUnsigned(s: string): Option<nat> {
    var digits := if s != [] && s[0] == '+' then s[1..] else s;
    if digits != [] && AllDigits(digits) then Some(DigitsValue(digits)) else None
  }

  const U64Limit: nat := 0x1_0000_0000_0000_0000

  /** Rust's `str::parse::<u64>`: the unbounded parse, failing on overflow. */
  function ParseU64(s: string): (r: Option<nat>)
    ensures r.Some? ==> r.value < U64Limit && ParseUnsigned(s) == r
    ensures ParseUnsigned(s).Some? && ParseUnsigned(s).value < U64Limit ==> r == ParseUnsigned(s)
  {
    match ParseUnsigned(s)
    case Some(v) => if v < U64Limit then Some(v) else None
    case None => None
  }

  /** A string of digits holds no character that is not a digit. */
  lemma DigitsExclude(c: char, s: string)
    requires AllDigits(s) && !IsDigit(c)
    ensures c !in s
  {
    assert forall k :: 0 <= k < |s| ==> s[k] != c by {
      forall k | 0 <= k < |s| ensures s[k] != c {
        assert IsDigit(s[k]);
      }
    }
  }

  /** Decimal formatting is undone by parsing. */
  lemma {:induction false} DigitsValueOfNatToString(n: nat)
    ensures DigitsValue(NatToString(n)) == n
    decreases n
  {
    var s := NatToString(n);
    if n >= 10 {
      assert s[..|s| - 1] == NatToString(n / 10);
      DigitsValueOfNatToString(n / 10);
    }
  }

  lemma ParseNatToString(n: nat)
    ensures ParseUnsigned(NatToString(n)) == Some(n)
  {
    DigitsValueOfNatToString(n);
  }

  /** `trim` recovers a right-aligned number. */
  lemma TrimPaddedNumber(n: nat, w: nat)
    ensures Trim(PadLeft(NatToString(n), w)) == NatToString(n)
  {
    var s := NatToString(n);
    assert IsDigit(s[0]) && IsDigit(s[|s| - 1]);
    TrimPadLeft(s, w);
  }

  /** Numbers below 1000 take at most three digits. */
  lemma {:induction false} NatToStringShort(n: nat)
    requires n < 1000
    ensures |NatToString(n)| <= 3
    ensures n < 100 ==> |NatToString(n)| <= 2
    ensures n < 10 ==> |NatToString(n)| == 1
  {
    if n >= 10 {
      NatToStringShort(n / 10);
    }
  }
}

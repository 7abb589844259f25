/**
 * The pure formatters of src/main.rs: the uptime text, the unit chosen for
 * a byte count, and the 25-byte cut of a process name.
 */
module Dashboard {
  import opened Wrappers
  import opened Text

  // ---------------------------------------------------------------- uptime

  /** An uptime split into days, hours, minutes and seconds. */
  datatype UptimeParts = UptimeParts(days: nat, hours: nat, minutes: nat, secs: nat)
  {
    /** Each part below the next larger unit. */
    predicate Normal() {
      hours < 24 && minutes < 60 && secs < 60
    }

    /** The number of seconds the parts add up to. */
    function Total(): nat {
      days * 86400 + hours * 3600 + minutes * 60 + secs
    }
  }

  /** The four divisions at the top of `format_uptime`. */
  function SplitUptime(seconds: nat): UptimeParts {
    UptimeParts(seconds / 86400, (seconds % 86400) / 3600, (seconds % 3600) / 60, seconds % 60)
  }

  /** Division by a day's seconds read off a decomposition. */
  lemma DivDay(x: nat, q: nat, r: nat)
    requires r < 86400 && x == q * 86400 + r
    ensures x / 86400 == q && x % 86400 == r
  {
  }

  /** Division by an hour's seconds read off a decomposition. */
  lemma DivHour(x: nat, q: nat, r: nat)
    requires r < 3600 && x == q * 3600 + r
    ensures x / 3600 == q && x % 3600 == r
  {
  }

  /** Division by a minute's seconds read off a decomposition. */
  lemma DivMinute(x: nat, q: nat, r: nat)
    requires r < 60 && x == q * 60 + r
    ensures x / 60 == q && x % 60 == r
  {
  }

  /** The split parts are normal and add up to the uptime. */
  lemma SplitUptimeSpec(seconds: nat)
    ensures SplitUptime(seconds).Normal()
    ensures SplitUptime(seconds).Total() == seconds
  {
    var d, r1 := seconds / 86400, seconds % 86400;
    var h, r2 := r1 / 3600, r1 % 3600;
    var m, sec := r2 / 60, r2 % 60;
    assert r1 == h * 3600 + r2 && r2 == m * 60 + sec;
    DivHour(seconds, d * 24 + h, r2);
    DivMinute(seconds, (d * 24 + h) * 60 + m, sec);
    assert SplitUptime(seconds) == UptimeParts(d, h, m, sec);
  }

  /** Normal parts are determined by their total: the split is its only inverse. */
  lemma SplitUptimeUnique(u: UptimeParts)
    requires u.Normal()
    ensures SplitUptime(u.Total()) == u
  {
    var s := u.Total();
    var r2 := u.minutes * 60 + u.secs;
    var r1 := u.hours * 3600 + r2;
    DivDay(s, u.days, r1);
    DivHour(r1, u.hours, r2);
    DivHour(s, u.days * 24 + u.hours, r2);
    DivMinute(r2, u.minutes, u.secs);
    DivMinute(s, (u.days * 24 + u.hours) * 60 + u.minutes, u.secs);
  }

  /** A number followed by its unit letter, as `{}d`, `{}h`, `{}m` and `{}s` print it. */
  function Token(value: nat, unit: char): string {
    NatToString(value) + [unit]
  }

  /**
   * The pieces `format_uptime` prints: days, hours and minutes once the
   * uptime reaches a day; otherwise hours, minutes and seconds once it
   * reaches an hour; otherwise minutes and seconds.
   */
  function UptimeTokens(u: UptimeParts): seq<string> {
    if u.days > 0 then [Token(u.days, 'd'), Token(u.hours, 'h'), Token(u.minutes, 'm')]
    else if u.hours > 0 then [Token(u.hours, 'h'), Token(u.minutes, 'm'), Token(u.secs, 's')]
    else [Token(u.minutes, 'm'), Token(u.secs, 's')]
  }

  /** `format_uptime`: the pieces of the split uptime, separated by single spaces. */
  function FormatUptime(seconds: nat): string {
    Join(UptimeTokens(SplitUptime(seconds)), ' ')
  }

  /** The seconds one token of uptime text stands for, if it is a number and a unit letter. */
  function TokenSeconds(t: string): Option<nat> {
    if |t| < 2 then None
    else match ParseUnsigned(t[..|t| - 1])
      case None => None
      case Some(v) =>
        var unit := t[|t| - 1];
        if unit == 'd' then Some(v * 86400)
        else if unit == 'h' then Some(v * 3600)
        else if unit == 'm' then Some(v * 60)
        else if unit == 's' then Some(v)
        else None
  }

  /** The sum of the tokens' seconds, if every token reads. */
  function TokensSeconds(ts: seq<string>): Option<nat> {
    if ts == [] then Some(0)
    else match (TokenSeconds(ts[0]), TokensSeconds(ts[1..]))
      case (Some(a), Some(b)) => Some(a + b)
      case _ => None
  }

  /** A reader for uptime text: the seconds its space-separated tokens add up to. */
  function ReadUptime(text: string): Option<nat> {
    TokensSeconds(Split(text, ' '))
  }

  /** The unit letters of the tokens, in order. */
  function Units(ts: seq<string>): string {
    if ts == [] then [] else [if ts[0] == [] then ' ' else ts[0][|ts[0]| - 1]] + Units(ts[1..])
  }

  lemma TokenSpec(value: nat, unit: char)
    ensures ' ' !in Token(value, unit) <==> unit != ' '
    ensures |Token(value, unit)| >= 2 && Token(value, unit)[|Token(value, unit)| - 1] == unit
    ensures Token(value, unit)[..|Token(value, unit)| - 1] == NatToString(value)
  {
    DigitsExclude(' ', NatToString(value));
  }

  /** A token reads back as its value times its unit. */
  lemma TokenSecondsOfToken(value: nat, unit: char)
    ensures unit == 'd' ==> TokenSeconds(Token(value, unit)) == Some(value * 86400)
    ensures unit == 'h' ==> TokenSeconds(Token(value, unit)) == Some(value * 3600)
    ensures unit == 'm' ==> TokenSeconds(Token(value, unit)) == Some(value * 60)
    ensures unit == 's' ==> TokenSeconds(Token(value, unit)) == Some(value)
  {
    TokenSpec(value, unit);
    ParseNatToString(value);
  }

  lemma {:induction false} ThreeTokens(a: string, b: string, c: string)
    requires ' ' !in a && ' ' !in b && ' ' !in c
    ensures Split(Join([a, b, c], ' '), ' ') == [a, b, c]
  {
    var ts := [a, b, c];
    assert forall k :: 0 <= k < |ts| ==> ' ' !in ts[k] by {
      forall k | 0 <= k < |ts| ensures ' ' !in ts[k] {
        if k == 0 { assert ts[k] == a; } else if k == 1 { assert ts[k] == b; } else { assert ts[k] == c; }
      }
    }
    SplitJoin(ts, ' ');
  }

  lemma {:induction false} TwoTokens(a: string, b: string)
    requires ' ' !in a && ' ' !in b
    ensures Split(Join([a, b], ' '), ' ') == [a, b]
  {
    var ts := [a, b];
    assert forall k :: 0 <= k < |ts| ==> ' ' !in ts[k] by {
      forall k | 0 <= k < |ts| ensures ' ' !in ts[k] {
        if k == 0 { assert ts[k] == a; } else { assert ts[k] == b; }
      }
    }
    SplitJoin(ts, ' ');
  }

  /** Reading three tokens adds their values. */
  lemma {:induction false} TokensSecondsThree(a: string, b: string, c: string, x: nat, y: nat, z: nat)
    requires TokenSeconds(a) == Some(x) && TokenSeconds(b) == Some(y) && TokenSeconds(c) == Some(z)
    ensures TokensSeconds([a, b, c]) == Some(x + y + z)
  {
    assert [a, b, c][1..] == [b, c];
    assert [b, c][1..] == [c];
    assert [c][1..] == [];
    assert TokensSeconds([c]) == Some(z);
    assert TokensSeconds([b, c]) == Some(y + z);
  }

  /** Reading two tokens adds their values. */
  lemma {:induction false} TokensSecondsTwo(a: string, b: string, x: nat, y: nat)
    requires TokenSeconds(a) == Some(x) && TokenSeconds(b) == Some(y)
    ensures TokensSeconds([a, b]) == Some(x + y)
  {
    assert [a, b][1..] == [b];
    assert [b][1..] == [];
    assert TokensSeconds([b]) == Some(y);
  }

  /** The unit letters of three tokens. */
  lemma {:induction false} UnitsThree(a: string, b: string, c: string)
    requires a != [] && b != [] && c != []
    ensures Units([a, b, c]) == [a[|a| - 1], b[|b| - 1], c[|c| - 1]]
  {
    assert [a, b, c][1..] == [b, c];
    assert [b, c][1..] == [c];
    assert [c][1..] == [];
    assert Units([c]) == [c[|c| - 1]];
    assert Units([b, c]) == [b[|b| - 1], c[|c| - 1]];
  }

  /** The unit letters of two tokens. */
  lemma {:induction false} UnitsTwo(a: string, b: string)
    requires a != [] && b != []
    ensures Units([a, b]) == [a[|a| - 1], b[|b| - 1]]
  {
    assert [a, b][1..] == [b];
    assert [b][1..] == [];
    assert Units([b]) == [b[|b| - 1]];
  }

  /** The seconds the uptime text shows: all of them below a day, all but the seconds part from a day on. */
  function ShownSeconds(u: UptimeParts): nat {
    if u.days > 0 then u.days * 86400 + u.hours * 3600 + u.minutes * 60 else u.hours * 3600 + u.minutes * 60 + u.secs
  }

  /** Splitting the printed pieces at spaces gives the pieces back. */
  lemma SplitUptimeText(u: UptimeParts)
    ensures Split(Join(UptimeTokens(u), ' '), ' ') == UptimeTokens(u)
  {
    TokenSpec(u.days, 'd');
    TokenSpec(u.hours, 'h');
    TokenSpec(u.minutes, 'm');
    TokenSpec(u.secs, 's');
    if u.days > 0 {
      ThreeTokens(Token(u.days, 'd'), Token(u.hours, 'h'), Token(u.minutes, 'm'));
    } else if u.hours > 0 {
      ThreeTokens(Token(u.hours, 'h'), Token(u.minutes, 'm'), Token(u.secs, 's'));
    } else {
      TwoTokens(Token(u.minutes, 'm'), Token(u.secs, 's'));
    }
  }

  /** The printed pieces read back as the seconds they show. */
  lemma UptimeTokensSeconds(u: UptimeParts)
    ensures TokensSeconds(UptimeTokens(u)) == Some(ShownSeconds(u))
  {
    TokenSecondsOfToken(u.hours, 'h');
    TokenSecondsOfToken(u.minutes, 'm');
    if u.days > 0 {
      TokenSecondsOfToken(u.days, 'd');
      TokensSecondsThree(Token(u.days, 'd'), Token(u.hours, 'h'), Token(u.minutes, 'm'),
        u.days * 86400, u.hours * 3600, u.minutes * 60);
    } else if u.hours > 0 {
      TokenSecondsOfToken(u.secs, 's');
      TokensSecondsThree(Token(u.hours, 'h'), Token(u.minutes, 'm'), Token(u.secs, 's'),
        u.hours * 3600, u.minutes * 60, u.secs);
    } else {
      TokenSecondsOfToken(u.secs, 's');
      TokensSecondsTwo(Token(u.minutes, 'm'), Token(u.secs, 's'), u.minutes * 60, u.secs);
    }
  }

  /** The unit letters of the printed pieces. */
  lemma UptimeTokensUnits(u: UptimeParts)
    ensures u.days > 0 ==> Units(UptimeTokens(u)) == "dhm"
    ensures u.days == 0 && u.hours > 0 ==> Units(UptimeTokens(u)) == "hms"
    ensures u.days == 0 && u.hours == 0 ==> Units(UptimeTokens(u)) == "ms"
  {
    TokenSpec(u.days, 'd');
    TokenSpec(u.hours, 'h');
    TokenSpec(u.minutes, 'm');
    TokenSpec(u.secs, 's');
    if u.days > 0 {
      UnitsThree(Token(u.days, 'd'), Token(u.hours, 'h'), Token(u.minutes, 'm'));
    } else if u.hours > 0 {
      UnitsThree(Token(u.hours, 'h'), Token(u.minutes, 'm'), Token(u.secs, 's'));
    } else {
      UnitsTwo(Token(u.minutes, 'm'), Token(u.secs, 's'));
    }
  }

  /** The uptime text reads back as the seconds its pieces show. */
  lemma ReadFormatShown(seconds: nat)
    ensures ReadUptime(FormatUptime(seconds)) == Some(ShownSeconds(SplitUptime(seconds)))
  {
    SplitUptimeText(SplitUptime(seconds));
    UptimeTokensSeconds(SplitUptime(seconds));
  }

  /** The pieces show the whole uptime below one day and the uptime less its seconds from one day on. */
  lemma ShownSecondsOfSplit(seconds: nat)
    ensures seconds < 86400 ==> ShownSeconds(SplitUptime(seconds)) == seconds
    ensures seconds >= 86400 ==> ShownSeconds(SplitUptime(seconds)) == seconds - seconds % 60
  {
    SplitUptimeSpec(seconds);
  }

  /**
   * The uptime text reads back as the uptime itself below one day, and as
   * the uptime without its seconds from one day on, where seconds are not shown.
   */
  lemma ReadFormatUptime(seconds: nat)
    ensures seconds < 86400 ==> ReadUptime(FormatUptime(seconds)) == Some(seconds)
    ensures seconds >= 86400 ==> ReadUptime(FormatUptime(seconds)) == Some(seconds - seconds % 60)
  {
    ReadFormatShown(seconds);
    ShownSecondsOfSplit(seconds);
  }

  /** The format is chosen by magnitude: `d h m` from a day, `h m s` from an hour, `m s` below. */
  lemma FormatUptimeUnits(seconds: nat)
    ensures seconds >= 86400 ==> Units(Split(FormatUptime(seconds), ' ')) == "dhm"
    ensures 3600 <= seconds < 86400 ==> Units(Split(FormatUptime(seconds), ' ')) == "hms"
    ensures seconds < 3600 ==> Units(Split(FormatUptime(seconds), ' ')) == "ms"
  {
    var u := SplitUptime(seconds);
    SplitUptimeText(u);
    UptimeTokensUnits(u);
    SplitUptimeSpec(seconds);
  }

  lemma SmallNumbers()
    ensures NatToString(0) == "0" && NatToString(1) == "1" && NatToString(30) == "30"
  {
    assert NatToString(3) == "3";
  }

  /** 90 seconds are shown as `1m 30s`. */
  lemma SampleMinutes()
    ensures FormatUptime(90) == "1m 30s"
  {
    assert SplitUptime(90) == UptimeParts(0, 0, 1, 30);
    SmallNumbers();
    assert Token(1, 'm') == "1m" && Token(30, 's') == "30s";
    assert Join(["1m", "30s"], ' ') == "1m 30s";
  }

  /** 3661 seconds are shown as `1h 1m 1s`. */
  lemma SampleHours()
    ensures FormatUptime(3661) == "1h 1m 1s"
  {
    assert SplitUptime(3661) == UptimeParts(0, 1, 1, 1);
    SmallNumbers();
    assert Token(1, 'h') == "1h" && Token(1, 'm') == "1m" && Token(1, 's') == "1s";
    assert Join(["1h", "1m", "1s"], ' ') == "1h 1m 1s";
  }

  /** 90000 seconds are shown as `1d 1h 0m`. */
  lemma SampleDays()
    ensures FormatUptime(90000) == "1d 1h 0m"
  {
    assert SplitUptime(90000) == UptimeParts(1, 1, 0, 0);
    SmallNumbers();
    assert Token(1, 'd') == "1d" && Token(1, 'h') == "1h" && Token(0, 'm') == "0m";
    assert Join(["1d", "1h", "0m"], ' ') == "1d 1h 0m";
  }

  // ---------------------------------------------------------------- byte units

  /** The unit `format_bytes` prints a byte count in. */
  datatype ByteUnit = KB | MB | GB

  const GiB: nat := 1073741824
  const MiB: nat := 1048576
  const KiB: nat := 1024

  /** The unit choice of `format_bytes`: GB above one GiB, MB above one MiB, KB otherwise. */
  function SelectUnit(bytes: nat): ByteUnit {
    if bytes > GiB then GB else if bytes > MiB then MB else KB
  }

  /** The number of bytes one unit stands for. */
  function UnitBytes(unit: ByteUnit): (n: nat)
    ensures n >= 1024
  {
    match unit
    case KB => KiB
    case MB => MiB
    case GB => GiB
  }

  /**
   * The amount printed, `bytes / UnitBytes(unit)`, is more than 1 in MB and
   * GB, and at most 1024 in KB and MB: only GB is unbounded, and only KB
   * shows amounts of 1 or less.
   */
  lemma SelectUnitRange(bytes: nat)
    ensures SelectUnit(bytes) != KB ==> bytes > UnitBytes(SelectUnit(bytes))
    ensures SelectUnit(bytes) != GB ==> bytes <= 1024 * UnitBytes(SelectUnit(bytes))
  {
  }

  /** Each unit is chosen on exactly its range of byte counts. */
  lemma SelectUnitBands(bytes: nat)
    ensures SelectUnit(bytes) == GB <==> bytes > GiB
    ensures SelectUnit(bytes) == MB <==> MiB < bytes <= GiB
    ensures SelectUnit(bytes) == KB <==> bytes <= MiB
  {
  }

  /** Exactly one GiB is printed in MB, and exactly one MiB in KB. */
  lemma SampleUnitBoundaries()
    ensures SelectUnit(GiB) == MB && SelectUnit(GiB + 1) == GB
    ensures SelectUnit(MiB) == KB && SelectUnit(MiB + 1) == MB
  {
  }

  // ---------------------------------------------------------------- process names

  newtype byte = x: int | 0 <= x < 256

  /** Longest name, in bytes, the process table prints. */
  const NameBytes: nat := 25

  /** A UTF-8 continuation byte, `10xxxxxx`. */
  predicate IsContinuation(b: byte) {
    0x80 <= b < 0xC0
  }

  /** Rust's `str::is_char_boundary`: the ends, or an index whose byte starts a character. */
  predicate IsCharBoundary(s: seq<byte>, i: nat) {
    i == 0 || i == |s| || (i < |s| && !IsContinuation(s[i]))
  }

  /**
   * The length of the well-formed UTF-8 character `s` starts with (Table
   * 3-7 of the Unicode Standard), or 0 when it does not start with one.
   */
  function CharLength(s: seq<byte>): (n: nat)
    ensures n <= 4 && n <= |s|
  {
    if s == [] then 0
    else if s[0] < 0x80 then 1
    else if |s| >= 2 && 0xC2 <= s[0] <= 0xDF && IsContinuation(s[1]) then 2
    else if |s| >= 3 && IsContinuation(s[2]) && (
      (s[0] == 0xE0 && 0xA0 <= s[1] <= 0xBF)
      || ((0xE1 <= s[0] <= 0xEC || 0xEE <= s[0] <= 0xEF) && IsContinuation(s[1]))
      || (s[0] == 0xED && 0x80 <= s[1] <= 0x9F)) then 3
    else if |s| >= 4 && IsContinuation(s[2]) && IsContinuation(s[3]) && (
      (s[0] == 0xF0 && 0x90 <= s[1] <= 0xBF)
      || (0xF1 <= s[0] <= 0xF3 && IsContinuation(s[1]))
      || (s[0] == 0xF4 && 0x80 <= s[1] <= 0x8F)) then 4
    else 0
  }

  /** Well-formed UTF-8: a sequence of well-formed characters, as every Rust `str` is. */
  predicate ValidUtf8(s: seq<byte>)
    decreases |s|
  {
    s == [] || (CharLength(s) > 0 && ValidUtf8(s[CharLength(s)..]))
  }

  /** The bytes after the first of a character are continuation bytes. */
  lemma CharTail(s: seq<byte>, k: nat)
    requires 0 < k < CharLength(s)
    ensures IsContinuation(s[k])
  {
  }

  /**
   * The name the process table prints: the whole name when it has at most
   * 25 bytes, otherwise its first 25 bytes. Rust panics when byte 25 is in
   * the middle of a character, so that is excluded.
   */
  function DisplayName(name: seq<byte>): (r: seq<byte>)
    requires |name| > NameBytes ==> IsCharBoundary(name, NameBytes)
    ensures r <= name
    ensures |r| == if |name| <= NameBytes then |name| else NameBytes
  {
    if |name| > NameBytes then name[..NameBytes] else name
  }

  /** Cutting valid UTF-8 at a character boundary leaves valid UTF-8. */
  lemma {:induction false} PrefixAtBoundary(s: seq<byte>, i: nat)
    requires ValidUtf8(s) && i <= |s| && IsCharBoundary(s, i)
    ensures ValidUtf8(s[..i])
    decreases |s|
  {
    if i == 0 {
      assert s[..i] == [];
    } else if i < |s| {
      var n := CharLength(s);
      var rest := s[n..];
      if i < n {
        CharTail(s, i);
        assert false;
      }
      assert rest[i - n] == s[i];
      PrefixAtBoundary(rest, i - n);
      var p := s[..i];
      assert p[..n] == s[..n] && p[n..] == rest[..i - n];
      CharLengthOfPrefix(s, i);
    } else {
      assert s[..i] == s;
    }
  }

  /** The first character is recognised in any prefix that contains it. */
  lemma CharLengthOfPrefix(s: seq<byte>, i: nat)
    requires 0 < CharLength(s) <= i <= |s|
    ensures CharLength(s[..i]) == CharLength(s)
  {
    var p := s[..i];
    assert p[0] == s[0];
    if CharLength(s) >= 2 { assert p[1] == s[1]; }
    if CharLength(s) >= 3 { assert p[2] == s[2]; }
    if CharLength(s) >= 4 { assert p[3] == s[3]; }
  }

  /** The printed name of a valid name is valid UTF-8. */
  lemma DisplayNameValid(name: seq<byte>)
    requires |name| > NameBytes ==> IsCharBoundary(name, NameBytes)
    requires ValidUtf8(name)
    ensures ValidUtf8(DisplayName(name))
  {
    if |name| > NameBytes {
      PrefixAtBoundary(name, NameBytes);
    }
  }
}

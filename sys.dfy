/**
 * The parsers of src/sys.rs: each takes the text a Windows tool printed
 * (`wmic ... /Value`, `wmic ... /Format:CSV`, `tasklist`) and returns the
 * value the dashboard shows. Running the tools is not modelled; every
 * parser receives the tool's output as a string.
 */
module Sys {
  import opened Wrappers
  import opened Text
  import opened Models

  const CaptionKey: string := "Caption="
  const HostNameKey: string := "CSName="
  const LoadKey: string := "LoadPercentage="
  const UpTimeKey: string := "SystemUpTime="
  const TotalMemoryKey: string := "TotalVisibleMemorySize="
  const FreeMemoryKey: string := "FreePhysicalMemory="
  const Unknown: string := "Unknown"
  const DiskHeader: string := "DeviceID"

  /** A WMIC key: a name followed by one `=`, with no other `=`. */
  predicate IsKey(key: string) {
    key != [] && key[|key| - 1] == '=' && '=' !in key[..|key| - 1]
  }

  /** A key that can start a line of WMIC output: no leading whitespace and no line feed. */
  predicate IsLineKey(key: string) {
    IsKey(key) && !IsWhitespace(key[0]) && '\n' !in key
  }

  /** The keys of the CPU-load and uptime queries are such keys. */
  lemma ScalarKeys()
    ensures IsLineKey(LoadKey) && IsLineKey(UpTimeKey)
  {
  }

  /** The keys of the memory query are such keys. */
  lemma MemoryKeys()
    ensures IsLineKey(TotalMemoryKey) && IsLineKey(FreeMemoryKey)
  {
  }

  // ---------------------------------------------------------------- key lines

  /** The line, trimmed, starts with `key`. */
  predicate IsKeyLine(line: string, key: string) {
    key <= Trim(line)
  }

  /** `line.trim().split('=').nth(1)`. */
  function RawValue(line: string): Option<string> {
    Nth(Split(Trim(line), '='), 1)
  }

  /** The text after the key up to the next `=` or the end of the trimmed line. */
  function KeyValue(line: string, key: string): string
    requires IsKeyLine(line, key)
  {
    UpTo(Trim(line)[|key|..], '=')
  }

  /** On a key line, `split('=').nth(1)` always exists and is the text after the key up to the next `=`. */
  lemma RawValueOfKeyLine(line: string, key: string)
    requires IsKey(key) && IsKeyLine(line, key)
    ensures RawValue(line) == Some(KeyValue(line, key))
  {
    var t := Trim(line);
    var n := |key| - 1;
    assert t[..n] == key[..n] && t[n] == '=';
    IndexOfFirst(t, '=', n);
    var rest := t[n + 1..];
    assert rest == t[|key|..];
    assert Split(t, '=') == [t[..n]] + Split(rest, '=');
    var j := IndexOf(rest, '=');
    if j == |rest| {
      assert rest[..j] == rest;
    }
  }

  // ---------------------------------------------------------------- first match (cpu load, uptime)

  /**
   * What the scans of `parse_cpu_load` and `get_uptime` return: at the first
   * key line with a value, that value parsed as `u64` (0 if it does not
   * parse); 0 when there is no such line.
   */
  function FirstValue(ls: seq<string>, key: string): nat {
    if ls == [] then 0
    else if IsKeyLine(ls[0], key) && RawValue(ls[0]).Some? then ParseU64(RawValue(ls[0]).value).GetOr(0)
    else FirstValue(ls[1..], key)
  }

  /** With no key line the scan gives 0. */
  lemma {:induction false} FirstValueNoKeyLine(ls: seq<string>, key: string)
    requires forall i :: 0 <= i < |ls| ==> !IsKeyLine(ls[i], key)
    ensures FirstValue(ls, key) == 0
  {
    if ls != [] {
      assert !IsKeyLine(ls[0], key);
      FirstValueNoKeyLine(ls[1..], key);
    }
  }

  /** The scan answers from the first key line, whatever the lines after it hold. */
  lemma {:induction false} FirstValueAtFirstKeyLine(ls: seq<string>, key: string, i: nat)
    requires IsKey(key) && i < |ls| && IsKeyLine(ls[i], key)
    requires forall j :: 0 <= j < i ==> !IsKeyLine(ls[j], key)
    ensures FirstValue(ls, key) == ParseU64(KeyValue(ls[i], key)).GetOr(0)
  {
    if i == 0 {
      RawValueOfKeyLine(ls[0], key);
    } else {
      assert !IsKeyLine(ls[0], key);
      assert ls[1..][i - 1] == ls[i];
      FirstValueAtFirstKeyLine(ls[1..], key, i - 1);
    }
  }

  /** The scan of sys.rs:43-50 and sys.rs:71-80, over the lines of `output`. */
  method ScanFirstValue(output: string, key: string) returns (value: nat)
    ensures value == FirstValue(Lines(output), key)
  {
    var lines := Lines(output);
    var i := 0;
    while i < |lines|
      invariant 0 <= i <= |lines|
      invariant FirstValue(lines[i..], key) == FirstValue(lines, key)
    {
      assert lines[i..][1..] == lines[i + 1..];
      var line := Trim(lines[i]);
      if key <= line {
        var val := Nth(Split(line, '='), 1);
        if val.Some? {
          return ParseU64(val.value).GetOr(0);
        }
      }
      i := i + 1;
    }
    return 0;
  }

  /** `parse_cpu_load`. */
  method ParseCpuLoad(output: string) returns (load: nat)
    ensures load == FirstValue(Lines(output), LoadKey)
    ensures load < U64Limit
  {
    load := ScanFirstValue(output, LoadKey);
    FirstValueBound(Lines(output), LoadKey);
  }

  /** The parsing part of `get_uptime`. */
  method ParseUptime(output: string) returns (seconds: nat)
    ensures seconds == FirstValue(Lines(output), UpTimeKey)
    ensures seconds < U64Limit
  {
    seconds := ScanFirstValue(output, UpTimeKey);
    FirstValueBound(Lines(output), UpTimeKey);
  }

  lemma {:induction false} FirstValueBound(ls: seq<string>, key: string)
    ensures FirstValue(ls, key) < U64Limit
  {
    if ls != [] && !(IsKeyLine(ls[0], key) && RawValue(ls[0]).Some?) {
      FirstValueBound(ls[1..], key);
    }
  }

  /** A key followed by a number is a key line whose value is that number's digits. */
  lemma NumberLine(key: string, n: nat)
    requires IsLineKey(key)
    ensures '\n' !in key + NatToString(n)
    ensures IsKeyLine(key + NatToString(n), key)
    ensures KeyValue(key + NatToString(n), key) == NatToString(n)
  {
    var v := NatToString(n);
    var line := key + v;
    DigitsExclude('\n', v);
    assert !IsWhitespace(v[|v| - 1]) && v[|v| - 1] != '=' by {
      assert IsDigit(v[|v| - 1]);
    }
    assert line[|line| - 1] == v[|v| - 1];
    TrimClean(line);
    assert line[|key|..] == v;
    DigitsExclude('=', v);
    IndexOfFirst(v, '=', |v|);
  }

  /**
   * The shape of the sample of sys.rs:137-138 (which has n = 45): a key line
   * with a number between blank CRLF lines gives that number.
   */
  lemma CpuLoadSample(n: nat)
    requires n < U64Limit
    ensures FirstValue(Lines(CrlfText(["", LoadKey + NatToString(n), ""])), LoadKey) == n
  {
    var ls := ["", LoadKey + NatToString(n), ""];
    ScalarKeys();
    NumberLine(LoadKey, n);
    LinesOfCrlfText(ls);
    ParseNatToString(n);
    FirstValueAtFirstKeyLine(ls, LoadKey, 1);
  }

  /**
   * The first key line decides even when its value does not parse: the scan
   * gives 0 and the lines after it are not consulted. The value has no `=` and
   * does not end in whitespace, so it is exactly what `trim().split('=').nth(1)` yields.
   */
  lemma CpuLoadStopsAtFirstKeyLine(v: string, rest: seq<string>)
    requires '=' !in v && (v == [] || !IsWhitespace(v[|v| - 1]))
    requires ParseU64(v).None?
    ensures FirstValue([LoadKey + v] + rest, LoadKey) == 0
  {
    var line := LoadKey + v;
    ScalarKeys();
    assert line[|line| - 1] == if v == [] then '=' else v[|v| - 1];
    TrimClean(line);
    assert line[|LoadKey|..] == v;
    IndexOfFirst(v, '=', |v|);
    assert v[..|v|] == v;
    FirstValueAtFirstKeyLine([line] + rest, LoadKey, 0);
  }

  // ---------------------------------------------------------------- last match (system info, memory)

  /** The last line of `ls` that is a key line for `key`. */
  function LastKeyLine(ls: seq<string>, key: string): (r: Option<string>)
    ensures r.Some? ==> IsKeyLine(r.value, key)
  {
    if ls == [] then None
    else if IsKeyLine(ls[|ls| - 1], key) then Some(ls[|ls| - 1])
    else LastKeyLine(ls[..|ls| - 1], key)
  }

  /** A line appended at the end becomes the last key line when it matches, and changes nothing otherwise. */
  lemma LastKeyLineSnoc(ls: seq<string>, line: string, key: string)
    ensures LastKeyLine(ls + [line], key) == if IsKeyLine(line, key) then Some(line) else LastKeyLine(ls, key)
  {
    var ls' := ls + [line];
    assert ls'[..|ls|] == ls;
  }

  /** `LastKeyLine` finds nothing exactly when no line matches. */
  lemma {:induction false} LastKeyLineNone(ls: seq<string>, key: string)
    ensures LastKeyLine(ls, key).None? <==> forall i :: 0 <= i < |ls| ==> !IsKeyLine(ls[i], key)
  {
    if ls != [] {
      var init := ls[..|ls| - 1];
      LastKeyLineNone(init, key);
      assert forall i :: 0 <= i < |init| ==> init[i] == ls[i];
    }
  }

  /** `LastKeyLine` finds the matching line that no later matching line follows. */
  lemma {:induction false} LastKeyLineAt(ls: seq<string>, key: string, i: nat)
    requires i < |ls| && IsKeyLine(ls[i], key)
    requires forall j :: i < j < |ls| ==> !IsKeyLine(ls[j], key)
    ensures LastKeyLine(ls, key) == Some(ls[i])
  {
    if i < |ls| - 1 {
      var init := ls[..|ls| - 1];
      assert !IsKeyLine(ls[|ls| - 1], key);
      assert forall j :: i < j < |init| ==> init[j] == ls[j];
      LastKeyLineAt(init, key, i);
    }
  }

  /** No line carries two of the keys that one loop tests. */
  lemma KeysExclusive(line: string)
    ensures !(IsKeyLine(line, CaptionKey) && IsKeyLine(line, HostNameKey))
    ensures !(IsKeyLine(line, TotalMemoryKey) && IsKeyLine(line, FreeMemoryKey))
  {
    var t := Trim(line);
    assert IsKeyLine(line, CaptionKey) ==> t[1] == 'a';
    assert IsKeyLine(line, HostNameKey) ==> t[1] == 'S';
    assert IsKeyLine(line, TotalMemoryKey) ==> t[0] == 'T';
    assert IsKeyLine(line, FreeMemoryKey) ==> t[0] == 'F';
  }

  /** The field `get_system_info` keeps: the last key line's value, or `"Unknown"`. */
  function InfoField(ls: seq<string>, key: string): string {
    match LastKeyLine(ls, key)
    case None => Unknown
    case Some(line) => RawValue(line).GetOr("")
  }

  /** What `get_system_info` builds from the lines of the WMIC output. */
  function SystemInfoOf(ls: seq<string>): SystemInfo {
    SystemInfo(InfoField(ls, CaptionKey), InfoField(ls, HostNameKey))
  }

  /** One step of the loop of sys.rs:12-19: a matching line overwrites its field, any other line changes nothing. */
  lemma SystemInfoStep(ls: seq<string>, line: string)
    ensures SystemInfoOf(ls + [line]) ==
      if IsKeyLine(line, CaptionKey) then SystemInfoOf(ls).(osName := RawValue(line).GetOr(""))
      else if IsKeyLine(line, HostNameKey) then SystemInfoOf(ls).(hostName := RawValue(line).GetOr(""))
      else SystemInfoOf(ls)
  {
    LastKeyLineSnoc(ls, line, CaptionKey);
    LastKeyLineSnoc(ls, line, HostNameKey);
    KeysExclusive(line);
  }

  /** The parsing part of `get_system_info` (sys.rs:5-22). */
  method ParseSystemInfo(output: string) returns (info: SystemInfo)
    ensures info == SystemInfoOf(Lines(output))
  {
    info := SystemInfo(Unknown, Unknown);
    var lines := Lines(output);
    var i := 0;
    while i < |lines|
      invariant 0 <= i <= |lines|
      invariant info == SystemInfoOf(lines[..i])
    {
      TakeSnoc(lines, i);
      SystemInfoStep(lines[..i], lines[i]);
      var line := Trim(lines[i]);
      if CaptionKey <= line {
        info := info.(osName := Nth(Split(line, '='), 1).GetOr(""));
      } else if HostNameKey <= line {
        info := info.(hostName := Nth(Split(line, '='), 1).GetOr(""));
      }
      i := i + 1;
    }
    TakeAll(lines);
  }

  /** A field with no line carrying its key keeps its `"Unknown"` default. */
  lemma InfoFieldDefault(ls: seq<string>, key: string)
    requires forall i :: 0 <= i < |ls| ==> !IsKeyLine(ls[i], key)
    ensures InfoField(ls, key) == Unknown
  {
    LastKeyLineNone(ls, key);
  }

  /** Otherwise the last line carrying the key wins: the field is that line's value. */
  lemma InfoFieldLastMatch(ls: seq<string>, key: string, i: nat)
    requires IsKey(key) && i < |ls| && IsKeyLine(ls[i], key)
    requires forall j :: i < j < |ls| ==> !IsKeyLine(ls[j], key)
    ensures InfoField(ls, key) == KeyValue(ls[i], key)
  {
    LastKeyLineAt(ls, key, i);
    RawValueOfKeyLine(ls[i], key);
  }

  // ---------------------------------------------------------------- memory

  /**
   * `parse_memory_usage`'s result: used and total memory and the used
   * percentage. The source returns used and total as gigabytes in `f64`;
   * here they are the kilobyte counts those are computed from.
   */
  datatype MemoryUsage = MemoryUsage(usedKb: int, totalKb: nat, percent: nat)

  /**
   * A number field as the source parses it with `parse::<f64>().unwrap_or(0.0)`,
   * restricted to inputs made of an optional `+` and decimal digits.
   */
  function ParseNumber(s: string): nat {
    ParseUnsigned(s).GetOr(0)
  }

  /** `x / d` rounded down, counted by repeated subtraction so that proofs about its callers stay linear. */
  function FloorDiv(x: nat, d: nat): nat
    requires d > 0
    decreases x
  {
    if x < d then 0 else 1 + FloorDiv(x - d, d)
  }

  /** `FloorDiv` is the largest quotient whose multiple does not exceed `x`. */
  lemma {:induction false} FloorDivSpec(x: nat, d: nat)
    requires d > 0
    ensures FloorDiv(x, d) * d <= x < (FloorDiv(x, d) + 1) * d
    decreases x
  {
    if x >= d {
      FloorDivSpec(x - d, d);
      var q := FloorDiv(x - d, d);
      assert (q + 1) * d == q * d + d && (q + 2) * d == (q + 1) * d + d;
    }
  }

  /** A product with a positive factor keeps the order of the other factor. */
  lemma MulCancel(a: int, b: int, d: int)
    requires d > 0 && a * d < b * d
    ensures a < b
  {
  }

  /** It agrees with Dafny's integer division. */
  lemma FloorDivIsDivision(x: nat, d: nat)
    requires d > 0
    ensures FloorDiv(x, d) == x / d
  {
    FloorDivSpec(x, d);
    var q := FloorDiv(x, d);
    var r := x / d;
    assert r * d <= x < (r + 1) * d;
    MulCancel(q, r + 1, d);
    MulCancel(r, q + 1, d);
  }

  /**
   * `(used / total * 100.0) as u64`: the percentage rounded down, where the
   * saturating cast takes a negative quotient to 0.
   */
  function TruncatedPercent(used: int, total: nat): (p: nat)
    requires total > 0
    ensures used <= 0 ==> p == 0
    ensures used <= total ==> p <= 100
  {
    if used <= 0 then 0
    else
      PercentAtMost100(used, total);
      FloorDiv(used * 100, total)
  }

  /** A share no larger than the whole is at most 100 percent. */
  lemma PercentAtMost100(used: nat, total: nat)
    requires total > 0
    ensures used <= total ==> FloorDiv(used * 100, total) <= 100
  {
    var q := FloorDiv(used * 100, total);
    FloorDivSpec(used * 100, total);
    if used <= total {
      assert q * total < 101 * total;
      MulCancel(q, 101, total);
    }
  }

  /** For a non-negative share the percentage is the largest whole percent not above it. */
  lemma TruncatedPercentIsFloor(used: int, total: nat)
    requires total > 0 && used >= 0
    ensures TruncatedPercent(used, total) * total <= used * 100 < (TruncatedPercent(used, total) + 1) * total
  {
    if used > 0 {
      FloorDivSpec(used * 100, total);
    }
  }

  /** The last value given for a kilobyte key, or 0 when the key is absent. */
  function KbValue(ls: seq<string>, key: string): nat {
    match LastKeyLine(ls, key)
    case None => 0
    case Some(line) => ParseNumber(RawValue(line).GetOr("0"))
  }

  /** The result of sys.rs:95-99 for the two numbers found: (0, 0, 0) when the total is 0. */
  function MemoryUsageFrom(totalKb: nat, freeKb: nat): MemoryUsage {
    if totalKb == 0 then MemoryUsage(0, 0, 0)
    else MemoryUsage(totalKb - freeKb, totalKb, TruncatedPercent(totalKb - freeKb, totalKb))
  }

  /** What `parse_memory_usage` computes from the lines of the WMIC output. */
  function MemoryUsageOf(ls: seq<string>): MemoryUsage {
    MemoryUsageFrom(KbValue(ls, TotalMemoryKey), KbValue(ls, FreeMemoryKey))
  }

  /** One step of the loop of sys.rs:86-93: a matching line sets its number, any other line changes nothing. */
  lemma KbValueSnoc(ls: seq<string>, line: string, key: string)
    ensures KbValue(ls + [line], key) ==
      if IsKeyLine(line, key) then ParseNumber(RawValue(line).GetOr("0")) else KbValue(ls, key)
  {
    LastKeyLineSnoc(ls, line, key);
  }

  /** The body of the loop of sys.rs:86-93: a TotalVisibleMemorySize or FreePhysicalMemory line replaces its number. */
  method MemoryStep(totalKb: nat, freeKb: nat, rawLine: string) returns (totalKb': nat, freeKb': nat)
    ensures totalKb' == if IsKeyLine(rawLine, TotalMemoryKey) then ParseNumber(RawValue(rawLine).GetOr("0")) else totalKb
    ensures freeKb' == if IsKeyLine(rawLine, FreeMemoryKey) then ParseNumber(RawValue(rawLine).GetOr("0")) else freeKb
  {
    KeysExclusive(rawLine);
    totalKb', freeKb' := totalKb, freeKb;
    var line := Trim(rawLine);
    if TotalMemoryKey <= line {
      totalKb' := ParseNumber(Nth(Split(line, '='), 1).GetOr("0"));
    } else if FreeMemoryKey <= line {
      freeKb' := ParseNumber(Nth(Split(line, '='), 1).GetOr("0"));
    }
  }

  /** The loop of sys.rs:86-93: the last TotalVisibleMemorySize and FreePhysicalMemory numbers. */
  method ScanMemory(lines: seq<string>) returns (totalKb: nat, freeKb: nat)
    ensures totalKb == KbValue(lines, TotalMemoryKey)
    ensures freeKb == KbValue(lines, FreeMemoryKey)
  {
    totalKb, freeKb := 0, 0;
    var i := 0;
    while i < |lines|
      invariant 0 <= i <= |lines|
      invariant totalKb == KbValue(lines[..i], TotalMemoryKey)
      invariant freeKb == KbValue(lines[..i], FreeMemoryKey)
    {
      TakeSnoc(lines, i);
      KbValueSnoc(lines[..i], lines[i], TotalMemoryKey);
      KbValueSnoc(lines[..i], lines[i], FreeMemoryKey);
      totalKb, freeKb := MemoryStep(totalKb, freeKb, lines[i]);
      i := i + 1;
    }
    TakeAll(lines);
  }

  /** `parse_memory_usage` (sys.rs:82-100). */
  method ParseMemoryUsage(output: string) returns (m: MemoryUsage)
    ensures m == MemoryUsageOf(Lines(output))
  {
    var totalKb, freeKb := ScanMemory(Lines(output));
    m := MemoryUsageFrom(totalKb, freeKb);
  }

  /**
   * A zero total gives (0, 0, 0) without dividing; otherwise used is total
   * minus free and the percentage is the used share of the total, rounded
   * down, never above 100.
   */
  lemma MemoryUsageGuard(totalKb: nat, freeKb: nat)
    ensures totalKb == 0 ==> MemoryUsageFrom(totalKb, freeKb) == MemoryUsage(0, 0, 0)
    ensures totalKb > 0 ==>
      MemoryUsageFrom(totalKb, freeKb).totalKb == totalKb && MemoryUsageFrom(totalKb, freeKb).usedKb == totalKb - freeKb
    ensures MemoryUsageFrom(totalKb, freeKb).percent <= 100
    ensures 0 < totalKb && freeKb <= totalKb ==>
      MemoryUsageFrom(totalKb, freeKb).percent * totalKb <= (totalKb - freeKb) * 100
      < (MemoryUsageFrom(totalKb, freeKb).percent + 1) * totalKb
  {
    if 0 < totalKb && freeKb <= totalKb {
      TruncatedPercentIsFloor(totalKb - freeKb, totalKb);
    }
  }

  /** Without a TotalVisibleMemorySize line the total is 0, so the result is (0, 0, 0). */
  lemma MemoryUsageWithoutTotal(ls: seq<string>)
    requires forall i :: 0 <= i < |ls| ==> !IsKeyLine(ls[i], TotalMemoryKey)
    ensures MemoryUsageOf(ls) == MemoryUsage(0, 0, 0)
  {
    LastKeyLineNone(ls, TotalMemoryKey);
  }

  /** The last line carrying a kilobyte key gives its number. */
  lemma KbValueLastMatch(ls: seq<string>, key: string, i: nat)
    requires IsKey(key) && i < |ls| && IsKeyLine(ls[i], key)
    requires forall j :: i < j < |ls| ==> !IsKeyLine(ls[j], key)
    ensures KbValue(ls, key) == ParseNumber(KeyValue(ls[i], key))
  {
    LastKeyLineAt(ls, key, i);
    RawValueOfKeyLine(ls[i], key);
  }

  /** A FreePhysicalMemory line then a TotalVisibleMemorySize line give those two numbers. */
  lemma MemoryOfTwoLines(free: nat, total: nat)
    ensures MemoryUsageOf([FreeMemoryKey + NatToString(free), TotalMemoryKey + NatToString(total)])
      == MemoryUsageFrom(total, free)
  {
    var freeLine := FreeMemoryKey + NatToString(free);
    var totalLine := TotalMemoryKey + NatToString(total);
    var ls := [freeLine, totalLine];
    MemoryKeys();
    NumberLine(FreeMemoryKey, free);
    NumberLine(TotalMemoryKey, total);
    ParseNatToString(free);
    ParseNatToString(total);
    KeysExclusive(totalLine);
    KbValueLastMatch(ls, FreeMemoryKey, 0);
    KbValueLastMatch(ls, TotalMemoryKey, 1);
  }

  /**
   * The shape of the sample of sys.rs:147: CRLF-terminated FreePhysicalMemory
   * and TotalVisibleMemorySize lines give used = total - free of total.
   */
  lemma MemoryUsageSample(free: nat, total: nat)
    ensures MemoryUsageOf(Lines(CrlfText([FreeMemoryKey + NatToString(free), TotalMemoryKey + NatToString(total)])))
      == MemoryUsageFrom(total, free)
  {
    var ls := [FreeMemoryKey + NatToString(free), TotalMemoryKey + NatToString(total)];
    MemoryKeys();
    NumberLine(FreeMemoryKey, free);
    NumberLine(TotalMemoryKey, total);
    assert forall k :: 0 <= k < |ls| ==> '\n' !in ls[k] by {
      assert '\n' !in ls[0] && '\n' !in ls[1];
    }
    LinesOfCrlfText(ls);
    MemoryOfTwoLines(free, total);
  }

  /** The numbers of that sample, 8388608 kB free of 16777216 kB, are 50 percent used. */
  lemma MemorySampleIsHalf()
    ensures TruncatedPercent(16777216 - 8388608, 16777216) == 50
  {
    FloorDivSpec(838860800, 16777216);
  }

  // ---------------------------------------------------------------- process count

  /** The rule of `get_process_count`: `tasklist` prints three header lines before one line per process. */
  function ProcessCount(output: string): (n: nat)
    ensures n <= |Lines(output)|
    ensures n == 0 <==> |Lines(output)| <= 3
    ensures n != 0 ==> n + 3 == |Lines(output)|
  {
    var count := |Lines(output)|;
    if count > 3 then count - 3 else 0
  }

  /** The count in terms of the text: line feeds, plus an unterminated last line, minus the header. */
  lemma ProcessCountOfText(output: string)
    ensures var lines := Count('\n', output) + UnterminatedTail(output);
      ProcessCount(output) == if lines > 3 then lines - 3 else 0
  {
    LinesCount(output);
  }

  // ---------------------------------------------------------------- disks

  /**
   * What one CSV row of `wmic logicaldisk get DeviceID,FreeSpace,Size
   * /Format:CSV` contributes: a disk, or nothing for a blank row, a row of
   * fewer than four fields, the header row, a row with an empty size or
   * free-space field, and a row whose size is not positive.
   */
  function RowDisk(line: string): Option<DiskInfo> {
    if Trim(line) == [] then None
    else
      var parts := Split(line, ',');
      if |parts| >= 4 && parts[1] != DiskHeader then FieldsDisk(Trim(parts[1]), Trim(parts[2]), Trim(parts[3]))
      else None
  }

  /** The disk of a row's trimmed name, free-space and size fields. */
  function FieldsDisk(name: string, freeStr: string, sizeStr: string): Option<DiskInfo> {
    if sizeStr == [] || freeStr == [] then None
    else
      var free := ParseNumber(freeStr);
      var size := ParseNumber(sizeStr);
      if size > 0 then Some(DiskInfo(name, size, free, TruncatedPercent(size - free, size))) else None
  }

  /** The rows `RowDisk` rejects: blank, short, the header, an empty field, a size that is not positive. */
  lemma RowDiskRejects(line: string)
    ensures var parts := Split(line, ',');
      (AllWhitespace(line) ==> RowDisk(line) == None)
      && (|parts| < 4 ==> RowDisk(line) == None)
      && (|parts| >= 4 && parts[1] == DiskHeader ==> RowDisk(line) == None)
      && (|parts| >= 4 && (Trim(parts[2]) == [] || Trim(parts[3]) == []) ==> RowDisk(line) == None)
      && (|parts| >= 4 && ParseNumber(Trim(parts[3])) == 0 ==> RowDisk(line) == None)
  {
    TrimEmpty(line);
  }

  /** Every other row gives a disk, named by its second field and sized by its third and fourth. */
  lemma RowDiskAccepts(line: string, parts: seq<string>)
    requires Trim(line) != [] && parts == Split(line, ',')
    requires |parts| >= 4 && parts[1] != DiskHeader && Trim(parts[2]) != [] && Trim(parts[3]) != []
    requires ParseNumber(Trim(parts[3])) > 0
    ensures RowDisk(line) == Some(DiskInfo(Trim(parts[1]), ParseNumber(Trim(parts[3])), ParseNumber(Trim(parts[2])),
      TruncatedPercent(ParseNumber(Trim(parts[3])) - ParseNumber(Trim(parts[2])), ParseNumber(Trim(parts[3])))))
  {
    RowDiskFields(line, parts);
    FieldsDiskAccepts(Trim(parts[1]), Trim(parts[2]), Trim(parts[3]));
  }

  /** A non-blank row of at least four fields that is not the header is judged by its trimmed fields. */
  lemma RowDiskFields(line: string, parts: seq<string>)
    requires Trim(line) != [] && parts == Split(line, ',')
    requires |parts| >= 4 && parts[1] != DiskHeader
    ensures RowDisk(line) == FieldsDisk(Trim(parts[1]), Trim(parts[2]), Trim(parts[3]))
  {
  }

  lemma FieldsDiskAccepts(name: string, freeStr: string, sizeStr: string)
    requires freeStr != [] && sizeStr != [] && ParseNumber(sizeStr) > 0
    ensures FieldsDisk(name, freeStr, sizeStr)
      == Some(DiskInfo(name, ParseNumber(sizeStr), ParseNumber(freeStr),
        TruncatedPercent(ParseNumber(sizeStr) - ParseNumber(freeStr), ParseNumber(sizeStr))))
  {
  }

  /** The disks of the rows `ls`, row by row and in row order. */
  function DiskRows(ls: seq<string>): seq<DiskInfo> {
    FilterMap(RowDisk, ls)
  }

  /** Every disk a row gives has a positive size and a percentage of at most 100. */
  lemma RowDiskBounds(line: string)
    ensures RowDisk(line).Some? ==> RowDisk(line).value.totalBytes > 0 && RowDisk(line).value.percent <= 100
  {
  }

  /** Rows are judged one at a time and their disks keep row order. */
  lemma DiskRowsAppend(a: seq<string>, b: seq<string>)
    ensures DiskRows(a + b) == DiskRows(a) + DiskRows(b)
  {
    FilterMapAppend(RowDisk, a, b);
  }

  /** One more row adds its disk, if it has one, at the end. */
  lemma DiskRowsSnoc(ls: seq<string>, line: string)
    ensures DiskRows(ls + [line]) == DiskRows(ls) + (match RowDisk(line) case Some(d) => [d] case None => [])
  {
    DiskRowsAppend(ls, [line]);
    assert [line][1..] == [];
  }

  /** A rejected row can be removed from anywhere without changing the result. */
  lemma SkippedRow(a: seq<string>, line: string, b: seq<string>)
    requires RowDisk(line).None?
    ensures DiskRows(a + [line] + b) == DiskRows(a + b)
  {
    DiskRowsAppend(a + [line], b);
    DiskRowsSnoc(a, line);
    DiskRowsAppend(a, b);
  }

  /** Every disk returned comes from some row: its name is that row's trimmed second field. */
  lemma DiskRowsFromRows(ls: seq<string>, k: nat)
    requires k < |DiskRows(ls)|
    ensures exists i :: 0 <= i < |ls| && RowDisk(ls[i]) == Some(DiskRows(ls)[k])
  {
    FilterMapFrom(RowDisk, ls, k);
  }

  /** There are no more disks than rows, and each has a positive size and a percentage of at most 100. */
  lemma DiskRowsBounds(ls: seq<string>, k: nat)
    requires k < |DiskRows(ls)|
    ensures |DiskRows(ls)| <= |ls|
    ensures DiskRows(ls)[k].totalBytes > 0 && DiskRows(ls)[k].percent <= 100
  {
    DiskRowsFromRows(ls, k);
    var i :| 0 <= i < |ls| && RowDisk(ls[i]) == Some(DiskRows(ls)[k]);
    RowDiskBounds(ls[i]);
  }

  /** `parse_disks` (sys.rs:102-129): each row is judged by `RowDisk` and its disk, if any, appended. */
  method ParseDisks(output: string) returns (disks: seq<DiskInfo>)
    ensures disks == DiskRows(Lines(output))
  {
    disks := [];
    var lines := Lines(output);
    var i := 0;
    while i < |lines|
      invariant 0 <= i <= |lines|
      invariant disks == DiskRows(lines[..i])
    {
      DiskRowsSnoc(lines[..i], lines[i]);
      TakeSnoc(lines, i);
      var row := RowDisk(lines[i]);
      if row.Some? {
        disks := disks + [row.value];
      }
      i := i + 1;
    }
    TakeAll(lines);
  }

  /** A non-blank row of exactly four fields, with a plain name and numbers and a positive size, gives that disk. */
  lemma RowDiskOfFields(line: string, name: string, freeStr: string, sizeStr: string, free: nat, size: nat)
    requires Trim(line) != [] && |Split(line, ',')| == 4
    requires Split(line, ',')[1] == name && Split(line, ',')[2] == freeStr && Split(line, ',')[3] == sizeStr
    requires name != DiskHeader && Trim(name) == name && Trim(freeStr) == freeStr && Trim(sizeStr) == sizeStr
    requires freeStr != [] && sizeStr != [] && ParseNumber(freeStr) == free && ParseNumber(sizeStr) == size
    requires size > 0
    ensures RowDisk(line) == Some(DiskInfo(name, size, free, TruncatedPercent(size - free, size)))
  {
    var parts := Split(line, ',');
    RowDiskFields(line, parts);
    assert Trim(parts[1]) == name && Trim(parts[2]) == freeStr && Trim(parts[3]) == sizeStr;
    FieldsDiskOf(name, freeStr, sizeStr, free, size);
  }

  lemma FieldsDiskOf(name: string, freeStr: string, sizeStr: string, free: nat, size: nat)
    requires freeStr != [] && sizeStr != [] && ParseNumber(freeStr) == free && ParseNumber(sizeStr) == size
    requires size > 0
    ensures FieldsDisk(name, freeStr, sizeStr) == Some(DiskInfo(name, size, free, TruncatedPercent(size - free, size)))
  {
  }

  /** A CSV row of four plain fields, not the header, whose numbers are `free` and a positive `size`, gives that disk. */
  lemma DiskRowOf(node: string, name: string, freeStr: string, sizeStr: string, free: nat, size: nat)
    requires ',' !in node && ',' !in name && ',' !in freeStr && ',' !in sizeStr
    requires name != DiskHeader && Trim(name) == name && Trim(freeStr) == freeStr && Trim(sizeStr) == sizeStr
    requires freeStr != [] && sizeStr != [] && ParseNumber(freeStr) == free && ParseNumber(sizeStr) == size
    requires size > 0
    ensures RowDisk(Join([node, name, freeStr, sizeStr], ',')) == Some(DiskInfo(name, size, free, TruncatedPercent(size - free, size)))
  {
    var fields := [node, name, freeStr, sizeStr];
    var line := Join(fields, ',');
    AbsentFromFour(node, name, freeStr, sizeStr, ',');
    SplitJoin(fields, ',');
    assert Trim(line) != [] by {
      assert line[|node|] == ',';
      TrimEmpty(line);
    }
    RowDiskOfFields(line, name, freeStr, sizeStr, free, size);
  }

  /** Joining four texts without `ch` by another character gives a text without `ch`. */
  lemma JoinFourExcludes(a: string, b: string, c: string, d: string, sep: char, ch: char)
    requires ch != sep && ch !in a && ch !in b && ch !in c && ch !in d
    ensures ch !in Join([a, b, c, d], sep)
  {
    AbsentFromFour(a, b, c, d, ch);
    JoinExcludes([a, b, c, d], sep, ch);
  }

  /** The CSV header row `Node,DeviceID,FreeSpace,Size` is skipped. */
  lemma HeaderRowSkipped()
    ensures '\n' !in Join(["Node", DiskHeader, "FreeSpace", "Size"], ',')
    ensures RowDisk(Join(["Node", DiskHeader, "FreeSpace", "Size"], ',')) == None
  {
    var fields := ["Node", DiskHeader, "FreeSpace", "Size"];
    JoinFourExcludes("Node", DiskHeader, "FreeSpace", "Size", ',', '\n');
    AbsentFromFour("Node", DiskHeader, "FreeSpace", "Size", ',');
    SplitJoin(fields, ',');
    RowDiskRejects(Join(fields, ','));
  }

  /** Of three rows where only the last is a disk, the result is that one disk. */
  lemma DiskRowsLastOnly(a: string, b: string, c: string)
    requires RowDisk(a).None? && RowDisk(b).None? && RowDisk(c).Some?
    ensures DiskRows([a, b, c]) == [RowDisk(c).value]
  {
    assert [c][1..] == [];
    assert DiskRows([c]) == [RowDisk(c).value];
    assert [b, c][1..] == [c];
    assert DiskRows([b, c]) == DiskRows([c]);
    assert [a, b, c][1..] == [b, c];
  }

  /** A number printed in decimal is a plain CSV field that parses back to it. */
  lemma NumberField(n: nat)
    ensures ',' !in NatToString(n) && '\n' !in NatToString(n) && NatToString(n) != []
    ensures Trim(NatToString(n)) == NatToString(n) && ParseNumber(NatToString(n)) == n
  {
    var s := NatToString(n);
    DigitsExclude(',', s);
    DigitsExclude('\n', s);
    assert IsDigit(s[0]) && IsDigit(s[|s| - 1]);
    TrimClean(s);
    ParseNatToString(n);
  }

  /** A character absent from each of four texts is absent from every element of their list. */
  lemma AbsentFromFour(a: string, b: string, c: string, d: string, ch: char)
    requires ch !in a && ch !in b && ch !in c && ch !in d
    ensures forall k :: 0 <= k < |[a, b, c, d]| ==> ch !in [a, b, c, d][k]
  {
  }

  /** A blank line gives no disk. */
  lemma BlankRowSkipped()
    ensures '\n' !in "" && RowDisk("") == None
  {
    TrimEmpty("");
  }

  /** Three CR LF terminated lines of which only the last is a disk row give that one disk. */
  lemma DiskRowsOfThreeLines(a: string, b: string, c: string)
    requires '\n' !in a && '\n' !in b && '\n' !in c
    requires RowDisk(a).None? && RowDisk(b).None? && RowDisk(c).Some?
    ensures DiskRows(Lines(CrlfText([a, b, c]))) == [RowDisk(c).value]
  {
    LinesOfThree(a, b, c);
    DiskRowsLastOnly(a, b, c);
  }

  /** The sample's drive row: four plain fields whose numbers are `free` and `size`. */
  lemma SampleRow(free: nat, size: nat)
    requires size > 0
    ensures '\n' !in Join(["MYPC", "C:", NatToString(free), NatToString(size)], ',')
    ensures RowDisk(Join(["MYPC", "C:", NatToString(free), NatToString(size)], ','))
      == Some(DiskInfo("C:", size, free, TruncatedPercent(size - free, size)))
  {
    NumberField(free);
    NumberField(size);
    SampleNames();
    JoinFourExcludes("MYPC", "C:", NatToString(free), NatToString(size), ',', '\n');
    DiskRowOf("MYPC", "C:", NatToString(free), NatToString(size), free, size);
  }

  /** The node and drive names of the sample are plain fields. */
  lemma SampleNames()
    ensures ',' !in "MYPC" && '\n' !in "MYPC" && ',' !in "C:" && '\n' !in "C:"
    ensures "C:" != DiskHeader && Trim("C:") == "C:"
  {
    TrimClean("C:");
  }

  /**
   * The shape of the sample of sys.rs:157-162: after a blank line and the
   * header row, a row for drive C: gives exactly that one disk.
   */
  lemma DisksSample(free: nat, size: nat)
    requires size > 0
    ensures DiskRows(Lines(CrlfText(["", Join(["Node", DiskHeader, "FreeSpace", "Size"], ','),
      Join(["MYPC", "C:", NatToString(free), NatToString(size)], ',')])))
      == [DiskInfo("C:", size, free, TruncatedPercent(size - free, size))]
  {
    var header := Join(["Node", DiskHeader, "FreeSpace", "Size"], ',');
    var row := Join(["MYPC", "C:", NatToString(free), NatToString(size)], ',');
    SampleRow(free, size);
    HeaderRowSkipped();
    BlankRowSkipped();
    DiskRowsOfThreeLines("", header, row);
  }

  /** The numbers of that sample, 53687091200 bytes free of 107374182400, are 50 percent used. */
  lemma DiskSampleIsHalf()
    ensures TruncatedPercent(107374182400 - 53687091200, 107374182400) == 50
  {
    FloorDivSpec(5368709120000, 107374182400);
  }
}

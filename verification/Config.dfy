/** Environment configuration of src/config.c and the duration printer of src/base.c. */
module Config {
  import opened Base

  // ---- Decimal numbers and strtoull ----

  predicate IsDigit(c: char) {
    '0' <= c <= '9'
  }

  predicate Digits(s: string) {
    forall i :: 0 <= i < |s| ==> IsDigit(s[i])
  }

  function DigitValue(c: char): nat
    requires IsDigit(c)
  {
    c as int - '0' as int
  }

  function NatOf(s: string): nat
    requires Digits(s)
  {
    if s == "" then 0 else 10 * NatOf(s[..|s| - 1]) + DigitValue(s[|s| - 1])
  }

  function DigitPrefix(s: string): (n: nat)
    ensures n <= |s| && Digits(s[..n])
    ensures n < |s| ==> !IsDigit(s[n])
  {
    if s == "" || !IsDigit(s[0]) then 0
    else
      var m := DigitPrefix(s[1..]);
      assert s[..m + 1] == [s[0]] + s[1..][..m];
      1 + m
  }

  datatype Parsed = Parsed(value: U64, rangeError: bool, rest: string)

  /** strtoull(3) in base ten on a string that starts with a digit: it clamps and reports ERANGE. */
  function StrToULL(s: string): Parsed {
    var n := DigitPrefix(s);
    var v := NatOf(s[..n]);
    Parsed(Min(v, U64_MAX), v > U64_MAX, s[n..])
  }

  predicate HasUnsignedShape(s: string) {
    s != "" && IsDigit(s[0])
  }

  function ToDecimal(n: nat): (s: string)
    ensures s != "" && Digits(s) && NatOf(s) == n
    ensures |s| > 1 ==> s[0] != '0'
  {
    var last := ('0' as int + n % 10) as char;
    if n < 10 then [last]
    else
      var s := ToDecimal(n / 10) + [last];
      assert s[..|s| - 1] == ToDecimal(n / 10);
      s
  }

  // ---- Durations ----

  function ParseDuration(value: string, allowZero: bool, maxMs: U64): Option<U64> {
    if !HasUnsignedShape(value) then None
    else
      var p := StrToULL(value);
      if p.rangeError || (p.value == 0 && !allowZero) then None
      else if p.rest != "s" && p.rest != "ms" then None
      else
        var unitMs := if p.rest == "s" then MS_PER_SEC else 1;
        var product := p.value * unitMs;
        if product > U64_MAX then None
        else if (product == 0 && !allowZero) || product > maxMs then None
        else Some(product)
  }

  /** A decimal numeral and its value in unbounded integers. */
  predicate Numeral(s: string, n: nat) {
    s != "" && (forall i :: 0 <= i < |s| ==> '0' <= s[i] <= '9') && NatOf(s) == n
  }

  /** The duration language: a numeral of seconds or of milliseconds; its meaning in unbounded integers. */
  predicate Denotes(value: string, digits: string, ms: nat) {
    || (value == digits + "s" && ms % 1000 == 0 && Numeral(digits, ms / 1000))
    || (value == digits + "ms" && Numeral(digits, ms))
  }

  lemma {:induction false} PrefixOfDigits(digits: string, rest: string)
    requires Digits(digits) && (rest == "" || !IsDigit(rest[0]))
    ensures DigitPrefix(digits + rest) == |digits|
  {
    if digits != "" {
      assert (digits + rest)[1..] == digits[1..] + rest;
      PrefixOfDigits(digits[1..], rest);
    }
  }

  lemma DurationSound(value: string, allowZero: bool, maxMs: U64)
    ensures var r := ParseDuration(value, allowZero, maxMs);
            r.Some? ==>
              && r.value <= maxMs && (r.value > 0 || allowZero)
              && Denotes(value, value[..DigitPrefix(value)], r.value)
  {
    var n := DigitPrefix(value);
    assert value == value[..n] + value[n..];
  }

  lemma DurationComplete(value: string, digits: string, allowZero: bool, maxMs: U64, ms: nat)
    requires Denotes(value, digits, ms) && ms <= maxMs && (ms > 0 || allowZero)
    ensures ParseDuration(value, allowZero, maxMs) == Some(ms)
  {
    var unit := if value == digits + "s" then "s" else "ms";
    SplitsAt(digits, unit);
    assert value == digits + unit && value[0] == digits[0];
    assert NatOf(digits) <= ms;
  }

  /** strtoull on digits followed by something else reads exactly the digits. */
  lemma SplitsAt(digits: string, rest: string)
    requires Digits(digits) && rest != "" && !IsDigit(rest[0])
    ensures var p := StrToULL(digits + rest);
            p.rest == rest && p.value == Min(NatOf(digits), U64_MAX) && p.rangeError == (NatOf(digits) > U64_MAX)
  {
    PrefixOfDigits(digits, rest);
    assert (digits + rest)[..|digits|] == digits && (digits + rest)[|digits|..] == rest;
  }

  /**
   * The duration parser accepts exactly the duration language in range, with its exact value:
   * neither the clamped uint64 conversion nor the checked multiplication ever changes an answer.
   */
  lemma DurationExact(value: string, allowZero: bool, maxMs: U64, ms: nat)
    ensures (ParseDuration(value, allowZero, maxMs) == Some(ms))
            <==> ms <= maxMs && (ms > 0 || allowZero) && exists digits :: Denotes(value, digits, ms)
  {
    DurationSound(value, allowZero, maxMs);
    if ms <= maxMs && (ms > 0 || allowZero) && exists digits :: Denotes(value, digits, ms) {
      var digits :| Denotes(value, digits, ms);
      DurationComplete(value, digits, allowZero, maxMs, ms);
    }
  }

  function FormatDuration(ms: U64): string {
    if ms >= MS_PER_SEC && ms % MS_PER_SEC == 0 then ToDecimal(ms / MS_PER_SEC) + "s"
    else ToDecimal(ms) + "ms"
  }

  /** Whole seconds of at least one are printed as seconds, everything else as milliseconds, with no leading zero. */
  lemma DurationPrinted(ms: U64)
    ensures var s := FormatDuration(ms);
            exists digits ::
              && (|digits| > 1 ==> digits[0] != '0')
              && (if ms >= 1000 && ms % 1000 == 0 then s == digits + "s" && Numeral(digits, ms / 1000)
                  else s == digits + "ms" && Numeral(digits, ms))
  {
    if ms >= 1000 && ms % 1000 == 0 {
      var digits := ToDecimal(ms / 1000);
      assert Numeral(digits, ms / 1000) && FormatDuration(ms) == digits + "s";
    } else {
      var digits := ToDecimal(ms);
      assert Numeral(digits, ms) && FormatDuration(ms) == digits + "ms";
    }
  }

  /** Printing a duration and parsing it back is the identity on every value the setting allows. */
  lemma DurationRoundTrip(ms: U64, allowZero: bool, maxMs: U64)
    ensures ParseDuration(FormatDuration(ms), allowZero, maxMs)
            == if ms <= maxMs && (ms > 0 || allowZero) then Some(ms) else None
  {
    var digits := if ms >= MS_PER_SEC && ms % MS_PER_SEC == 0 then ToDecimal(ms / MS_PER_SEC) else ToDecimal(ms);
    var text := FormatDuration(ms);
    assert Denotes(text, digits, ms);
    DurationExact(text, allowZero, maxMs, ms);
    var r := ParseDuration(text, allowZero, maxMs);
    if r.Some? {
      DurationExact(text, allowZero, maxMs, r.value);
      DurationExact(text, true, U64_MAX, r.value);
      DurationExact(text, true, U64_MAX, ms);
    }
  }

  function ParsePositiveInt(value: string): Option<U64> {
    if !HasUnsignedShape(value) then None
    else
      var p := StrToULL(value);
      if p.rangeError || p.rest != "" || p.value < 1 || p.value > INT_MAX then None else Some(p.value)
  }

  /** The integer parser accepts exactly the decimal numerals of 1 to INT_MAX. */
  lemma PositiveIntExact(value: string, n: nat)
    ensures (ParsePositiveInt(value) == Some(n))
            <==> Numeral(value, n) && 1 <= n <= 2147483647
  {
    if value != "" && Digits(value) {
      PrefixOfDigits(value, "");
      assert value + "" == value && value[..|value|] == value;
    }
  }

  // ---- Settings ----

  datatype Settings = Settings(
    target: string,
    intervalMs: U64,
    threshold: U64,
    timeoutMs: U64,
    startDelayMs: U64,
    poweroff: bool,
    logLevel: int)

  const SILENT: int := -1
  const INFO: int := 2

  const DEFAULTS := Settings("1.1.1.1", 10000, 5, 3000, 0, false, INFO)
  const TARGET_SIZE: nat := 64

  datatype Key = Target | Interval | Threshold | Timeout | StartDelay | Poweroff | LogLevel

  datatype Value = Text(text: string) | Number(n: U64) | Flag(on: bool) | Level(level: int)

  const ENV_SPECS: seq<(string, Key)> := [
    ("LINKSTAY_TARGET", Target), ("LINKSTAY_INTERVAL", Interval), ("LINKSTAY_THRESHOLD", Threshold),
    ("LINKSTAY_TIMEOUT", Timeout), ("LINKSTAY_START_DELAY", StartDelay), ("LINKSTAY_POWEROFF", Poweroff),
    ("LINKSTAY_LOG_LEVEL", LogLevel)]

  /** Log level names, from SILENT upwards. */
  const LEVEL_NAMES: seq<string> := ["silent", "error", "warn", "info", "debug"]

  function Lower(s: string): string {
    if s == "" then ""
    else [if 'A' <= s[0] <= 'Z' then (s[0] as int + 32) as char else s[0]] + Lower(s[1..])
  }

  function LevelOf(s: string, from: nat): Option<Value>
    requires from <= |LEVEL_NAMES|
    decreases |LEVEL_NAMES| - from
  {
    if from == |LEVEL_NAMES| then None
    else if Lower(s) == LEVEL_NAMES[from] then Some(Level(SILENT + from))
    else LevelOf(s, from + 1)
  }

  function AsNumber(n: Option<U64>): Option<Value> {
    if n.Some? then Some(Number(n.value)) else None
  }

  function Parse(key: Key, value: string): Option<Value> {
    match key
    case Target => if |value| < TARGET_SIZE then Some(Text(value)) else None
    case Interval => AsNumber(ParseDuration(value, false, INT_MAX * MS_PER_SEC))
    case Threshold => AsNumber(ParsePositiveInt(value))
    case Timeout => AsNumber(ParseDuration(value, false, INT_MAX))
    case StartDelay => AsNumber(ParseDuration(value, true, INT_MAX))
    case Poweroff =>
      if Lower(value) == "true" then Some(Flag(true))
      else if Lower(value) == "false" then Some(Flag(false))
      else None
    case LogLevel => LevelOf(value, 0)
  }

  function Get(c: Settings, key: Key): Value {
    match key
    case Target => Text(c.target)
    case Interval => Number(c.intervalMs)
    case Threshold => Number(c.threshold)
    case Timeout => Number(c.timeoutMs)
    case StartDelay => Number(c.startDelayMs)
    case Poweroff => Flag(c.poweroff)
    case LogLevel => Level(c.logLevel)
  }

  predicate Fits(key: Key, v: Value) {
    match key
    case Target => v.Text?
    case Poweroff => v.Flag?
    case LogLevel => v.Level?
    case _ => v.Number?
  }

  function Put(c: Settings, key: Key, v: Value): Settings
    requires Fits(key, v)
  {
    match key
    case Target => c.(target := v.text)
    case Interval => c.(intervalMs := v.n)
    case Threshold => c.(threshold := v.n)
    case Timeout => c.(timeoutMs := v.n)
    case StartDelay => c.(startDelayMs := v.n)
    case Poweroff => c.(poweroff := v.on)
    case LogLevel => c.(logLevel := v.level)
  }

  /** A setting has its parsed variable, or its default when the variable is absent. */
  predicate Explained(env: map<string, string>, spec: (string, Key), c: Settings) {
    if spec.0 in env then Parse(spec.1, env[spec.0]) == Some(Get(c, spec.1))
    else Get(c, spec.1) == Get(DEFAULTS, spec.1)
  }

  predicate AllExplained(env: map<string, string>, c: Settings) {
    forall i :: 0 <= i < |ENV_SPECS| ==> Explained(env, ENV_SPECS[i], c)
  }

  predicate Validates(c: Settings, isLiteral: string -> bool, systemd: bool) {
    && c.target != "" && isLiteral(c.target)
    && c.timeoutMs < c.intervalMs
    && (c.poweroff ==> systemd)
  }

  // ---- What an environment stands for ----

  /** s is t letter by letter, where s may have capitals. */
  predicate SameUpToCase(s: string, t: string) {
    |s| == |t| && forall i :: 0 <= i < |s| ==>
      s[i] == t[i] || ('A' <= s[i] <= 'Z' && s[i] as int - 'A' as int == t[i] as int - 'a' as int)
  }

  predicate ReadsTarget(env: map<string, string>, target: string) {
    if "LINKSTAY_TARGET" in env then target == env["LINKSTAY_TARGET"] && |target| <= 63 else target == "1.1.1.1"
  }

  ghost predicate ReadsDuration(value: string, lo: nat, hi: nat, ms: nat) {
    lo <= ms <= hi && exists digits :: Denotes(value, digits, ms)
  }

  ghost predicate ReadsInterval(env: map<string, string>, ms: nat) {
    if "LINKSTAY_INTERVAL" in env then ReadsDuration(env["LINKSTAY_INTERVAL"], 1, 2147483647000, ms) else ms == 10000
  }

  predicate ReadsThreshold(env: map<string, string>, n: nat) {
    if "LINKSTAY_THRESHOLD" in env then Numeral(env["LINKSTAY_THRESHOLD"], n) && 1 <= n <= 2147483647 else n == 5
  }

  ghost predicate ReadsTimeout(env: map<string, string>, ms: nat) {
    if "LINKSTAY_TIMEOUT" in env then ReadsDuration(env["LINKSTAY_TIMEOUT"], 1, 2147483647, ms) else ms == 3000
  }

  ghost predicate ReadsStartDelay(env: map<string, string>, ms: nat) {
    if "LINKSTAY_START_DELAY" in env then ReadsDuration(env["LINKSTAY_START_DELAY"], 0, 2147483647, ms) else ms == 0
  }

  predicate ReadsPoweroff(env: map<string, string>, on: bool) {
    if "LINKSTAY_POWEROFF" in env then SameUpToCase(env["LINKSTAY_POWEROFF"], if on then "true" else "false") else !on
  }

  predicate ReadsLogLevel(env: map<string, string>, level: int) {
    if "LINKSTAY_LOG_LEVEL" in env then
      var s := env["LINKSTAY_LOG_LEVEL"];
      || (level == -1 && SameUpToCase(s, "silent"))
      || (level == 0 && SameUpToCase(s, "error"))
      || (level == 1 && SameUpToCase(s, "warn"))
      || (level == 2 && SameUpToCase(s, "info"))
      || (level == 3 && SameUpToCase(s, "debug"))
    else level == 2
  }

  /** Every setting is what its variable says, or its default when the variable is absent. */
  ghost predicate Reads(env: map<string, string>, c: Settings) {
    && ReadsTarget(env, c.target)
    && ReadsInterval(env, c.intervalMs)
    && ReadsThreshold(env, c.threshold)
    && ReadsTimeout(env, c.timeoutMs)
    && ReadsStartDelay(env, c.startDelayMs)
    && ReadsPoweroff(env, c.poweroff)
    && ReadsLogLevel(env, c.logLevel)
  }

  /** Some variable that is present says nothing its setting can take. */
  ghost predicate Malformed(env: map<string, string>) {
    || !(exists t :: ReadsTarget(env, t))
    || !(exists ms: nat :: ReadsInterval(env, ms))
    || !(exists n: nat :: ReadsThreshold(env, n))
    || !(exists ms: nat :: ReadsTimeout(env, ms))
    || !(exists ms: nat :: ReadsStartDelay(env, ms))
    || !(exists on :: ReadsPoweroff(env, on))
    || !(exists level :: ReadsLogLevel(env, level))
  }

  /** The settings cannot be run with. */
  predicate Unusable(c: Settings, isLiteral: string -> bool, systemd: bool) {
    c.target == "" || !isLiteral(c.target) || c.timeoutMs >= c.intervalMs || (c.poweroff && !systemd)
  }

  /** The settings an environment stands for. */
  ghost predicate Resolves(env: map<string, string>, isLiteral: string -> bool, systemd: bool, c: Settings) {
    Reads(env, c) && !Unusable(c, isLiteral, systemd)
  }

  // ---- The parsers say the same ----

  lemma {:induction false} LowerIs(s: string, t: string)
    requires forall i :: 0 <= i < |t| ==> 'a' <= t[i] <= 'z'
    ensures Lower(s) == t <==> SameUpToCase(s, t)
  {
    if s != "" && t != "" {
      LowerIs(s[1..], t[1..]);
      assert s == [s[0]] + s[1..] && t == [t[0]] + t[1..];
      if Lower(s) == t {
        assert Lower(s)[0] == t[0] && Lower(s)[1..] == Lower(s[1..]);
      }
    }
  }

  lemma PoweroffIs(value: string, on: bool)
    ensures Parse(Poweroff, value) == Some(Flag(on)) <==> SameUpToCase(value, if on then "true" else "false")
  {
    LowerIs(value, "true");
    LowerIs(value, "false");
  }

  lemma LogLevelIs(value: string, level: int)
    ensures Parse(LogLevel, value) == Some(Level(level)) <==>
            || (level == -1 && SameUpToCase(value, "silent")) || (level == 0 && SameUpToCase(value, "error"))
            || (level == 1 && SameUpToCase(value, "warn")) || (level == 2 && SameUpToCase(value, "info"))
            || (level == 3 && SameUpToCase(value, "debug"))
  {
    LowerIs(value, "silent");
    LowerIs(value, "error");
    LowerIs(value, "warn");
    LowerIs(value, "info");
    LowerIs(value, "debug");
    assert LevelOf(value, 5) == None;
    assert LevelOf(value, 4) == if Lower(value) == "debug" then Some(Level(3)) else None;
    assert LevelOf(value, 3) == if Lower(value) == "info" then Some(Level(2)) else LevelOf(value, 4);
    assert LevelOf(value, 2) == if Lower(value) == "warn" then Some(Level(1)) else LevelOf(value, 3);
    assert LevelOf(value, 1) == if Lower(value) == "error" then Some(Level(0)) else LevelOf(value, 2);
    assert LevelOf(value, 0) == if Lower(value) == "silent" then Some(Level(-1)) else LevelOf(value, 1);
  }

  lemma DurationIs(key: Key, value: string, lo: nat, hi: U64, ms: U64)
    requires lo <= 1 && Parse(key, value) == AsNumber(ParseDuration(value, lo == 0, hi))
    ensures Parse(key, value) == Some(Number(ms)) <==> ReadsDuration(value, lo, hi, ms)
  {
    DurationExact(value, lo == 0, hi, ms);
  }

  /** The table and the parsers read what the environment says. */
  lemma ExplainedReads(env: map<string, string>, c: Settings)
    ensures AllExplained(env, c) <==> Reads(env, c)
  {
    TextSettings(env, c);
    NumberSettings(env, c);
    assert AllExplained(env, c) <==>
           && Explained(env, ENV_SPECS[0], c) && Explained(env, ENV_SPECS[1], c) && Explained(env, ENV_SPECS[2], c)
           && Explained(env, ENV_SPECS[3], c) && Explained(env, ENV_SPECS[4], c) && Explained(env, ENV_SPECS[5], c)
           && Explained(env, ENV_SPECS[6], c);
  }

  lemma TextSettings(env: map<string, string>, c: Settings)
    ensures Explained(env, ENV_SPECS[0], c) <==> ReadsTarget(env, c.target)
    ensures Explained(env, ENV_SPECS[5], c) <==> ReadsPoweroff(env, c.poweroff)
    ensures Explained(env, ENV_SPECS[6], c) <==> ReadsLogLevel(env, c.logLevel)
  {
    if "LINKSTAY_POWEROFF" in env {
      PoweroffIs(env["LINKSTAY_POWEROFF"], c.poweroff);
    }
    if "LINKSTAY_LOG_LEVEL" in env {
      LogLevelIs(env["LINKSTAY_LOG_LEVEL"], c.logLevel);
    }
  }

  lemma NumberSettings(env: map<string, string>, c: Settings)
    ensures Explained(env, ENV_SPECS[1], c) <==> ReadsInterval(env, c.intervalMs)
    ensures Explained(env, ENV_SPECS[2], c) <==> ReadsThreshold(env, c.threshold)
    ensures Explained(env, ENV_SPECS[3], c) <==> ReadsTimeout(env, c.timeoutMs)
    ensures Explained(env, ENV_SPECS[4], c) <==> ReadsStartDelay(env, c.startDelayMs)
  {
    if "LINKSTAY_INTERVAL" in env {
      DurationIs(Interval, env["LINKSTAY_INTERVAL"], 1, 2147483647000, c.intervalMs);
    }
    if "LINKSTAY_THRESHOLD" in env {
      PositiveIntExact(env["LINKSTAY_THRESHOLD"], c.threshold);
    }
    if "LINKSTAY_TIMEOUT" in env {
      DurationIs(Timeout, env["LINKSTAY_TIMEOUT"], 1, 2147483647, c.timeoutMs);
    }
    if "LINKSTAY_START_DELAY" in env {
      DurationIs(StartDelay, env["LINKSTAY_START_DELAY"], 0, 2147483647, c.startDelayMs);
    }
  }

  /** Unless some variable is malformed the environment stands for settings. */
  lemma WellFormedReads(env: map<string, string>)
    ensures Malformed(env) <==> !exists c :: Reads(env, c)
  {
    if !Malformed(env) {
      var target :| ReadsTarget(env, target);
      var interval: nat :| ReadsInterval(env, interval);
      var threshold: nat :| ReadsThreshold(env, threshold);
      var timeout: nat :| ReadsTimeout(env, timeout);
      var delay: nat :| ReadsStartDelay(env, delay);
      var on :| ReadsPoweroff(env, on);
      var level :| ReadsLogLevel(env, level);
      assert Reads(env, Settings(target, interval, threshold, timeout, delay, on, level));
    }
  }

  lemma SettingsDetermined(c: Settings, d: Settings)
    requires forall i :: 0 <= i < |ENV_SPECS| ==> Get(c, ENV_SPECS[i].1) == Get(d, ENV_SPECS[i].1)
    ensures c == d
  {
    assert forall k: nat :: k < 7 ==> Get(c, ENV_SPECS[k].1) == Get(d, ENV_SPECS[k].1);
    assert ENV_SPECS[0].1 == Target && ENV_SPECS[1].1 == Interval && ENV_SPECS[2].1 == Threshold
           && ENV_SPECS[3].1 == Timeout && ENV_SPECS[4].1 == StartDelay && ENV_SPECS[5].1 == Poweroff
           && ENV_SPECS[6].1 == LogLevel;
  }

  /** Applies every present variable in table order to the defaults, stopping at the first bad one. */
  method LoadEnv(env: map<string, string>) returns (r: Option<Settings>)
    ensures forall c :: Reads(env, c) <==> r == Some(c)
    ensures r == None <==> Malformed(env)
  {
    var c := DEFAULTS;
    for i := 0 to |ENV_SPECS|
      invariant forall j :: 0 <= j < i ==> Explained(env, ENV_SPECS[j], c)
      invariant forall j :: i <= j < |ENV_SPECS| ==> Get(c, ENV_SPECS[j].1) == Get(DEFAULTS, ENV_SPECS[j].1)
    {
      var spec := ENV_SPECS[i];
      if spec.0 in env {
        var v := Parse(spec.1, env[spec.0]);
        if v.None? {
          NothingReads(env, i);
          return None;
        }
        c := Put(c, spec.1, v.value);
      }
    }
    r := Some(c);
    OnlyReads(env, c);
  }

  /** A variable that does not parse makes the environment malformed. */
  lemma NothingReads(env: map<string, string>, i: nat)
    requires i < |ENV_SPECS| && ENV_SPECS[i].0 in env && Parse(ENV_SPECS[i].1, env[ENV_SPECS[i].0]).None?
    ensures Malformed(env) && forall c :: !Reads(env, c)
  {
    forall c: Settings
      ensures !Reads(env, c)
    {
      ExplainedReads(env, c);
      assert !Explained(env, ENV_SPECS[i], c);
    }
    WellFormedReads(env);
  }

  lemma OnlyReads(env: map<string, string>, c: Settings)
    requires AllExplained(env, c)
    ensures !Malformed(env) && forall d :: Reads(env, d) <==> d == c
  {
    ExplainedReads(env, c);
    WellFormedReads(env);
    forall d | Reads(env, d)
      ensures d == c
    {
      ExplainedReads(env, d);
      SettingsDetermined(c, d);
    }
  }

  /**
   * Resolution succeeds with settings c exactly when the environment says c and c can be run with;
   * it fails exactly on a malformed variable or on unusable settings.
   */
  method Resolve(env: map<string, string>, isLiteral: string -> bool, systemd: bool) returns (r: Option<Settings>)
    ensures forall c :: Resolves(env, isLiteral, systemd, c) <==> r == Some(c)
    ensures r == None <==> Malformed(env) || exists c :: Reads(env, c) && Unusable(c, isLiteral, systemd)
  {
    r := LoadEnv(env);
    if r.Some? && !Validates(r.value, isLiteral, systemd) {
      r := None;
    }
  }

  /** What the scheduler relies on. */
  predicate InBounds(c: Settings) {
    && 1 <= c.timeoutMs < c.intervalMs <= 2147483647000
    && c.timeoutMs <= 2147483647
    && 1 <= c.threshold <= 2147483647
    && c.startDelayMs <= 2147483647
  }

  /** Every environment that resolves yields settings within the scheduler's bounds. */
  lemma ResolvedInBounds(env: map<string, string>, isLiteral: string -> bool, systemd: bool, c: Settings)
    requires Resolves(env, isLiteral, systemd, c)
    ensures InBounds(c)
  {
  }
}

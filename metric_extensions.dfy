/** MetricExtensions: rendering metrics as StatsD or Statsite wire lines. */
module MetricExtensions {
  import opened Wrappers
  import opened Core
  import KeyHelper

  /** The number rendering the renderer delegates to .NET, taken as given:
      `{0:0.###}`, `{0:f}` and the Unix-time conversion of a timestamp. */
  datatype NumberFormat = NumberFormat(
    threeDecimals: Double -> string,
    fixedPoint: Double -> string,
    unixTime: DateTime -> string)

  function DigitChar(d: nat): char
    requires d < 10
  {
    (48 + d) as char
  }

  /** Decimal digits of `n`, most significant first. */
  function NatToString(n: nat): (s: string)
    ensures |s| > 0
    ensures forall i :: 0 <= i < |s| ==> '0' <= s[i] <= '9'
    decreases n
  {
    if n < 10 then [DigitChar(n)] else NatToString(n / 10) + [DigitChar(n % 10)]
  }

  /** `{1}` of an int under the invariant culture: a minus sign for negative
      values, then the decimal digits. */
  function IntToString(i: int): string
  {
    if i < 0 then "-" + NatToString(-i) else NatToString(i)
  }

  /** The value of a string of decimal digits. */
  function ParseNat(s: string): nat
    requires forall i :: 0 <= i < |s| ==> '0' <= s[i] <= '9'
  {
    if s == [] then 0 else 10 * ParseNat(s[..|s| - 1]) + (s[|s| - 1] as int - 48)
  }

  /** Reading back a rendered int gives the int. */
  lemma {:induction false} NatRoundTrip(n: nat)
    ensures ParseNat(NatToString(n)) == n
    decreases n
  {
    if n >= 10 {
      NatRoundTrip(n / 10);
      var s := NatToString(n);
      assert s[..|s| - 1] == NatToString(n / 10);
    }
  }

  lemma IntRoundTrip(i: int)
    ensures var s := IntToString(i);
      if i < 0 then s[0] == '-' && ParseNat(s[1..]) == -i else ParseNat(s) == i
  {
    if i < 0 {
      NatRoundTrip(-i);
      assert IntToString(i)[1..] == NatToString(-i);
    } else {
      NatRoundTrip(i);
    }
  }

  /** ToStatsDString: a KeyValue renders like a timing and drops its
      timestamp. */
  function StatsDString(m: Metric, nf: NumberFormat): string
  {
    match m
    case KeyValue(k, v, _) => k + ":" + nf.threeDecimals(v) + "|ms"
    case Timing(k, d) => k + ":" + nf.threeDecimals(d) + "|ms"
    case Counter(k, a) => k + ":" + IntToString(a as int) + "|c"
    case Sample(k, v, f) => k + ":" + nf.threeDecimals(v) + "|c|@" + nf.fixedPoint(f)
  }

  /** ToStatSiteString: a KeyValue renders as `kv`, flagged with its Unix
      time when it has a timestamp. */
  function StatSiteString(m: Metric, nf: NumberFormat): string
  {
    match m
    case KeyValue(k, v, t) =>
      if t.Some? then k + ":" + nf.threeDecimals(v) + "|kv|@" + nf.unixTime(t.value)
      else k + ":" + nf.threeDecimals(v) + "|kv"
    case Counter(k, a) => k + ":" + IntToString(a as int) + "|c"
    case Timing(k, d) => k + ":" + nf.threeDecimals(d) + "|ms"
    case Sample(k, v, f) => k + ":" + nf.threeDecimals(v) + "|c|@" + nf.fixedPoint(f)
  }

  /** The format switch: StatSite picks the Statsite renderer, StatsD (the
      default label) the StatsD one. */
  function Render(m: Metric, format: MetricFormat, nf: NumberFormat): string
  {
    match format
    case StatSite => StatSiteString(m, nf)
    case StatsD => StatsDString(m, nf)
  }

  /** ToString(metric, key, format): a null metric and an invalid prefix key
      are rejected; a null or empty key leaves the line alone, any other key
      is put in front with a dot. */
  function ToString(metric: Option<Metric>, key: Option<string>, format: MetricFormat, nf: NumberFormat): (r: Result<string>)
    ensures metric.None? ==> r == Err(ArgumentNull("metric"))
    ensures metric.Some? && !KeyHelper.IsValidKey(key) ==> r == Err(InvalidArgument("key"))
    ensures r.Ok? <==> metric.Some? && KeyHelper.IsValidKey(key)
    ensures r.Ok? && (key.None? || key.value == "") ==> r.value == Render(metric.value, format, nf)
    ensures r.Ok? && key.Some? && key.value != "" ==>
      r.value == key.value + "." + Render(metric.value, format, nf)
  {
    if metric.None? then Err(ArgumentNull("metric"))
    else if !KeyHelper.IsValidKey(key) then Err(InvalidArgument("key"))
    else
      var converted := Render(metric.value, format, nf);
      if key.None? || key.value == "" then Ok(converted) else Ok(key.value + "." + converted)
  }

  /** ToStrings(metrics, key, format): a null sequence and an invalid key
      are rejected; otherwise the i-th line is ToString of the i-th metric,
      and a null metric anywhere raises ToString's error. */
  function ToStrings(metrics: Option<seq<Option<Metric>>>, key: Option<string>, format: MetricFormat, nf: NumberFormat)
    : (r: Result<seq<string>>)
    ensures metrics.None? ==> r == Err(ArgumentNull("metrics"))
    ensures metrics.Some? && !KeyHelper.IsValidKey(key) ==> r == Err(InvalidArgument("key"))
    ensures metrics.Some? && KeyHelper.IsValidKey(key) ==>
      && (r.Ok? <==> forall i :: 0 <= i < |metrics.value| ==> metrics.value[i].Some?)
      && (r.Err? ==> r.error == ArgumentNull("metric"))
    ensures r.Ok? ==>
      && |r.value| == |metrics.value|
      && forall i :: 0 <= i < |r.value| ==> ToString(metrics.value[i], key, format, nf) == Ok(r.value[i])
  {
    if metrics.None? then Err(ArgumentNull("metrics"))
    else if !KeyHelper.IsValidKey(key) then Err(InvalidArgument("key"))
    else MapToString(metrics.value, key, format, nf)
  }

  function MapToString(ms: seq<Option<Metric>>, key: Option<string>, format: MetricFormat, nf: NumberFormat)
    : (r: Result<seq<string>>)
    requires KeyHelper.IsValidKey(key)
    ensures r.Ok? <==> forall i :: 0 <= i < |ms| ==> ms[i].Some?
    ensures r.Err? ==> r.error == ArgumentNull("metric")
    ensures r.Ok? ==>
      && |r.value| == |ms|
      && forall i :: 0 <= i < |ms| ==> ToString(ms[i], key, format, nf) == Ok(r.value[i])
    decreases |ms|
  {
    if ms == [] then Ok([])
    else
      match ToString(ms[0], key, format, nf)
      case Err(e) => Err(e)
      case Ok(line) =>
        match MapToString(ms[1..], key, format, nf)
        case Err(e) => Err(e)
        case Ok(rest) => Ok([line] + rest)
  }

  // ---------------------------------------------------------------------
  // Reading a wire line back: `name:value|kind` or `name:value|kind|@flag`

  datatype WireLine = WireLine(name: string, value: string, kind: string, flag: Option<string>)

  function IndexOf(s: string, c: char): (k: nat)
    ensures k <= |s|
    ensures k < |s| ==> s[k] == c
  {
    if s == [] || s[0] == c then 0 else 1 + IndexOf(s[1..], c)
  }

  /** The '|'-separated fields of `s`. */
  function Fields(s: string): seq<string>
    decreases |s|
  {
    var k := IndexOf(s, '|');
    if k == |s| then [s] else [s[..k]] + Fields(s[k + 1..])
  }

  /** Splits a wire line at its first ':' and then at every '|'. */
  function ParseLine(line: string): Option<WireLine>
  {
    var k := IndexOf(line, ':');
    if k == |line| then None else ParseFields(line[..k], Fields(line[k + 1..]))
  }

  /** `value|kind` or `value|kind|@flag`, after the name. */
  function ParseFields(name: string, fs: seq<string>): Option<WireLine>
  {
    if |fs| == 2 then Some(WireLine(name, fs[0], fs[1], None))
    else if |fs| == 3 && |fs[2]| > 0 && fs[2][0] == '@' then
      Some(WireLine(name, fs[0], fs[1], Some(fs[2][1..])))
    else None
  }

  /** The number renderings never produce a '|'. */
  ghost predicate PipeFree(nf: NumberFormat)
  {
    && (forall d :: '|' !in nf.threeDecimals(d))
    && (forall d :: '|' !in nf.fixedPoint(d))
    && (forall t :: '|' !in nf.unixTime(t))
  }

  /** The fields each variant is sent with, per format. */
  function Expected(m: Metric, format: MetricFormat, nf: NumberFormat): WireLine
  {
    match m
    case Counter(k, a) => WireLine(k, IntToString(a as int), "c", None)
    case Timing(k, d) => WireLine(k, nf.threeDecimals(d), "ms", None)
    case Sample(k, v, f) => WireLine(k, nf.threeDecimals(v), "c", Some(nf.fixedPoint(f)))
    case KeyValue(k, v, t) =>
      if format == StatsD then WireLine(k, nf.threeDecimals(v), "ms", None)
      else WireLine(k, nf.threeDecimals(v), "kv", if t.Some? then Some(nf.unixTime(t.value)) else None)
  }

  lemma IntToStringPipeFree(i: int)
    ensures '|' !in IntToString(i)
  {
  }

  lemma {:induction false} FieldsNoPipe(a: string)
    requires '|' !in a
    ensures Fields(a) == [a]
  {
  }

  lemma {:induction false} FieldsCons(a: string, b: string)
    requires '|' !in a
    ensures Fields(a + "|" + b) == [a] + Fields(b)
  {
    var s := a + "|" + b;
    IndexOfFirst(a, "|" + b, '|');
    assert s == a + ("|" + b);
    assert s[..|a|] == a;
    assert s[|a| + 1..] == b;
  }

  lemma {:induction false} IndexOfFirst(a: string, tail: string, c: char)
    requires c !in a && tail != [] && tail[0] == c
    ensures IndexOf(a + tail, c) == |a|
    decreases |a|
  {
    if a != [] {
      assert (a + tail)[1..] == a[1..] + tail;
      IndexOfFirst(a[1..], tail, c);
    }
  }

  /** Parsing `name:value|kind` gives back the parts, when the name has no
      ':' and the value and kind have no '|'. */
  lemma ParsePlain(name: string, value: string, kind: string)
    requires ':' !in name && '|' !in value && '|' !in kind
    ensures ParseLine(name + ":" + value + "|" + kind) == Some(WireLine(name, value, kind, None))
  {
    var line := name + ":" + value + "|" + kind;
    var rest := value + "|" + kind;
    assert line == name + ":" + rest;
    ParseAfterName(name, rest);
    FieldsCons(value, kind);
    FieldsNoPipe(kind);
    assert Fields(rest) == [value, kind];
  }

  /** Parsing `name:value|kind|@flag` gives back the parts, when the name has
      no ':' and the other parts have no '|'. */
  lemma ParseFlagged(name: string, value: string, kind: string, flag: string)
    requires ':' !in name && '|' !in value && '|' !in kind && '|' !in flag
    ensures ParseLine(name + ":" + value + "|" + kind + "|@" + flag) == Some(WireLine(name, value, kind, Some(flag)))
  {
    var last := "@" + flag;
    var rest := value + "|" + kind + "|" + last;
    FlaggedShape(name, value, kind, flag);
    ParseAfterName(name, rest);
    assert '|' !in last by {
      assert last == ['@'] + flag;
    }
    FieldsThree(value, kind, last);
    assert last[1..] == flag;
  }

  /** The flagged line regrouped as name, ':' and the three fields. */
  lemma FlaggedShape(name: string, value: string, kind: string, flag: string)
    ensures name + ":" + value + "|" + kind + "|@" + flag
         == name + ":" + (value + "|" + kind + "|" + ("@" + flag))
  {
    assert "|@" + flag == "|" + ("@" + flag);
    assert kind + "|@" + flag == kind + ("|@" + flag);
    assert value + "|" + kind + "|@" + flag == value + "|" + kind + "|" + ("@" + flag);
  }

  lemma FieldsThree(value: string, kind: string, last: string)
    requires '|' !in value && '|' !in kind && '|' !in last
    ensures Fields(value + "|" + kind + "|" + last) == [value, kind, last]
  {
    Regroup(value, kind, last);
    FieldsNoPipe(last);
    FieldsCons(kind, last);
    FieldsCons(value, kind + "|" + last);
  }

  lemma Regroup(a: string, b: string, c: string)
    ensures a + "|" + b + "|" + c == a + "|" + (b + "|" + c)
  {
    assert a + "|" + b + "|" + c == (a + "|") + (b + "|" + c);
  }

  lemma ParseAfterName(name: string, rest: string)
    requires ':' !in name
    ensures var line := name + ":" + rest;
      && IndexOf(line, ':') == |name| && line[..|name|] == name && line[|name| + 1..] == rest
  {
    IndexOfFirst(name, ":" + rest, ':');
    assert name + ":" + rest == name + (":" + rest);
  }

  /** Round trip: parsing a rendered line gives back the metric's key and
      fields in either format. Counters, timings and samples carry the same
      fields in both formats; a KeyValue is an `ms` timing without timestamp
      in StatsD and a `kv` line flagged with its Unix time, if any, in
      Statsite. */
  lemma RenderRoundTrip(m: Metric, format: MetricFormat, nf: NumberFormat)
    requires ':' !in m.key && PipeFree(nf)
    ensures ParseLine(Render(m, format, nf)) == Some(Expected(m, format, nf))
  {
    if format == StatsD {
      StatsDRoundTrip(m, nf);
    } else {
      StatSiteRoundTrip(m, nf);
    }
  }

  lemma StatsDRoundTrip(m: Metric, nf: NumberFormat)
    requires ':' !in m.key && PipeFree(nf)
    ensures ParseLine(StatsDString(m, nf)) == Some(Expected(m, StatsD, nf))
  {
    match m
    case Counter(k, a) => CounterLine(k, a, nf);
    case Timing(k, d) => TimingLine(k, d, nf);
    case Sample(k, v, f) => SampleLine(k, v, f, nf);
    case KeyValue(k, v, t) => TimingLine(k, v, nf);
  }

  lemma StatSiteRoundTrip(m: Metric, nf: NumberFormat)
    requires ':' !in m.key && PipeFree(nf)
    ensures ParseLine(StatSiteString(m, nf)) == Some(Expected(m, StatSite, nf))
  {
    match m
    case Counter(k, a) => CounterLine(k, a, nf);
    case Timing(k, d) => TimingLine(k, d, nf);
    case Sample(k, v, f) => SampleLine(k, v, f, nf);
    case KeyValue(k, v, t) => KeyValueLine(k, v, t, nf);
  }

  lemma CounterLine(k: string, a: int32, nf: NumberFormat)
    requires ':' !in k
    ensures ParseLine(StatsDString(Counter(k, a), nf)) == Some(WireLine(k, IntToString(a as int), "c", None))
    ensures StatSiteString(Counter(k, a), nf) == StatsDString(Counter(k, a), nf)
  {
    IntToStringPipeFree(a as int);
    ParsePlain(k, IntToString(a as int), "c");
    assert StatsDString(Counter(k, a), nf) == k + ":" + IntToString(a as int) + "|" + "c";
  }

  lemma TimingLine(k: string, d: Double, nf: NumberFormat)
    requires ':' !in k && '|' !in nf.threeDecimals(d)
    ensures ParseLine(StatsDString(Timing(k, d), nf)) == Some(WireLine(k, nf.threeDecimals(d), "ms", None))
    ensures StatSiteString(Timing(k, d), nf) == StatsDString(Timing(k, d), nf)
  {
    ParsePlain(k, nf.threeDecimals(d), "ms");
    assert StatsDString(Timing(k, d), nf) == k + ":" + nf.threeDecimals(d) + "|" + "ms";
  }

  lemma SampleLine(k: string, v: Double, f: Double, nf: NumberFormat)
    requires ':' !in k && '|' !in nf.threeDecimals(v) && '|' !in nf.fixedPoint(f)
    ensures ParseLine(StatsDString(Sample(k, v, f), nf))
         == Some(WireLine(k, nf.threeDecimals(v), "c", Some(nf.fixedPoint(f))))
    ensures StatSiteString(Sample(k, v, f), nf) == StatsDString(Sample(k, v, f), nf)
  {
    ParseFlagged(k, nf.threeDecimals(v), "c", nf.fixedPoint(f));
    assert StatsDString(Sample(k, v, f), nf) == k + ":" + nf.threeDecimals(v) + "|" + "c" + "|@" + nf.fixedPoint(f);
  }

  lemma KeyValueLine(k: string, v: Double, t: Option<DateTime>, nf: NumberFormat)
    requires ':' !in k && '|' !in nf.threeDecimals(v) && (t.Some? ==> '|' !in nf.unixTime(t.value))
    ensures ParseLine(StatSiteString(KeyValue(k, v, t), nf))
         == Some(WireLine(k, nf.threeDecimals(v), "kv", if t.Some? then Some(nf.unixTime(t.value)) else None))
  {
    if t.Some? {
      ParseFlagged(k, nf.threeDecimals(v), "kv", nf.unixTime(t.value));
      assert StatSiteString(KeyValue(k, v, t), nf) == k + ":" + nf.threeDecimals(v) + "|" + "kv" + "|@" + nf.unixTime(t.value);
    } else {
      ParsePlain(k, nf.threeDecimals(v), "kv");
      assert StatSiteString(KeyValue(k, v, t), nf) == k + ":" + nf.threeDecimals(v) + "|" + "kv";
    }
  }

  /** In Statsite the kind and flag of a line tell the variant apart. */
  lemma StatSiteKindIdentifiesVariant(m: Metric, nf: NumberFormat)
    requires ':' !in m.key && PipeFree(nf)
    ensures var p := ParseLine(Render(m, StatSite, nf));
      p.Some? && var w := p.value;
      && (m.Counter? <==> w.kind == "c" && w.flag.None?)
      && (m.Sample? <==> w.kind == "c" && w.flag.Some?)
      && (m.Timing? <==> w.kind == "ms")
      && (m.KeyValue? <==> w.kind == "kv")
  {
    RenderRoundTrip(m, StatSite, nf);
  }

  /** In StatsD a KeyValue and a Timing of the same key and value render the
      same line, whatever the timestamp. */
  lemma StatsDKeyValueIsTiming(k: string, v: Double, t: Option<DateTime>, nf: NumberFormat)
    ensures Render(KeyValue(k, v, t), StatsD, nf) == Render(Timing(k, v), StatsD, nf)
  {
  }

  /** Counters, timings and samples render identically in both formats. */
  lemma FormatsAgree(m: Metric, nf: NumberFormat)
    requires !m.KeyValue?
    ensures Render(m, StatsD, nf) == Render(m, StatSite, nf)
  {
  }

  /** A non-empty valid prefix becomes part of the parsed name. */
  lemma PrefixedRoundTrip(m: Metric, prefix: string, format: MetricFormat, nf: NumberFormat)
    requires ':' !in m.key && PipeFree(nf)
    requires prefix != "" && KeyHelper.IsValidKey(Some(prefix))
    ensures var r := ToString(Some(m), Some(prefix), format, nf);
      r.Ok? && ParseLine(r.value) == Some(Expected(m, format, nf).(name := prefix + "." + m.key))
  {
    KeyHelper.ValidKeyNoDelimiters(prefix);
    assert ':' in KeyHelper.PatternExcluded;
    RenderRoundTrip(m, format, nf);
    ParsePrefixed(prefix + ".", Render(m, format, nf));
  }

  /** As written, the prefix "ab\n" is accepted, so the line sent starts
      with a newline-terminated fragment that the collector reads as a line
      of its own. */
  lemma NewlinePrefixAccepted(m: Metric, format: MetricFormat, nf: NumberFormat)
    ensures var r := ToString(Some(m), Some("ab\n"), format, nf);
      r == Ok("ab\n" + "." + Render(m, format, nf)) && r.value[2] == '\n'
  {
    KeyHelper.TrailingNewlineAcceptedAsWritten();
  }

  /** Under the intended key rule a prefix is accepted by the check as
      written too, and it puts no newline in front of the metric. */
  lemma IntendedPrefixHasNoNewline(m: Metric, prefix: string, format: MetricFormat, nf: NumberFormat)
    requires prefix != "" && KeyHelper.IsValidKeyIntended(Some(prefix))
    ensures var r := ToString(Some(m), Some(prefix), format, nf);
      r.Ok? && r.value == prefix + "." + Render(m, format, nf) && '\n' !in r.value[..|prefix| + 1]
  {
    KeyHelper.AsWrittenVersusIntended(Some(prefix));
    KeyHelper.ValidKeyCharacters(prefix);
    var r := ToString(Some(m), Some(prefix), format, nf);
    assert r.value[..|prefix| + 1] == prefix + ".";
  }

  /** Text in front of a line that has no ':' joins the parsed name. */
  lemma ParsePrefixed(p: string, line: string)
    requires ':' !in p && ParseLine(line).Some?
    ensures ParseLine(p + line) == Some(ParseLine(line).value.(name := p + ParseLine(line).value.name))
  {
    var k := IndexOf(line, ':');
    PrefixIndexOf(p, line, ':');
    assert (p + line)[..|p| + k] == p + line[..k];
    assert (p + line)[|p| + k + 1..] == line[k + 1..];
  }

  lemma {:induction false} PrefixIndexOf(p: string, s: string, c: char)
    requires c !in p
    ensures IndexOf(p + s, c) == |p| + IndexOf(s, c)
    decreases |p|
  {
    if p != [] {
      assert (p + s)[1..] == p[1..] + s;
      PrefixIndexOf(p[1..], s, c);
    } else {
      assert p + s == s;
    }
  }

  /** Scenario: counter "hits" by 5 is "hits:5|c" in both formats. */
  lemma CounterScenario(nf: NumberFormat)
    ensures Render(Counter("hits", 5), StatsD, nf) == "hits:5|c"
    ensures Render(Counter("hits", 5), StatSite, nf) == "hits:5|c"
  {
    assert IntToString(5) == "5";
  }
}

/**
 The metadata text of a working directory and the two field parsers that read it back
 without a JSON library: a parser looks for the first occurrence of a quoted key.
 */
module Metadata {
  import Bytes
  import Disk
  import opened Wrappers

  const FORMAT_VERSION := 1
  const INDEX_BACKEND := "bpann_disk"

  // ---- Printing ------------------------------------------------------------

  predicate IsDigit(c: char) {
    '0' <= c <= '9'
  }

  predicate AllDigits(s: string) {
    forall i | 0 <= i < |s| :: IsDigit(s[i])
  }

  function Decimal(n: nat): (s: string)
    ensures |s| > 0 && AllDigits(s)
  {
    var last := [('0' as int + n % 10) as char];
    if n < 10 then last else Decimal(n / 10) + last
  }

  function Key(name: string, value: string): string {
    "\"" + name + "\":" + value
  }

  function Text(m: Disk.Metadata): string {
    "{" + Key("format_version", Decimal(FORMAT_VERSION)) + ","
    + Key("num_obs", Decimal(m.numObs)) + ","
    + Key("num_dim", Decimal(m.numDim)) + ","
    + Key("num_metrics", Decimal(m.numMetrics)) + ","
    + Key("scale_x", if m.scaleX then "true" else "false") + ","
    + Key("index_backend", "\"" + INDEX_BACKEND + "\"") + ","
    + Key("indexed_rows", Decimal(m.indexedRows)) + "}"
  }

  // ---- Parsing -------------------------------------------------------------

  /** What follows the first occurrence of `needle`. */
  function After(text: string, needle: string): Option<string> {
    if |text| < |needle| then None
    else if text[..|needle|] == needle then Some(text[|needle|..])
    else if text == "" then None
    else After(text[1..], needle)
  }

  predicate IsSpace(c: char) {
    || '\t' <= c <= '\r' || c == ' '
    || c as int in {0x85, 0xA0, 0x1680, 0x2028, 0x2029, 0x202F, 0x205F, 0x3000} || 0x2000 <= c as int <= 0x200A
  }

  function TrimStart(s: string): string {
    if s != "" && IsSpace(s[0]) then TrimStart(s[1..]) else s
  }

  function LeadingDigits(s: string): (d: string)
    ensures AllDigits(d)
  {
    if s == "" || !IsDigit(s[0]) then "" else [s[0]] + LeadingDigits(s[1..])
  }

  function Value(s: string): nat
    requires AllDigits(s)
  {
    if s == "" then 0 else Value(s[..|s| - 1]) * 10 + (s[|s| - 1] as int - '0' as int)
  }

  /** No digits, or a number that does not fit in 64 bits, is no number. */
  function ParseUsize(s: string): Option<nat>
    requires AllDigits(s)
  {
    if s == "" || Value(s) >= 0x1_0000_0000_0000_0000 then None else Some(Value(s))
  }

  function UsizeField(text: string, field: string): Option<nat> {
    match After(text, "\"" + field + "\"" + ":")
    case None => None
    case Some(tail) => ParseUsize(LeadingDigits(TrimStart(tail)))
  }

  function UpToQuote(s: string): Option<string> {
    if s == "" then None
    else if s[0] == '\"' then Some("")
    else match UpToQuote(s[1..]) case None => None case Some(v) => Some([s[0]] + v)
  }

  function StringField(text: string, field: string): Option<string> {
    match After(text, "\"" + field + "\"" + ":\"")
    case None => None
    case Some(tail) => UpToQuote(tail)
  }

  /** How `reopen` reads the scaling flag. */
  predicate SaysScaled(text: string) {
    After(text, "\"" + "scale_x" + "\"" + ":true").Some?
  }

  // ---- Texts as runs between quotation marks ---------------------------------

  ghost predicate QuoteFree(s: string) {
    '\"' !in s
  }

  function Join(runs: seq<string>): string
    requires runs != []
  {
    if |runs| == 1 then runs[0] else runs[0] + "\"" + Join(runs[1..])
  }

  lemma {:induction false} JoinSnoc(runs: seq<string>, last: string)
    requires runs != []
    ensures Join(runs + [last]) == Join(runs) + "\"" + last
  {
    var all := runs + [last];
    if |runs| == 1 {
      assert all[1..] == [last];
    } else {
      JoinSnoc(runs[1..], last);
      assert all[1..] == runs[1..] + [last];
    }
  }

  /** One more key in the text is two more runs: its name, and what follows up to the next quotation mark. */
  lemma JoinKey(runs: seq<string>, name: string, value: string, sep: string)
    requires runs != []
    ensures Join(runs) + Key(name, value) + sep == Join(runs + [name, ":" + value + sep])
  {
    var last := ":" + value + sep;
    JoinSnoc(runs, name);
    JoinSnoc(runs + [name], last);
    assert runs + [name, last] == runs + [name] + [last];
    assert "\":" == "\"" + ":";
    assert Join(runs) + Key(name, value) + sep == Join(runs) + "\"" + name + "\"" + last;
  }

  /** The first occurrence of a quoted field name, looked for among the runs. */
  function Locate(runs: seq<string>, field: string, after: string): Option<string>
    requires runs != []
  {
    if |runs| <= 2 then None
    else if runs[1] == field && after <= Join(runs[2..]) then Some(Join(runs[2..])[|after|..])
    else Locate(runs[1..], field, after)
  }

  lemma {:induction false} SkipsQuoteFree(run: string, rest: string, needle: string)
    requires QuoteFree(run) && |needle| > 1 && needle[0] == '\"'
    ensures After(run + rest, needle) == After(rest, needle)
  {
    var text := run + rest;
    if run == "" {
      assert text == rest;
    } else {
      SkipsQuoteFree(run[1..], rest, needle);
      assert text[1..] == run[1..] + rest;
      assert text[0] != needle[0];
      if |text| >= |needle| {
        assert text[..|needle|][0] == text[0];
      }
    }
  }

  lemma FirstQuote(a: string, x: string, b: string, y: string)
    requires a + "\"" + x == b + "\"" + y
    ensures |a| < |b| ==> b[|a|] == '\"'
  {
    var left, right := a + "\"" + x, b + "\"" + y;
    assert left[|a|] == '\"';
    assert |a| < |b| ==> right[|a|] == b[|a|];
  }

  /** Two texts that agree up to a quotation mark agree in the runs before it. */
  lemma SameRun(a: string, x: string, b: string, y: string)
    requires QuoteFree(a) && QuoteFree(b)
    requires a + "\"" + x == b + "\"" + y
    ensures a == b && x == y
  {
    FirstQuote(a, x, b, y);
    FirstQuote(b, y, a, x);
    var left, right := a + "\"" + x, b + "\"" + y;
    assert left[..|a|] == a && right[..|b|] == b;
    assert left[|a| + 1..] == x && right[|b| + 1..] == y;
  }

  /** At a quotation mark the needle matches exactly when the next run is the field and `after` follows. */
  lemma MatchesAtQuote(run: string, rest: string, field: string, after: string)
    requires QuoteFree(run) && QuoteFree(field)
    ensures var text, needle := "\"" + run + "\"" + rest, "\"" + field + "\"" + after;
      && (needle <= text <==> run == field && after <= rest)
      && (needle <= text ==> text[|needle|..] == rest[|after|..])
  {
    var text, needle := "\"" + run + "\"" + rest, "\"" + field + "\"" + after;
    if needle <= text {
      var more := text[|needle|..];
      assert text == needle + more;
      assert text[1..] == run + "\"" + rest;
      assert (needle + more)[1..] == field + "\"" + (after + more);
      SameRun(run, rest, field, after + more);
    }
    if run == field && after <= rest {
      assert rest == after + rest[|after|..];
      assert text == needle + rest[|after|..];
    }
  }

  /** The last run has no quotation mark after it, so nothing matches in it. */
  lemma NoMatchInLast(run: string, field: string, after: string)
    requires QuoteFree(run)
    ensures After("\"" + run, "\"" + field + "\"" + after) == None
  {
    var text, needle := "\"" + run, "\"" + field + "\"" + after;
    assert text[1..] == run + "";
    SkipsQuoteFree(run, "", needle);
    if |text| >= |needle| {
      assert needle[|field| + 1] == '\"' && text[|field| + 1] == run[|field|];
      assert text[..|needle|][|field| + 1] == text[|field| + 1];
    }
  }

  lemma {:induction false} AfterJoin(runs: seq<string>, field: string, after: string)
    requires runs != [] && QuoteFree(field) && forall i | 0 <= i < |runs| :: QuoteFree(runs[i])
    ensures After(Join(runs), "\"" + field + "\"" + after) == Locate(runs, field, after)
  {
    var needle := "\"" + field + "\"" + after;
    if |runs| == 1 {
      assert Join(runs) == runs[0] + "";
      SkipsQuoteFree(runs[0], "", needle);
    } else {
      var rest := Join(runs[1..]);
      assert Join(runs) == runs[0] + ("\"" + rest);
      SkipsQuoteFree(runs[0], "\"" + rest, needle);
      if |runs| == 2 {
        NoMatchInLast(runs[1], field, after);
      } else {
        assert "\"" + rest == "\"" + runs[1] + "\"" + Join(runs[1..][1..]);
        assert runs[1..][1..] == runs[2..];
        MatchesAtQuote(runs[1], Join(runs[2..]), field, after);
        AfterJoin(runs[1..], field, after);
        StepsPastQuote(rest, needle);
      }
    }
  }

  lemma StepsPastQuote(rest: string, needle: string)
    requires needle != ""
    ensures After("\"" + rest, needle) == if needle <= "\"" + rest then Some(("\"" + rest)[|needle|..]) else After(rest, needle)
  {
    var text := "\"" + rest;
    assert text[1..] == rest;
  }

  lemma {:induction false} LocateAt(runs: seq<string>, field: string, after: string, i: nat)
    requires 0 < i && i + 1 < |runs| && runs[i] == field && after <= Join(runs[i + 1..])
    requires forall j | 0 < j < i :: runs[j] != field
    ensures Locate(runs, field, after) == Some(Join(runs[i + 1..])[|after|..])
    decreases i
  {
    if i > 1 {
      assert runs[1..][i..] == runs[i + 1..];
      LocateAt(runs[1..], field, after, i - 1);
    }
  }

  lemma {:induction false} LocateNowhere(runs: seq<string>, field: string, after: string)
    requires runs != [] && forall i | 0 < i < |runs| - 1 && runs[i] == field :: !(after <= Join(runs[i + 1..]))
    ensures Locate(runs, field, after) == None
  {
    if |runs| > 2 {
      var tail := runs[1..];
      forall i | 0 < i < |tail| - 1 && tail[i] == field ensures !(after <= Join(tail[i + 1..])) {
        assert tail[i + 1..] == runs[i + 2..];
        assert runs[i + 1] == field;
      }
      LocateNowhere(tail, field, after);
    }
  }

  // ---- Decimals --------------------------------------------------------------

  lemma {:induction false} ValueOfDecimal(n: nat)
    ensures Value(Decimal(n)) == n
  {
    var s := Decimal(n);
    if n >= 10 {
      ValueOfDecimal(n / 10);
      assert s[..|s| - 1] == Decimal(n / 10);
    } else {
      assert s[..0] == "";
    }
  }

  lemma {:induction false} DigitsThenStop(d: string, rest: string)
    requires AllDigits(d) && (rest == "" || !IsDigit(rest[0]))
    ensures LeadingDigits(d + rest) == d
  {
    if d == "" {
      assert d + rest == rest;
    } else {
      DigitsThenStop(d[1..], rest);
      assert (d + rest)[1..] == d[1..] + rest;
      assert [d[0]] + d[1..] == d;
    }
  }

  /** Cutting digits off the end never makes a number larger. */
  lemma {:induction false} PrefixValue(d: string, k: nat)
    requires AllDigits(d) && k <= |d|
    ensures Value(d[..k]) <= Value(d)
    decreases |d|
  {
    if k < |d| {
      PrefixValue(d[..|d| - 1], k);
      assert d[..|d| - 1][..k] == d[..k];
    } else {
      assert d[..k] == d;
    }
  }

  lemma ReadsNumber(n: nat, rest: string)
    requires n < 0x1_0000_0000_0000_0000 && rest != "" && !IsDigit(rest[0])
    ensures ParseUsize(LeadingDigits(TrimStart(Decimal(n) + rest))) == Some(n)
  {
    var text := Decimal(n) + rest;
    assert IsDigit(text[0]);
    DigitsThenStop(Decimal(n), rest);
    ValueOfDecimal(n);
  }

  // ---- The round trip --------------------------------------------------------

  function Runs(m: Disk.Metadata): (runs: seq<string>)
    ensures |runs| == 17
  {
    ["{"]
    + ["format_version", ":" + Decimal(FORMAT_VERSION) + ","]
    + ["num_obs", ":" + Decimal(m.numObs) + ","]
    + ["num_dim", ":" + Decimal(m.numDim) + ","]
    + ["num_metrics", ":" + Decimal(m.numMetrics) + ","]
    + ["scale_x", ":" + (if m.scaleX then "true" else "false") + ","]
    + ["index_backend", ":", INDEX_BACKEND, ","]
    + ["indexed_rows", ":" + Decimal(m.indexedRows) + "}"]
  }

  lemma TextIsJoin(m: Disk.Metadata)
    ensures Text(m) == Join(Runs(m))
  {
    var r1: seq<string> := ["{"];
    var r2 := r1 + ["format_version", ":" + Decimal(FORMAT_VERSION) + ","];
    var r3 := r2 + ["num_obs", ":" + Decimal(m.numObs) + ","];
    var r4 := r3 + ["num_dim", ":" + Decimal(m.numDim) + ","];
    var r5 := r4 + ["num_metrics", ":" + Decimal(m.numMetrics) + ","];
    var r6 := r5 + ["scale_x", ":" + (if m.scaleX then "true" else "false") + ","];
    JoinKey(r1, "format_version", Decimal(FORMAT_VERSION), ",");
    JoinKey(r2, "num_obs", Decimal(m.numObs), ",");
    JoinKey(r3, "num_dim", Decimal(m.numDim), ",");
    JoinKey(r4, "num_metrics", Decimal(m.numMetrics), ",");
    JoinKey(r5, "scale_x", if m.scaleX then "true" else "false", ",");
    JoinString(r6, "index_backend", INDEX_BACKEND, ",");
    JoinKey(r6 + ["index_backend", ":", INDEX_BACKEND, ","], "indexed_rows", Decimal(m.indexedRows), "}");
  }

  lemma JoinString(runs: seq<string>, name: string, value: string, sep: string)
    requires runs != []
    ensures Join(runs) + Key(name, "\"" + value + "\"") + sep == Join(runs + [name, ":", value, sep])
  {
    JoinSnoc(runs, name);
    JoinSnoc(runs + [name], ":");
    JoinSnoc(runs + [name] + [":"], value);
    JoinSnoc(runs + [name] + [":"] + [value], sep);
    assert runs + [name, ":", value, sep] == runs + [name] + [":"] + [value] + [sep];
    assert "\":" == "\"" + ":";
    assert Join(runs) + Key(name, "\"" + value + "\"") + sep
        == Join(runs) + "\"" + name + "\"" + ":" + "\"" + value + "\"" + sep;
  }

  lemma NumberQuoteFree(n: nat, sep: string)
    requires QuoteFree(sep)
    ensures QuoteFree(":" + Decimal(n) + sep)
  {
  }

  lemma RunsQuoteFree(m: Disk.Metadata)
    ensures forall i | 0 <= i < 17 :: QuoteFree(Runs(m)[i])
  {
    NumberQuoteFree(FORMAT_VERSION, ",");
    NumberQuoteFree(m.numObs, ",");
    NumberQuoteFree(m.numDim, ",");
    NumberQuoteFree(m.numMetrics, ",");
    NumberQuoteFree(m.indexedRows, "}");
    var flag := ":" + (if m.scaleX then "true" else "false") + ",";
    assert QuoteFree(flag);
    forall i | 0 <= i < 17 ensures QuoteFree(Runs(m)[i]) {
    }
  }

  /** A run that equals no other. */
  ghost predicate OnlyAt(runs: seq<string>, i: nat) {
    forall j | 0 <= j < |runs| && j != i :: i < |runs| && runs[j] != runs[i]
  }

  lemma KeysDiffer(m: Disk.Metadata)
    ensures var r := Runs(m);
      && r[3] == "num_obs" && r[5] == "num_dim" && r[7] == "num_metrics" && r[9] == "scale_x"
      && r[11] == "index_backend" && r[15] == "indexed_rows"
      && forall i: nat | i in {3, 5, 7, 9, 11, 15} :: OnlyAt(r, i)
  {
    var r := Runs(m);
    assert r[3][4] == 'o' && r[5][4] == 'd' && r[9][4] == 'e';
    forall j | j in {2, 4, 6, 8, 10, 12, 16} ensures r[j][0] == ':' {
    }
    assert |r[1]| == 14 && |r[3]| == |r[5]| == |r[9]| == 7 && |r[7]| == 11 && |r[11]| == 13 && |r[13]| == 10 && |r[15]| == 12;
    assert r[3][0] == 'n' && r[5][0] == 'n' && r[7][0] == 'n' && r[9][0] == 's' && r[11][0] == 'i' && r[15][0] == 'i';
  }

  /** What follows a numeric key. */
  lemma NumberTail(runs: seq<string>, i: nat, field: string, n: nat, sep: string) returns (more: string)
    requires 0 < i && i + 1 < |runs| && runs[i] == field && runs[i + 1] == ":" + Decimal(n) + sep
    requires forall j | 0 <= j < |runs| :: QuoteFree(runs[j])
    requires OnlyAt(runs, i) && sep != "" && !IsDigit(sep[0])
    ensures more != "" && !IsDigit(more[0])
    ensures After(Join(runs), "\"" + field + "\"" + ":") == Some(Decimal(n) + more)
  {
    var rest := Join(runs[i + 1..]);
    more := rest[1 + |Decimal(n)|..];
    JoinStarts(runs[i + 1..]);
    assert rest == ":" + (Decimal(n) + more) && more != "" && more[0] == sep[0] && ":" <= rest;
    AfterJoin(runs, field, ":");
    LocateAt(runs, field, ":", i);
  }

  lemma NumberAt(runs: seq<string>, i: nat, field: string, n: nat, sep: string)
    requires 0 < i && i + 1 < |runs| && runs[i] == field && runs[i + 1] == ":" + Decimal(n) + sep
    requires forall j | 0 <= j < |runs| :: QuoteFree(runs[j])
    requires OnlyAt(runs, i) && sep != "" && !IsDigit(sep[0]) && n < 0x1_0000_0000_0000_0000
    ensures UsizeField(Join(runs), field) == Some(n)
  {
    var more := NumberTail(runs, i, field, n, sep);
    ReadsNumber(n, more);
  }

  lemma JoinStarts(runs: seq<string>)
    requires runs != []
    ensures runs[0] <= Join(runs)
  {
  }

  /** Every number of the metadata text is read back as it was printed. */
  lemma NumbersReadBack(m: Disk.Metadata)
    ensures var limit := 0x1_0000_0000_0000_0000;
      && (m.numObs < limit ==> UsizeField(Text(m), "num_obs") == Some(m.numObs))
      && (m.numDim < limit ==> UsizeField(Text(m), "num_dim") == Some(m.numDim))
      && (m.numMetrics < limit ==> UsizeField(Text(m), "num_metrics") == Some(m.numMetrics))
      && (m.indexedRows < limit ==> UsizeField(Text(m), "indexed_rows") == Some(m.indexedRows))
  {
    var r, limit := Runs(m), 0x1_0000_0000_0000_0000;
    TextIsJoin(m);
    RunsQuoteFree(m);
    KeysDiffer(m);
    if m.numObs < limit {
      NumberAt(r, 3, "num_obs", m.numObs, ",");
    }
    if m.numDim < limit {
      NumberAt(r, 5, "num_dim", m.numDim, ",");
    }
    if m.numMetrics < limit {
      NumberAt(r, 7, "num_metrics", m.numMetrics, ",");
    }
    if m.indexedRows < limit {
      NumberAt(r, 15, "indexed_rows", m.indexedRows, "}");
    }
  }

  lemma {:induction false} RunUpToQuote(run: string, rest: string)
    requires QuoteFree(run)
    ensures UpToQuote(run + "\"" + rest) == Some(run)
  {
    var text := run + "\"" + rest;
    if run != "" {
      RunUpToQuote(run[1..], rest);
      assert text[1..] == run[1..] + "\"" + rest;
      assert [run[0]] + run[1..] == run;
    }
  }

  /** The index kind is read back as it was printed. */
  lemma BackendReadsBack(m: Disk.Metadata)
    ensures StringField(Text(m), "index_backend") == Some(INDEX_BACKEND)
  {
    var r := Runs(m);
    TextIsJoin(m);
    RunsQuoteFree(m);
    KeysDiffer(m);
    StringAt(r, 11, "index_backend", INDEX_BACKEND);
  }

  lemma StringAt(runs: seq<string>, i: nat, field: string, value: string)
    requires 0 < i && i + 3 < |runs| && runs[i] == field && runs[i + 1] == ":" && runs[i + 2] == value
    requires forall j | 0 <= j < |runs| :: QuoteFree(runs[j])
    requires OnlyAt(runs, i)
    ensures StringField(Join(runs), field) == Some(value)
  {
    var rest, quoted, more := Join(runs[i + 1..]), Join(runs[i + 2..]), Join(runs[i + 3..]);
    assert runs[i + 1..][1..] == runs[i + 2..] && runs[i + 2..][1..] == runs[i + 3..];
    assert rest == ":\"" + quoted by {
      assert rest == ":" + "\"" + quoted;
    }
    AfterJoin(runs, field, ":\"");
    LocateAt(runs, field, ":\"", i);
    assert quoted == value + "\"" + more;
    RunUpToQuote(value, more);
  }

  /** The flag is seen exactly when it was printed as true. */
  lemma ScalingReadsBack(m: Disk.Metadata)
    ensures SaysScaled(Text(m)) <==> m.scaleX
  {
    var r := Runs(m);
    TextIsJoin(m);
    RunsQuoteFree(m);
    KeysDiffer(m);
    assert OnlyAt(r, 9);
    AfterJoin(r, "scale_x", ":true");
    JoinStarts(r[10..]);
    assert r[10] == (if m.scaleX then ":true," else ":false,");
    if m.scaleX {
      assert ":true" <= ":true,";
      LocateAt(r, "scale_x", ":true", 9);
    } else {
      var rest := Join(r[10..]);
      assert rest[1] == 'f' && ":true"[1] == 't';
      LocateNowhere(r, "scale_x", ":true");
    }
  }

  // ---- A write that was cut short --------------------------------------------

  lemma {:induction false} AfterPrefix(p: string, text: string, needle: string)
    requires p <= text && After(p, needle).Some?
    ensures After(text, needle).Some? && After(p, needle).value <= After(text, needle).value
  {
    if p[..|needle|] == needle {
      assert text[..|needle|] == p[..|needle|];
    } else {
      assert text[..|needle|] == p[..|needle|];
      AfterPrefix(p[1..], text[1..], needle);
    }
  }

  lemma DigitsOfPrefix(n: nat, more: string, t: string)
    requires more != "" && !IsDigit(more[0]) && t <= Decimal(n) + more
    ensures Value(LeadingDigits(TrimStart(t))) <= n
  {
    ValueOfDecimal(n);
    if t != "" {
      assert t[0] == Decimal(n)[0];
      CutNumber(Decimal(n), more, t);
    }
  }

  lemma CutNumber(d: string, more: string, t: string)
    requires AllDigits(d) && more != "" && !IsDigit(more[0]) && t <= d + more
    ensures Value(LeadingDigits(t)) <= Value(d)
  {
    if |t| <= |d| {
      assert t == d[..|t|] && t + "" == t;
      DigitsThenStop(t, "");
      PrefixValue(d, |t|);
    } else {
      var rest := t[|d|..];
      assert t == d + rest && rest[0] == more[0];
      DigitsThenStop(d, rest);
    }
  }

  /** Whatever part of the metadata text reached the disk, it never promises more rows than were recorded. */
  lemma TornTextNeverOvercounts(m: Disk.Metadata, p: string)
    requires p <= Text(m)
    ensures match UsizeField(p, "num_obs") case None => true case Some(n) => n <= m.numObs
    ensures match UsizeField(p, "indexed_rows") case None => true case Some(n) => n <= m.indexedRows
  {
    var r := Runs(m);
    TextIsJoin(m);
    RunsQuoteFree(m);
    KeysDiffer(m);
    TornNumber(r, 3, "num_obs", m.numObs, ",", p);
    TornNumber(r, 15, "indexed_rows", m.indexedRows, "}", p);
  }

  lemma TornNumber(runs: seq<string>, i: nat, field: string, n: nat, sep: string, p: string)
    requires 0 < i && i + 1 < |runs| && runs[i] == field && runs[i + 1] == ":" + Decimal(n) + sep
    requires forall j | 0 <= j < |runs| :: QuoteFree(runs[j])
    requires OnlyAt(runs, i) && sep != "" && !IsDigit(sep[0]) && p <= Join(runs)
    ensures match UsizeField(p, field) case None => true case Some(v) => v <= n
  {
    var needle := "\"" + field + "\"" + ":";
    var more := NumberTail(runs, i, field, n, sep);
    if After(p, needle).Some? {
      AfterPrefix(p, Join(runs), needle);
      DigitsOfPrefix(n, more, After(p, needle).value);
    }
  }

  /** Of a cut text what follows a key is cut by as much; it is found as long as the key is whole. */
  lemma {:induction false} AfterCut(p: string, text: string, needle: string)
    requires p <= text && After(text, needle).Some?
    ensures |needle| + |After(text, needle).value| <= |text|
    ensures After(p, needle).Some? <==> |p| + |After(text, needle).value| >= |text|
    ensures After(p, needle).Some? ==>
      After(p, needle).value == After(text, needle).value[..|p| + |After(text, needle).value| - |text|]
  {
    if text[..|needle|] == needle {
      if |p| >= |needle| {
        assert p[..|needle|] == text[..|needle|];
      }
    } else {
      if p == "" {
        AfterCut("", text[1..], needle);
      } else {
        AfterCut(p[1..], text[1..], needle);
        assert |p| >= |needle| ==> p[..|needle|] == text[..|needle|];
      }
    }
  }

  /** Fewer digits are a smaller number. */
  lemma FewerDigits(n: nat, k: nat)
    requires k < |Decimal(n)|
    ensures 0 < k ==> Value(Decimal(n)[..k]) < n
  {
    var d := Decimal(n);
    if 0 < k {
      assert d[..|d| - 1] == Decimal(n / 10) && d[..|d| - 1][..k] == d[..k];
      ValueOfDecimal(n / 10);
      PrefixValue(d[..|d| - 1], k);
    }
  }

  lemma CutDecimal(n: nat, more: string, t: string)
    requires n < 0x1_0000_0000_0000_0000 && more != "" && !IsDigit(more[0]) && t <= Decimal(n) + more
    ensures ParseUsize(LeadingDigits(TrimStart(t))) == Some(n) <==> |t| >= |Decimal(n)|
  {
    if |t| < |Decimal(n)| {
      FewerDigits(n, |t|);
      CutDigits(Decimal(n), more, t, |t|);
    } else {
      ValueOfDecimal(n);
      CutDigits(Decimal(n), more, t, |Decimal(n)|);
      assert Decimal(n)[..|Decimal(n)|] == Decimal(n);
    }
  }

  lemma CutDigits(d: string, more: string, t: string, k: nat)
    requires AllDigits(d) && d != "" && more != "" && !IsDigit(more[0]) && t <= d + more
    requires k == if |t| < |d| then |t| else |d|
    ensures LeadingDigits(TrimStart(t)) == d[..k]
  {
    var rest := t[k..];
    assert t == d[..k] + rest;
    assert rest != "" ==> rest[0] == more[0];
    NothingToTrim(d, more, t);
    DigitsThenStop(d[..k], rest);
  }

  lemma NothingToTrim(d: string, more: string, t: string)
    requires AllDigits(d) && d != "" && t <= d + more
    ensures TrimStart(t) == t
  {
    assert t != "" ==> t[0] == d[0];
  }

  lemma {:induction false} JoinAppend(a: seq<string>, b: seq<string>)
    requires a != [] && b != []
    ensures Join(a + b) == Join(a) + "\"" + Join(b)
  {
    if |a| == 1 {
      assert (a + b)[1..] == b;
    } else {
      JoinAppend(a[1..], b);
      assert (a + b)[1..] == a[1..] + b;
    }
  }

  /** A number is read back from a cut text exactly when its last digit is there. */
  lemma TornNumberExactly(runs: seq<string>, i: nat, field: string, n: nat, sep: string, p: string)
    requires 0 < i && i + 1 < |runs| && runs[i] == field && runs[i + 1] == ":" + Decimal(n) + sep
    requires forall j | 0 <= j < |runs| :: QuoteFree(runs[j])
    requires OnlyAt(runs, i) && sep != "" && !IsDigit(sep[0]) && p <= Join(runs) && n < 0x1_0000_0000_0000_0000
    ensures UsizeField(p, field) == Some(n) <==> |p| >= |Join(runs[..i + 1])| + 2 + |Decimal(n)|
    ensures UsizeField(p, field).Some? ==> |p| >= |Join(runs[..i + 1])| + 2
  {
    var needle := "\"" + field + "\"" + ":";
    var more := NumberTail(runs, i, field, n, sep);
    NumberPlace(runs, i, field, n, sep);
    AfterCut(p, Join(runs), needle);
    if After(p, needle).Some? {
      CutDecimal(n, more, After(p, needle).value);
    }
  }

  lemma NumberPlace(runs: seq<string>, i: nat, field: string, n: nat, sep: string)
    requires 0 < i && i + 1 < |runs| && runs[i] == field && runs[i + 1] == ":" + Decimal(n) + sep
    requires (forall j | 0 <= j < |runs| :: QuoteFree(runs[j])) && OnlyAt(runs, i)
    ensures var after := After(Join(runs), "\"" + field + "\"" + ":");
      after.Some? && |Join(runs)| == |Join(runs[..i + 1])| + 2 + |after.value|
  {
    assert runs == runs[..i + 1] + runs[i + 1..];
    JoinAppend(runs[..i + 1], runs[i + 1..]);
    JoinStarts(runs[i + 1..]);
    assert ":" <= runs[i + 1] && ":" <= Join(runs[i + 1..]);
    AfterJoin(runs, field, ":");
    LocateAt(runs, field, ":", i);
  }

  /** The metadata text up to the number of metrics. */
  function DimensionsPart(m: Disk.Metadata): string {
    "{" + Key("format_version", Decimal(FORMAT_VERSION)) + ","
    + Key("num_obs", Decimal(m.numObs)) + ","
    + Key("num_dim", Decimal(m.numDim)) + ","
    + Key("num_metrics", Decimal(m.numMetrics))
  }

  lemma DimensionsJoin(m: Disk.Metadata)
    ensures DimensionsPart(m) + "," == Join(Runs(m)[..9]) && DimensionsPart(m) <= Text(m)
  {
    var r1: seq<string> := ["{"];
    var r2 := r1 + ["format_version", ":" + Decimal(FORMAT_VERSION) + ","];
    var r3 := r2 + ["num_obs", ":" + Decimal(m.numObs) + ","];
    var r4 := r3 + ["num_dim", ":" + Decimal(m.numDim) + ","];
    JoinKey(r1, "format_version", Decimal(FORMAT_VERSION), ",");
    JoinKey(r2, "num_obs", Decimal(m.numObs), ",");
    JoinKey(r3, "num_dim", Decimal(m.numDim), ",");
    JoinKey(r4, "num_metrics", Decimal(m.numMetrics), ",");
    assert Runs(m)[..9] == r4 + ["num_metrics", ":" + Decimal(m.numMetrics) + ","];
  }

  /** Where the two numbers end: the dimension's before the key of the metrics, the metrics' with that part. */
  lemma DimensionEnds(m: Disk.Metadata)
    ensures var r := Runs(m);
      && |Join(r[..6])| + 2 + |Decimal(m.numDim)| <= |Join(r[..8])|
      && |Join(r[..8])| + 2 + |Decimal(m.numMetrics)| == |DimensionsPart(m)|
  {
    var r := Runs(m);
    DimensionsJoin(m);
    JoinSnoc(r[..8], r[8]);
    JoinSnoc(r[..7], r[7]);
    JoinSnoc(r[..6], r[6]);
    assert r[..8] + [r[8]] == r[..9] && r[..7] + [r[7]] == r[..8] && r[..6] + [r[6]] == r[..7];
    assert |r[8]| == |Decimal(m.numMetrics)| + 2 && |r[6]| == |Decimal(m.numDim)| + 2;
  }

  /** Both dimensions are read back from a cut metadata text exactly when it reaches to the last digit of
      the number of metrics. A text that gives any number of metrics gives the right dimension, so the
      number of metrics is all that can be misread, and then as a smaller one. */
  lemma TornDimensions(m: Disk.Metadata, p: string)
    requires p <= Text(m) && Printable(m)
    ensures UsizeField(p, "num_dim") == Some(m.numDim) && UsizeField(p, "num_metrics") == Some(m.numMetrics)
       <==> DimensionsPart(m) <= p
    ensures UsizeField(p, "num_metrics").Some? ==>
      UsizeField(p, "num_dim") == Some(m.numDim) && UsizeField(p, "num_metrics").value <= m.numMetrics
  {
    var r := Runs(m);
    TextIsJoin(m);
    RunsQuoteFree(m);
    KeysDiffer(m);
    DimensionsJoin(m);
    DimensionEnds(m);
    TornNumberExactly(r, 5, "num_dim", m.numDim, ",", p);
    TornNumberExactly(r, 7, "num_metrics", m.numMetrics, ",", p);
    TornNumber(r, 7, "num_metrics", m.numMetrics, ",", p);
    SamePrefix(DimensionsPart(m), p, Text(m));
  }

  lemma SamePrefix(a: string, b: string, text: string)
    requires a <= text && b <= text
    ensures a <= b <==> |a| <= |b|
  {
  }

  // ---- What a directory reads from its metadata file -------------------------

  /** The text in a metadata file. */
  function FileText(file: Disk.MetaFile): string {
    if file.Whole? then Text(file.meta) else ""
  }

  predicate Printable(m: Disk.Metadata) {
    var limit := 0x1_0000_0000_0000_0000;
    m.numObs < limit && m.numDim < limit && m.numMetrics < limit && m.indexedRows < limit
  }

  /** The counts a directory goes by are those its files give when they are parsed, and the dimensions
      are found exactly in a whole metadata file. */
  lemma FilesReadBack(f: Disk.Files)
    requires f.metadata.Whole? ==> Printable(f.metadata.meta)
    ensures Disk.LoadNumObs(f) == Disk.LargerCount(f.numObsBin, UsizeField(FileText(f.metadata), "num_obs"))
    ensures f.indexedRowsBin.None? ==> Disk.LoadIndexedRows(f) == UsizeField(FileText(f.metadata), "indexed_rows")
    ensures UsizeField(FileText(f.metadata), "num_dim") == if f.metadata.Whole? then Some(f.metadata.meta.numDim) else None
    ensures UsizeField(FileText(f.metadata), "num_metrics") == if f.metadata.Whole? then Some(f.metadata.meta.numMetrics) else None
  {
    if f.metadata.Whole? {
      NumbersReadBack(f.metadata.meta);
    } else {
      NothingInEmpty("num_obs");
      NothingInEmpty("indexed_rows");
      NothingInEmpty("num_dim");
      NothingInEmpty("num_metrics");
    }
  }

  lemma NothingInEmpty(field: string)
    ensures UsizeField("", field) == None
  {
    assert |"\"" + field + "\"" + ":"| > 0;
  }

  /** Whatever part of its own text a metadata file holds, the directory counts at least what the sidecar
      counts and at most what the whole text would make it; all of that, if the sidecar counts as much. */
  lemma TornTextCommits(f: Disk.Files, p: string)
    requires f.metadata.Whole? && p <= Text(f.metadata.meta)
    ensures var n := Disk.OrZero(Disk.LargerCount(f.numObsBin, UsizeField(p, "num_obs")));
      && Disk.Sidecar(f) <= n <= Disk.Committed(f)
      && (Disk.Settled(f) ==> n == Disk.Committed(f))
  {
    TornTextNeverOvercounts(f.metadata.meta, p);
  }

  // ---- The binary sidecars ---------------------------------------------------

  /** A sidecar that does not have eight bytes is ignored. */
  function LoadSidecar(bytes: seq<Bytes.Byte>): Option<nat> {
    if |bytes| == 8 then Some(Bytes.Get(bytes, 0, 8)) else None
  }

  lemma EightBytes()
    ensures Bytes.Range(8) == 0x1_0000_0000_0000_0000
  {
    assert Bytes.Range(0) == 1 && Bytes.Range(1) == 256 && Bytes.Range(2) == 0x1_0000 && Bytes.Range(3) == 0x100_0000;
    assert Bytes.Range(4) == 0x1_0000_0000 && Bytes.Range(5) == 0x100_0000_0000 && Bytes.Range(6) == 0x1_0000_0000_0000;
    assert Bytes.Range(7) == 0x100_0000_0000_0000;
  }

  lemma SidecarReadsBack(n: nat)
    requires n < 0x1_0000_0000_0000_0000
    ensures LoadSidecar(Bytes.Le(8, n)) == Some(n)
  {
    ReadsWidth(8, n);
  }

  lemma ReadsWidth(width: nat, n: nat)
    requires width == 8 && n < 0x1_0000_0000_0000_0000
    ensures LoadSidecar(Bytes.Le(width, n)) == Some(n)
  {
    EightBytes();
    var b := Bytes.Le(width, n);
    Bytes.FieldReads(b, 0, width, n);
  }
}

/** The report arithmetic of src/main/java/Utils/ReportUtils.java: the counts
    and timing read from Allure's summary JSON, the duration fallback, the
    "N/A" rendering of absent instants and the "m min s sec" duration text. */
module ReportUtils {
  import opened JavaStrings
  import opened Results

  /** The numeric fields of a JSON object node. */
  type JsonObject = map<string, int>

  /** JsonNode.path(field).asInt() / asLong(): the field's value, or 0 when it
      is missing. */
  function NumberAt(node: JsonObject, field: string): (n: int)
    ensures field !in node ==> n == 0
    ensures field in node ==> n == node[field]
  {
    if field in node then node[field] else 0
  }

  datatype TestStats = TestStats(total: int, passed: int, failed: int, skipped: int)

  /** extractTestStats: the four counts, each 0 when the node lacks it. */
  function ExtractTestStats(node: JsonObject): (s: TestStats)
    ensures s.total == NumberAt(node, "total") && s.passed == NumberAt(node, "passed")
    ensures s.failed == NumberAt(node, "failed") && s.skipped == NumberAt(node, "skipped")
    ensures node == map[] ==> s == TestStats(0, 0, 0, 0)
  {
    TestStats(NumberAt(node, "total"), NumberAt(node, "passed"), NumberAt(node, "failed"), NumberAt(node, "skipped"))
  }

  /** A duration in milliseconds and the start and stop instants, absent
      (null) when not positive. */
  datatype TestTiming = TestTiming(duration: int, start: Option<int>, stop: Option<int>)

  /** extractTestTiming: the reported duration, replaced by stop - start
      exactly when it is 0 and the instants are positive and ordered. */
  function ExtractTestTiming(node: JsonObject): (t: TestTiming)
    ensures var d, s, e := NumberAt(node, "duration"), NumberAt(node, "start"), NumberAt(node, "stop");
            (t.duration != d <==> d == 0 && s > 0 && e > s) &&
            (t.duration != d ==> t.duration == e - s && t.duration > 0) &&
            (t.start.Some? <==> s > 0) && (t.start.Some? ==> t.start.value == s) &&
            (t.stop.Some? <==> e > 0) && (t.stop.Some? ==> t.stop.value == e)
  {
    var duration := NumberAt(node, "duration");
    var start := NumberAt(node, "start");
    var stop := NumberAt(node, "stop");
    var d := if duration == 0 && start > 0 && stop > start then stop - start else duration;
    TestTiming(d, if start > 0 then Some(start) else None, if stop > 0 then Some(stop) else None)
  }

  const LongMin: int := -0x8000_0000_0000_0000
  const LongMax: int := 0x7FFF_FFFF_FFFF_FFFF

  predicate IsLong(n: int) { LongMin <= n <= LongMax }

  /** The recomputed duration never overflows a long: with 0 < start < stop
      it lies strictly between 0 and stop. */
  lemma RecomputedDurationFits(node: JsonObject)
    requires IsLong(NumberAt(node, "duration")) && IsLong(NumberAt(node, "start")) && IsLong(NumberAt(node, "stop"))
    ensures IsLong(ExtractTestTiming(node).duration)
    ensures ExtractTestTiming(node).duration != NumberAt(node, "duration") ==>
              0 < ExtractTestTiming(node).duration < NumberAt(node, "stop")
  {
  }

  /** The Start and End cells of the summary: the formatted instant, or "N/A"
      when it is absent. The date formatter is a parameter. */
  function TimeCell(instant: Option<int>, format: int -> string): (cell: string)
    ensures instant.None? ==> cell == "N/A"
    ensures instant.Some? ==> cell == format(instant.value)
  {
    match instant
    case None => "N/A"
    case Some(millis) => format(millis)
  }

  /** A non-positive start renders as "N/A" whatever the formatter. */
  lemma NonPositiveStartIsNA(node: JsonObject, format: int -> string)
    requires NumberAt(node, "start") <= 0
    ensures TimeCell(ExtractTestTiming(node).start, format) == "N/A"
  {
  }

  /** Java's `/` on long: the quotient truncated toward zero. */
  function JavaDiv(a: int, b: int): int
    requires b > 0
  {
    if a >= 0 then a / b else -((-a) / b)
  }

  /** Java's `%` on long: the remainder carries the dividend's sign. */
  function JavaRem(a: int, b: int): int
    requires b > 0
  {
    a - b * JavaDiv(a, b)
  }

  /** Duration.ofMillis(millis).getSeconds(): the seconds rounded down. */
  function DurationSeconds(millis: int): int { millis / 1000 }

  /** Duration.toMinutes(): the seconds divided by 60, truncated. */
  function DurationMinutes(millis: int): int { JavaDiv(DurationSeconds(millis), 60) }

  /** getSeconds() % 60. */
  function SecondsPart(millis: int): int { JavaRem(DurationSeconds(millis), 60) }

  /** formatDuration: String.format("%d min %d sec", toMinutes(), getSeconds() % 60). */
  function FormatDuration(millis: int): string
  {
    IntToString(DurationMinutes(millis)) + " min " + IntToString(SecondsPart(millis)) + " sec"
  }

  /** For a non-negative duration the parts are the whole minutes and the
      remaining seconds, and they recombine into the whole seconds. */
  lemma DurationPartsNonNegative(millis: int)
    requires millis >= 0
    ensures DurationMinutes(millis) == millis / 60000
    ensures 0 <= SecondsPart(millis) < 60
    ensures DurationMinutes(millis) * 60 + SecondsPart(millis) == millis / 1000
  {
    var s := millis / 1000;
    assert s / 60 == millis / 60000 by {
      assert millis == 1000 * s + millis % 1000;
      assert s == 60 * (s / 60) + s % 60;
      assert millis == 60000 * (s / 60) + (1000 * (s % 60) + millis % 1000);
    }
  }

  /** For every duration, negative ones included, minutes and seconds
      recombine into the whole seconds, and the seconds part lies within
      (-60, 60) with the sign of the whole. */
  lemma DurationPartsRecombine(millis: int)
    ensures DurationMinutes(millis) * 60 + SecondsPart(millis) == DurationSeconds(millis)
    ensures -60 < SecondsPart(millis) < 60
    ensures DurationSeconds(millis) >= 0 ==> SecondsPart(millis) >= 0
    ensures DurationSeconds(millis) < 0 ==> SecondsPart(millis) <= 0
  {
    var s := DurationSeconds(millis);
    if s >= 0 {
      assert s == 60 * (s / 60) + s % 60;
    } else {
      var q := (-s) / 60;
      assert -s == 60 * q + (-s) % 60;
      assert SecondsPart(millis) == s + 60 * q == -((-s) % 60);
    }
  }

  /** Below one second the seconds are rounded down, and the truncating
      remainder keeps their sign: -1500 ms prints as "0 min -2 sec". */
  lemma NegativeDurationExample()
    ensures DurationMinutes(-1500) == 0 && SecondsPart(-1500) == -2
    ensures FormatDuration(-1500) == "0 min -2 sec"
  {
    NegativeDurationParts();
    assert IntToString(0) == "0" && IntToString(-2) == "-2" by {
      assert NatToString(0) == "0" && NatToString(2) == "2";
    }
    assert "0" + " min " + "-2" + " sec" == "0 min -2 sec";
  }

  lemma NegativeDurationParts()
    ensures DurationMinutes(-1500) == 0 && SecondsPart(-1500) == -2
  {
    assert DurationSeconds(-1500) == -2;
    assert JavaDiv(-2, 60) == 0;
  }

  /** Rendered numbers hold digits and at most a leading minus, never a space. */
  lemma IntToStringNoSpace(n: int)
    ensures forall i :: 0 <= i < |IntToString(n)| ==> IntToString(n)[i] != ' '
    ensures |IntToString(n)| > 0
  {
  }

  /** Two texts that each start with a space-free word followed by a space
      split the same way. */
  lemma {:induction false} SplitAtSpace(a: string, x: string, b: string, y: string)
    requires forall i :: 0 <= i < |a| ==> a[i] != ' '
    requires forall i :: 0 <= i < |b| ==> b[i] != ' '
    requires |x| > 0 && x[0] == ' ' && |y| > 0 && y[0] == ' '
    requires a + x == b + y
    ensures a == b && x == y
  {
    assert forall i :: 0 <= i < |a| ==> (a + x)[i] != ' ';
    assert forall i :: 0 <= i < |b| ==> (b + y)[i] != ' ';
    assert (a + x)[|a|] == ' ' && (b + y)[|b|] == ' ';
    assert |a| == |b|;
    assert a == (a + x)[..|a|] && b == (b + y)[..|b|];
    assert x == (a + x)[|a|..] && y == (b + y)[|b|..];
  }

  /** The duration text grouped from the right. */
  lemma DurationTextGrouped(a: string, b: string)
    ensures a + " min " + b + " sec" == a + (" min " + (b + " sec"))
  {
    ConcatAssoc(a, " min ", b);
    ConcatAssoc(a, " min " + b, " sec");
    ConcatAssoc(" min ", b, " sec");
  }

  /** A common prefix cancels. */
  lemma PrefixCancel(p: string, x: string, y: string)
    requires p + x == p + y
    ensures x == y
  {
    assert x == (p + x)[|p|..] && y == (p + y)[|p|..];
  }

  /** The text "<m> min <s> sec" determines both numbers. */
  lemma DurationTextDecodes(m1: int, s1: int, m2: int, s2: int)
    requires IntToString(m1) + " min " + IntToString(s1) + " sec" == IntToString(m2) + " min " + IntToString(s2) + " sec"
    ensures m1 == m2 && s1 == s2
  {
    var a1, a2 := IntToString(m1), IntToString(m2);
    var b1, b2 := IntToString(s1), IntToString(s2);
    IntToStringNoSpace(m1);
    IntToStringNoSpace(m2);
    IntToStringNoSpace(s1);
    IntToStringNoSpace(s2);
    DurationTextGrouped(a1, b1);
    DurationTextGrouped(a2, b2);
    var t1, t2 := " min " + (b1 + " sec"), " min " + (b2 + " sec");
    assert t1[0] == ' ' && t2[0] == ' ';
    SplitAtSpace(a1, t1, a2, t2);
    IntToStringInjective(m1, m2);
    PrefixCancel(" min ", b1 + " sec", b2 + " sec");
    assert (" sec")[0] == ' ';
    SplitAtSpace(b1, " sec", b2, " sec");
    IntToStringInjective(s1, s2);
  }

  /** The text determines the duration down to the second: two durations
      print alike exactly when they have the same whole seconds. */
  lemma FormatDurationDecodes(m: int, n: int)
    ensures FormatDuration(m) == FormatDuration(n) <==> DurationSeconds(m) == DurationSeconds(n)
  {
    if FormatDuration(m) == FormatDuration(n) {
      DurationTextDecodes(DurationMinutes(m), SecondsPart(m), DurationMinutes(n), SecondsPart(n));
      DurationPartsRecombine(m);
      DurationPartsRecombine(n);
    }
  }
}

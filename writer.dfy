/** The output side of 2021/Actual/solution.py: `write_file` turns a list of
    intersection records into the submission text, and `main` checks that its three
    per-input lists have matching lengths. A reader of the submission format is given
    as the partner of the writer: it reads back every solution whose records declare
    as many lights as they list. */
module SolutionWriter {
  import opened Basics
  import opened Traffic

  /** The decimal digit for `d`. */
  function Digit(d: nat): char
    requires d < 10
  {
    "0123456789"[d]
  }

  predicate IsDigit(c: char)
  {
    '0' <= c <= '9'
  }

  /** `str` of a natural number: its decimal digits, most significant first. */
  function NatToString(n: nat): (s: string)
    ensures |s| > 0
    ensures forall k :: 0 <= k < |s| ==> IsDigit(s[k])
  {
    if n < 10 then [Digit(n)] else NatToString(n / 10) + [Digit(n % 10)]
  }

  /** `str` of an integer: a minus sign before the digits of a negative one. */
  function IntToString(i: int): string
  {
    if i < 0 then "-" + NatToString(-i) else NatToString(i)
  }

  /** The value of a non-empty string of decimal digits. */
  function ParseNat(s: string): (r: Option<nat>)
    ensures r.Some? <==> |s| > 0 && forall k :: 0 <= k < |s| ==> IsDigit(s[k])
  {
    if s == [] then None
    else
      var last := s[|s| - 1];
      if !IsDigit(last) then None
      else if |s| == 1 then Some((last - '0') as nat)
      else
        match ParseNat(s[..|s| - 1])
        case None => None
        case Some(v) => Some(10 * v + (last - '0') as nat)
  }

  /** The value of an optionally negative decimal numeral. */
  function ParseInt(s: string): Option<int>
  {
    if |s| > 0 && s[0] == '-' then
      var digits := ParseNat(s[1..]);
      if digits.None? then None else Option<int>.Some(-(digits.value as int))
    else
      var digits := ParseNat(s);
      if digits.None? then None else Option<int>.Some(digits.value)
  }

  lemma {:induction false} ParseNatToString(n: nat)
    ensures ParseNat(NatToString(n)) == Some(n)
  {
    if n >= 10 {
      ParseNatToString(n / 10);
      var s := NatToString(n);
      assert s[..|s| - 1] == NatToString(n / 10);
    }
  }

  /** Reading back a written integer gives the integer. */
  lemma ParseIntToString(i: int)
    ensures ParseInt(IntToString(i)) == Some(i)
  {
    if i < 0 {
      ParseNegative(i);
    } else {
      ParseNonNegative(i);
    }
  }

  lemma ParseNonNegative(i: int)
    requires i >= 0
    ensures ParseInt(IntToString(i)) == Some(i)
  {
    ParseNatToString(i);
    var s := NatToString(i);
    assert IsDigit(s[0]) && s[0] != '-';
  }

  lemma ParseNegative(i: int)
    requires i < 0
    ensures ParseInt(IntToString(i)) == Some(i)
  {
    var n: nat := -i;
    var digits := NatToString(n);
    assert IntToString(i) == "-" + digits;
    ParseNatToString(n);
    ParseSigned(digits, n);
  }

  /** A minus sign before a numeral negates its value. */
  lemma ParseSigned(digits: string, n: nat)
    requires ParseNat(digits) == Some(n)
    ensures ParseInt("-" + digits) == Option<int>.Some(-(n as int))
  {
    assert ("-" + digits)[1..] == digits;
  }

  /** The line for one green light: the street name, a space, the time. */
  function LightLine(light: Light): string
  {
    light.name + " " + IntToString(light.time)
  }

  /** One line per light, in order. */
  function LightLines(lights: seq<Light>): (lines: seq<string>)
    ensures |lines| == |lights|
    ensures forall k :: 0 <= k < |lights| ==> lines[k] == LightLine(lights[k])
  {
    if lights == [] then [] else [LightLine(lights[0])] + LightLines(lights[1..])
  }

  /** The lines of one record: its id, its declared count, then one line per light. */
  function RecordLines(rec: Record): (lines: seq<string>)
    ensures |lines| == 2 + |rec.lights|
  {
    [IntToString(rec.id), IntToString(rec.count)] + LightLines(rec.lights)
  }

  function RecordsLines(recs: seq<Record>): seq<string>
  {
    if recs == [] then [] else RecordLines(recs[0]) + RecordsLines(recs[1..])
  }

  lemma {:induction false} RecordsLinesAppend(recs: seq<Record>, last: Record)
    ensures RecordsLines(recs + [last]) == RecordsLines(recs) + RecordLines(last)
  {
    if recs != [] {
      assert (recs + [last])[1..] == recs[1..] + [last];
      RecordsLinesAppend(recs[1..], last);
    } else {
      assert [last][1..] == [];
    }
  }

  /** The lines `write_file` writes: the number of records, then each record's lines. */
  function SolutionLines(solution: seq<Record>): seq<string>
  {
    [IntToString(|solution|)] + RecordsLines(solution)
  }

  /** Lines joined into text, each ended by a newline. */
  function Join(lines: seq<string>): string
  {
    if lines == [] then "" else Join(lines[..|lines| - 1]) + lines[|lines| - 1] + "\n"
  }

  lemma {:induction false} JoinAppend(a: seq<string>, b: seq<string>)
    ensures Join(a + b) == Join(a) + Join(b)
  {
    if b == [] {
      assert a + b == a;
    } else {
      var init, last := b[..|b| - 1], b[|b| - 1];
      assert b == init + [last];
      assert a + b == (a + init) + [last];
      JoinSnoc(a + init, last);
      JoinSnoc(init, last);
      JoinAppend(a, init);
    }
  }

  lemma RecordsLinesPrefix(solution: seq<Record>, r: nat)
    requires r < |solution|
    ensures RecordsLines(solution[..r + 1]) == RecordsLines(solution[..r]) + RecordLines(solution[r])
  {
    assert solution[..r + 1] == solution[..r] + [solution[r]];
    RecordsLinesAppend(solution[..r], solution[r]);
  }

  lemma JoinSnoc(lines: seq<string>, line: string)
    ensures Join(lines + [line]) == Join(lines) + line + "\n"
  {
    assert (lines + [line])[..|lines|] == lines;
  }

  lemma {:induction false} LightLinesAppend(a: seq<Light>, b: seq<Light>)
    ensures LightLines(a + b) == LightLines(a) + LightLines(b)
  {
    if a == [] {
      assert a + b == b;
    } else {
      assert (a + b)[1..] == a[1..] + b;
      LightLinesAppend(a[1..], b);
    }
  }

  lemma LightLinesSnoc(lines: seq<string>, lights: seq<Light>, k: nat)
    requires k < |lights|
    ensures lines + LightLines(lights[..k + 1]) == lines + LightLines(lights[..k]) + [LightLine(lights[k])]
  {
    assert lights[..k + 1] == lights[..k] + [lights[k]];
    LightLinesAppend(lights[..k], [lights[k]]);
    assert LightLines([lights[k]]) == [LightLine(lights[k])];
  }

  lemma RecordLinesSplit(lines: seq<string>, val: Record)
    ensures lines + [IntToString(val.id)] + [IntToString(val.count)] + LightLines(val.lights) == lines + RecordLines(val)
  {
  }

  /** The inner loop of `write_file`: one `name time` line per light. */
  method WriteLights(text: string, ghost lines: seq<string>, lights: seq<Light>) returns (out: string)
    requires text == Join(lines)
    ensures out == Join(lines + LightLines(lights))
  {
    out := text;
    assert lines + LightLines(lights[..0]) == lines;
    for k := 0 to |lights|
      invariant out == Join(lines + LightLines(lights[..k]))
    {
      JoinSnoc(lines + LightLines(lights[..k]), LightLine(lights[k]));
      out := out + (lights[k].name + " " + IntToString(lights[k].time)) + "\n";
      LightLinesSnoc(lines, lights, k);
    }
    assert lights[..|lights|] == lights;
  }

  /** One pass of `write_file`'s outer loop: the id line, the count line, the lights. */
  method WriteRecord(text: string, ghost lines: seq<string>, val: Record) returns (out: string)
    requires text == Join(lines)
    ensures out == Join(lines + RecordLines(val))
  {
    ghost var withCounts := lines + [IntToString(val.id)] + [IntToString(val.count)];
    JoinSnoc(lines, IntToString(val.id));
    JoinSnoc(lines + [IntToString(val.id)], IntToString(val.count));
    out := text + IntToString(val.id) + "\n" + IntToString(val.count) + "\n";
    out := WriteLights(out, withCounts, val.lights);
    RecordLinesSplit(lines, val);
  }

  /** `write_file`'s sequence of `f.write` calls, accumulated into the file's text. */
  method WriteFile(solution: seq<Record>) returns (text: string)
    ensures text == Join(SolutionLines(solution))
  {
    var header := IntToString(|solution|);
    text := header + "\n";
    ghost var lines := [header];
    JoinSnoc([], header);
    for r := 0 to |solution|
      invariant lines == [header] + RecordsLines(solution[..r])
      invariant text == Join(lines)
    {
      text := WriteRecord(text, lines, solution[r]);
      WrittenRecordsStep(header, solution, r);
      lines := lines + RecordLines(solution[r]);
    }
    WrittenRecordsAll(header, solution);
  }

  lemma WrittenRecordsStep(header: string, solution: seq<Record>, r: nat)
    requires r < |solution|
    ensures [header] + RecordsLines(solution[..r]) + RecordLines(solution[r]) == [header] + RecordsLines(solution[..r + 1])
  {
    RecordsLinesPrefix(solution, r);
  }

  lemma WrittenRecordsAll(header: string, solution: seq<Record>)
    requires header == IntToString(|solution|)
    ensures [header] + RecordsLines(solution[..|solution|]) == SolutionLines(solution)
  {
    assert solution[..|solution|] == solution;
  }

  /** The number of lines written for `recs`: two per record plus one per light. */
  function LineCount(recs: seq<Record>): nat
  {
    if recs == [] then 0 else 2 + |recs[0].lights| + LineCount(recs[1..])
  }

  /** The file has one line for the count and `len(val)` lines per record, where
      `len(val)` is 2 plus the number of light pairs. */
  lemma {:induction false} SolutionLineCount(solution: seq<Record>)
    ensures |SolutionLines(solution)| == 1 + LineCount(solution)
  {
    RecordsLineCount(solution);
  }

  lemma {:induction false} RecordsLineCount(recs: seq<Record>)
    ensures |RecordsLines(recs)| == LineCount(recs)
  {
    if recs != [] {
      RecordsLineCount(recs[1..]);
    }
  }

  /** The first line is the number of records. Record `k` starts after the lines of
      the records before it: its id, then its declared count, written as they are and
      not recomputed from its lights, then one line per light. */
  lemma {:induction false} RecordLinesAt(solution: seq<Record>, k: nat)
    requires k < |solution|
    ensures SolutionLines(solution)[0] == IntToString(|solution|)
    ensures var at, rec := 1 + LineCount(solution[..k]), solution[k];
      at + 2 + |rec.lights| <= |SolutionLines(solution)|
      && SolutionLines(solution)[at] == IntToString(rec.id)
      && SolutionLines(solution)[at + 1] == IntToString(rec.count)
      && forall j :: 0 <= j < |rec.lights| ==> SolutionLines(solution)[at + 2 + j] == LightLine(rec.lights[j])
  {
    var before, rec, after := solution[..k], solution[k], solution[k + 1..];
    var lines, at := SolutionLines(solution), 1 + LineCount(before);
    var head := [IntToString(|solution|)] + RecordsLines(before);
    RecordsAround(solution, k);
    RecordLinesAfter(lines, at, head, rec, RecordsLines(after));
    assert forall j :: 0 <= j < |rec.lights| ==> lines[at + 2 + j] == LightLine(rec.lights[j]);
  }

  /** The file cut around record `k`: what comes before it, its own lines, the rest. */
  lemma RecordsAround(solution: seq<Record>, k: nat)
    requires k < |solution|
    ensures SolutionLines(solution)
      == ([IntToString(|solution|)] + RecordsLines(solution[..k])) + (RecordLines(solution[k]) + RecordsLines(solution[k + 1..]))
    ensures |RecordsLines(solution[..k])| == LineCount(solution[..k])
  {
    var before, rec, after := solution[..k], solution[k], solution[k + 1..];
    assert solution == before + ([rec] + after);
    RecordsLinesConcat(before, [rec] + after);
    assert ([rec] + after)[1..] == after;
    RecordsLineCount(before);
  }

  /** Where a record's lines sit once `head` precedes them. */
  lemma RecordLinesAfter(lines: seq<string>, at: nat, head: seq<string>, rec: Record, tail: seq<string>)
    requires lines == head + (RecordLines(rec) + tail) && at == |head|
    ensures at + 2 + |rec.lights| <= |lines|
      && lines[at] == IntToString(rec.id) && lines[at + 1] == IntToString(rec.count)
      && forall j :: 0 <= j < |rec.lights| ==> lines[at + 2 + j] == LightLine(rec.lights[j])
  {
    var mid := RecordLines(rec);
    forall j | 0 <= j < |rec.lights|
      ensures lines[at + 2 + j] == LightLine(rec.lights[j])
    {
      assert lines[at + 2 + j] == mid[2 + j] == LightLines(rec.lights)[j];
    }
  }

  lemma {:induction false} RecordsLinesConcat(a: seq<Record>, b: seq<Record>)
    ensures RecordsLines(a + b) == RecordsLines(a) + RecordsLines(b)
  {
    if a != [] {
      assert (a + b)[1..] == a[1..] + b;
      RecordsLinesConcat(a[1..], b);
    } else {
      assert a + b == b;
    }
  }

  /** The text cut into lines at its newlines; an unterminated tail is a last line. */
  function Split(text: string): seq<string>
    decreases |text|
  {
    if text == [] then []
    else
      var k := IndexOf(text, '\n');
      if k == |text| then [text] else [text[..k]] + Split(text[k + 1..])
  }

  predicate NoNewline(s: string)
  {
    forall j :: 0 <= j < |s| ==> s[j] != '\n'
  }

  function JoinFront(lines: seq<string>): string
  {
    if lines == [] then "" else lines[0] + "\n" + JoinFront(lines[1..])
  }

  lemma {:induction false} JoinFrontAppend(lines: seq<string>, last: string)
    ensures JoinFront(lines + [last]) == JoinFront(lines) + last + "\n"
  {
    if lines != [] {
      assert (lines + [last])[1..] == lines[1..] + [last];
      JoinFrontAppend(lines[1..], last);
    } else {
      assert [last][1..] == [];
    }
  }

  lemma {:induction false} JoinIsJoinFront(lines: seq<string>)
    ensures Join(lines) == JoinFront(lines)
  {
    if lines != [] {
      var init := lines[..|lines| - 1];
      JoinIsJoinFront(init);
      JoinFrontAppend(init, lines[|lines| - 1]);
      assert init + [lines[|lines| - 1]] == lines;
    }
  }

  lemma {:induction false} SplitJoinFront(lines: seq<string>)
    requires forall i :: 0 <= i < |lines| ==> NoNewline(lines[i])
    ensures Split(JoinFront(lines)) == lines
  {
    if lines != [] {
      var text := JoinFront(lines);
      var rest := JoinFront(lines[1..]);
      assert text == lines[0] + "\n" + rest;
      assert text[|lines[0]|] == '\n';
      forall j | 0 <= j < |lines[0]|
        ensures text[j] != '\n'
      {
        assert text[j] == lines[0][j];
      }
      assert IndexOf(text, '\n') == |lines[0]|;
      assert text[..|lines[0]|] == lines[0];
      assert text[|lines[0]| + 1..] == rest;
      SplitJoinFront(lines[1..]);
    }
  }

  /** Cutting the written text at its newlines gives back the lines, provided no line
      holds a newline of its own. */
  lemma SplitJoin(lines: seq<string>)
    requires forall i :: 0 <= i < |lines| ==> NoNewline(lines[i])
    ensures Split(Join(lines)) == lines
  {
    JoinIsJoinFront(lines);
    SplitJoinFront(lines);
  }

  /** The position of the last space in `s`, if any. */
  function LastSpace(s: string): (k: Option<nat>)
    ensures k.Some? ==> k.value < |s| && s[k.value] == ' '
    ensures k.Some? ==> forall j :: k.value < j < |s| ==> s[j] != ' '
    ensures k.None? ==> forall j :: 0 <= j < |s| ==> s[j] != ' '
  {
    if s == [] then None
    else if s[|s| - 1] == ' ' then Some(|s| - 1)
    else LastSpace(s[..|s| - 1])
  }

  /** A light line read back: the name is everything before the last space. */
  function ReadLight(line: string): Option<Light>
  {
    match LastSpace(line)
    case None => None
    case Some(k) =>
      match ParseInt(line[k + 1..])
      case None => None
      case Some(t) => Some(Light(line[..k], t))
  }

  lemma IntToStringNoSpace(i: int)
    ensures forall j :: 0 <= j < |IntToString(i)| ==> IntToString(i)[j] != ' '
  {
  }

  /** A light line reads back as the light, whatever the name holds. */
  lemma ReadLightLine(light: Light)
    ensures ReadLight(LightLine(light)) == Some(light)
  {
    var line := LightLine(light);
    var n := |light.name|;
    IntToStringNoSpace(light.time);
    assert line[n] == ' ';
    assert forall j :: n < j < |line| ==> line[j] == IntToString(light.time)[j - n - 1];
    var k := LastSpace(line);
    assert k.Some?;
    assert k.value >= n;
    assert k == Some(n);
    assert line[n + 1..] == IntToString(light.time);
    assert line[..n] == light.name;
    ParseIntToString(light.time);
  }

  /** Reads `count` light lines. */
  function ReadLights(lines: seq<string>, count: nat): Option<(seq<Light>, seq<string>)>
  {
    if count == 0 then Some(([], lines))
    else if lines == [] then None
    else
      match ReadLight(lines[0])
      case None => None
      case Some(light) =>
        match ReadLights(lines[1..], count - 1)
        case None => None
        case Some((lights, rest)) => Some(([light] + lights, rest))
  }

  /** Reads one record: an id line, a count line, and as many light lines as counted. */
  function ReadRecord(lines: seq<string>): Option<(Record, seq<string>)>
  {
    if |lines| < 2 then None
    else
      var id, count := ParseInt(lines[0]), ParseInt(lines[1]);
      if id.None? || count.None? || count.value < 0 then None
      else
        match ReadLights(lines[2..], count.value)
        case None => None
        case Some((lights, rest)) => Some((Record(id.value, count.value, lights), rest))
  }

  function ReadRecords(lines: seq<string>, n: nat): Option<seq<Record>>
    decreases n
  {
    if n == 0 then (if lines == [] then Some([]) else None)
    else
      match ReadRecord(lines)
      case None => None
      case Some((rec, rest)) =>
        match ReadRecords(rest, n - 1)
        case None => None
        case Some(recs) => Some([rec] + recs)
  }

  /** Reads a submission: the number of records, then that many records, and nothing
      after them. */
  function ReadSolution(text: string): Option<seq<Record>>
  {
    var lines := Split(text);
    if lines == [] then None
    else
      match ParseInt(lines[0])
      case Some(n) => if n < 0 then None else ReadRecords(lines[1..], n)
      case None => None
  }

  /** A record's declared count matches the lights it lists. */
  predicate Consistent(rec: Record)
  {
    rec.count == |rec.lights|
  }

  /** Reading `count` lights from lines whose first `count` entries each read as a light
      gives those lights and leaves the remaining lines. */
  lemma {:induction false} ReadLightsOf(lines: seq<string>, lights: seq<Light>, count: nat)
    requires count <= |lines| && count <= |lights|
    requires forall j :: 0 <= j < count ==> ReadLight(lines[j]) == Some(lights[j])
    ensures ReadLights(lines, count) == Some((lights[..count], lines[count..]))
  {
    if count == 0 {
      assert lines[count..] == lines;
    } else {
      assert ReadLight(lines[0]) == Some(lights[0]);
      forall j | 0 <= j < count - 1
        ensures ReadLight(lines[1..][j]) == Some(lights[1..][j])
      {
        assert lines[1..][j] == lines[j + 1];
      }
      ReadLightsOf(lines[1..], lights[1..], count - 1);
      assert lines[1..][count - 1..] == lines[count..];
      assert [lights[0]] + lights[1..][..count - 1] == lights[..count];
    }
  }

  /** Every written light line reads back as its light. */
  lemma LightLinesRead(lights: seq<Light>, rest: seq<string>)
    ensures forall j :: 0 <= j < |lights| ==> ReadLight((LightLines(lights) + rest)[j]) == Some(lights[j])
  {
    forall j | 0 <= j < |lights|
      ensures ReadLight((LightLines(lights) + rest)[j]) == Some(lights[j])
    {
      ReadLightLine(lights[j]);
    }
  }

  /** Dropping the first `k` light lines leaves the lines of the remaining lights. */
  lemma {:induction false} LightLinesDrop(lights: seq<Light>, rest: seq<string>, k: nat)
    requires k <= |lights|
    ensures (LightLines(lights) + rest)[k..] == LightLines(lights[k..]) + rest
  {
    if k > 0 {
      var tail := LightLines(lights[1..]) + rest;
      assert LightLines(lights) + rest == [LightLine(lights[0])] + tail;
      assert ([LightLine(lights[0])] + tail)[k..] == tail[k - 1..];
      LightLinesDrop(lights[1..], rest, k - 1);
      assert lights[1..][k - 1..] == lights[k..];
    }
  }

  lemma ReadLightsBack(lights: seq<Light>, rest: seq<string>)
    ensures ReadLights(LightLines(lights) + rest, |lights|) == Some((lights, rest))
  {
    LightLinesRead(lights, rest);
    ReadLightsOf(LightLines(lights) + rest, lights, |lights|);
    assert (LightLines(lights) + rest)[|lights|..] == rest;
    assert lights[..|lights|] == lights;
  }

  lemma ReadRecordBack(rec: Record, rest: seq<string>)
    requires Consistent(rec)
    ensures ReadRecord(RecordLines(rec) + rest) == Some((rec, rest))
  {
    RecordLinesParts(rec, rest);
    ParseIntToString(rec.id);
    ParseIntToString(rec.count);
    ReadLightsBack(rec.lights, rest);
  }

  lemma {:induction false} ReadRecordsBack(recs: seq<Record>)
    requires forall k :: 0 <= k < |recs| ==> Consistent(recs[k])
    ensures ReadRecords(RecordsLines(recs), |recs|) == Some(recs)
  {
    if recs != [] {
      ReadRecordBack(recs[0], RecordsLines(recs[1..]));
      ReadRecordsBack(recs[1..]);
      assert [recs[0]] + recs[1..] == recs;
    }
  }

  lemma NoNewlineInNumber(i: int)
    ensures NoNewline(IntToString(i))
  {
  }

  lemma RecordLinesNoNewline(rec: Record)
    requires forall k :: 0 <= k < |rec.lights| ==> NoNewline(rec.lights[k].name)
    ensures forall i :: 0 <= i < |RecordLines(rec)| ==> NoNewline(RecordLines(rec)[i])
  {
    NoNewlineInNumber(rec.id);
    NoNewlineInNumber(rec.count);
    forall k | 0 <= k < |rec.lights|
      ensures NoNewline(LightLine(rec.lights[k]))
    {
      NoNewlineInNumber(rec.lights[k].time);
    }
  }

  lemma {:induction false} LinesHaveNoNewline(solution: seq<Record>)
    requires forall r, k :: 0 <= r < |solution| && 0 <= k < |solution[r].lights| ==> NoNewline(solution[r].lights[k].name)
    ensures forall i :: 0 <= i < |RecordsLines(solution)| ==> NoNewline(RecordsLines(solution)[i])
  {
    if solution != [] {
      LinesHaveNoNewline(solution[1..]);
      RecordLinesNoNewline(solution[0]);
      var head, tail := RecordLines(solution[0]), RecordsLines(solution[1..]);
      assert RecordsLines(solution) == head + tail;
      forall i | 0 <= i < |head + tail|
        ensures NoNewline((head + tail)[i])
      {
        if i >= |head| {
          assert (head + tail)[i] == tail[i - |head|];
        }
      }
    }
  }

  /** Round trip: a solution whose records declare as many lights as they list, and
      whose street names hold no newline, is read back from the written text. */
  lemma ReadWritten(solution: seq<Record>)
    requires forall r :: 0 <= r < |solution| ==> Consistent(solution[r])
    requires forall r, k :: 0 <= r < |solution| && 0 <= k < |solution[r].lights| ==> NoNewline(solution[r].lights[k].name)
    ensures ReadSolution(Join(SolutionLines(solution))) == Some(solution)
  {
    var lines := SolutionLines(solution);
    LinesHaveNoNewline(solution);
    NoNewlineInNumber(|solution|);
    SplitJoin(lines);
    ParseIntToString(|solution|);
    assert lines[1..] == RecordsLines(solution);
    ReadRecordsBack(solution);
  }

  /** Reading fewer lights than were written leaves the later light lines unread. */
  lemma ReadLightsPrefix(lights: seq<Light>, rest: seq<string>, k: nat)
    requires k <= |lights|
    ensures ReadLights(LightLines(lights) + rest, k) == Some((lights[..k], LightLines(lights[k..]) + rest))
  {
    LightLinesRead(lights, rest);
    ReadLightsOf(LightLines(lights) + rest, lights, k);
    LightLinesDrop(lights, rest, k);
  }

  /** A record declaring fewer lights than it lists is read with only the declared
      number of lights, and its remaining light lines are left unread. */
  lemma ReadOvercounted(rec: Record, rest: seq<string>)
    requires 0 <= rec.count < |rec.lights|
    ensures ReadRecord(RecordLines(rec) + rest)
      == Some((Record(rec.id, rec.count, rec.lights[..rec.count]), LightLines(rec.lights[rec.count..]) + rest))
  {
    RecordLinesParts(rec, rest);
    ParseIntToString(rec.id);
    ParseIntToString(rec.count);
    ReadLightsPrefix(rec.lights, rest, rec.count);
  }

  lemma RecordLinesParts(rec: Record, rest: seq<string>)
    ensures |RecordLines(rec) + rest| >= 2
    ensures (RecordLines(rec) + rest)[0] == IntToString(rec.id)
    ensures (RecordLines(rec) + rest)[1] == IntToString(rec.count)
    ensures (RecordLines(rec) + rest)[2..] == LightLines(rec.lights) + rest
  {
    var tail := LightLines(rec.lights) + rest;
    assert RecordLines(rec) + rest == [IntToString(rec.id), IntToString(rec.count)] + tail;
  }

  /** The writer copies a declared count that disagrees with the listed lights, as
      `dumb_solution` produces when an intersection has more incoming streets than the
      duration; a reader that trusts the count then fails on the leftover lines. */
  lemma OvercountMisread(rec: Record)
    requires 0 <= rec.count < |rec.lights|
    requires forall k :: 0 <= k < |rec.lights| ==> NoNewline(rec.lights[k].name)
    ensures ReadSolution(Join(SolutionLines([rec]))) == None
  {
    var lines := SolutionLines([rec]);
    assert lines == [IntToString(1)] + RecordLines(rec) by {
      assert [rec][1..] == [];
      assert RecordsLines([rec]) == RecordLines(rec) + RecordsLines([]);
    }
    LinesHaveNoNewline([rec]);
    NoNewlineInNumber(1);
    SplitJoin(lines);
    ParseIntToString(1);
    assert lines[1..] == RecordLines(rec);
    OvercountRecords(rec);
  }

  /** The record's own lines do not read back as one record with nothing after it. */
  lemma OvercountRecords(rec: Record)
    requires 0 <= rec.count < |rec.lights|
    ensures ReadRecords(RecordLines(rec), 1) == None
  {
    ReadOvercounted(rec, []);
    assert RecordLines(rec) + [] == RecordLines(rec);
    assert LightLines(rec.lights[rec.count..]) + [] != [];
  }

  /** `main`'s length check: the mean of the three list lengths, a true division,
      must equal the number of file names. */
  function LengthsAccepted(files: nat, params: nat, skips: nat): (ok: bool)
    ensures ok <==> params + skips == 2 * files
  {
    (files + params + skips) as real / 3.0 == files as real
  }

  /** Lists of equal length always pass the check. */
  lemma EqualLengthsAccepted(n: nat)
    ensures LengthsAccepted(n, n, n)
  {
  }

  /** Lists of different lengths can pass too: two file names, one parameter set and
      three skip flags average to two. */
  lemma UnequalLengthsAccepted()
    ensures LengthsAccepted(2, 1, 3)
    ensures !(2 == 1 && 1 == 3)
  {
  }
}

/** The transcript segmenter of utils/processor.py (`process_chat_file`, the
    loop and the final flush). The text is split on line feeds and folded, one
    line at a time, over a state holding the finished records and the record in
    progress. A header line closes the record in progress (if it has a datetime)
    and opens a new one; any other line appends a line feed and the stripped
    line to the record in progress. Before the first header the record in
    progress has no datetime, so what it collects is never emitted.

    The loop body is split in two: `Read` is what the body computes from the
    line alone (the match, the datetime, the sender split, the stripping), and
    `Step` is how it updates the state.

    The fold is related to an independent description: the records are, in
    order, one per header line, each made from its header and the lines up to
    the next header (`Reference`). */
module Processor {
  import opened Wrappers
  import opened Text
  import opened Header

  /** One finished message: a row of the data frame. */
  datatype Record = Record(datetime: string, sender: Option<string>, message: string)

  /** The dictionary the loop updates; `datetime` is None before the first header. */
  datatype Pending = Pending(datetime: Option<string>, sender: Option<string>, message: string)

  /** The finished records and the record in progress. */
  datatype State = State(done: seq<Record>, current: Pending)

  /** What one line contributes: a header line opens a record, any other line
      is a continuation, carried stripped. */
  datatype Line = HeaderLine(start: Pending) | ContinuationLine(stripped: string)

  /** The datetime text of a header: the formatted date, time and meridiem
      with surrounding whitespace stripped. */
  function DateTime(h: Groups): string {
    Strip(h.date + ", " + h.time + " " + MeridiemText(h.meridiem))
  }

  /** Splits a header body at its first ": " into sender and message; a body
      without ": " (a system notice) has no sender and is all message. */
  function SplitSender(body: string): (r: (Option<string>, string))
    ensures r.0.None? <==> !Contains(body, ": ")
    ensures r.0.None? ==> r.1 == body
    ensures r.0.Some? ==> body == r.0.value + ": " + r.1
    ensures r.0.Some? ==> !Contains(r.0.value, ": ")
  {
    match SplitOnce(body, ": ")
    case None => (None, body)
    case Some((sender, msg)) => (Some(sender), msg)
  }

  /** The record a header opens. */
  function Open(h: Groups): Pending {
    var (sender, msg) := SplitSender(h.body);
    Pending(Some(DateTime(h)), sender, Strip(msg))
  }

  /** Python truthiness of the record's datetime. */
  predicate Truthy(p: Pending) {
    p.datetime.Some? && p.datetime.value != ""
  }

  /** A datetime is never empty: it holds the ", " between date and time. */
  lemma DateTimeNonEmpty(h: Groups)
    ensures DateTime(h) != ""
  {
    var s := h.date + ", " + h.time + " " + MeridiemText(h.meridiem);
    assert s[|h.date|] == ',';
    StripNonEmpty(s, |h.date|);
  }

  /** The per-line part of the loop body. */
  function Read(line: string): (l: Line)
    ensures l.HeaderLine? <==> Classify(line).Some?
    ensures l.HeaderLine? ==> Truthy(l.start)
    ensures l.ContinuationLine? ==> l.stripped == Strip(line)
  {
    match Classify(line)
    case Some(h) =>
      DateTimeNonEmpty(h);
      HeaderLine(Open(h))
    case None => ContinuationLine(Strip(line))
  }

  /** Every line, read. */
  function ReadAll(lines: seq<string>): (ls: seq<Line>)
    ensures |ls| == |lines|
    ensures forall i :: 0 <= i < |lines| ==> ls[i] == Read(lines[i])
  {
    seq(|lines|, i requires 0 <= i < |lines| => Read(lines[i]))
  }

  /** The record in progress as a finished record (only ever applied to one
      whose datetime is set). */
  function Close(p: Pending): Record {
    Record(p.datetime.GetOr(""), p.sender, p.message)
  }

  /** The finished records, plus the record in progress if it has a datetime. */
  function Flush(st: State): seq<Record> {
    st.done + (if Truthy(st.current) then [Close(st.current)] else [])
  }

  /** A continuation joins the record in progress on a new line. */
  function Continue(p: Pending, stripped: string): Pending {
    p.(message := p.message + "\n" + stripped)
  }

  /** The state update of one iteration. A finished record is never changed
      and at most one is added, exactly when a header arrives while a record
      is in progress; a continuation keeps the datetime and sender of the
      record in progress and only extends its text. */
  function Step(st: State, line: Line): (r: State)
    ensures st.done <= r.done
    ensures |r.done| == |st.done| + 1 <==> line.HeaderLine? && Truthy(st.current)
    ensures |r.done| <= |st.done| + 1
    ensures line.ContinuationLine? ==>
      && r.current.datetime == st.current.datetime
      && r.current.sender == st.current.sender
      && st.current.message <= r.current.message
  {
    match line
    case HeaderLine(start) => State(Flush(st), start)
    case ContinuationLine(stripped) => State(st.done, Continue(st.current, stripped))
  }

  const Initial: State := State([], Pending(None, None, ""))

  /** The loop over `lines`, from the first line to the last. No line
      finishes more than one record, and only records whose datetime is set
      are ever finished: the preamble before the first header never is. */
  function Fold(lines: seq<Line>): (r: State)
    ensures |r.done| <= |lines|
    ensures forall j :: 0 <= j < |r.done| ==> r.done[j].datetime != ""
    decreases |lines|
  {
    if |lines| == 0 then Initial
    else Step(Fold(lines[..|lines| - 1]), lines[|lines| - 1])
  }

  /** The records of a transcript already split into lines and read. */
  function Segment(lines: seq<Line>): seq<Record> {
    Flush(Fold(lines))
  }

  /** The records `process_chat_file` builds from `text`. Each carries a
      datetime: what precedes the first header never becomes a record. */
  function ProcessLines(text: string): (rs: seq<Record>)
    ensures forall k :: 0 <= k < |rs| ==> rs[k].datetime != ""
  {
    Segment(ReadAll(Split(text, '\n')))
  }

  // ---------------------------------------------------------------------
  // The reference description
  // ---------------------------------------------------------------------

  /** Header lines open records whose datetime is set: true of every `Read`. */
  predicate Opens(lines: seq<Line>) {
    forall i :: 0 <= i < |lines| ==> lines[i].HeaderLine? ==> Truthy(lines[i].start)
  }

  /** The positions of the header lines, in increasing order. */
  function HeaderLines(lines: seq<Line>): (p: seq<nat>)
    ensures forall k :: 0 <= k < |p| ==> p[k] < |lines| && lines[p[k]].HeaderLine?
    ensures forall k :: 0 < k < |p| ==> p[k - 1] < p[k]
    decreases |lines|
  {
    if |lines| == 0 then []
    else
      var init := lines[..|lines| - 1];
      HeaderLines(init) + (if lines[|lines| - 1].HeaderLine? then [|lines| - 1] else [])
  }

  /** `HeaderLines` lists every header line, each once, in increasing order. */
  lemma {:induction false} HeaderLinesExact(lines: seq<Line>)
    ensures forall i :: 0 <= i < |lines| && lines[i].HeaderLine? ==> i in HeaderLines(lines)
    ensures forall k, j :: 0 <= k < j < |HeaderLines(lines)| ==> HeaderLines(lines)[k] < HeaderLines(lines)[j]
    decreases |lines|
  {
    if |lines| > 0 {
      HeaderLinesExact(lines[..|lines| - 1]);
    }
  }

  /** Where the span of the `k`-th header ends: at the next header, or at the
      end of the input. */
  function SpanEnd(lines: seq<Line>, k: nat): (e: nat)
    requires k < |HeaderLines(lines)|
    ensures HeaderLines(lines)[k] < e <= |lines|
  {
    var p := HeaderLines(lines);
    if k + 1 < |p| then p[k + 1] else |lines|
  }

  /** The lines after the `k`-th header, up to the next header. */
  function SpanOf(lines: seq<Line>, k: nat): seq<Line>
    requires k < |HeaderLines(lines)|
  {
    lines[HeaderLines(lines)[k] + 1..SpanEnd(lines, k)]
  }

  /** `p` after the continuations among `more`. */
  function Extend(p: Pending, more: seq<Line>): (r: Pending)
    ensures r.datetime == p.datetime && r.sender == p.sender
    decreases |more|
  {
    if |more| == 0 then p
    else
      var q := Extend(p, more[..|more| - 1]);
      match more[|more| - 1]
      case ContinuationLine(stripped) => Continue(q, stripped)
      case HeaderLine(_) => q
  }

  /** The record in progress after the `k`-th header and its span. */
  function OpenedAt(lines: seq<Line>, k: nat): Pending
    requires k < |HeaderLines(lines)|
  {
    lines[HeaderLines(lines)[k]].start
  }

  /** The record of the `k`-th header: the record it opens, extended by the
      lines up to the next header. */
  function RecordOf(lines: seq<Line>, k: nat): Record
    requires k < |HeaderLines(lines)|
  {
    Close(Extend(OpenedAt(lines, k), SpanOf(lines, k)))
  }

  /** One record per header line, in the order of the lines. */
  function Reference(lines: seq<Line>): (rs: seq<Record>)
    ensures |rs| == |HeaderLines(lines)|
  {
    seq(|HeaderLines(lines)|, k requires 0 <= k < |HeaderLines(lines)| => RecordOf(lines, k))
  }

  // ---------------------------------------------------------------------
  // The fold against the reference
  // ---------------------------------------------------------------------

  /** The state after a prefix of the input: the records of all but the last
      header seen so far are finished, and the last one is in progress. */
  ghost predicate FoldAgrees(lines: seq<Line>) {
    var st, p := Fold(lines), HeaderLines(lines);
    if |p| == 0 then st.done == [] && st.current.datetime.None?
    else
      && st.done == Reference(lines)[..|p| - 1]
      && st.current == Extend(OpenedAt(lines, |p| - 1), lines[p[|p| - 1] + 1..])
  }

  lemma LastSplit<T>(s: seq<T>)
    requires |s| > 0
    ensures s == s[..|s| - 1] + [s[|s| - 1]]
  {
  }

  /** Adding a line at the end leaves the record of an earlier header alone
      when its span does not reach the new line. */
  lemma RecordOfPrefix(lines: seq<Line>, k: nat)
    requires |lines| > 0
    requires k < |HeaderLines(lines[..|lines| - 1])| && k < |HeaderLines(lines)|
    requires HeaderLines(lines)[k] == HeaderLines(lines[..|lines| - 1])[k]
    requires SpanEnd(lines, k) == SpanEnd(lines[..|lines| - 1], k)
    ensures RecordOf(lines, k) == RecordOf(lines[..|lines| - 1], k)
  {
    var init := lines[..|lines| - 1];
    var a, e := HeaderLines(init)[k], SpanEnd(init, k);
    assert a < e <= |init|;
    assert OpenedAt(lines, k) == OpenedAt(init, k) by {
      assert init[a] == lines[a];
    }
    assert SpanOf(lines, k) == SpanOf(init, k) by {
      assert lines[a + 1..e] == init[a + 1..e];
    }
  }

  /** The first `n` records do not change when a line is added whose arrival
      does not end their spans. */
  lemma RecordsStable(lines: seq<Line>, n: nat)
    requires |lines| > 0
    requires n <= |HeaderLines(lines[..|lines| - 1])| && n <= |HeaderLines(lines)|
    requires forall k :: 0 <= k < n ==>
      HeaderLines(lines)[k] == HeaderLines(lines[..|lines| - 1])[k]
      && SpanEnd(lines, k) == SpanEnd(lines[..|lines| - 1], k)
    ensures Reference(lines)[..n] == Reference(lines[..|lines| - 1])[..n]
  {
    forall k | 0 <= k < n
      ensures Reference(lines)[k] == Reference(lines[..|lines| - 1])[k]
    {
      RecordOfPrefix(lines, k);
    }
  }

  lemma FoldAgreesHeader(lines: seq<Line>)
    requires |lines| > 0 && lines[|lines| - 1].HeaderLine?
    requires Opens(lines)
    requires FoldAgrees(lines[..|lines| - 1])
    ensures FoldAgrees(lines)
  {
    var init := lines[..|lines| - 1];
    var p := HeaderLines(lines);
    var n := |HeaderLines(init)|;
    assert p == HeaderLines(init) + [|init|];
    assert Opens(init) by {
      assert forall i :: 0 <= i < |init| ==> init[i] == lines[i];
    }
    FlushIsReference(init);
    StableAfterHeader(lines);
    assert Fold(lines) == State(Flush(Fold(init)), OpenedAt(lines, n));
    assert lines[|init| + 1..] == [];
  }

  /** Once the fold agrees with the reference, flushing it yields the
      reference's records. */
  lemma FlushIsReference(lines: seq<Line>)
    requires Opens(lines) && FoldAgrees(lines)
    ensures Flush(Fold(lines)) == Reference(lines)
  {
    var st, p := Fold(lines), HeaderLines(lines);
    var n := |p|;
    if n > 0 {
      assert Truthy(st.current) by {
        assert lines[p[n - 1]].HeaderLine?;
      }
      assert Close(st.current) == Reference(lines)[n - 1] by {
        assert SpanOf(lines, n - 1) == lines[p[n - 1] + 1..];
      }
      LastSplit(Reference(lines));
    }
  }

  /** A header line at the end leaves every earlier record alone. */
  lemma StableAfterHeader(lines: seq<Line>)
    requires |lines| > 0 && lines[|lines| - 1].HeaderLine?
    ensures var init := lines[..|lines| - 1];
      |HeaderLines(lines)| == |HeaderLines(init)| + 1
      && Reference(lines)[..|HeaderLines(init)|] == Reference(init)
  {
    var init := lines[..|lines| - 1];
    var p0 := HeaderLines(init);
    assert HeaderLines(lines) == p0 + [|init|];
    RecordsStable(lines, |p0|);
    assert Reference(init)[..|p0|] == Reference(init);
  }

  lemma FoldAgreesContinue(lines: seq<Line>)
    requires |lines| > 0 && lines[|lines| - 1].ContinuationLine?
    requires FoldAgrees(lines[..|lines| - 1])
    ensures FoldAgrees(lines)
  {
    var init, x := lines[..|lines| - 1], lines[|lines| - 1];
    var st0, p0 := Fold(init), HeaderLines(init);
    assert HeaderLines(lines) == p0;
    assert Fold(lines) == State(st0.done, Continue(st0.current, x.stripped));
    if |p0| > 0 {
      var n := |p0| - 1;
      var a := p0[n];
      assert st0.done == Reference(lines)[..n] by {
        RecordsStable(lines, n);
      }
      assert Continue(st0.current, x.stripped) == Extend(OpenedAt(lines, n), lines[a + 1..]) by {
        var more := lines[a + 1..];
        assert more[..|more| - 1] == init[a + 1..] && more[|more| - 1] == x;
        assert OpenedAt(lines, n) == OpenedAt(init, n) by {
          assert lines[a] == init[a];
        }
      }
    }
  }

  lemma {:induction false} FoldInvariant(lines: seq<Line>)
    requires Opens(lines)
    ensures FoldAgrees(lines)
    decreases |lines|
  {
    if |lines| > 0 {
      FoldInvariant(lines[..|lines| - 1]);
      if lines[|lines| - 1].HeaderLine? {
        FoldAgreesHeader(lines);
      } else {
        FoldAgreesContinue(lines);
      }
    }
  }

  /** The fold emits exactly the reference records: one per header line, in
      order, each made from its header line and the lines up to the next one. */
  lemma SegmentIsReference(lines: seq<Line>)
    requires Opens(lines)
    ensures Segment(lines) == Reference(lines)
    ensures |Segment(lines)| == |HeaderLines(lines)|
  {
    FoldInvariant(lines);
    var p := HeaderLines(lines);
    if |p| > 0 {
      var last := |p| - 1;
      var st := Fold(lines);
      assert st.done == Reference(lines)[..last];
      assert Close(st.current) == Reference(lines)[last] by {
        assert SpanOf(lines, last) == lines[p[last] + 1..];
      }
      assert Segment(lines) == st.done + [Close(st.current)];
      LastSplit(Reference(lines));
    }
  }

  // ---------------------------------------------------------------------
  // Properties of the records
  // ---------------------------------------------------------------------

  lemma ReadAllOpens(lines: seq<string>)
    ensures Opens(ReadAll(lines))
  {
  }

  /** Between a header and the next one every line is a continuation. */
  lemma NoHeaderInSpan(lines: seq<Line>, k: nat, i: nat)
    requires k < |HeaderLines(lines)|
    requires HeaderLines(lines)[k] < i < SpanEnd(lines, k)
    ensures lines[i].ContinuationLine?
  {
    var p := HeaderLines(lines);
    HeaderLinesExact(lines);
    assert i !in p by {
      forall m | 0 <= m < |p|
        ensures p[m] != i
      {
        if m <= k {
          assert p[m] <= p[k];
        } else {
          assert p[k + 1] <= p[m];
        }
      }
    }
  }

  lemma SpanIsContinuations(lines: seq<Line>, k: nat)
    requires k < |HeaderLines(lines)|
    ensures forall j :: 0 <= j < |SpanOf(lines, k)| ==> SpanOf(lines, k)[j].ContinuationLine?
  {
    var a := HeaderLines(lines)[k];
    forall j | 0 <= j < |SpanOf(lines, k)|
      ensures SpanOf(lines, k)[j].ContinuationLine?
    {
      NoHeaderInSpan(lines, k, a + 1 + j);
    }
  }

  /** The stripped texts of `more`. */
  function StrippedTexts(more: seq<Line>): seq<string>
    requires forall j :: 0 <= j < |more| ==> more[j].ContinuationLine?
  {
    seq(|more|, j requires 0 <= j < |more| => more[j].stripped)
  }

  /** Extending by continuation lines joins their stripped texts onto the
      message, one per line. */
  lemma {:induction false} ExtendJoins(p: Pending, more: seq<Line>)
    requires forall j :: 0 <= j < |more| ==> more[j].ContinuationLine?
    ensures Extend(p, more).message == Join([p.message] + StrippedTexts(more), "\n")
    decreases |more|
  {
    if |more| > 0 {
      var init := more[..|more| - 1];
      ExtendJoins(p, init);
      var parts := [p.message] + StrippedTexts(init);
      assert [p.message] + StrippedTexts(more) == parts + [more[|more| - 1].stripped];
      JoinSnoc(parts, more[|more| - 1].stripped, "\n");
    }
  }

  /** No line feed in any text a line carries. */
  predicate SingleLines(lines: seq<Line>) {
    forall j :: 0 <= j < |lines| ==>
      '\n' !in (if lines[j].HeaderLine? then lines[j].start.message else lines[j].stripped)
  }

  /** The parts a record's text is joined from carry no line feed. */
  lemma RecordPartsSingle(lines: seq<Line>, k: nat)
    requires SingleLines(lines)
    requires k < |HeaderLines(lines)|
    requires forall j :: 0 <= j < |SpanOf(lines, k)| ==> SpanOf(lines, k)[j].ContinuationLine?
    ensures forall j :: 0 <= j < |StrippedTexts(SpanOf(lines, k))| ==> '\n' !in StrippedTexts(SpanOf(lines, k))[j]
    ensures '\n' !in OpenedAt(lines, k).message
  {
    var a := HeaderLines(lines)[k];
    var more := SpanOf(lines, k);
    assert '\n' !in lines[a].start.message;
    forall j | 0 <= j < |more| ensures '\n' !in StrippedTexts(more)[j] {
      assert more[j] == lines[a + 1 + j];
    }
  }

  /** A record's text splits back, on line feeds, into its first message and
      then each of its continuation lines, stripped, in order. */
  lemma RecordLines(lines: seq<Line>, k: nat)
    requires Opens(lines) && SingleLines(lines)
    requires k < |HeaderLines(lines)|
    ensures k < |Segment(lines)|
    ensures forall j :: 0 <= j < |SpanOf(lines, k)| ==> SpanOf(lines, k)[j].ContinuationLine?
    ensures Split(Segment(lines)[k].message, '\n')
         == [OpenedAt(lines, k).message] + StrippedTexts(SpanOf(lines, k))
  {
    var more := SpanOf(lines, k);
    var msg := Extend(OpenedAt(lines, k), more).message;
    assert k < |Segment(lines)| && Segment(lines)[k].message == msg by {
      SegmentIsReference(lines);
    }
    SpanIsContinuations(lines, k);
    var parts := [OpenedAt(lines, k).message] + StrippedTexts(more);
    assert msg == Join(parts, "\n") by {
      ExtendJoins(OpenedAt(lines, k), more);
    }
    assert Split(msg, '\n') == parts by {
      RecordPartsSingle(lines, k);
      assert forall j :: 0 <= j < |parts| ==> '\n' !in parts[j];
      SplitJoin(parts, '\n');
    }
  }

  lemma DateTimePlain(date: string, time: string)
    requires |date| > 0 && IsDigit(date[0])
    requires |time| > 0 && IsDigit(time[|time| - 1])
    ensures Strip(date + ", " + time + " " + "") == date + ", " + time
  {
    var core := date + ", " + time;
    assert core[0] == date[0];
    assert core[|core| - 1] == time[|time| - 1];
    assert date + ", " + time + " " + "" == [] + core + " ";
    StripUnique([], core, " ");
  }

  lemma DateTimeMeridiem(date: string, time: string, m: string)
    requires |date| > 0 && IsDigit(date[0])
    requires IsMeridiem(m)
    ensures Strip(date + ", " + time + " " + m) == date + ", " + time + " " + m
  {
    var full := date + ", " + time + " " + m;
    assert full[0] == date[0];
    assert full[|full| - 1] == m[|m| - 1];
    assert full == [] + full + [];
    StripUnique([], full, []);
  }

  /** A header's datetime: date, ", " and time, then a space and the meridiem
      only when one was captured. */
  lemma DateTimeOf(h: Groups)
    requires |h.date| > 0 && IsDigit(h.date[0])
    requires |h.time| > 0 && IsDigit(h.time[|h.time| - 1])
    requires h.meridiem.Some? ==> IsMeridiem(h.meridiem.value)
    ensures DateTime(h) == h.date + ", " + h.time + (if h.meridiem.Some? then " " + h.meridiem.value else "")
  {
    match h.meridiem
    case None =>
      DateTimePlain(h.date, h.time);
    case Some(m) =>
      DateTimeMeridiem(h.date, h.time, m);
  }

  /** The datetime of a header line, as it appears in the line's capture groups. */
  lemma DateTimeFormat(line: string)
    ensures Classify(line).Some? ==> var h := Classify(line).value;
      DateTime(h) == h.date + ", " + h.time + (if h.meridiem.Some? then " " + h.meridiem.value else "")
  {
    if Classify(line).Some? {
      DateTimeOf(Classify(line).value);
    }
  }

  /** The sender is absent exactly when the body has no ": "; otherwise it is
      the text before the first ": " and the message starts after it. */
  lemma RecordSender(line: string)
    ensures Classify(line).Some? ==> var h, p := Classify(line).value, Read(line).start;
      && (p.sender.None? <==> !Contains(h.body, ": "))
      && (p.sender.None? ==> p.message == Strip(h.body))
      && (p.sender.Some? ==> exists rest :: h.body == p.sender.value + ": " + rest && p.message == Strip(rest))
      && (p.sender.Some? ==> !Contains(p.sender.value, ": "))
  {
    if Classify(line).Some? {
      var h := Classify(line).value;
      var (sender, msg) := SplitSender(h.body);
      if sender.Some? {
        assert h.body == sender.value + ": " + msg;
      }
    }
  }

  /** States that emit the same records whatever lines follow. */
  ghost predicate Similar(a: State, b: State) {
    && a.done == b.done
    && a.current.datetime == b.current.datetime
    && (a.current.datetime.Some? ==> a.current == b.current)
  }

  lemma {:induction false} FoldPreamble(pre: seq<Line>)
    requires forall i :: 0 <= i < |pre| ==> pre[i].ContinuationLine?
    ensures Fold(pre).done == [] && Fold(pre).current.datetime.None?
    decreases |pre|
  {
    if |pre| > 0 {
      FoldPreamble(pre[..|pre| - 1]);
    }
  }

  lemma {:induction false} FoldAfterPreamble(pre: seq<Line>, lines: seq<Line>)
    requires forall i :: 0 <= i < |pre| ==> pre[i].ContinuationLine?
    ensures Similar(Fold(pre + lines), Fold(lines))
    decreases |lines|
  {
    if |lines| == 0 {
      assert pre + lines == pre;
      FoldPreamble(pre);
    } else {
      var init := lines[..|lines| - 1];
      FoldAfterPreamble(pre, init);
      assert (pre + lines)[..|pre + lines| - 1] == pre + init;
    }
  }

  /** Lines before the first header appear in no record: dropping them
      changes nothing. */
  lemma PreambleIgnored(pre: seq<Line>, lines: seq<Line>)
    requires forall i :: 0 <= i < |pre| ==> pre[i].ContinuationLine?
    ensures Segment(pre + lines) == Segment(lines)
  {
    FoldAfterPreamble(pre, lines);
  }

  /** Input without a header line, the empty text among it, yields no record. */
  lemma NoHeaderNoRecord(lines: seq<Line>)
    requires forall i :: 0 <= i < |lines| ==> lines[i].ContinuationLine?
    ensures Segment(lines) == []
  {
    FoldPreamble(lines);
  }

  lemma EmptyTextNoRecord()
    ensures ProcessLines("") == []
  {
    assert Split("", '\n') == [""] by {
      assert IndexOf("", '\n') == None;
    }
    assert ReadAll([""])[0].ContinuationLine? by {
      ClassifyEmpty();
    }
    NoHeaderNoRecord(ReadAll([""]));
  }

  /** A header line read opens the record of its header. */
  lemma ReadOpens(line: string)
    ensures Read(line).HeaderLine? <==> Classify(line).Some?
    ensures Classify(line).Some? ==> Read(line).start.datetime == Some(DateTime(Classify(line).value))
    ensures Classify(line).Some? ==> Read(line).start.sender == SplitSender(Classify(line).value.body).0
    ensures Classify(line).Some? ==> Read(line).start.message == Strip(SplitSender(Classify(line).value.body).1)
  {
  }

  /** The records of read lines: one per header line, in order, each with
      the datetime and sender its header line opened. */
  lemma SegmentRecords(ls: seq<Line>)
    requires Opens(ls)
    ensures var p, rs := HeaderLines(ls), Segment(ls);
      && |rs| == |p|
      && (forall i :: 0 <= i < |ls| ==> (ls[i].HeaderLine? <==> i in p))
      && (forall k, j :: 0 <= k < j < |p| ==> p[k] < p[j])
      && (forall k :: 0 <= k < |p| ==>
            && Some(rs[k].datetime) == ls[p[k]].start.datetime
            && rs[k].sender == ls[p[k]].start.sender)
  {
    SegmentIsReference(ls);
    HeaderLinesExact(ls);
  }

  /** `process_chat_file`'s records, stated on the text: one per header line,
      in the order of the lines; every header line is counted and nothing
      else is. */
  lemma ProcessLinesRecords(text: string)
    ensures var lines := Split(text, '\n');
      var p := HeaderLines(ReadAll(lines));
      && |ProcessLines(text)| == |p|
      && (forall i :: 0 <= i < |lines| ==> (Classify(lines[i]).Some? <==> i in p))
      && (forall k, j :: 0 <= k < j < |p| ==> p[k] < p[j])
  {
    var lines := Split(text, '\n');
    ReadAllOpens(lines);
    SegmentRecords(ReadAll(lines));
  }

  /** Each record of lines already split carries the datetime and the sender
      of its header line. */
  lemma SegmentFields(lines: seq<string>, k: nat)
    requires k < |Segment(ReadAll(lines))|
    ensures var p := HeaderLines(ReadAll(lines));
      && k < |p|
      && Classify(lines[p[k]]).Some?
      && Segment(ReadAll(lines))[k].datetime == DateTime(Classify(lines[p[k]]).value)
      && Segment(ReadAll(lines))[k].sender == SplitSender(Classify(lines[p[k]]).value.body).0
  {
    var ls := ReadAll(lines);
    assert Opens(ls) by {
      ReadAllOpens(lines);
    }
    SegmentRecords(ls);
    ReadOpens(lines[HeaderLines(ls)[k]]);
  }

  /** Each record of the text carries the datetime and the sender of its
      header line. */
  lemma ProcessLinesFields(text: string, k: nat)
    ensures var lines := Split(text, '\n');
      var p := HeaderLines(ReadAll(lines));
      k < |ProcessLines(text)| ==>
      && k < |p|
      && Classify(lines[p[k]]).Some?
      && ProcessLines(text)[k].datetime == DateTime(Classify(lines[p[k]]).value)
      && ProcessLines(text)[k].sender == SplitSender(Classify(lines[p[k]]).value.body).0
  {
    if k < |ProcessLines(text)| {
      SegmentFields(Split(text, '\n'), k);
    }
  }

  /** Each line, stripped. */
  function Strips(ss: seq<string>): (r: seq<string>)
    ensures |r| == |ss| && forall j :: 0 <= j < |ss| ==> r[j] == Strip(ss[j])
  {
    seq(|ss|, j requires 0 <= j < |ss| => Strip(ss[j]))
  }

  /** A line without a line feed carries none either, read. */
  lemma ReadSingle(line: string)
    requires '\n' !in line
    ensures '\n' !in (if Read(line).HeaderLine? then Read(line).start.message else Read(line).stripped)
  {
    match Classify(line)
    case None =>
      StripKeepsOut(line, '\n');
    case Some(h) =>
      var (sender, msg) := SplitSender(h.body);
      if sender.Some? {
        assert h.body == sender.value + ": " + msg;
      }
      StripKeepsOut(msg, '\n');
  }

  lemma ReadAllSingle(lines: seq<string>)
    requires forall j :: 0 <= j < |lines| ==> '\n' !in lines[j]
    ensures SingleLines(ReadAll(lines))
  {
    forall j | 0 <= j < |lines| {
      ReadSingle(lines[j]);
    }
  }

  /** The stripped texts of a span are the stripped source lines. */
  lemma SpanStrips(ls: seq<Line>, lines: seq<string>, k: nat)
    requires |ls| == |lines|
    requires forall j :: 0 <= j < |ls| ==> ls[j].ContinuationLine? ==> ls[j].stripped == Strip(lines[j])
    requires k < |HeaderLines(ls)|
    requires forall j :: 0 <= j < |SpanOf(ls, k)| ==> SpanOf(ls, k)[j].ContinuationLine?
    ensures StrippedTexts(SpanOf(ls, k)) == Strips(lines[HeaderLines(ls)[k] + 1..SpanEnd(ls, k)])
  {
    var a, e := HeaderLines(ls)[k] + 1, SpanEnd(ls, k);
    assert SpanOf(ls, k) == ls[a..e];
    SliceStrips(ls, lines, a, e);
  }

  lemma SliceStrips(ls: seq<Line>, lines: seq<string>, a: nat, e: nat)
    requires a <= e <= |ls| == |lines|
    requires forall j :: 0 <= j < |ls| ==> ls[j].ContinuationLine? ==> ls[j].stripped == Strip(lines[j])
    requires forall j :: 0 <= j < |ls[a..e]| ==> ls[a..e][j].ContinuationLine?
    ensures StrippedTexts(ls[a..e]) == Strips(lines[a..e])
  {
    var more, src := ls[a..e], lines[a..e];
    forall j | 0 <= j < |more|
      ensures StrippedTexts(more)[j] == Strips(src)[j]
    {
      assert more[j] == ls[a + j] && src[j] == lines[a + j];
    }
  }

  /** The text of each record of already split lines: its first message,
      then each following line up to the next header, stripped, one per line. */
  lemma SegmentText(lines: seq<string>, k: nat)
    requires forall j :: 0 <= j < |lines| ==> '\n' !in lines[j]
    requires k < |Segment(ReadAll(lines))|
    ensures var ls := ReadAll(lines);
      var p := HeaderLines(ls);
      && k < |p|
      && Classify(lines[p[k]]).Some?
      && Split(Segment(ls)[k].message, '\n')
           == [Strip(SplitSender(Classify(lines[p[k]]).value.body).1)]
              + Strips(lines[p[k] + 1..SpanEnd(ls, k)])
  {
    var ls := ReadAll(lines);
    var p := HeaderLines(ls);
    assert k < |p| && Opens(ls) by {
      ReadAllOpens(lines);
      SegmentIsReference(ls);
    }
    assert SingleLines(ls) by {
      ReadAllSingle(lines);
    }
    RecordLines(ls, k);
    assert Classify(lines[p[k]]).Some? && OpenedAt(ls, k).message == Strip(SplitSender(Classify(lines[p[k]]).value.body).1) by {
      ReadOpens(lines[p[k]]);
    }
    SpanStrips(ls, lines, k);
  }

  /** The text of each record, stated on the text: its first message, then
      each following line up to the next header, stripped, one per line. */
  lemma ProcessLinesText(text: string, k: nat)
    ensures var lines := Split(text, '\n');
      var ls := ReadAll(lines);
      var p := HeaderLines(ls);
      k < |ProcessLines(text)| ==>
      && k < |p|
      && Classify(lines[p[k]]).Some?
      && Split(ProcessLines(text)[k].message, '\n')
           == [Strip(SplitSender(Classify(lines[p[k]]).value.body).1)]
              + Strips(lines[p[k] + 1..SpanEnd(ls, k)])
  {
    if k < |ProcessLines(text)| {
      SegmentText(Split(text, '\n'), k);
    }
  }
}

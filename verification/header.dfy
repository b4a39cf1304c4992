/** The header-line classifier that utils/processor.py and utils/chat_loader.py
    both compile from the same pattern. A header line is, in order and anchored
    at the start of the line: a date of one or two digits, '/', one or two
    digits, '/', four digits; the literal ", "; a time of one or two digits,
    ':', two digits; any number of LEFT-TO-RIGHT MARKs (U+200E); any amount of
    whitespace; an optional meridiem AM, PM, am or pm; the literal " - "; and
    the body, which is the rest of the line.

    `Parse` is a deterministic matcher for that pattern. The pattern itself is
    given independently as a grammar: a `Derivation` names every piece, and
    `Render` glues the pieces back together. `Parse` accepts exactly the
    rendered well-formed derivations, and returns the one derivation that
    produced the line, so the regular expression's backtracking can never pick
    different capture groups. */
module Header {
  import opened Wrappers
  import opened Text

  /** U+200E LEFT-TO-RIGHT MARK, which exports place before the meridiem. */
  const Lrm: char := '\U{200E}'

  /** The four capture groups of a matching line. */
  datatype Groups = Groups(date: string, time: string, meridiem: Option<string>, body: string)

  predicate IsMeridiem(m: string) {
    m == "AM" || m == "PM" || m == "am" || m == "pm"
  }

  /** The captured meridiem, or "" when the optional group did not take part. */
  function MeridiemText(m: Option<string>): string {
    m.GetOr("")
  }

  predicate AllLrm(s: string) {
    forall i :: 0 <= i < |s| ==> s[i] == Lrm
  }

  // ---------------------------------------------------------------------
  // The grammar
  // ---------------------------------------------------------------------

  /** One way of reading a line as a header: every piece of the pattern.
      `newline` records the final "\n" that `$` lets the match stop before. */
  datatype Derivation = Derivation(
    day: string, month: string, year: string,
    hour: string, minute: string,
    marks: string, gap: string, meridiem: Option<string>,
    body: string, newline: bool)

  /** Each piece matches its part of the pattern; the body is what `.*`
      can match, so it holds no line feed. */
  predicate WellFormed(d: Derivation) {
    && AllDigits(d.day) && 1 <= |d.day| <= 2
    && AllDigits(d.month) && 1 <= |d.month| <= 2
    && AllDigits(d.year) && |d.year| == 4
    && AllDigits(d.hour) && 1 <= |d.hour| <= 2
    && AllDigits(d.minute) && |d.minute| == 2
    && AllLrm(d.marks)
    && AllSpace(d.gap)
    && (d.meridiem.Some? ==> IsMeridiem(d.meridiem.value))
    && '\n' !in d.body
  }

  function BodyText(body: string, newline: bool): string {
    body + (if newline then "\n" else "")
  }

  /** `marks`, `gap`, the meridiem and " - ", then `rest`. */
  function MarkerText(marks: string, gap: string, meridiem: Option<string>, rest: string): string {
    marks + (gap + (MeridiemText(meridiem) + (" - " + rest)))
  }

  /** `hour`, ':' and `minute`, then `rest`. */
  function TimeText(hour: string, minute: string, rest: string): string {
    hour + (":" + (minute + rest))
  }

  /** `day`, '/', `month`, '/', `year` and ", ", then `rest`. */
  function DateText(day: string, month: string, year: string, rest: string): string {
    day + ("/" + (month + ("/" + (year + (", " + rest)))))
  }

  /** The line a derivation spells out. */
  function Render(d: Derivation): string {
    DateText(d.day, d.month, d.year,
      TimeText(d.hour, d.minute,
        MarkerText(d.marks, d.gap, d.meridiem, BodyText(d.body, d.newline))))
  }

  /** The capture groups of a derivation. */
  function Captures(d: Derivation): Groups {
    Groups(d.day + "/" + d.month + "/" + d.year, d.hour + ":" + d.minute, d.meridiem, d.body)
  }

  // ---------------------------------------------------------------------
  // The matcher
  // ---------------------------------------------------------------------

  /** Length of the longest all-digit prefix. */
  function DigitRun(s: string): (n: nat)
    ensures n <= |s| && AllDigits(s[..n])
    ensures n == |s| || !IsDigit(s[n])
  {
    if |s| == 0 || !IsDigit(s[0]) then 0
    else
      var n := 1 + DigitRun(s[1..]);
      assert s[..n] == [s[0]] + s[1..][..n - 1];
      n
  }

  /** Length of the longest prefix of LEFT-TO-RIGHT MARKs. */
  function LrmRun(s: string): (n: nat)
    ensures n <= |s| && AllLrm(s[..n])
    ensures n == |s| || s[n] != Lrm
  {
    if |s| == 0 || s[0] != Lrm then 0
    else
      var n := 1 + LrmRun(s[1..]);
      assert s[..n] == [s[0]] + s[1..][..n - 1];
      n
  }

  /** A digit group of `lo` to `hi` digits followed by the literal `sep`.
      Every digit group of the pattern is followed by something that is not a
      digit, so taking the longest digit run loses no match. */
  function Field(s: string, lo: nat, hi: nat, sep: string): (r: Option<(string, string)>)
    ensures r.Some? ==> AllDigits(r.value.0) && lo <= |r.value.0| <= hi
    ensures r.Some? ==> s == r.value.0 + (sep + r.value.1)
  {
    var n := DigitRun(s);
    if lo <= n <= hi && sep <= s[n..] then
      assert s == s[..n] + (sep + s[n + |sep|..]);
      Some((s[..n], s[n + |sep|..]))
    else None
  }

  /** The meridiem that, followed by " - ", starts `u`. */
  function MeridiemAt(u: string): (r: Option<string>)
    ensures r.Some? ==> IsMeridiem(r.value) && r.value + " - " <= u
    ensures r.None? ==> forall m :: IsMeridiem(m) ==> !(m + " - " <= u)
  {
    if "AM - " <= u then Some("AM")
    else if "PM - " <= u then Some("PM")
    else if "am - " <= u then Some("am")
    else if "pm - " <= u then Some("pm")
    else None
  }

  /** After the marks and the whitespace: a meridiem followed by " - ". */
  function WithMeridiem(marks: string, t: string, w: nat): (r: Option<(string, string, Option<string>, string)>)
    requires w <= |t| && AllLrm(marks) && AllSpace(t[..w])
    ensures r.Some? ==> r.value.0 == marks && AllSpace(r.value.1) && r.value.2.Some?
    ensures r.Some? ==> IsMeridiem(r.value.2.value)
    ensures r.Some? ==> marks + t == MarkerText(r.value.0, r.value.1, r.value.2, r.value.3)
  {
    var u := t[w..];
    match MeridiemAt(u)
    case Some(mer) =>
      var rest := u[|mer| + 3..];
      assert u == mer + (" - " + rest);
      assert t == t[..w] + u;
      Some((marks, t[..w], Some(mer), rest))
    case None => None
  }

  /** After the marks and the whitespace, no meridiem: the last whitespace
      character is the space that opens " - ". */
  function WithoutMeridiem(marks: string, t: string, w: nat): (r: Option<(string, string, Option<string>, string)>)
    requires w <= |t| && AllLrm(marks) && AllSpace(t[..w])
    ensures r.Some? ==> r.value.0 == marks && AllSpace(r.value.1) && r.value.2.None?
    ensures r.Some? ==> marks + t == MarkerText(r.value.0, r.value.1, r.value.2, r.value.3)
  {
    if 0 < w && t[w - 1] == ' ' && "- " <= t[w..] then
      var gap, rest := t[..w - 1], t[w + 2..];
      assert t == gap + (" - " + rest);
      assert AllSpace(gap) by { assert gap == t[..w][..w - 1]; }
      Some((marks, gap, None, rest))
    else None
  }

  /** The marks, the whitespace, the optional meridiem and " - ". */
  function Markers(s: string): (r: Option<(string, string, Option<string>, string)>)
    ensures r.Some? ==> AllLrm(r.value.0) && AllSpace(r.value.1)
    ensures r.Some? ==> r.value.2.Some? ==> IsMeridiem(r.value.2.value)
    ensures r.Some? ==> s == MarkerText(r.value.0, r.value.1, r.value.2, r.value.3)
  {
    var m := LrmRun(s);
    var t := s[m..];
    var w := LeadingSpace(t);
    assert s == s[..m] + t;
    var r := WithMeridiem(s[..m], t, w);
    if r.Some? then r else WithoutMeridiem(s[..m], t, w)
  }

  /** What `.*$` does with the rest of the line: the body stops at the end,
      or just before a line feed that ends the text. */
  function Tail(s: string): (r: Option<(string, bool)>)
    ensures r.Some? ==> '\n' !in r.value.0 && s == BodyText(r.value.0, r.value.1)
  {
    match IndexOf(s, '\n')
    case None => Some((s, false))
    case Some(i) =>
      if i == |s| - 1 then
        assert s == s[..i] + "\n";
        Some((s[..i], true))
      else None
  }

  /** The date and the ", " after it. */
  function DatePart(s: string): (r: Option<(string, string, string, string)>)
    ensures r.Some? ==> AllDigits(r.value.0) && 1 <= |r.value.0| <= 2
    ensures r.Some? ==> AllDigits(r.value.1) && 1 <= |r.value.1| <= 2
    ensures r.Some? ==> AllDigits(r.value.2) && |r.value.2| == 4
    ensures r.Some? ==> s == DateText(r.value.0, r.value.1, r.value.2, r.value.3)
  {
    match Field(s, 1, 2, "/")
    case None => None
    case Some((day, r1)) =>
      match Field(r1, 1, 2, "/")
      case None => None
      case Some((month, r2)) =>
        match Field(r2, 4, 4, ", ")
        case None => None
        case Some((year, r3)) => Some((day, month, year, r3))
  }

  /** The time. */
  function TimePart(s: string): (r: Option<(string, string, string)>)
    ensures r.Some? ==> AllDigits(r.value.0) && 1 <= |r.value.0| <= 2
    ensures r.Some? ==> AllDigits(r.value.1) && |r.value.1| == 2
    ensures r.Some? ==> s == TimeText(r.value.0, r.value.1, r.value.2)
  {
    match Field(s, 1, 2, ":")
    case None => None
    case Some((hour, r1)) =>
      match Field(r1, 2, 2, "")
      case None => None
      case Some((minute, r2)) =>
        assert r1 == minute + r2;
        Some((hour, minute, r2))
  }

  /** Matches `line` against the header pattern, returning the derivation. */
  function Parse(line: string): (r: Option<Derivation>)
    ensures r.Some? ==> WellFormed(r.value) && Render(r.value) == line
  {
    var date := DatePart(line);
    if date.None? then None else
    var time := TimePart(date.value.3);
    if time.None? then None else
    var markers := Markers(time.value.2);
    if markers.None? then None else
    var tail := Tail(markers.value.3);
    if tail.None? then None else
    var d := Derivation(date.value.0, date.value.1, date.value.2,
                        time.value.0, time.value.1,
                        markers.value.0, markers.value.1, markers.value.2,
                        tail.value.0, tail.value.1);
    assert time.value.2 == MarkerText(d.marks, d.gap, d.meridiem, BodyText(d.body, d.newline));
    assert date.value.3 == TimeText(d.hour, d.minute, time.value.2);
    Some(d)
  }

  /** `pattern.match(line)`: the capture groups of a header line, or None for
      a continuation line. */
  function Classify(line: string): (r: Option<Groups>)
    ensures r.Some? ==> '\n' !in r.value.body
    ensures r.Some? ==> |r.value.date| > 0 && IsDigit(r.value.date[0])
    ensures r.Some? ==> |r.value.time| > 0 && IsDigit(r.value.time[|r.value.time| - 1])
    ensures r.Some? ==> r.value.meridiem.Some? ==> IsMeridiem(r.value.meridiem.value)
  {
    match Parse(line)
    case None => None
    case Some(d) => Some(Captures(d))
  }

  /** The empty line is not a header: the date needs a digit. */
  lemma ClassifyEmpty()
    ensures Classify("") == None
  {
    assert DigitRun("") == 0;
    assert DatePart("") == None;
  }

  // ---------------------------------------------------------------------
  // The matcher against the grammar
  // ---------------------------------------------------------------------

  lemma DigitRunOf(ds: string, rest: string)
    requires AllDigits(ds)
    requires |rest| == 0 || !IsDigit(rest[0])
    ensures DigitRun(ds + rest) == |ds|
  {
    if |ds| > 0 {
      var s := ds + rest;
      assert s[0] == ds[0] && IsDigit(s[0]);
      assert s[1..] == ds[1..] + rest;
      assert AllDigits(ds[1..]);
      DigitRunOf(ds[1..], rest);
      assert DigitRun(s) == 1 + DigitRun(s[1..]);
    } else {
      assert ds + rest == rest;
    }
  }

  lemma LrmRunOf(marks: string, rest: string)
    requires AllLrm(marks)
    requires |rest| == 0 || rest[0] != Lrm
    ensures LrmRun(marks + rest) == |marks|
  {
    if |marks| > 0 {
      assert (marks + rest)[1..] == marks[1..] + rest;
      LrmRunOf(marks[1..], rest);
    } else {
      assert marks + rest == rest;
    }
  }

  lemma FieldOf(ds: string, sep: string, rest: string, lo: nat, hi: nat)
    requires AllDigits(ds) && lo <= |ds| <= hi
    requires |sep + rest| == 0 || !IsDigit((sep + rest)[0])
    ensures Field(ds + (sep + rest), lo, hi, sep) == Some((ds, rest))
  {
    var s := ds + (sep + rest);
    DigitRunOf(ds, sep + rest);
    assert s[|ds|..] == sep + rest;
    assert s[..|ds|] == ds;
    assert s[|ds| + |sep|..] == rest;
  }

  /** A meridiem starts with a letter. */
  lemma MeridiemLetter(m: string)
    requires IsMeridiem(m)
    ensures |m| == 2 && !IsSpace(m[0]) && m[0] != Lrm
  {
  }

  lemma MeridiemAtOf(m: string, rest: string)
    requires IsMeridiem(m)
    ensures MeridiemAt(m + (" - " + rest)) == Some(m)
  {
    var u := m + (" - " + rest);
    assert u[..5] == m + " - ";
    assert u[0] == m[0] && u[1] == m[1];
    forall p | p in ["AM - ", "PM - ", "am - ", "pm - "] && p <= u
      ensures p[..2] == m
    {
      FirstTwo(u, p);
    }
  }

  /** A prefix agrees with the text on its first two characters. */
  lemma FirstTwo(u: string, p: string)
    requires p <= u && |p| >= 2
    ensures p[0] == u[0] && p[1] == u[1]
  {
    assert p[0] == u[..|p|][0] && p[1] == u[..|p|][1];
  }

  /** Reading the marks: the LEFT-TO-RIGHT MARK run stops where `t` starts. */
  lemma MarksSplit(marks: string, t: string)
    requires AllLrm(marks)
    requires |t| > 0 && t[0] != Lrm
    ensures var s := marks + t; LrmRun(s) == |marks| && s[..|marks|] == marks && s[|marks|..] == t
  {
    LrmRunOf(marks, t);
    assert (marks + t)[..|marks|] == marks;
    assert (marks + t)[|marks|..] == t;
  }

  lemma MarkersOfMeridiem(marks: string, gap: string, m: string, rest: string)
    requires AllLrm(marks) && AllSpace(gap) && IsMeridiem(m)
    ensures Markers(MarkerText(marks, gap, Some(m), rest)) == Some((marks, gap, Some(m), rest))
  {
    var u := m + (" - " + rest);
    var t := gap + u;
    var s := marks + t;
    assert s == MarkerText(marks, gap, Some(m), rest);
    MeridiemLetter(m);
    assert t[0] != Lrm by {
      if |gap| > 0 { assert t[0] == gap[0]; } else { assert t[0] == m[0]; }
    }
    MarksSplit(marks, t);
    assert LeadingSpace(t) == |gap| && t[..|gap|] == gap && t[|gap|..] == u by {
      LeadingSpaceOf(gap, u);
    }
    assert WithMeridiem(marks, t, |gap|) == Some((marks, gap, Some(m), rest)) by {
      MeridiemAtOf(m, rest);
      assert u[|m| + 3..] == rest;
    }
  }

  /** `Markers` in terms of what its two runs come to. */
  lemma MarkersBy(s: string, marks: string, t: string, w: nat)
    requires s == marks + t && LrmRun(s) == |marks|
    requires LeadingSpace(t) == w
    ensures Markers(s) == if WithMeridiem(marks, t, w).Some? then WithMeridiem(marks, t, w) else WithoutMeridiem(marks, t, w)
  {
    assert s[..|marks|] == marks && s[|marks|..] == t;
  }

  lemma PlainMarks(marks: string, gap: string, rest: string)
    requires AllLrm(marks) && AllSpace(gap)
    ensures LrmRun(marks + ((gap + " ") + ("- " + rest))) == |marks|
  {
    var t := (gap + " ") + ("- " + rest);
    assert t[0] != Lrm by {
      if |gap| > 0 { assert t[0] == gap[0]; } else { assert t[0] == ' '; }
    }
    MarksSplit(marks, t);
  }

  lemma PlainGap(gap: string, rest: string)
    requires AllSpace(gap)
    ensures LeadingSpace((gap + " ") + ("- " + rest)) == |gap| + 1
  {
    assert AllSpace(gap + " ");
    LeadingSpaceOf(gap + " ", "- " + rest);
  }

  lemma PlainNoMeridiem(marks: string, gap: string, rest: string)
    requires AllLrm(marks) && AllSpace(gap)
    ensures WithMeridiem(marks, (gap + " ") + ("- " + rest), |gap| + 1) == None
  {
    var t := (gap + " ") + ("- " + rest);
    assert t[|gap| + 1..] == "- " + rest;
    var u := "- " + rest;
    assert u[0] == '-';
    forall p | p in ["AM - ", "PM - ", "am - ", "pm - "]
      ensures !(p <= u)
    {
      if p <= u { FirstTwo(u, p); }
    }
    assert MeridiemAt(u) == None;
  }

  lemma PlainDash(marks: string, gap: string, rest: string)
    requires AllLrm(marks) && AllSpace(gap)
    ensures WithoutMeridiem(marks, (gap + " ") + ("- " + rest), |gap| + 1) == Some((marks, gap, None, rest))
  {
    var t := (gap + " ") + ("- " + rest);
    assert t[|gap|] == ' ';
    assert t[|gap| + 1..] == "- " + rest;
    assert t[..|gap|] == gap;
    assert t[|gap| + 3..] == rest;
  }

  lemma PlainMarkers(marks: string, gap: string, rest: string)
    requires AllLrm(marks) && AllSpace(gap)
    ensures Markers(marks + ((gap + " ") + ("- " + rest))) == Some((marks, gap, None, rest))
  {
    var t := (gap + " ") + ("- " + rest);
    PlainMarks(marks, gap, rest);
    PlainGap(gap, rest);
    PlainNoMeridiem(marks, gap, rest);
    PlainDash(marks, gap, rest);
    MarkersBy(marks + t, marks, t, |gap| + 1);
  }

  lemma PlainShape(marks: string, gap: string, rest: string)
    ensures MarkerText(marks, gap, None, rest) == marks + ((gap + " ") + ("- " + rest))
  {
    assert MeridiemText(None) == "";
    assert gap + ("" + (" - " + rest)) == (gap + " ") + ("- " + rest);
  }

  lemma MarkersOfPlain(marks: string, gap: string, rest: string)
    requires AllLrm(marks) && AllSpace(gap)
    ensures Markers(MarkerText(marks, gap, None, rest)) == Some((marks, gap, None, rest))
  {
    PlainShape(marks, gap, rest);
    PlainMarkers(marks, gap, rest);
  }

  lemma MarkersOf(marks: string, gap: string, meridiem: Option<string>, rest: string)
    requires AllLrm(marks) && AllSpace(gap)
    requires meridiem.Some? ==> IsMeridiem(meridiem.value)
    ensures Markers(MarkerText(marks, gap, meridiem, rest)) == Some((marks, gap, meridiem, rest))
  {
    match meridiem
    case Some(m) => MarkersOfMeridiem(marks, gap, m, rest);
    case None => MarkersOfPlain(marks, gap, rest);
  }

  lemma TailOf(body: string, newline: bool)
    requires '\n' !in body
    ensures Tail(BodyText(body, newline)) == Some((body, newline))
  {
    var s := BodyText(body, newline);
    if newline {
      assert s[|body|] == '\n';
      assert s[..|body|] == body;
      assert IndexOf(s, '\n') == Some(|body|);
    } else {
      assert s == body;
    }
  }

  lemma DatePartOf(day: string, month: string, year: string, rest: string)
    requires AllDigits(day) && 1 <= |day| <= 2
    requires AllDigits(month) && 1 <= |month| <= 2
    requires AllDigits(year) && |year| == 4
    ensures DatePart(DateText(day, month, year, rest)) == Some((day, month, year, rest))
  {
    var r2 := year + (", " + rest);
    var r1 := month + ("/" + r2);
    FieldOf(day, "/", r1, 1, 2);
    FieldOf(month, "/", r2, 1, 2);
    FieldOf(year, ", ", rest, 4, 4);
  }

  lemma TimePartOf(hour: string, minute: string, rest: string)
    requires AllDigits(hour) && 1 <= |hour| <= 2
    requires AllDigits(minute) && |minute| == 2
    requires |rest| > 0 && !IsDigit(rest[0])
    ensures TimePart(TimeText(hour, minute, rest)) == Some((hour, minute, rest))
  {
    FieldOf(hour, ":", minute + rest, 1, 2);
    assert minute + rest == minute + ("" + rest);
    FieldOf(minute, "", rest, 2, 2);
  }

  /** What follows the minutes never starts with a digit. */
  lemma MarkerTextStart(marks: string, gap: string, meridiem: Option<string>, rest: string)
    requires AllLrm(marks) && AllSpace(gap)
    requires meridiem.Some? ==> IsMeridiem(meridiem.value)
    ensures var t := MarkerText(marks, gap, meridiem, rest); |t| > 0 && !IsDigit(t[0])
  {
    var t := MarkerText(marks, gap, meridiem, rest);
    if |marks| > 0 { assert t[0] == marks[0]; }
    else if |gap| > 0 { assert t[0] == gap[0]; }
    else if meridiem.Some? { assert t[0] == meridiem.value[0]; }
    else { assert t[0] == ' '; }
  }

  /** The matcher accepts every line the grammar derives, and returns the
      derivation that produced it. */
  lemma ParseComplete(d: Derivation)
    requires WellFormed(d)
    ensures Parse(Render(d)) == Some(d)
  {
    var r3 := BodyText(d.body, d.newline);
    var r2 := MarkerText(d.marks, d.gap, d.meridiem, r3);
    var r1 := TimeText(d.hour, d.minute, r2);
    DatePartOf(d.day, d.month, d.year, r1);
    MarkerTextStart(d.marks, d.gap, d.meridiem, r3);
    TimePartOf(d.hour, d.minute, r2);
    MarkersOf(d.marks, d.gap, d.meridiem, r3);
    TailOf(d.body, d.newline);
  }

  /** A line has at most one derivation: the pattern's capture groups are
      determined by the line, whatever order the matcher tries alternatives. */
  lemma DerivationUnique(d1: Derivation, d2: Derivation)
    requires WellFormed(d1) && WellFormed(d2)
    requires Render(d1) == Render(d2)
    ensures d1 == d2
  {
    ParseComplete(d1);
    ParseComplete(d2);
  }

  /** Every header `Classify` reports is the capture of a derivation of the line. */
  lemma ClassifySound(line: string) returns (d: Derivation)
    ensures Classify(line).Some? ==> WellFormed(d) && Render(d) == line
    ensures Classify(line).Some? ==> Classify(line) == Some(Captures(d))
  {
    match Parse(line)
    case Some(p) => d := p;
    case None => d := Derivation("", "", "", "", "", "", "", None, "", false);
  }

  /** Every line the grammar derives is a header with that derivation's captures. */
  lemma ClassifyComplete(d: Derivation)
    requires WellFormed(d)
    ensures Classify(Render(d)) == Some(Captures(d))
  {
    ParseComplete(d);
  }
}

/** The document extractor of utils/chat_loader.py (`load_whatsapp_chat`).
    It reads the same header lines as the segmenter, with the same pattern,
    and turns each header whose body holds ": " into one document: the
    stripped message as content, the stripped sender and the datetime as
    metadata. Continuation lines and notices without a sender yield nothing,
    and no sender is filtered out.

    Because the pattern is shared, the documents are exactly the segmenter's
    records that have a sender, in order, each cut down to its first line
    (`LoaderMatchesProcessor`). */
module ChatLoader {
  import opened Wrappers
  import opened Text
  import opened Header
  import opened Processor

  /** A document: its content and its `sender` and `datetime` metadata. */
  datatype Document = Document(content: string, sender: string, datetime: string)

  /** The document a line yields, if any. */
  function DocumentOf(line: string): (d: Option<Document>)
    ensures d.Some? <==> Classify(line).Some? && Contains(Classify(line).value.body, ": ")
    ensures d.Some? ==> exists before, after ::
      && Classify(line).value.body == before + ": " + after
      && !Contains(before, ": ")
      && d.value.sender == Strip(before)
      && d.value.content == Strip(after)
    ensures d.Some? ==> d.value.datetime == DateTime(Classify(line).value)
    ensures d.Some? ==> '\n' !in d.value.content
  {
    match Classify(line)
    case None => None
    case Some(h) =>
      match SplitSender(h.body)
      case (None, _) => None
      case (Some(sender), msg) =>
        var d := Document(Strip(msg), Strip(sender), DateTime(h));
        assert h.body == sender + ": " + msg && !Contains(sender, ": ");
        assert d.sender == Strip(sender) && d.content == Strip(msg);
        StripKeepsOut(msg, '\n');
        Some(d)
  }

  /** The values of the `Some`s among `xs`, in order. */
  function Somes<T>(xs: seq<Option<T>>): seq<T>
    decreases |xs|
  {
    if |xs| == 0 then []
    else Somes(xs[..|xs| - 1]) + (if xs[|xs| - 1].Some? then [xs[|xs| - 1].value] else [])
  }

  /** The positions of the `Some`s among `xs`, in increasing order. */
  function SomeAt<T>(xs: seq<Option<T>>): (p: seq<nat>)
    ensures forall k :: 0 <= k < |p| ==> p[k] < |xs| && xs[p[k]].Some?
    decreases |xs|
  {
    if |xs| == 0 then []
    else SomeAt(xs[..|xs| - 1]) + (if xs[|xs| - 1].Some? then [|xs| - 1] else [])
  }

  /** `Somes` keeps every `Some`, once, in order, and nothing else. */
  lemma {:induction false} SomesExact<T>(xs: seq<Option<T>>)
    ensures |Somes(xs)| == |SomeAt(xs)|
    ensures forall k :: 0 <= k < |SomeAt(xs)| ==> Somes(xs)[k] == xs[SomeAt(xs)[k]].value
    ensures forall k, j :: 0 <= k < j < |SomeAt(xs)| ==> SomeAt(xs)[k] < SomeAt(xs)[j]
    ensures forall i :: 0 <= i < |xs| && xs[i].Some? ==> i in SomeAt(xs)
    decreases |xs|
  {
    if |xs| > 0 {
      var n := |xs| - 1;
      var init := xs[..n];
      var vs, ps := Somes(init), SomeAt(init);
      SomesExact(init);
      assert Somes(xs) == vs + (if xs[n].Some? then [xs[n].value] else []);
      assert SomeAt(xs) == ps + (if xs[n].Some? then [n] else []);
      forall k | 0 <= k < |SomeAt(xs)|
        ensures Somes(xs)[k] == xs[SomeAt(xs)[k]].value
      {
        if k < |ps| {
          assert init[ps[k]] == xs[ps[k]];
        }
      }
      forall i | 0 <= i < |xs| && xs[i].Some?
        ensures i in SomeAt(xs)
      {
        if i < n {
          assert init[i] == xs[i];
        }
      }
    }
  }

  /** What each line yields. */
  function Extracted(lines: seq<string>): (ds: seq<Option<Document>>)
    ensures |ds| == |lines| && forall i :: 0 <= i < |lines| ==> ds[i] == DocumentOf(lines[i])
  {
    seq(|lines|, i requires 0 <= i < |lines| => DocumentOf(lines[i]))
  }

  /** The documents of lines already split, in the order of the lines. */
  function Documents(lines: seq<string>): seq<Document> {
    Somes(Extracted(lines))
  }

  /** One document per header line with a sender, in the order of the lines,
      and nothing from any other line. */
  lemma DocumentsExact(lines: seq<string>)
    ensures var p, docs := SomeAt(Extracted(lines)), Documents(lines);
      && |docs| == |p|
      && (forall i :: 0 <= i < |lines| ==>
            (i in p <==> Classify(lines[i]).Some? && Contains(Classify(lines[i]).value.body, ": ")))
      && (forall k, j :: 0 <= k < j < |p| ==> p[k] < p[j])
      && (forall k :: 0 <= k < |p| ==> DocumentOf(lines[p[k]]) == Some(docs[k]))
  {
    var ds := Extracted(lines);
    var p := SomeAt(ds);
    SomesExact(ds);
    forall i | 0 <= i < |lines|
      ensures i in p <==> Classify(lines[i]).Some? && Contains(Classify(lines[i]).value.body, ": ")
    {
      assert ds[i] == DocumentOf(lines[i]);
    }
    forall k | 0 <= k < |p|
      ensures DocumentOf(lines[p[k]]) == Some(Somes(ds)[k])
    {
      assert ds[p[k]] == DocumentOf(lines[p[k]]);
    }
  }

  /** `load_whatsapp_chat`: one document for each line of the text that is a
      header with a sender, in the order of the lines; each document's
      content is a single line. */
  function LoadWhatsappChat(text: string): (docs: seq<Document>)
    ensures var lines := Split(text, '\n');
      var p := SomeAt(Extracted(lines));
      && |docs| == |p|
      && (forall i :: 0 <= i < |lines| ==>
            (i in p <==> Classify(lines[i]).Some? && Contains(Classify(lines[i]).value.body, ": ")))
      && (forall k, j :: 0 <= k < j < |p| ==> p[k] < p[j])
      && (forall k :: 0 <= k < |p| ==> DocumentOf(lines[p[k]]) == Some(docs[k]))
    ensures forall k :: 0 <= k < |docs| ==> '\n' !in docs[k].content
  {
    var lines := Split(text, '\n');
    DocumentsExact(lines);
    var docs := Documents(lines);
    assert forall k :: 0 <= k < |docs| ==> '\n' !in docs[k].content by {
      forall k | 0 <= k < |docs|
        ensures '\n' !in docs[k].content
      {
        assert DocumentOf(lines[SomeAt(Extracted(lines))[k]]) == Some(docs[k]);
      }
    }
    docs
  }

  // ---------------------------------------------------------------------
  // The documents against the segmenter's records
  // ---------------------------------------------------------------------

  /** The text up to the first line feed. */
  function FirstLine(s: string): (f: string)
    ensures f <= s
    ensures forall j :: 0 <= j < |f| ==> s[j] != '\n'
    ensures |f| < |s| ==> s[|f|] == '\n'
  {
    match IndexOf(s, '\n')
    case None => s
    case Some(i) => s[..i]
  }

  /** Appending a line leaves the first line alone. */
  lemma FirstLineExtend(m: string, x: string)
    ensures FirstLine(m + "\n" + x) == FirstLine(m)
  {
    var s := m + "\n" + x;
    var g := FirstLine(m);
    assert s[|m|] == '\n';
    assert forall j :: 0 <= j < |g| ==> s[j] == m[j];
    if |g| < |m| {
      assert s[|g|] == '\n';
    }
  }

  /** The document a record stands for, if it has a sender. */
  function Entry(r: Record): seq<Document> {
    match r.sender
    case None => []
    case Some(sender) => [Document(FirstLine(r.message), Strip(sender), r.datetime)]
  }

  /** The documents the records stand for, in order. */
  function Corpus(rs: seq<Record>): seq<Document>
    decreases |rs|
  {
    if |rs| == 0 then [] else Corpus(rs[..|rs| - 1]) + Entry(rs[|rs| - 1])
  }

  lemma CorpusSnoc(rs: seq<Record>, r: Record)
    ensures Corpus(rs + [r]) == Corpus(rs) + Entry(r)
  {
    assert (rs + [r])[..|rs|] == rs;
  }

  /** What a read line and the document of the same line have in common. */
  predicate Agree(l: Line, d: Option<Document>) {
    match l
    case HeaderLine(start) => Entry(Close(start)) == (if d.Some? then [d.value] else [])
    case ContinuationLine(_) => d.None?
  }

  lemma ReadAgrees(line: string)
    ensures Agree(Read(line), DocumentOf(line))
  {
    match Classify(line)
    case None =>
    case Some(h) =>
      var (sender, msg) := SplitSender(h.body);
      if sender.Some? {
        assert h.body == sender.value + ": " + msg;
        StripKeepsOut(msg, '\n');
      }
  }

  /** A continuation changes no record's document. */
  lemma ContinueKeepsCorpus(st: State, stripped: string)
    ensures Corpus(Flush(Step(st, ContinuationLine(stripped)))) == Corpus(Flush(st))
  {
    var c := st.current;
    if Truthy(c) {
      FirstLineExtend(c.message, stripped);
      CorpusSnoc(st.done, Close(Continue(c, stripped)));
      CorpusSnoc(st.done, Close(c));
    } else {
      assert st.done + [] == st.done;
    }
  }

  lemma {:induction false} CorpusOfFold(ls: seq<Line>, ds: seq<Option<Document>>)
    requires |ls| == |ds| && Opens(ls)
    requires forall i :: 0 <= i < |ls| ==> Agree(ls[i], ds[i])
    ensures Corpus(Flush(Fold(ls))) == Somes(ds)
    decreases |ls|
  {
    if |ls| > 0 {
      var n := |ls| - 1;
      var st := Fold(ls[..n]);
      assert Corpus(Flush(st)) == Somes(ds[..n]) by {
        assert forall i :: 0 <= i < n ==> ls[..n][i] == ls[i] && ds[..n][i] == ds[i];
        CorpusOfFold(ls[..n], ds[..n]);
      }
      assert Fold(ls) == Step(st, ls[n]);
      assert Somes(ds) == Somes(ds[..n]) + (if ds[n].Some? then [ds[n].value] else []);
      assert Agree(ls[n], ds[n]);
      match ls[n]
      case HeaderLine(start) =>
        assert Truthy(start);
        assert Flush(Step(st, ls[n])) == Flush(st) + [Close(start)];
        CorpusSnoc(Flush(st), Close(start));
      case ContinuationLine(stripped) =>
        ContinueKeepsCorpus(st, stripped);
    }
  }

  /** Since both read the same header lines, the documents are the records
      that have a sender, in the same order, with the same datetime, the
      sender stripped, and the record's first line as content. */
  lemma LoaderMatchesProcessor(text: string)
    ensures LoadWhatsappChat(text) == Corpus(ProcessLines(text))
  {
    var lines := Split(text, '\n');
    var ls, ds := ReadAll(lines), Extracted(lines);
    ReadAllOpens(lines);
    forall i | 0 <= i < |lines|
      ensures Agree(ls[i], ds[i])
    {
      ReadAgrees(lines[i]);
    }
    CorpusOfFold(ls, ds);
  }

  /** A document's content is its record's text up to the first line feed:
      a prefix of it, and the first of the record's lines. */
  lemma ContentIsFirstLine(r: Record)
    requires r.sender.Some?
    ensures Entry(r)[0].content <= r.message
    ensures Entry(r)[0].content == Split(r.message, '\n')[0]
  {
    var m := r.message;
    var f := FirstLine(m);
    if |f| < |m| {
      assert m == f + "\n" + m[|f| + 1..];
      var rest := Split(m[|f| + 1..], '\n');
      assert ([f] + rest)[1..] == rest;
      assert Join([f] + rest, "\n") == m;
      SplitJoin([f] + rest, '\n');
    } else {
      assert f == m;
      assert Join([m], "\n") == m;
      SplitJoin([m], '\n');
    }
  }
}

/** The summary `process_chat_file` returns next to its records
    (utils/processor.py): the number of messages, the number of distinct
    senders, and the three most frequent senders with their message counts.

    The records stand in for the data frame. A data frame built from no
    records has no `sender` column, so asking for it fails: that is the error
    outcome here. `value_counts` promises no order between senders with equal
    counts, so the top senders are specified by `IsTopUsers`, which admits any
    tie order; `TopUsers` is one admissible choice (the sender seen first wins
    a tie). */
module ChatStats {
  import opened Wrappers
  import opened Text
  import opened Processor

  // ---------------------------------------------------------------------
  // Counting senders
  // ---------------------------------------------------------------------

  /** How many records `s` sent. */
  function Count(rs: seq<Record>, s: string): nat
    decreases |rs|
  {
    if |rs| == 0 then 0
    else (if rs[0].sender == Some(s) then 1 else 0) + Count(rs[1..], s)
  }

  /** The distinct senders; records without a sender are not counted. */
  function Senders(rs: seq<Record>): set<string> {
    set i | 0 <= i < |rs| && rs[i].sender.Some? :: rs[i].sender.value
  }

  lemma {:induction false} CountSplit(a: seq<Record>, b: seq<Record>, s: string)
    ensures Count(a + b, s) == Count(a, s) + Count(b, s)
    decreases |a|
  {
    if |a| == 0 {
      assert a + b == b;
    } else {
      assert (a + b)[0] == a[0];
      assert (a + b)[1..] == a[1..] + b;
      CountSplit(a[1..], b, s);
    }
  }

  /** A sender has a positive count exactly when some record is theirs. */
  lemma {:induction false} CountPositive(rs: seq<Record>, s: string)
    ensures Count(rs, s) > 0 <==> s in Senders(rs)
    decreases |rs|
  {
    if |rs| > 0 {
      CountPositive(rs[1..], s);
      if s in Senders(rs[1..]) {
        var i :| 0 <= i < |rs[1..]| && rs[1..][i].sender == Some(s);
        assert rs[i + 1].sender == Some(s);
      }
      if s in Senders(rs) && rs[0].sender != Some(s) {
        var i :| 0 <= i < |rs| && rs[i].sender == Some(s);
        assert rs[1..][i - 1].sender == Some(s);
      }
    }
  }

  /** Counts depend only on which records there are, not on their order. */
  lemma {:induction false} CountPermutation(a: seq<Record>, b: seq<Record>, s: string)
    requires multiset(a) == multiset(b)
    ensures Count(a, s) == Count(b, s)
    decreases |a|
  {
    if |a| == 0 {
      assert |b| == |multiset(b)| == 0;
    } else {
      var x := a[0];
      assert x in multiset(b);
      var i :| 0 <= i < |b| && b[i] == x;
      var rest := b[..i] + b[i + 1..];
      Cancel(a, b, i);
      CountPermutation(a[1..], rest, s);
      CountRemove(b, i, s);
    }
  }

  /** Taking the first of `a` out of `b` leaves the rest of `a`, as a multiset. */
  lemma Cancel(a: seq<Record>, b: seq<Record>, i: nat)
    requires multiset(a) == multiset(b) && |a| > 0 && i < |b| && b[i] == a[0]
    ensures multiset(a[1..]) == multiset(b[..i] + b[i + 1..])
  {
    var x, rest := a[0], b[..i] + b[i + 1..];
    assert b == b[..i] + [x] + b[i + 1..];
    assert a == [x] + a[1..];
    assert multiset(b) == multiset(b[..i]) + multiset([x]) + multiset(b[i + 1..]);
    assert multiset(a) == multiset([x]) + multiset(a[1..]);
    assert multiset(rest) == multiset(b[..i]) + multiset(b[i + 1..]);
    forall y
      ensures multiset(a[1..])[y] == multiset(rest)[y]
    {
      assert multiset(a)[y] == multiset([x])[y] + multiset(a[1..])[y];
      assert multiset(b)[y] == multiset(b[..i])[y] + multiset([x])[y] + multiset(b[i + 1..])[y];
    }
  }

  /** Taking one record out takes its one message out of its sender's count. */
  lemma CountRemove(b: seq<Record>, i: nat, s: string)
    requires i < |b|
    ensures Count(b, s) == Count(b[..i] + b[i + 1..], s) + (if b[i].sender == Some(s) then 1 else 0)
  {
    var x := b[i];
    assert b == b[..i] + [x] + b[i + 1..];
    CountSplit(b[..i] + [x], b[i + 1..], s);
    CountSplit(b[..i], [x], s);
    CountSplit(b[..i], b[i + 1..], s);
    assert Count([x], s) == if x.sender == Some(s) then 1 else 0;
  }

  /** The senders do not depend on the order of the records either. */
  lemma SendersPermutation(a: seq<Record>, b: seq<Record>)
    requires multiset(a) == multiset(b)
    ensures Senders(a) == Senders(b)
  {
    forall s | true
      ensures s in Senders(a) <==> s in Senders(b)
    {
      CountPositive(a, s);
      CountPositive(b, s);
      CountPermutation(a, b, s);
    }
  }

  // ---------------------------------------------------------------------
  // The top senders
  // ---------------------------------------------------------------------

  /** The senders of `top`, in order. */
  function Keys(top: seq<(string, nat)>): (ks: seq<string>)
    ensures |ks| == |top| && forall j :: 0 <= j < |top| ==> ks[j] == top[j].0
  {
    seq(|top|, j requires 0 <= j < |top| => top[j].0)
  }

  predicate Distinct(xs: seq<string>) {
    forall i, j :: 0 <= i < j < |xs| ==> xs[i] != xs[j]
  }

  /** What `value_counts().head(3).to_dict()` promises: the `min(3, #senders)`
      most frequent senders, each once, with their exact counts, most frequent
      first, and no sender left out who sent more than one listed. */
  ghost predicate IsTopUsers(top: seq<(string, nat)>, rs: seq<Record>) {
    && |top| == (if |Senders(rs)| < 3 then |Senders(rs)| else 3)
    && Distinct(Keys(top))
    && (forall j :: 0 <= j < |top| ==> top[j].0 in Senders(rs) && top[j].1 == Count(rs, top[j].0))
    && (forall j :: 0 < j < |top| ==> top[j - 1].1 >= top[j].1)
    && (forall s, j :: s in Senders(rs) && s !in Keys(top) && 0 <= j < |top| ==> Count(rs, s) <= top[j].1)
  }

  /** The distinct senders in the order they first appear. */
  function FirstSeen(rs: seq<Record>): (f: seq<string>)
    ensures Distinct(f)
    ensures forall s :: s in f <==> s in Senders(rs)
    decreases |rs|
  {
    if |rs| == 0 then []
    else
      var init := FirstSeen(rs[..|rs| - 1]);
      assert forall s :: s in Senders(rs) <==> s in Senders(rs[..|rs| - 1]) || Some(s) == rs[|rs| - 1].sender by {
        forall s | s in Senders(rs) && rs[|rs| - 1].sender != Some(s)
          ensures s in Senders(rs[..|rs| - 1])
        {
          var i :| 0 <= i < |rs| && rs[i].sender == Some(s);
          assert rs[..|rs| - 1][i].sender == Some(s);
        }
        forall s | s in Senders(rs[..|rs| - 1])
          ensures s in Senders(rs)
        {
          var i :| 0 <= i < |rs| - 1 && rs[..|rs| - 1][i].sender == Some(s);
          assert rs[i].sender == Some(s);
        }
      }
      match rs[|rs| - 1].sender
      case Some(s) => if s in init then init else init + [s]
      case None => init
  }

  /** The position of a most frequent candidate, the first one on a tie. */
  function ArgMax(cands: seq<string>, rs: seq<Record>): (i: nat)
    requires |cands| > 0
    ensures i < |cands|
    ensures forall j :: 0 <= j < |cands| ==> Count(rs, cands[j]) <= Count(rs, cands[i])
    ensures forall j :: 0 <= j < i ==> Count(rs, cands[j]) < Count(rs, cands[i])
    decreases |cands|
  {
    if |cands| == 1 then 0
    else
      var i := ArgMax(cands[..|cands| - 1], rs);
      if Count(rs, cands[|cands| - 1]) > Count(rs, cands[i]) then |cands| - 1 else i
  }

  function Remove(xs: seq<string>, i: nat): (r: seq<string>)
    requires i < |xs|
    ensures |r| == |xs| - 1
    ensures forall x :: x in xs && x != xs[i] ==> x in r
    ensures forall x :: x in r ==> x in xs
    ensures Distinct(xs) ==> Distinct(r) && xs[i] !in r
  {
    assert forall x :: x in xs ==> x == xs[i] || x in xs[..i] || x in xs[i + 1..] by {
      assert xs == xs[..i] + [xs[i]] + xs[i + 1..];
    }
    xs[..i] + xs[i + 1..]
  }

  /** Every listed sender is a candidate, with its exact count. */
  predicate Counted(top: seq<(string, nat)>, cands: seq<string>, rs: seq<Record>) {
    forall j :: 0 <= j < |top| ==> top[j].0 in cands && top[j].1 == Count(rs, top[j].0)
  }

  /** Most frequent first. */
  predicate Descending(top: seq<(string, nat)>) {
    forall j :: 0 < j < |top| ==> top[j - 1].1 >= top[j].1
  }

  /** No candidate left out sent more than one listed. */
  predicate Dominates(top: seq<(string, nat)>, cands: seq<string>, rs: seq<Record>) {
    forall c, j :: c in cands && c !in Keys(top) && 0 <= j < |top| ==> Count(rs, c) <= top[j].1
  }

  /** `top` ranks `cands`: each listed once, with its exact count, most
      frequent first, and no candidate left out sent more than one listed. */
  predicate Ranked(top: seq<(string, nat)>, cands: seq<string>, rs: seq<Record>) {
    Distinct(Keys(top)) && Counted(top, cands, rs) && Descending(top) && Dominates(top, cands, rs)
  }

  /** The `k` most frequent of `cands`, most frequent first. */
  function Select(cands: seq<string>, rs: seq<Record>, k: nat): (top: seq<(string, nat)>)
    requires Distinct(cands)
    ensures |top| == if |cands| < k then |cands| else k
    ensures Ranked(top, cands, rs)
    decreases k
  {
    if k == 0 || |cands| == 0 then []
    else
      var i := ArgMax(cands, rs);
      var tail := Select(Remove(cands, i), rs, k - 1);
      RankedCons(cands, rs, i, tail);
      [(cands[i], Count(rs, cands[i]))] + tail
  }

  /** A most frequent candidate in front of a ranking of the others ranks
      all the candidates. */
  lemma RankedCons(cands: seq<string>, rs: seq<Record>, i: nat, tail: seq<(string, nat)>)
    requires Distinct(cands) && i < |cands|
    requires forall j :: 0 <= j < |cands| ==> Count(rs, cands[j]) <= Count(rs, cands[i])
    requires Ranked(tail, Remove(cands, i), rs)
    ensures Ranked([(cands[i], Count(rs, cands[i]))] + tail, cands, rs)
  {
    ConsDistinct(cands, rs, i, tail);
    ConsCounted(cands, rs, i, tail);
    ConsDescending(cands, rs, i, tail);
    ConsDominates(cands, rs, i, tail);
  }

  lemma ConsDistinct(cands: seq<string>, rs: seq<Record>, i: nat, tail: seq<(string, nat)>)
    requires Distinct(cands) && i < |cands|
    requires Distinct(Keys(tail)) && Counted(tail, Remove(cands, i), rs)
    ensures Distinct(Keys([(cands[i], Count(rs, cands[i]))] + tail))
  {
    var ks := Keys([(cands[i], Count(rs, cands[i]))] + tail);
    forall a, b | 0 <= a < b < |ks|
      ensures ks[a] != ks[b]
    {
      assert ks[b] == Keys(tail)[b - 1] == tail[b - 1].0;
      if a > 0 {
        assert ks[a] == Keys(tail)[a - 1];
      } else {
        assert tail[b - 1].0 in Remove(cands, i);
      }
    }
  }

  lemma ConsCounted(cands: seq<string>, rs: seq<Record>, i: nat, tail: seq<(string, nat)>)
    requires Distinct(cands) && i < |cands|
    requires Counted(tail, Remove(cands, i), rs)
    ensures Counted([(cands[i], Count(rs, cands[i]))] + tail, cands, rs)
  {
    var top := [(cands[i], Count(rs, cands[i]))] + tail;
    forall j | 0 < j < |top|
      ensures top[j].0 in cands && top[j].1 == Count(rs, top[j].0)
    {
      assert top[j] == tail[j - 1] && tail[j - 1].0 in Remove(cands, i);
    }
  }

  lemma ConsDescending(cands: seq<string>, rs: seq<Record>, i: nat, tail: seq<(string, nat)>)
    requires Distinct(cands) && i < |cands|
    requires forall j :: 0 <= j < |cands| ==> Count(rs, cands[j]) <= Count(rs, cands[i])
    requires Counted(tail, Remove(cands, i), rs) && Descending(tail)
    ensures Descending([(cands[i], Count(rs, cands[i]))] + tail)
  {
    var top := [(cands[i], Count(rs, cands[i]))] + tail;
    forall j | 0 < j < |top|
      ensures top[j - 1].1 >= top[j].1
    {
      if j == 1 {
        assert top[1] == tail[0] && tail[0].0 in Remove(cands, i);
        assert tail[0].0 in cands;
      } else {
        assert top[j - 1] == tail[j - 2] && top[j] == tail[j - 1];
      }
    }
  }

  lemma ConsDominates(cands: seq<string>, rs: seq<Record>, i: nat, tail: seq<(string, nat)>)
    requires Distinct(cands) && i < |cands|
    requires forall j :: 0 <= j < |cands| ==> Count(rs, cands[j]) <= Count(rs, cands[i])
    requires Dominates(tail, Remove(cands, i), rs)
    ensures Dominates([(cands[i], Count(rs, cands[i]))] + tail, cands, rs)
  {
    var top := [(cands[i], Count(rs, cands[i]))] + tail;
    assert Keys(top) == [cands[i]] + Keys(tail);
    forall c, j | c in cands && c !in Keys(top) && 0 <= j < |top|
      ensures Count(rs, c) <= top[j].1
    {
      assert c != cands[i] && c in Remove(cands, i);
      if j > 0 {
        assert top[j] == tail[j - 1] && c !in Keys(tail);
      }
    }
  }

  /** The top three senders, ties going to the sender seen first. */
  function TopUsers(rs: seq<Record>): (top: seq<(string, nat)>)
    ensures IsTopUsers(top, rs)
  {
    var top := Select(FirstSeen(rs), rs, 3);
    assert |FirstSeen(rs)| == |Senders(rs)| by {
      SeqSetSize(FirstSeen(rs));
      assert (set x | x in FirstSeen(rs)) == Senders(rs);
    }
    top
  }

  lemma {:induction false} SeqSetSize(xs: seq<string>)
    requires Distinct(xs)
    ensures |set x | x in xs| == |xs|
    decreases |xs|
  {
    if |xs| > 0 {
      var init := xs[..|xs| - 1];
      SeqSetSize(init);
      assert (set x | x in xs) == (set x | x in init) + {xs[|xs| - 1]};
      assert xs[|xs| - 1] !in init;
    }
  }

  /** Whether a list of top senders is admissible depends only on which
      records there are, not on their order. */
  lemma TopUsersPermutation(top: seq<(string, nat)>, a: seq<Record>, b: seq<Record>)
    requires multiset(a) == multiset(b)
    ensures IsTopUsers(top, a) <==> IsTopUsers(top, b)
  {
    SendersPermutation(a, b);
    forall s | true
      ensures Count(a, s) == Count(b, s)
    {
      CountPermutation(a, b, s);
    }
  }

  // ---------------------------------------------------------------------
  // The summary
  // ---------------------------------------------------------------------

  datatype Stats = Stats(totalMessages: nat, users: nat, topUsers: seq<(string, nat)>)

  /** A data frame with no rows has no `sender` column. */
  datatype StatsError = MissingSenderColumn

  function ComputeStats(rs: seq<Record>): (r: Result<Stats, StatsError>)
    ensures r.Failure? <==> |rs| == 0
    ensures r.Success? ==>
      && r.value.totalMessages == |rs|
      && r.value.users == |Senders(rs)|
      && IsTopUsers(r.value.topUsers, rs)
  {
    if |rs| == 0 then Failure(MissingSenderColumn)
    else Success(Stats(|rs|, |Senders(rs)|, TopUsers(rs)))
  }

  /** The total and the number of users do not depend on the order of the
      records, and neither does which top-sender lists are admissible. */
  lemma StatsPermutation(a: seq<Record>, b: seq<Record>)
    requires multiset(a) == multiset(b)
    ensures ComputeStats(a).Success? <==> ComputeStats(b).Success?
    ensures ComputeStats(a).Success? ==>
      && ComputeStats(a).value.totalMessages == ComputeStats(b).value.totalMessages
      && ComputeStats(a).value.users == ComputeStats(b).value.users
      && IsTopUsers(ComputeStats(a).value.topUsers, b)
  {
    assert |a| == |multiset(a)| == |multiset(b)| == |b|;
    SendersPermutation(a, b);
    if |a| > 0 {
      TopUsersPermutation(ComputeStats(a).value.topUsers, a, b);
    }
  }

  /** When no record has a sender there are no users and no top senders. */
  lemma NoSenders(rs: seq<Record>)
    requires |rs| > 0
    requires forall i :: 0 <= i < |rs| ==> rs[i].sender.None?
    ensures ComputeStats(rs).Success?
    ensures ComputeStats(rs).value.users == 0 && ComputeStats(rs).value.topUsers == []
  {
    assert Senders(rs) == {};
  }

  /** `process_chat_file`: the records of the text and their summary. */
  function ProcessChatFile(text: string): (r: Result<(Stats, seq<Record>), StatsError>)
    ensures r.Failure? <==> |ProcessLines(text)| == 0
    ensures r.Success? ==> r.value.1 == ProcessLines(text) && r.value.0.totalMessages == |r.value.1|
    ensures r.Success? ==> r.value.0.users == |Senders(r.value.1)| && IsTopUsers(r.value.0.topUsers, r.value.1)
  {
    var rs := ProcessLines(text);
    match ComputeStats(rs)
    case Failure(e) => Failure(e)
    case Success(stats) => Success((stats, rs))
  }

  /** A text with no header line, the empty text among them, has no summary. */
  lemma EmptyChatFails()
    ensures ProcessChatFile("").Failure?
  {
    EmptyTextNoRecord();
  }

  /** There is a summary exactly when the text has a header line, and its
      total is the number of header lines. */
  lemma TotalIsHeaderCount(text: string)
    ensures ProcessChatFile(text).Success? <==> |HeaderLines(ReadAll(Split(text, '\n')))| > 0
    ensures ProcessChatFile(text).Success? ==>
      ProcessChatFile(text).value.0.totalMessages == |HeaderLines(ReadAll(Split(text, '\n')))|
  {
    ProcessLinesRecords(text);
  }
}

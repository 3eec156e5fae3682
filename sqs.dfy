/**
 * The SQS helper (`SQSUtils`): the requests it sends to the SQS client, recorded in
 * order, and what it returns from the client's responses. Responses and client faults
 * are parameters; the client itself is the recorded request log.
 */
module Sqs {
  import opened Wrappers
  import opened Text
  import opened Batching
  import Configuration

  /** `MSG_COUNT_ATTRIBUTE[0]`. */
  const MsgCountAttribute := "ApproximateNumberOfMessages"

  /** `ALL_ATTRIBUTES`. */
  const AllAttributes: seq<string> := ["All"]

  /** The `WaitTimeSeconds` of `receive_messages`. */
  const ReceiveWaitSeconds: nat := 2

  /** One entry of a `send_message_batch` request: `{"Id": ..., "MessageBody": ...}`. */
  datatype BatchEntry = BatchEntry(id: string, messageBody: string)

  /** A request the SQS client received, with the keyword arguments it was given. */
  datatype SqsCall =
    | ListQueues(nextToken: Option<string>)
    | GetQueueAttributes(queueUrl: string, attributeNames: seq<string>)
    | PurgeQueue(queueUrl: string)
    | ReceiveMessage(queueUrl: string, maxNumberOfMessages: nat, waitTimeSeconds: nat)
    | SendMessage(queueUrl: string, messageBody: string)
    | SendMessageBatch(queueUrl: string, entries: seq<BatchEntry>)

  /** A message as the client returns it. */
  type Message = map<string, string>

  /** A `list_queues` response: `QueueUrls` and `NextToken`, each possibly absent. */
  datatype ListQueuesPage = ListQueuesPage(queueUrls: Option<seq<string>>, nextToken: Option<string>)

  // ---------------------------------------------------------------------------
  // pagination of list_queues

  /** `response.get("NextToken")` is truthy: present and non-empty. */
  predicate HasNextToken(page: ListQueuesPage) {
    page.nextToken.Some? && page.nextToken.value != ""
  }

  /** `response.get("QueueUrls", [])`. */
  function UrlsOf(page: ListQueuesPage): seq<string> {
    page.queueUrls.GetOr([])
  }

  /** Some response in the script carries no next token, so the listing ends. */
  ghost predicate EndsWithin(pages: seq<ListQueuesPage>) {
    exists j :: 0 <= j < |pages| && !HasNextToken(pages[j])
  }

  /** The index of the first response without a next token: the last page requested. */
  function LastPageRead(pages: seq<ListQueuesPage>): (n: nat)
    requires EndsWithin(pages)
    ensures n < |pages| && !HasNextToken(pages[n])
    ensures forall k :: 0 <= k < n ==> HasNextToken(pages[k])
  {
    if !HasNextToken(pages[0]) then 0
    else
      assert EndsWithin(pages[1..]) by {
        var j :| 0 <= j < |pages| && !HasNextToken(pages[j]);
        assert pages[1..][j - 1] == pages[j];
      }
      1 + LastPageRead(pages[1..])
  }

  /** The queue URLs of the pages, concatenated in the order received. */
  function AllUrls(pages: seq<ListQueuesPage>): seq<string>
  {
    if pages == [] then [] else AllUrls(pages[..|pages| - 1]) + UrlsOf(pages[|pages| - 1])
  }

  /** Page boundaries are invisible: listing two runs of pages concatenates their URLs. */
  lemma {:induction false} AllUrlsAppend(a: seq<ListQueuesPage>, b: seq<ListQueuesPage>)
    ensures AllUrls(a + b) == AllUrls(a) + AllUrls(b)
    decreases |b|
  {
    if b == [] {
      assert a + b == a;
    } else {
      var b' := b[..|b| - 1];
      assert (a + b)[..|a + b| - 1] == a + b';
      AllUrlsAppend(a, b');
    }
  }

  /** `[(queue, queue.split("/")[-1]) for queue in urls]`. */
  function Named(urls: seq<string>): seq<(string, string)>
  {
    seq(|urls|, k requires 0 <= k < |urls| => (urls[k], LastSegment(urls[k], '/')))
  }

  /**
   * The listing keeps the order and length of the URLs, and pairs each URL with its
   * short name: the part after its last `/`.
   */
  lemma NamedQueues(urls: seq<string>)
    ensures |Named(urls)| == |urls|
    ensures forall k :: 0 <= k < |urls| ==>
      var (url, name) := Named(urls)[k];
      && url == urls[k]
      && '/' !in name
      && |name| <= |url| && url[|url| - |name|..] == name
      && (|name| == |url| || url[|url| - |name| - 1] == '/')
  {
    forall k | 0 <= k < |urls| {
      LastSegmentIsLongestSuffix(urls[k], '/');
    }
  }

  /**
   * Three pages of 4, 4 and 2 URLs, the first two carrying a token: three requests,
   * ten URLs in the order received.
   */
  lemma ThreePages(u1: seq<string>, u2: seq<string>, u3: seq<string>, t1: string, t2: string)
    requires |u1| == 4 && |u2| == 4 && |u3| == 2 && t1 != "" && t2 != ""
    ensures var pages := [ListQueuesPage(Some(u1), Some(t1)), ListQueuesPage(Some(u2), Some(t2)),
                          ListQueuesPage(Some(u3), None)];
      && EndsWithin(pages)
      && LastPageRead(pages) == 2
      && AllUrls(pages[..3]) == u1 + u2 + u3
      && |AllUrls(pages[..3])| == 10
  {
    var pages := [ListQueuesPage(Some(u1), Some(t1)), ListQueuesPage(Some(u2), Some(t2)),
                  ListQueuesPage(Some(u3), None)];
    assert !HasNextToken(pages[2]);
    assert pages[..3] == pages;
    assert AllUrls(pages[..1]) == u1 by {
      assert pages[..1][..0] == [];
    }
    assert AllUrls(pages[..2]) == u1 + u2 by {
      assert pages[..2][..1] == pages[..1];
    }
    assert AllUrls(pages) == u1 + u2 + u3 by {
      assert pages[..|pages| - 1] == pages[..2];
    }
  }

  // ---------------------------------------------------------------------------
  // message count, console link

  /** `int(attrs["Attributes"]["ApproximateNumberOfMessages"])` of a response. */
  function MessageCount(attributes: Option<map<string, string>>): Result<int>
  {
    match attributes
    case None => Err(KeyError("Attributes"))
    case Some(attrs) =>
      if MsgCountAttribute in attrs then ParseInt(attrs[MsgCountAttribute])
      else Err(KeyError(MsgCountAttribute))
  }

  /** A count reported as the decimal digits of `n` is read as `n`; "42" gives 42. */
  lemma MessageCountReadsNumber(n: nat, reported: string)
    requires reported == NatToString(n)
    ensures MessageCount(Some(map[MsgCountAttribute := reported])) == Ok(n)
  {
    ParseIntOfNatToString(n);
  }

  /** The documented example: a reported count of "42" reads as 42. */
  lemma MessageCountFortyTwo(reported: string)
    requires reported == "42"
    ensures MessageCount(Some(map[MsgCountAttribute := reported])) == Ok(42)
  {
    assert NatToString(4) == [DigitChar(4)];
    assert NatToString(42) == NatToString(4) + [DigitChar(2)];
    MessageCountReadsNumber(42, reported);
  }

  /** `CONSOLE_URL_TEMPLATE` filled with a region and the queue's short name. */
  function ConsoleUrl(region: string, queueUrl: string): string
  {
    "https://" + region + ".console.aws.amazon.com/sqs/v2/home?region=" + region
    + "#/queues/" + LastSegment(queueUrl, '/')
  }

  /**
   * `open_in_console`: the link it opens. An empty region falls back to the configured
   * one; an empty queue URL reaches for the configuration's `sqs` field, which the
   * record does not have.
   */
  function OpenInConsole(queueUrl: string, region: string, configured: Configuration.AWSConfig): (r: Result<string>)
    ensures r.Err? <==> queueUrl == ""
  {
    if queueUrl == "" then Err(AttributeError("sqs"))
    else Ok(ConsoleUrl(if region != "" then region else configured.region, queueUrl))
  }

  /** The link ends with the queue's short name, whatever the region. */
  lemma ConsoleUrlNamesQueue(region: string, queueUrl: string)
    ensures LastSegment(ConsoleUrl(region, queueUrl), '/') == LastSegment(queueUrl, '/')
  {
    var name := LastSegment(queueUrl, '/');
    LastSegmentIsLongestSuffix(queueUrl, '/');
    var front := "https://" + region + ".console.aws.amazon.com/sqs/v2/home?region=" + region + "#/queues";
    assert ConsoleUrl(region, queueUrl) == front + ['/'] + name;
    LastSegmentAfterSeparator(front, name, '/');
  }

  /**
   * The documented example: the queue `.../123456789012/test-queue`, with the configured
   * region us-east-1, links to `https://us-east-1.console.aws.amazon.com/sqs/v2/home?
   * region=us-east-1#/queues/test-queue`.
   */
  lemma ConsoleUrlExample(queueUrl: string, configured: Configuration.AWSConfig)
    requires queueUrl == "https://sqs.us-east-1.amazonaws.com/123456789012/test-queue"
    requires configured.region == "us-east-1"
    ensures OpenInConsole(queueUrl, "", configured)
         == Ok("https://" + "us-east-1" + ".console.aws.amazon.com/sqs/v2/home?region=" + "us-east-1"
               + "#/queues/" + "test-queue")
    ensures OpenInConsole("", "us-east-1", configured).Err?
  {
    var front, name := "https://sqs.us-east-1.amazonaws.com/123456789012", "test-queue";
    assert queueUrl == front + ['/'] + name;
    LastSegmentAfterSeparator(front, name, '/');
  }

  // ---------------------------------------------------------------------------
  // batch from file

  /**
   * `[line.strip() for line in lines if line.strip()]`. That the survivors are exactly
   * the non-blank lines, stripped, in file order, is NonBlankStrippedPositions.
   */
  function NonBlankStripped(lines: seq<string>): (r: seq<string>)
    ensures |r| <= |lines|
    ensures forall k :: 0 <= k < |r| ==> r[k] != "" && Strip(r[k]) == r[k]
  {
    if lines == [] then []
    else
      StripIdempotent(lines[0]);
      var t := Strip(lines[0]);
      (if t != "" then [t] else []) + NonBlankStripped(lines[1..])
  }

  /** Each line stripped. */
  function StrippedLines(lines: seq<string>): (s: seq<string>)
    ensures |s| == |lines| && forall k :: 0 <= k < |lines| ==> s[k] == Strip(lines[k])
  {
    seq(|lines|, k requires 0 <= k < |lines| => Strip(lines[k]))
  }

  /**
   * `idx` lists, in increasing order, exactly the positions of the non-empty strings
   * of `s`, and `r` holds those strings in that order.
   */
  ghost predicate SelectsNonEmpty(s: seq<string>, idx: seq<int>, r: seq<string>) {
    && |idx| == |r|
    && (forall j :: 0 <= j < |idx| ==> 0 <= idx[j] < |s| && r[j] == s[idx[j]])
    && (forall i, j :: 0 <= i < j < |idx| ==> idx[i] < idx[j])
    && (forall k :: 0 <= k < |s| ==> (s[k] != "" <==> k in idx))
  }

  /** The filter works line by line: the survivors of two runs of lines are concatenated. */
  lemma {:induction false} NonBlankStrippedAppend(xs: seq<string>, ys: seq<string>)
    ensures NonBlankStripped(xs + ys) == NonBlankStripped(xs) + NonBlankStripped(ys)
    decreases |xs|
  {
    if xs != [] {
      var kept := if Strip(xs[0]) != "" then [Strip(xs[0])] else [];
      ConsOfAppend(xs, ys, kept);
      NonBlankStrippedCons(xs, kept);
      NonBlankStrippedAppend(xs[1..], ys);
      ConcatAssociates(kept, NonBlankStripped(xs[1..]), NonBlankStripped(ys));
    } else {
      assert xs + ys == ys;
    }
  }

  /** The first line of `xs + ys` is kept or dropped, then the rest of `xs` and all of `ys`. */
  lemma ConsOfAppend(xs: seq<string>, ys: seq<string>, kept: seq<string>)
    requires xs != []
    requires kept == (if Strip(xs[0]) != "" then [Strip(xs[0])] else [])
    ensures NonBlankStripped(xs + ys) == kept + NonBlankStripped(xs[1..] + ys)
  {
    assert (xs + ys)[0] == xs[0];
    assert (xs + ys)[1..] == xs[1..] + ys;
    NonBlankStrippedCons(xs + ys, kept);
  }

  /**
   * The survivors are exactly the stripped non-blank lines in file order: `idx` lists,
   * in increasing order, precisely the positions of the lines that are not blank, and
   * survivor `j` is line `idx[j]` stripped.
   */
  lemma {:induction false} NonBlankStrippedPositions(lines: seq<string>) returns (idx: seq<int>)
    ensures SelectsNonEmpty(StrippedLines(lines), idx, NonBlankStripped(lines))
    decreases |lines|
  {
    if lines == [] {
      idx := [];
    } else {
      var rest := NonBlankStrippedPositions(lines[1..]);
      var shifted := seq(|rest|, j requires 0 <= j < |rest| => rest[j] + 1);
      var s := StrippedLines(lines);
      assert s[1..] == StrippedLines(lines[1..]);
      var kept := if s[0] != "" then [s[0]] else [];
      NonBlankStrippedCons(lines, kept);
      idx := if s[0] != "" then [0] + shifted else shifted;
      ShiftedPositions(s, rest, shifted, idx, NonBlankStripped(lines[1..]));
    }
  }

  /** The step of NonBlankStrippedPositions: the first position, then the rest's shifted by one. */
  lemma ShiftedPositions(s: seq<string>, rest: seq<int>, shifted: seq<int>, idx: seq<int>, tail: seq<string>)
    requires s != []
    requires SelectsNonEmpty(s[1..], rest, tail)
    requires shifted == seq(|rest|, j requires 0 <= j < |rest| => rest[j] + 1)
    requires idx == if s[0] != "" then [0] + shifted else shifted
    ensures SelectsNonEmpty(s, idx, (if s[0] != "" then [s[0]] else []) + tail)
  {
    ShiftedTail(s, rest, shifted, tail);
    if s[0] != "" {
      FirstKept(s, shifted, tail);
    } else {
      assert [] + tail == tail;
    }
  }

  /** A non-empty first string is selected at position 0, ahead of the shifted rest. */
  lemma FirstKept(s: seq<string>, shifted: seq<int>, tail: seq<string>)
    requires s != [] && s[0] != ""
    requires |shifted| == |tail|
    requires forall j :: 0 <= j < |shifted| ==> 1 <= shifted[j] < |s| && tail[j] == s[shifted[j]]
    requires forall i, j :: 0 <= i < j < |shifted| ==> shifted[i] < shifted[j]
    requires forall k :: 1 <= k < |s| ==> (s[k] != "" <==> k in shifted)
    requires 0 !in shifted
    ensures SelectsNonEmpty(s, [0] + shifted, [s[0]] + tail)
  {
    var idx, r := [0] + shifted, [s[0]] + tail;
    forall j | 1 <= j < |idx|
      ensures idx[j] == shifted[j - 1] && r[j] == tail[j - 1]
    {
    }
    forall k | 0 <= k < |s|
      ensures s[k] != "" <==> k in idx
    {
      ConsMember(0, shifted, k);
    }
  }

  /** Membership in a sequence with one element in front. */
  lemma ConsMember(x: int, xs: seq<int>, k: int)
    ensures k in [x] + xs <==> k == x || k in xs
  {
    if k in xs {
      var j :| 0 <= j < |xs| && xs[j] == k;
      assert ([x] + xs)[j + 1] == k;
    }
  }

  /** `k` is a shifted position exactly when `k - 1` is a position. */
  lemma ShiftedMember(rest: seq<int>, shifted: seq<int>, k: int)
    requires shifted == seq(|rest|, j requires 0 <= j < |rest| => rest[j] + 1)
    ensures k in shifted <==> k - 1 in rest
  {
    if k - 1 in rest {
      var j :| 0 <= j < |rest| && rest[j] == k - 1;
      assert shifted[j] == k;
    }
    if k in shifted {
      var j :| 0 <= j < |shifted| && shifted[j] == k;
      assert rest[j] == k - 1;
    }
  }

  /** The positions of the rest, shifted by one, select the same strings from `s`, and never 0. */
  lemma ShiftedTail(s: seq<string>, rest: seq<int>, shifted: seq<int>, tail: seq<string>)
    requires s != []
    requires SelectsNonEmpty(s[1..], rest, tail)
    requires shifted == seq(|rest|, j requires 0 <= j < |rest| => rest[j] + 1)
    ensures |shifted| == |tail|
    ensures forall j :: 0 <= j < |shifted| ==> 1 <= shifted[j] < |s| && tail[j] == s[shifted[j]]
    ensures forall i, j :: 0 <= i < j < |shifted| ==> shifted[i] < shifted[j]
    ensures forall k :: 1 <= k < |s| ==> (s[k] != "" <==> k in shifted)
    ensures 0 !in shifted
  {
    forall j | 0 <= j < |shifted|
      ensures 1 <= shifted[j] < |s| && tail[j] == s[shifted[j]]
    {
      assert s[shifted[j]] == s[1..][rest[j]];
    }
    forall k | 1 <= k < |s|
      ensures s[k] != "" <==> k in shifted
    {
      assert s[k] == s[1..][k - 1];
      ShiftedMember(rest, shifted, k);
    }
  }

  /** The surviving lines of a file's text, in file order. */
  function MessageLines(content: string): seq<string>
  {
    NonBlankStripped(Split(content, '\n'))
  }

  /** `[{"Id": str(i), "MessageBody": line} for i, line in enumerate(lines)]`. */
  function Entries(lines: seq<string>): seq<BatchEntry>
  {
    seq(|lines|, i requires 0 <= i < |lines| => BatchEntry(NatToString(i), lines[i]))
  }

  /** Entry `i` carries line `i` under the id `str(i)`; no two entries share an id. */
  lemma EntriesArePositional(lines: seq<string>)
    ensures |Entries(lines)| == |lines|
    ensures forall i :: 0 <= i < |lines| ==>
      Entries(lines)[i].messageBody == lines[i] && ParseInt(Entries(lines)[i].id) == Ok(i)
    ensures forall i, j :: 0 <= i < j < |lines| ==> Entries(lines)[i].id != Entries(lines)[j].id
  {
    forall i | 0 <= i < |lines| ensures ParseInt(Entries(lines)[i].id) == Ok(i) {
      ParseIntOfNatToString(i);
    }
    forall i, j | 0 <= i < j < |lines| ensures Entries(lines)[i].id != Entries(lines)[j].id {
      if NatToString(i) == NatToString(j) {
        NatToStringInjective(i, j);
      }
    }
  }

  /** The lines of `a`, an empty line, `blank`, `b`, and a final newline. */
  lemma SplitExample(a: string, blank: string, b: string)
    requires '\n' !in a && '\n' !in blank && '\n' !in b
    ensures Split(a + "\n" + "\n" + blank + "\n" + b + "\n", '\n') == [a, "", blank, b, ""]
  {
    JoinExample(a, blank, b);
    SplitJoin([a, "", blank, b, ""], '\n');
  }

  /** Joining those five lines with newlines gives the text back. */
  lemma JoinExample(a: string, blank: string, b: string)
    ensures Join([a, "", blank, b, ""], '\n') == a + "\n" + "\n" + blank + "\n" + b + "\n"
  {
    var pieces := [a, "", blank, b, ""];
    var j3 := b + "\n";
    var j2 := blank + "\n" + j3;
    var j1 := "\n" + j2;
    assert Join(pieces, '\n') == a + "\n" + j1 by {
      JoinCons(pieces[3..], '\n');
      assert pieces[3..][1..] == [""];
      JoinCons(pieces[2..], '\n');
      assert pieces[2..][1..] == pieces[3..];
      JoinCons(pieces[1..], '\n');
      assert pieces[1..][1..] == pieces[2..];
      JoinCons(pieces, '\n');
    }
    ConcatAssociates(blank + "\n", b, "\n");
    ConcatAssociates("\n", blank + "\n", j3);
    ConcatAssociates(a + "\n", "\n", j2);
    ConcatAssociates(a + "\n" + "\n", blank + "\n", j3);
  }

  /** The first line kept or dropped, then the rest. */
  lemma NonBlankStrippedCons(lines: seq<string>, kept: seq<string>)
    requires lines != []
    requires kept == (if Strip(lines[0]) != "" then [Strip(lines[0])] else [])
    ensures NonBlankStripped(lines) == kept + NonBlankStripped(lines[1..])
  {
  }

  /**
   * Lines `a`, empty, `blank`, `b`, empty: only `a` and `b` survive stripping, when
   * `a` and `b` are already stripped and `blank` is all whitespace.
   */
  lemma NonBlankExample(pieces: seq<string>, a: string, blank: string, b: string)
    requires |pieces| == 5 && pieces[0] == a && pieces[1] == "" && pieces[2] == blank
    requires pieces[3] == b && pieces[4] == ""
    requires a != "" && Strip(a) == a && b != "" && Strip(b) == b
    requires forall k :: 0 <= k < |blank| ==> IsSpace(blank[k])
    ensures NonBlankStripped(pieces) == [a, b]
  {
    StripUnchanged("");
    StripEmpty(blank);
    NonBlankStrippedCons(pieces[4..], []);
    NonBlankStrippedCons(pieces[3..], [b]);
    assert pieces[3..][1..] == pieces[4..];
    NonBlankStrippedCons(pieces[2..], []);
    assert pieces[2..][1..] == pieces[3..];
    NonBlankStrippedCons(pieces[1..], []);
    assert pieces[1..][1..] == pieces[2..];
    NonBlankStrippedCons(pieces, [a]);
    assert [a] + [b] == [a, b];
  }

  /**
   * Blank and whitespace-only lines are dropped: `a`, an empty line, a line of spaces
   * and `b` (as in `"a\n\n  \nb\n"`) give `a` the id `0` and `b` the id `1`.
   */
  lemma BlankLinesDropped(a: string, blank: string, b: string)
    requires a != "" && Strip(a) == a && '\n' !in a
    requires b != "" && Strip(b) == b && '\n' !in b
    requires forall k :: 0 <= k < |blank| ==> blank[k] == ' '
    ensures MessageLines(a + "\n" + "\n" + blank + "\n" + b + "\n") == [a, b]
    ensures Entries(MessageLines(a + "\n" + "\n" + blank + "\n" + b + "\n"))
         == [BatchEntry("0", a), BatchEntry("1", b)]
  {
    assert '\n' !in blank;
    SplitExample(a, blank, b);
    NonBlankExample([a, "", blank, b, ""], a, blank, b);
    TwoEntries(a, b);
  }

  /** Two surviving lines get the ids `0` and `1`. */
  lemma TwoEntries(a: string, b: string)
    ensures Entries([a, b]) == [BatchEntry("0", a), BatchEntry("1", b)]
  {
    var e := Entries([a, b]);
    IdsZeroOne();
    assert e[0] == BatchEntry("0", a) && e[1] == BatchEntry("1", b);
  }

  /** The ids of the first two lines. */
  lemma IdsZeroOne()
    ensures NatToString(0) == "0" && NatToString(1) == "1"
  {
  }

  /** One `send_message_batch` request per batch, in batch order. */
  function BatchRequests(queueUrl: string, batches: seq<seq<BatchEntry>>): seq<SqsCall>
  {
    seq(|batches|, k requires 0 <= k < |batches| => SendMessageBatch(queueUrl, batches[k]))
  }

  /** The entries carried by the batch requests of a log, in order. */
  function SentEntries(calls: seq<SqsCall>): seq<BatchEntry>
  {
    if calls == [] then []
    else (if calls[0].SendMessageBatch? then calls[0].entries else []) + SentEntries(calls[1..])
  }

  lemma {:induction false} SentEntriesOfBatchRequests(queueUrl: string, batches: seq<seq<BatchEntry>>)
    ensures SentEntries(BatchRequests(queueUrl, batches)) == Flatten(batches)
    decreases |batches|
  {
    if batches != [] {
      assert BatchRequests(queueUrl, batches)[1..] == BatchRequests(queueUrl, batches[1..]);
      SentEntriesOfBatchRequests(queueUrl, batches[1..]);
    }
  }

  /**
   * Sending every batch delivers exactly the positional entries, in order, at most ten
   * per request.
   */
  lemma BatchRequestsDeliverEntries(queueUrl: string, lines: seq<string>)
    ensures var reqs := BatchRequests(queueUrl, Batches(Entries(lines)));
      && SentEntries(reqs) == Entries(lines)
      && forall k :: 0 <= k < |reqs| ==> 0 < |reqs[k].entries| <= MaxBatchSize
  {
    SentEntriesOfBatchRequests(queueUrl, Batches(Entries(lines)));
    FlattenBatches(Entries(lines));
    BatchShape(Entries(lines));
  }

  /**
   * Every line of the file that is not blank goes out, stripped, in some entry of the
   * batch requests, when every batch is sent.
   */
  lemma NonBlankLinesSent(queueUrl: string, content: string)
    ensures var lines := Split(content, '\n');
      var sent := SentEntries(BatchRequests(queueUrl, Batches(Entries(MessageLines(content)))));
      forall k :: 0 <= k < |lines| && Strip(lines[k]) != "" ==>
        exists j :: 0 <= j < |sent| && sent[j].messageBody == Strip(lines[k])
  {
    var lines := Split(content, '\n');
    var r := MessageLines(content);
    var sent := SentEntries(BatchRequests(queueUrl, Batches(Entries(r))));
    BatchRequestsDeliverEntries(queueUrl, r);
    var idx := NonBlankStrippedPositions(lines);
    forall k | 0 <= k < |lines| && Strip(lines[k]) != ""
      ensures exists j :: 0 <= j < |sent| && sent[j].messageBody == Strip(lines[k])
    {
      SelectedLineSent(lines, idx, r, sent, k);
    }
  }

  /** A selected line is the body of the entry at its place among the survivors. */
  lemma SelectedLineSent(lines: seq<string>, idx: seq<int>, r: seq<string>, sent: seq<BatchEntry>, k: int)
    requires SelectsNonEmpty(StrippedLines(lines), idx, r)
    requires sent == Entries(r)
    requires 0 <= k < |lines| && Strip(lines[k]) != ""
    ensures exists j :: 0 <= j < |sent| && sent[j].messageBody == Strip(lines[k])
  {
    assert StrippedLines(lines)[k] != "";
    var j :| 0 <= j < |idx| && idx[j] == k;
    assert sent[j].messageBody == r[j];
  }

  /** The first batch request at or after `from` at which the client raises, or `n`. */
  function FirstFault(faults: map<nat, Error>, from: nat, n: nat): (k: nat)
    requires from <= n
    ensures from <= k <= n
    ensures k < n ==> k in faults
    ensures forall j :: from <= j < k ==> j !in faults
    decreases n - from
  {
    if from == n || from in faults then from else FirstFault(faults, from + 1, n)
  }

  /** A fault at `i` with none before it is the first fault. */
  lemma {:induction false} FirstFaultAt(faults: map<nat, Error>, from: nat, n: nat, i: nat)
    requires from <= i < n && i in faults
    requires forall j :: from <= j < i ==> j !in faults
    ensures FirstFault(faults, from, n) == i
    decreases i - from
  {
    if from < i {
      FirstFaultAt(faults, from + 1, n, i);
    }
  }

  /** With no fault in the range, there is no first fault. */
  lemma {:induction false} FirstFaultNone(faults: map<nat, Error>, from: nat, n: nat)
    requires from <= n
    requires forall j :: from <= j < n ==> j !in faults
    ensures FirstFault(faults, from, n) == n
    decreases n - from
  {
    if from < n {
      FirstFaultNone(faults, from + 1, n);
    }
  }

  // ---------------------------------------------------------------------------
  // the helper object

  /** `SQSUtils`, with the requests its client has received. */
  class SqsUtils {
    var calls: seq<SqsCall>

    constructor ()
      ensures calls == []
    {
      calls := [];
    }

    /**
     * `list_queues`: the first request carries no token, each later one the previous
     * response's token, and the loop stops at the first response without one.
     */
    method ListQueues(pages: seq<ListQueuesPage>) returns (queues: seq<(string, string)>)
      requires EndsWithin(pages)
      modifies this
      ensures |calls| == |old(calls)| + LastPageRead(pages) + 1
      ensures var n, sent := LastPageRead(pages), calls[|old(calls)|..];
        && calls[..|old(calls)|] == old(calls)
        && sent[0] == SqsCall.ListQueues(None)
        && (forall k :: 1 <= k < |sent| ==> sent[k] == SqsCall.ListQueues(pages[k - 1].nextToken))
        && queues == Named(AllUrls(pages[..n + 1]))
    {
      ghost var n := LastPageRead(pages);
      var response := pages[0];
      calls := calls + [SqsCall.ListQueues(None)];
      var urls := UrlsOf(response);
      assert pages[..1][..0] == [];
      var i := 0;
      while HasNextToken(response)
        invariant 0 <= i <= n
        invariant response == pages[i]
        invariant urls == AllUrls(pages[..i + 1])
        invariant |calls| == |old(calls)| + i + 1
        invariant calls[..|old(calls)|] == old(calls)
        invariant calls[|old(calls)|..][0] == SqsCall.ListQueues(None)
        invariant forall k :: 1 <= k < |calls[|old(calls)|..]| ==>
          calls[|old(calls)|..][k] == SqsCall.ListQueues(pages[k - 1].nextToken)
        decreases n - i
      {
        calls := calls + [SqsCall.ListQueues(response.nextToken)];
        i := i + 1;
        response := pages[i];
        assert pages[..i + 1][..i] == pages[..i];
        urls := urls + UrlsOf(response);
      }
      queues := Named(urls);
    }

    /** `get_message_count` with the response to its one attribute request. */
    method GetMessageCount(queueUrl: string, attributes: Option<map<string, string>>) returns (r: Result<int>)
      modifies this
      ensures queueUrl == "" ==> r == Err(AttributeError("sqs")) && calls == old(calls)
      ensures queueUrl != "" ==>
        && calls == old(calls) + [GetQueueAttributes(queueUrl, [MsgCountAttribute])]
        && r == MessageCount(attributes)
    {
      if queueUrl == "" {
        r := Err(AttributeError("sqs"));
        return;
      }
      calls := calls + [GetQueueAttributes(queueUrl, [MsgCountAttribute])];
      r := MessageCount(attributes);
    }

    /** `get_attributes`: asks for all attributes, returns them or an empty mapping. */
    method GetAttributes(queueUrl: string, attributes: Option<map<string, string>>) returns (attrs: map<string, string>)
      modifies this
      ensures calls == old(calls) + [GetQueueAttributes(queueUrl, AllAttributes)]
      ensures attributes.Some? ==> attrs == attributes.value
      ensures attributes.None? ==> attrs == map[]
    {
      calls := calls + [GetQueueAttributes(queueUrl, AllAttributes)];
      attrs := attributes.GetOr(map[]);
    }

    /**
     * `purge` as written: it calls `self.client.pu`, which the SQS client does not
     * have, so the lookup raises before any request is sent.
     */
    method PurgeAsWritten(queueUrl: string) returns (r: Status)
      ensures r == Failure(AttributeError("pu"))
    {
      r := Failure(AttributeError("pu"));
    }

    /** `purge` as intended: one `purge_queue` request for the queue. */
    method Purge(queueUrl: string)
      modifies this
      ensures calls == old(calls) + [PurgeQueue(queueUrl)]
    {
      calls := calls + [PurgeQueue(queueUrl)];
    }

    /** `receive_messages`: at most 10 messages, 2-second wait; `[]` when none came back. */
    method ReceiveMessages(queueUrl: string, messages: Option<seq<Message>>) returns (r: seq<Message>)
      modifies this
      ensures calls == old(calls) + [ReceiveMessage(queueUrl, MaxBatchSize, ReceiveWaitSeconds)]
      ensures messages.Some? ==> r == messages.value
      ensures messages.None? ==> r == []
    {
      calls := calls + [ReceiveMessage(queueUrl, MaxBatchSize, ReceiveWaitSeconds)];
      r := messages.GetOr([]);
    }

    /** `send_message`. */
    method SendOne(queueUrl: string, body: string)
      modifies this
      ensures calls == old(calls) + [SendMessage(queueUrl, body)]
    {
      calls := calls + [SendMessage(queueUrl, body)];
    }

    /**
     * `send_messages_from_file`: reads the file's surviving lines, numbers them, and
     * sends one batch request per chunk of ten, in order. A request at which the client
     * raises ends the operation with that error; later chunks are not sent.
     */
    method SendMessagesFromFile(queueUrl: string, filePath: string, files: map<string, string>,
                                faults: map<nat, Error>) returns (r: Status)
      modifies this
      ensures filePath !in files ==>
        && r == Failure(FileNotFoundError("[Errno 2] No such file or directory: '" + filePath + "'"))
        && calls == old(calls)
      ensures filePath in files ==>
        var batches := Batches(Entries(MessageLines(files[filePath])));
        var k := FirstFault(faults, 0, |batches|);
        && (k < |batches| ==> calls == old(calls) + BatchRequests(queueUrl, batches[..k + 1]) && r == Failure(faults[k]))
        && (k == |batches| ==> calls == old(calls) + BatchRequests(queueUrl, batches) && r == Success)
    {
      if filePath !in files {
        r := Failure(FileNotFoundError("[Errno 2] No such file or directory: '" + filePath + "'"));
        return;
      }
      var batches := Batches(Entries(MessageLines(files[filePath])));
      r := SendBatches(queueUrl, batches, faults);
    }

    /**
     * The submission loop of `send_messages_from_file`: one request per batch, in
     * order, stopping at the first request at which the client raises.
     */
    method SendBatches(queueUrl: string, batches: seq<seq<BatchEntry>>, faults: map<nat, Error>) returns (r: Status)
      modifies this
      ensures var k := FirstFault(faults, 0, |batches|);
        && (k < |batches| ==> calls == old(calls) + BatchRequests(queueUrl, batches[..k + 1]) && r == Failure(faults[k]))
        && (k == |batches| ==> calls == old(calls) + BatchRequests(queueUrl, batches) && r == Success)
    {
      var i := 0;
      while i < |batches|
        invariant 0 <= i <= |batches|
        invariant forall j :: 0 <= j < i ==> j !in faults
        invariant calls == old(calls) + BatchRequests(queueUrl, batches[..i])
      {
        assert BatchRequests(queueUrl, batches[..i + 1])
            == BatchRequests(queueUrl, batches[..i]) + [SendMessageBatch(queueUrl, batches[i])];
        calls := calls + [SendMessageBatch(queueUrl, batches[i])];
        if i in faults {
          FirstFaultAt(faults, 0, |batches|, i);
          r := Failure(faults[i]);
          return;
        }
        i := i + 1;
      }
      FirstFaultNone(faults, 0, |batches|);
      assert batches[..i] == batches;
      r := Success;
    }
  }
}

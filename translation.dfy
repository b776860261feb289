/**
 * Batch translation through a DeepLX server. The server is not modelled: each POST it receives is
 * answered by an oracle `Reply`, either an HTTP response (its status and the `data` and `text`
 * fields of its JSON body, `""` when absent) or `Raised` for anything that raised an exception
 * (connection errors, timeouts, a body that is not JSON). The functions here define what a run
 * over a column or over selected cells leaves in the table, what it counts and which requests it
 * sends.
 */
module Translation {
  import opened Wrappers
  import opened Text
  import opened Grid

  datatype Reply = Response(status: int, data: string, text: string) | Raised

  /** One POST to a translate endpoint, with its JSON payload. */
  datatype Request = Request(endpoint: string, text: string, sourceLang: string, targetLang: string)

  const HttpOk := 200
  const TooManyRequests := 429

  /** The local DeepLX server, the only endpoint the editor uses. */
  const LocalEndpoint: string := "http://127.0.0.1:1188/translate"

  /** The endpoint list of `translate_column`. */
  const ColumnEndpoints: seq<string> := [LocalEndpoint]

  /** `result.get("data") or result.get("text", "")`: `data` unless it is empty. */
  function Candidate(data: string, text: string): (r: string)
    ensures r == data || r == text
    ensures data != "" ==> r == data
    ensures r == "" <==> data == "" && text == ""
  {
    if data != "" then data else text
  }

  /** A candidate is written to the table only when it is non-empty and does not start with `http`. */
  predicate Acceptable(t: string) {
    t != "" && !StartsWith(t, "http")
  }

  /** The translation a reply delivers, if the editor accepts it. */
  function AcceptedText(reply: Reply): (r: Option<string>)
    ensures r.Some? <==> reply.Response? && reply.status == HttpOk && Acceptable(Candidate(reply.data, reply.text))
    ensures r.Some? ==> Acceptable(r.value) && r.value == Candidate(reply.data, reply.text)
  {
    if reply.Response? && reply.status == HttpOk && Acceptable(Candidate(reply.data, reply.text))
    then Some(Candidate(reply.data, reply.text))
    else None
  }

  /** A non-empty `data` field is taken even when it is rejected: `text` is then not consulted. */
  lemma DataShadowsText(data: string, text: string)
    requires data != "" && StartsWith(data, "http")
    ensures AcceptedText(Response(HttpOk, data, text)) == None
  {
  }

  /** Only a 200 response can be accepted; a 429, any other status or an exception never is. */
  lemma OnlyOkIsAccepted(reply: Reply)
    requires !(reply.Response? && reply.status == HttpOk)
    ensures AcceptedText(reply) == None
  {
  }

  /**
   * An independent statement of what the endpoint loop delivers: the text of the first reply,
   * from attempt `a` on, that is accepted, and None when none is.
   */
  function FirstAccepted(replies: seq<Reply>, a: nat): (r: Option<string>)
    ensures r.Some? ==> a < |replies| && Acceptable(r.value)
    decreases |replies| - a
  {
    if |replies| <= a then None
    else if AcceptedText(replies[a]).Some? then AcceptedText(replies[a])
    else FirstAccepted(replies, a + 1)
  }

  /** The outcome of the endpoint loop for one row: the accepted text, the endpoint index afterwards, the requests sent. */
  datatype Tried = Tried(text: Option<string>, current: nat, sent: seq<Request>)

  /**
   * The inner `for attempt in range(len(endpoints))` of `translate_column`, from attempt `a` on,
   * after the requests `sent`. Attempt `a` posts to endpoint `(current + a) % n`; an accepted
   * reply ends the loop, a 429 moves `current` on by one (mod n), and anything else just goes on
   * to the next attempt.
   */
  function TryEndpoints(endpoints: seq<string>, replies: seq<Reply>, current: nat, a: nat, sent: seq<Request>,
                        source: string, sourceLang: string, targetLang: string): (t: Tried)
    requires 0 < |endpoints| && current < |endpoints| && |replies| == |endpoints| && a <= |endpoints|
    ensures t.current < |endpoints|
    decreases |endpoints| - a
  {
    if a == |endpoints| then Tried(None, current, sent)
    else
      var request := Request(endpoints[(current + a) % |endpoints|], source, sourceLang, targetLang);
      var reply := replies[a];
      match AcceptedText(reply)
      case Some(text) => Tried(Some(text), current, sent + [request])
      case None =>
        var next := if reply.Response? && reply.status == TooManyRequests then (current + 1) % |endpoints| else current;
        TryEndpoints(endpoints, replies, next, a + 1, sent + [request], source, sourceLang, targetLang)
  }

  /**
   * The endpoint loop keeps the requests sent before it and adds at most one per remaining
   * attempt, at least one when an attempt remains; each carries the source text to a listed
   * endpoint, and a text it delivers is an accepted one.
   */
  lemma {:induction false} TryEndpointsFacts(endpoints: seq<string>, replies: seq<Reply>, current: nat, a: nat, sent: seq<Request>,
                                             source: string, sourceLang: string, targetLang: string)
    requires 0 < |endpoints| && current < |endpoints| && |replies| == |endpoints| && a <= |endpoints|
    ensures var t := TryEndpoints(endpoints, replies, current, a, sent, source, sourceLang, targetLang);
      && |sent| <= |t.sent| <= |sent| + |endpoints| - a && t.sent[..|sent|] == sent
      && (a < |endpoints| ==> |t.sent| > |sent|)
      && (forall i :: |sent| <= i < |t.sent| ==>
            t.sent[i] == Request(t.sent[i].endpoint, source, sourceLang, targetLang) && t.sent[i].endpoint in endpoints)
      && (t.text.Some? ==> Acceptable(t.text.value))
    decreases |endpoints| - a
  {
    if a < |endpoints| {
      var request := Request(endpoints[(current + a) % |endpoints|], source, sourceLang, targetLang);
      var reply := replies[a];
      if AcceptedText(reply).None? {
        var next := if reply.Response? && reply.status == TooManyRequests then (current + 1) % |endpoints| else current;
        TryEndpointsFacts(endpoints, replies, next, a + 1, sent + [request], source, sourceLang, targetLang);
        var rest := TryEndpoints(endpoints, replies, next, a + 1, sent + [request], source, sourceLang, targetLang);
        assert rest.sent[..|sent|] == rest.sent[..|sent| + 1][..|sent|];
        assert rest.sent[|sent|] == rest.sent[..|sent| + 1][|sent|];
      }
    }
  }

  /**
   * The endpoint loop delivers the first accepted reply's text, and stops right after posting
   * the request that reply answered: every earlier attempt was rejected. When no reply is
   * accepted, every remaining attempt was made.
   */
  lemma {:induction false} TryEndpointsDelivers(endpoints: seq<string>, replies: seq<Reply>, current: nat, a: nat, sent: seq<Request>,
                                                source: string, sourceLang: string, targetLang: string)
    requires 0 < |endpoints| && current < |endpoints| && |replies| == |endpoints| && a <= |endpoints|
    ensures var t := TryEndpoints(endpoints, replies, current, a, sent, source, sourceLang, targetLang);
      var made := |t.sent| - |sent|;
      && 0 <= made <= |endpoints| - a
      && t.text == FirstAccepted(replies, a)
      && (forall j :: a <= j < a + made - 1 ==> AcceptedText(replies[j]).None?)
      && (t.text.Some? ==> 0 < made && AcceptedText(replies[a + made - 1]) == t.text)
      && (t.text.None? ==> made == |endpoints| - a)
    decreases |endpoints| - a
  {
    if a < |endpoints| && AcceptedText(replies[a]).None? {
      var request := Request(endpoints[(current + a) % |endpoints|], source, sourceLang, targetLang);
      var reply := replies[a];
      var next := if reply.Response? && reply.status == TooManyRequests then (current + 1) % |endpoints| else current;
      TryEndpointsDelivers(endpoints, replies, next, a + 1, sent + [request], source, sourceLang, targetLang);
    }
  }

  /**
   * The attempt loop of `translate_column` for one row: post the source text to the endpoints in
   * turn, starting at `current`, until a reply is accepted. It computes exactly what
   * `TryEndpoints` describes: the accepted text, the endpoint index afterwards, the requests sent.
   */
  method PostToEndpoints(endpoints: seq<string>, replies: seq<Reply>, current: nat,
                         source: string, sourceLang: string, targetLang: string)
    returns (text: Option<string>, next: nat, sent: seq<Request>)
    requires 0 < |endpoints| && current < |endpoints| && |replies| == |endpoints|
    ensures Tried(text, next, sent) == TryEndpoints(endpoints, replies, current, 0, [], source, sourceLang, targetLang)
  {
    ghost var whole := TryEndpoints(endpoints, replies, current, 0, [], source, sourceLang, targetLang);
    text, next, sent := None, current, [];
    var attempt := 0;
    while attempt < |endpoints|
      invariant 0 <= attempt <= |endpoints| && next < |endpoints| && text == None
      invariant whole == TryEndpoints(endpoints, replies, next, attempt, sent, source, sourceLang, targetLang)
    {
      var endpoint := endpoints[(next + attempt) % |endpoints|];
      sent := sent + [Request(endpoint, source, sourceLang, targetLang)];
      var reply := replies[attempt];
      var accepted := AcceptedText(reply);
      if accepted.Some? {
        text := accepted;
        return;
      } else if reply.Response? && reply.status == TooManyRequests {
        next := (next + 1) % |endpoints|;
      }
      attempt := attempt + 1;
    }
  }

  /**
   * With two endpoints, a 429 followed by a second attempt posts to the same endpoint again: the
   * index moved on by one and the attempt offset grew by one, so the sum wraps back.
   */
  lemma RateLimitRetriesSameEndpoint(endpoints: seq<string>, replies: seq<Reply>, current: nat,
                                     source: string, sourceLang: string, targetLang: string)
    requires |endpoints| == 2 && current < 2 && |replies| == 2
    requires replies[0].Response? && replies[0].status == TooManyRequests
    ensures var t := TryEndpoints(endpoints, replies, current, 0, [], source, sourceLang, targetLang);
      |t.sent| == 2 && t.sent[0].endpoint == t.sent[1].endpoint == endpoints[current]
  {
    var next := (current + 1) % 2;
    assert (next + 1) % 2 == current;
    var first := Request(endpoints[current], source, sourceLang, targetLang);
    var second := Request(endpoints[(next + 1) % 2], source, sourceLang, targetLang);
    assert (current + 0) % 2 == current && [] + [first] == [first];
    assert TryEndpoints(endpoints, replies, current, 0, [], source, sourceLang, targetLang)
        == TryEndpoints(endpoints, replies, next, 1, [first], source, sourceLang, targetLang);
    assert [first] + [second] == [first, second];
    if AcceptedText(replies[1]).None? {
      var last := if replies[1].Response? && replies[1].status == TooManyRequests then (next + 1) % 2 else next;
      assert TryEndpoints(endpoints, replies, next, 1, [first], source, sourceLang, targetLang)
          == TryEndpoints(endpoints, replies, last, 2, [first, second], source, sourceLang, targetLang);
    }
  }

  /** What a batch run has produced so far: the table's items, the counts, and the requests sent. */
  datatype Tally = Tally(items: map<Position, string>, translated: nat, failed: nat, posted: seq<Request>)

  /** A column run also carries `current_endpoint` from row to row. */
  datatype ColumnProgress = ColumnProgress(tally: Tally, current: nat)

  /**
   * `not source_item or not source_item.text().strip()`: the row is skipped. A text strips to
   * nothing exactly when it is all whitespace (`Strip`'s contract).
   */
  predicate BlankSource(items: map<Position, string>, row: nat, src: nat) {
    var item := Item(items, Position(row, src));
    item.None? || AllSpace(item.value)
  }

  /** What `translate_column` is given besides the table: a non-empty endpoint list and one reply per row and attempt. */
  predicate ColumnArgs(endpoints: seq<string>, replies: seq<seq<Reply>>) {
    0 < |endpoints| && forall r :: 0 <= r < |replies| ==> |replies[r]| == |endpoints|
  }

  /** A request `translate_column` may send: to a listed endpoint, with a non-blank text and the chosen languages. */
  predicate ColumnRequest(q: Request, endpoints: seq<string>, sourceLang: string, targetLang: string) {
    q.endpoint in endpoints && Strip(q.text) != "" && q.sourceLang == sourceLang && q.targetLang == targetLang
  }

  predicate ColumnRequests(posted: seq<Request>, endpoints: seq<string>, sourceLang: string, targetLang: string) {
    forall i :: 0 <= i < |posted| ==> ColumnRequest(posted[i], endpoints, sourceLang, targetLang)
  }

  /** One pass of `translate_column`'s row loop: the row's source text, unless blank, goes through the endpoint loop. */
  function ColumnStep(p: ColumnProgress, row: nat, src: nat, tgt: nat, sourceLang: string, targetLang: string,
                      endpoints: seq<string>, rowReplies: seq<Reply>): (q: ColumnProgress)
    requires 0 < |endpoints| && p.current < |endpoints| && |rowReplies| == |endpoints|
    ensures q.current < |endpoints|
  {
    var items := p.tally.items;
    if BlankSource(items, row, src) then p
    else
      var source := items[Position(row, src)];
      var t := TryEndpoints(endpoints, rowReplies, p.current, 0, [], source, sourceLang, targetLang);
      var tally := p.tally;
      match t.text
      case Some(text) =>
        ColumnProgress(Tally(items[Position(row, tgt) := text], tally.translated + 1, tally.failed, tally.posted + t.sent), t.current)
      case None =>
        ColumnProgress(Tally(items, tally.translated, tally.failed + 1, tally.posted + t.sent), t.current)
  }

  /** The row has a non-blank source and one of its replies is accepted: it is counted as translated. */
  predicate RowTranslated(items: map<Position, string>, row: nat, src: nat, rowReplies: seq<Reply>) {
    !BlankSource(items, row, src) && FirstAccepted(rowReplies, 0).Some?
  }

  /** The row has a non-blank source and every reply is rejected: it is counted as failed. */
  predicate RowFailed(items: map<Position, string>, row: nat, src: nat, rowReplies: seq<Reply>) {
    !BlankSource(items, row, src) && FirstAccepted(rowReplies, 0).None?
  }

  /**
   * A row step sets the row's target item to the first accepted reply's text when the row is
   * translated, and leaves every other item, and a rejected row's target, as it was.
   */
  lemma ColumnStepItem(p: ColumnProgress, row: nat, src: nat, tgt: nat, sourceLang: string, targetLang: string,
                       endpoints: seq<string>, rowReplies: seq<Reply>, at: Position)
    requires 0 < |endpoints| && p.current < |endpoints| && |rowReplies| == |endpoints|
    ensures var after := ColumnStep(p, row, src, tgt, sourceLang, targetLang, endpoints, rowReplies).tally.items;
      Item(after, at) == if at == Position(row, tgt) && RowTranslated(p.tally.items, row, src, rowReplies)
                         then FirstAccepted(rowReplies, 0) else Item(p.tally.items, at)
  {
    if !BlankSource(p.tally.items, row, src) {
      TryEndpointsDelivers(endpoints, rowReplies, p.current, 0, [], p.tally.items[Position(row, src)], sourceLang, targetLang);
    }
  }

  /** A translated row adds one to `translated`, a failed row one to `failed`, a blank row nothing. */
  lemma ColumnStepCounts(p: ColumnProgress, row: nat, src: nat, tgt: nat, sourceLang: string, targetLang: string,
                         endpoints: seq<string>, rowReplies: seq<Reply>)
    requires 0 < |endpoints| && p.current < |endpoints| && |rowReplies| == |endpoints|
    ensures var q := ColumnStep(p, row, src, tgt, sourceLang, targetLang, endpoints, rowReplies);
      && q.tally.translated == p.tally.translated + (if RowTranslated(p.tally.items, row, src, rowReplies) then 1 else 0)
      && q.tally.failed == p.tally.failed + (if RowFailed(p.tally.items, row, src, rowReplies) then 1 else 0)
  {
    if !BlankSource(p.tally.items, row, src) {
      TryEndpointsDelivers(endpoints, rowReplies, p.current, 0, [], p.tally.items[Position(row, src)], sourceLang, targetLang);
    }
  }

  /** A row step only appends requests, each with the row's non-blank source text, to a listed endpoint. */
  lemma ColumnStepRequests(p: ColumnProgress, row: nat, src: nat, tgt: nat, sourceLang: string, targetLang: string,
                           endpoints: seq<string>, rowReplies: seq<Reply>)
    requires 0 < |endpoints| && p.current < |endpoints| && |rowReplies| == |endpoints|
    ensures var q := ColumnStep(p, row, src, tgt, sourceLang, targetLang, endpoints, rowReplies);
      && |p.tally.posted| <= |q.tally.posted| && q.tally.posted[..|p.tally.posted|] == p.tally.posted
      && (forall i :: |p.tally.posted| <= i < |q.tally.posted| ==>
            ColumnRequest(q.tally.posted[i], endpoints, sourceLang, targetLang))
  {
    if !BlankSource(p.tally.items, row, src) {
      var source := p.tally.items[Position(row, src)];
      var t := TryEndpoints(endpoints, rowReplies, p.current, 0, [], source, sourceLang, targetLang);
      TryEndpointsFacts(endpoints, rowReplies, p.current, 0, [], source, sourceLang, targetLang);
      var q := ColumnStep(p, row, src, tgt, sourceLang, targetLang, endpoints, rowReplies);
      assert q.tally.posted == p.tally.posted + t.sent;
      assert Strip(source) != "";
    }
  }

  /** `translate_column` after its first `k` rows, starting from the items `items`. */
  function ColumnRun(items: map<Position, string>, src: nat, tgt: nat, sourceLang: string, targetLang: string,
                     endpoints: seq<string>, replies: seq<seq<Reply>>, k: nat): (p: ColumnProgress)
    requires ColumnArgs(endpoints, replies) && k <= |replies|
    ensures p.current < |endpoints|
    decreases k
  {
    if k == 0 then ColumnProgress(Tally(items, 0, 0, []), 0)
    else
      var p := ColumnRun(items, src, tgt, sourceLang, targetLang, endpoints, replies, k - 1);
      ColumnStep(p, k - 1, src, tgt, sourceLang, targetLang, endpoints, replies[k - 1])
  }

  /** Positions outside the target column, and rows not yet visited, keep their item. */
  lemma {:induction false} ColumnRunKeeps(items: map<Position, string>, src: nat, tgt: nat, sourceLang: string, targetLang: string,
                                          endpoints: seq<string>, replies: seq<seq<Reply>>, k: nat, at: Position)
    requires ColumnArgs(endpoints, replies) && k <= |replies|
    requires at.col != tgt || k <= at.row
    ensures Item(ColumnRun(items, src, tgt, sourceLang, targetLang, endpoints, replies, k).tally.items, at) == Item(items, at)
    decreases k
  {
    if k > 0 {
      var p := ColumnRun(items, src, tgt, sourceLang, targetLang, endpoints, replies, k - 1);
      ColumnStepItem(p, k - 1, src, tgt, sourceLang, targetLang, endpoints, replies[k - 1], at);
      ColumnRunKeeps(items, src, tgt, sourceLang, targetLang, endpoints, replies, k - 1, at);
    }
  }

  /** The number of rows among the first `k` whose source cell holds an item with a non-blank text. */
  function NonBlankRows(items: map<Position, string>, src: nat, k: nat): (n: nat)
    ensures n <= k
  {
    if k == 0 then 0 else NonBlankRows(items, src, k - 1) + (if BlankSource(items, k - 1, src) then 0 else 1)
  }

  /** The number of rows among the first `k` that are translated. */
  function TranslatedRows(items: map<Position, string>, src: nat, replies: seq<seq<Reply>>, k: nat): (n: nat)
    requires k <= |replies|
    ensures n <= k
  {
    if k == 0 then 0 else TranslatedRows(items, src, replies, k - 1) + (if RowTranslated(items, k - 1, src, replies[k - 1]) then 1 else 0)
  }

  /** The number of rows among the first `k` that fail. */
  function FailedRows(items: map<Position, string>, src: nat, replies: seq<seq<Reply>>, k: nat): (n: nat)
    requires k <= |replies|
    ensures n <= k
  {
    if k == 0 then 0 else FailedRows(items, src, replies, k - 1) + (if RowFailed(items, k - 1, src, replies[k - 1]) then 1 else 0)
  }

  /**
   * `translated` counts the rows whose source is not blank and one of whose replies is accepted,
   * `failed` those whose source is not blank and all of whose replies are rejected; together
   * they count every row with a non-blank source once, and rows with a missing or blank source
   * not at all.
   */
  lemma {:induction false} ColumnRunCounts(items: map<Position, string>, src: nat, tgt: nat, sourceLang: string, targetLang: string,
                                           endpoints: seq<string>, replies: seq<seq<Reply>>, k: nat)
    requires ColumnArgs(endpoints, replies) && k <= |replies|
    ensures var p := ColumnRun(items, src, tgt, sourceLang, targetLang, endpoints, replies, k);
      && p.tally.translated == TranslatedRows(items, src, replies, k)
      && p.tally.failed == FailedRows(items, src, replies, k)
      && p.tally.translated + p.tally.failed == NonBlankRows(items, src, k)
    decreases k
  {
    if k > 0 {
      ColumnRunCounts(items, src, tgt, sourceLang, targetLang, endpoints, replies, k - 1);
      var p := ColumnRun(items, src, tgt, sourceLang, targetLang, endpoints, replies, k - 1);
      ColumnStepCounts(p, k - 1, src, tgt, sourceLang, targetLang, endpoints, replies[k - 1]);
      ColumnRunKeeps(items, src, tgt, sourceLang, targetLang, endpoints, replies, k - 1, Position(k - 1, src));
      assert BlankSource(p.tally.items, k - 1, src) == BlankSource(items, k - 1, src);
    }
  }

  /**
   * The target cell of a visited, translated row holds the first accepted reply's text; every
   * other target cell, a failed row's included, keeps its item.
   */
  lemma {:induction false} ColumnRunWrites(items: map<Position, string>, src: nat, tgt: nat, sourceLang: string, targetLang: string,
                                           endpoints: seq<string>, replies: seq<seq<Reply>>, k: nat, row: nat)
    requires ColumnArgs(endpoints, replies) && k <= |replies|
    ensures var after := ColumnRun(items, src, tgt, sourceLang, targetLang, endpoints, replies, k).tally.items;
      Item(after, Position(row, tgt)) == if row < k && RowTranslated(items, row, src, replies[row])
                                         then FirstAccepted(replies[row], 0) else Item(items, Position(row, tgt))
    decreases k
  {
    if k > 0 {
      var p := ColumnRun(items, src, tgt, sourceLang, targetLang, endpoints, replies, k - 1);
      ColumnStepItem(p, k - 1, src, tgt, sourceLang, targetLang, endpoints, replies[k - 1], Position(row, tgt));
      if row == k - 1 {
        ColumnRunKeeps(items, src, tgt, sourceLang, targetLang, endpoints, replies, k - 1, Position(row, tgt));
        ColumnRunKeeps(items, src, tgt, sourceLang, targetLang, endpoints, replies, k - 1, Position(row, src));
      } else {
        ColumnRunWrites(items, src, tgt, sourceLang, targetLang, endpoints, replies, k - 1, row);
      }
    }
  }

  /** Every request of a column run goes to a listed endpoint, with a non-blank text and the chosen languages. */
  lemma {:induction false} ColumnRunRequests(items: map<Position, string>, src: nat, tgt: nat, sourceLang: string, targetLang: string,
                                             endpoints: seq<string>, replies: seq<seq<Reply>>, k: nat)
    requires ColumnArgs(endpoints, replies) && k <= |replies|
    ensures ColumnRequests(ColumnRun(items, src, tgt, sourceLang, targetLang, endpoints, replies, k).tally.posted,
                           endpoints, sourceLang, targetLang)
    decreases k
  {
    if k > 0 {
      ColumnRunRequests(items, src, tgt, sourceLang, targetLang, endpoints, replies, k - 1);
      var p := ColumnRun(items, src, tgt, sourceLang, targetLang, endpoints, replies, k - 1);
      ColumnStepRequests(p, k - 1, src, tgt, sourceLang, targetLang, endpoints, replies[k - 1]);
      var posted := ColumnStep(p, k - 1, src, tgt, sourceLang, targetLang, endpoints, replies[k - 1]).tally.posted;
      forall i | 0 <= i < |posted| ensures ColumnRequest(posted[i], endpoints, sourceLang, targetLang) {
        if i < |p.tally.posted| {
          assert posted[i] == posted[..|p.tally.posted|][i] == p.tally.posted[i];
        }
      }
    }
  }

  /** What `translate_selected_cells` is given: items that exist, and one reply per item. */
  predicate SelectionArgs(items: map<Position, string>, selected: seq<Position>, replies: seq<Reply>) {
    |replies| == |selected| && forall i :: 0 <= i < |selected| ==> selected[i] in items
  }

  /** One pass of `translate_selected_cells`' loop: the item's stripped text, unless empty, is posted to the local server. */
  function SelectedStep(t: Tally, at: Position, reply: Reply, sourceLang: string, targetLang: string): (u: Tally)
    requires at in t.items
    ensures u.items.Keys == t.items.Keys
  {
    var text := Strip(t.items[at]);
    if text == "" then t
    else
      var request := Request(LocalEndpoint, text, sourceLang, targetLang);
      match AcceptedText(reply)
      case Some(translation) =>
        Tally(t.items[at := translation], t.translated + 1, t.failed, t.posted + [request])
      case None =>
        Tally(t.items, t.translated, t.failed + 1, t.posted + [request])
  }

  /**
   * A blank item changes nothing; otherwise its stripped text, which is trimmed, is posted once to
   * the local server, and either the reply is accepted, `translated` grows by one and the item is
   * set to the translation, or `failed` grows by one and the item is left as it was.
   */
  lemma SelectedStepFacts(t: Tally, at: Position, reply: Reply, sourceLang: string, targetLang: string)
    requires at in t.items
    ensures var u := SelectedStep(t, at, reply, sourceLang, targetLang);
      && (AllSpace(t.items[at]) ==> u == t)
      && (!AllSpace(t.items[at]) ==>
            && Trimmed(Strip(t.items[at]))
            && u.translated == t.translated + (if AcceptedText(reply).Some? then 1 else 0)
            && u.failed == t.failed + (if AcceptedText(reply).Some? then 0 else 1)
            && u.posted == t.posted + [Request(LocalEndpoint, Strip(t.items[at]), sourceLang, targetLang)]
            && u.items == (if AcceptedText(reply).Some? then t.items[at := AcceptedText(reply).value] else t.items))
  {
  }

  /** The item is not blank and its reply is accepted: it is counted as translated. */
  predicate ItemTranslated(items: map<Position, string>, at: Position, reply: Reply)
    requires at in items
  {
    !AllSpace(items[at]) && AcceptedText(reply).Some?
  }

  /** The item is not blank and its reply is rejected: it is counted as failed. */
  predicate ItemFailed(items: map<Position, string>, at: Position, reply: Reply)
    requires at in items
  {
    !AllSpace(items[at]) && AcceptedText(reply).None?
  }

  /**
   * A selection step sets the visited item to the reply's text when the item is not blank and
   * the reply is accepted, and leaves every other item as it was.
   */
  lemma SelectedStepItem(t: Tally, at: Position, reply: Reply, sourceLang: string, targetLang: string, other: Position)
    requires at in t.items
    ensures Item(SelectedStep(t, at, reply, sourceLang, targetLang).items, other)
         == if other == at && ItemTranslated(t.items, at, reply) then AcceptedText(reply) else Item(t.items, other)
  {
  }

  /** `translate_selected_cells` after its first `k` items. No item appears or disappears. */
  function SelectedRun(items: map<Position, string>, selected: seq<Position>, replies: seq<Reply>,
                       sourceLang: string, targetLang: string, k: nat): (t: Tally)
    requires SelectionArgs(items, selected, replies) && k <= |selected|
    ensures t.items.Keys == items.Keys
    decreases k
  {
    if k == 0 then Tally(items, 0, 0, [])
    else
      var t := SelectedRun(items, selected, replies, sourceLang, targetLang, k - 1);
      assert selected[k - 1] in items;
      SelectedStep(t, selected[k - 1], replies[k - 1], sourceLang, targetLang)
  }

  /** A position that is not among the first `k` selected items keeps its item. */
  lemma {:induction false} SelectedRunKeeps(items: map<Position, string>, selected: seq<Position>, replies: seq<Reply>,
                                            sourceLang: string, targetLang: string, k: nat, at: Position)
    requires SelectionArgs(items, selected, replies) && k <= |selected| && at !in selected[..k]
    ensures Item(SelectedRun(items, selected, replies, sourceLang, targetLang, k).items, at) == Item(items, at)
    decreases k
  {
    if k > 0 {
      assert selected[..k] == selected[..k - 1] + [selected[k - 1]];
      SelectedRunKeeps(items, selected, replies, sourceLang, targetLang, k - 1, at);
      var t := SelectedRun(items, selected, replies, sourceLang, targetLang, k - 1);
      SelectedStepFacts(t, selected[k - 1], replies[k - 1], sourceLang, targetLang);
    }
  }

  /** A position that is not among the selected items `j` to `k - 1` keeps, after item `k - 1`, the item it had before item `j`. */
  lemma {:induction false} SelectedRunKeepsFrom(items: map<Position, string>, selected: seq<Position>, replies: seq<Reply>,
                                                sourceLang: string, targetLang: string, j: nat, k: nat, at: Position)
    requires SelectionArgs(items, selected, replies) && j <= k <= |selected| && at !in selected[j..k]
    ensures Item(SelectedRun(items, selected, replies, sourceLang, targetLang, k).items, at)
         == Item(SelectedRun(items, selected, replies, sourceLang, targetLang, j).items, at)
    decreases k
  {
    if j < k {
      assert selected[j..k] == selected[j..k - 1] + [selected[k - 1]];
      SelectedRunKeepsFrom(items, selected, replies, sourceLang, targetLang, j, k - 1, at);
      var t := SelectedRun(items, selected, replies, sourceLang, targetLang, k - 1);
      SelectedStepItem(t, selected[k - 1], replies[k - 1], sourceLang, targetLang, at);
    }
  }

  predicate Distinct(selected: seq<Position>) {
    forall i, j :: 0 <= i < j < |selected| ==> selected[i] != selected[j]
  }

  /** In a list of distinct positions, none occurs before its own place. */
  lemma NotEarlier(selected: seq<Position>, k: nat)
    requires Distinct(selected) && k < |selected|
    ensures selected[k] !in selected[..k]
  {
    forall i | 0 <= i < k ensures selected[..k][i] != selected[k] {
      assert selected[i] != selected[k];
    }
  }

  /** The number of the first `k` selected items whose text is not blank. */
  function NonBlankItems(items: map<Position, string>, selected: seq<Position>, k: nat): (n: nat)
    requires k <= |selected| && forall i :: 0 <= i < |selected| ==> selected[i] in items
    ensures n <= k
  {
    if k == 0 then 0
    else NonBlankItems(items, selected, k - 1) + (if AllSpace(items[selected[k - 1]]) then 0 else 1)
  }

  /** The number of the first `k` selected items that are not blank and whose reply is accepted. */
  function TranslatedItems(items: map<Position, string>, selected: seq<Position>, replies: seq<Reply>, k: nat): (n: nat)
    requires SelectionArgs(items, selected, replies) && k <= |selected|
    ensures n <= k
  {
    if k == 0 then 0
    else TranslatedItems(items, selected, replies, k - 1)
         + (if ItemTranslated(items, selected[k - 1], replies[k - 1]) then 1 else 0)
  }

  /** The number of the first `k` selected items that are not blank and whose reply is rejected. */
  function FailedItems(items: map<Position, string>, selected: seq<Position>, replies: seq<Reply>, k: nat): (n: nat)
    requires SelectionArgs(items, selected, replies) && k <= |selected|
    ensures n <= k
  {
    if k == 0 then 0
    else FailedItems(items, selected, replies, k - 1)
         + (if ItemFailed(items, selected[k - 1], replies[k - 1]) then 1 else 0)
  }

  /**
   * With distinct selected items, `translated` counts the non-blank ones whose reply is accepted,
   * `failed` the non-blank ones whose reply is rejected; together each non-blank item is counted
   * exactly once.
   */
  lemma {:induction false} SelectedRunCounts(items: map<Position, string>, selected: seq<Position>, replies: seq<Reply>,
                                             sourceLang: string, targetLang: string, k: nat)
    requires SelectionArgs(items, selected, replies) && k <= |selected| && Distinct(selected)
    ensures var t := SelectedRun(items, selected, replies, sourceLang, targetLang, k);
      && t.translated == TranslatedItems(items, selected, replies, k)
      && t.failed == FailedItems(items, selected, replies, k)
      && t.translated + t.failed == NonBlankItems(items, selected, k)
    decreases k
  {
    if k > 0 {
      SelectedRunCounts(items, selected, replies, sourceLang, targetLang, k - 1);
      NotEarlier(selected, k - 1);
      SelectedRunKeeps(items, selected, replies, sourceLang, targetLang, k - 1, selected[k - 1]);
      var t := SelectedRun(items, selected, replies, sourceLang, targetLang, k - 1);
      assert Item(t.items, selected[k - 1]) == Item(items, selected[k - 1]);
      assert t.items[selected[k - 1]] == items[selected[k - 1]];
      SelectedStepFacts(t, selected[k - 1], replies[k - 1], sourceLang, targetLang);
    }
  }

  /** A selected item either keeps its text or holds an accepted translation. */
  lemma {:induction false} SelectedRunWrites(items: map<Position, string>, selected: seq<Position>, replies: seq<Reply>,
                                             sourceLang: string, targetLang: string, k: nat, at: Position)
    requires SelectionArgs(items, selected, replies) && k <= |selected| && at in items
    ensures var after := SelectedRun(items, selected, replies, sourceLang, targetLang, k).items;
      at in after && (after[at] == items[at] || Acceptable(after[at]))
    decreases k
  {
    if k > 0 {
      SelectedRunWrites(items, selected, replies, sourceLang, targetLang, k - 1, at);
      var t := SelectedRun(items, selected, replies, sourceLang, targetLang, k - 1);
      SelectedStepItem(t, selected[k - 1], replies[k - 1], sourceLang, targetLang, at);
    }
  }

  /**
   * With distinct selected items, a visited item that is not blank and whose reply is accepted
   * holds that reply's text; every other selected item keeps its text.
   */
  lemma SelectedRunResult(items: map<Position, string>, selected: seq<Position>, replies: seq<Reply>,
                          sourceLang: string, targetLang: string, k: nat, i: nat)
    requires SelectionArgs(items, selected, replies) && k <= |selected| && Distinct(selected) && i < |selected|
    ensures Item(SelectedRun(items, selected, replies, sourceLang, targetLang, k).items, selected[i])
         == if i < k && ItemTranslated(items, selected[i], replies[i]) then AcceptedText(replies[i]) else Some(items[selected[i]])
  {
    var at := selected[i];
    if i < k {
      var later := selected[i + 1..k];
      forall j | 0 <= j < |later| ensures later[j] != at {
        assert later[j] == selected[i + 1 + j] != selected[i];
      }
      SelectedRunKeepsFrom(items, selected, replies, sourceLang, targetLang, i + 1, k, at);
      NotEarlier(selected, i);
      SelectedRunKeeps(items, selected, replies, sourceLang, targetLang, i, at);
      var t := SelectedRun(items, selected, replies, sourceLang, targetLang, i);
      SelectedStepItem(t, at, replies[i], sourceLang, targetLang, at);
    } else {
      forall j | 0 <= j < k ensures selected[..k][j] != at {
        assert selected[j] != selected[i];
      }
      SelectedRunKeeps(items, selected, replies, sourceLang, targetLang, k, at);
    }
  }

  /** Requests to the local server with non-empty texts that have no whitespace at either end, and the chosen languages. */
  predicate LocalRequests(posted: seq<Request>, sourceLang: string, targetLang: string) {
    forall i :: 0 <= i < |posted| ==>
      && posted[i].endpoint == LocalEndpoint && Trimmed(posted[i].text)
      && posted[i].sourceLang == sourceLang && posted[i].targetLang == targetLang
  }

  /** Every request of a selection run goes to the local server with a trimmed, non-empty text and the chosen languages. */
  lemma {:induction false} SelectedRunRequests(items: map<Position, string>, selected: seq<Position>, replies: seq<Reply>,
                                               sourceLang: string, targetLang: string, k: nat)
    requires SelectionArgs(items, selected, replies) && k <= |selected|
    ensures LocalRequests(SelectedRun(items, selected, replies, sourceLang, targetLang, k).posted, sourceLang, targetLang)
    decreases k
  {
    if k > 0 {
      SelectedRunRequests(items, selected, replies, sourceLang, targetLang, k - 1);
      var t := SelectedRun(items, selected, replies, sourceLang, targetLang, k - 1);
      SelectedStepFacts(t, selected[k - 1], replies[k - 1], sourceLang, targetLang);
      var posted := SelectedStep(t, selected[k - 1], replies[k - 1], sourceLang, targetLang).posted;
      assert forall i :: 0 <= i < |t.posted| ==> posted[i] == t.posted[i];
    }
  }
}

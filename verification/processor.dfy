/** The chunk loop of `_process_content`: every window of the content goes, in offset
    order, to the completer with the same system prompt; each reply is appended to the
    result file followed by a blank line; a progress value is computed after each
    window; and the first failed call ends the run with a `RuntimeError` whose message
    prefix names the failure's class. */
module Processor {
  import opened Wrappers
  import opened Chunker

  /** One call of the completer: the fixed system prompt and one window of the content. */
  datatype Request = Request(systemPrompt: string, chunk: string)

  /** The three classes of exception the chunk loop tells apart when a call fails, each
      with the exception's string form: `ConnectionError`, `ValueError` (raised among
      others when the response carries no choice with a message), and any other
      exception. */
  datatype CallFailure =
    | ConnectionFailure(detail: string)
    | InvalidResponse(detail: string)
    | OtherFailure(detail: string)

  /** What one call of the completer gives: the processed text, or a raised failure. */
  datatype Reply = Processed(text: string) | Raised(failure: CallFailure)

  /** The completer, as an arbitrary total function: its reply to a request when `n`
      calls were made before it in the same run. The call count lets the remote endpoint
      answer the same request differently at different times. */
  type Completer = (nat, Request) -> Reply

  /** The observable effect of one run of the chunk loop: the requests sent, in order;
      the text written to the result file; the progress values computed; and the
      exception the run ended with, if any. */
  datatype Run = Run(requests: seq<Request>, written: string, progress: seq<real>, raised: Option<PyException>)

  const ConnectionPrefix: string := "网络连接失败: "
  const InvalidDataPrefix: string := "API 返回无效数据: "
  const UnknownPrefix: string := "未知错误: "

  /** The line break written after each processed section. */
  const SectionEnd: string := "\n\n"

  /** The message of the `RuntimeError` that a failed call is re-raised as. */
  function FailureMessage(f: CallFailure): string
  {
    match f
    case ConnectionFailure(d) => ConnectionPrefix + d
    case InvalidResponse(d) => InvalidDataPrefix + d
    case OtherFailure(d) => UnknownPrefix + d
  }

  /** Reads the failure class and detail back from a re-raised message. */
  function ParseFailureMessage(m: string): Option<CallFailure>
  {
    if |ConnectionPrefix| <= |m| && m[..|ConnectionPrefix|] == ConnectionPrefix then
      Some(ConnectionFailure(m[|ConnectionPrefix|..]))
    else if |InvalidDataPrefix| <= |m| && m[..|InvalidDataPrefix|] == InvalidDataPrefix then
      Some(InvalidResponse(m[|InvalidDataPrefix|..]))
    else if |UnknownPrefix| <= |m| && m[..|UnknownPrefix|] == UnknownPrefix then
      Some(OtherFailure(m[|UnknownPrefix|..]))
    else None
  }

  /** The three prefixes are pairwise distinct from their first character on, so the
      message of the re-raised error determines the class and the text of the failure. */
  lemma FailureMessageRoundTrip(f: CallFailure)
    ensures ParseFailureMessage(FailureMessage(f)) == Some(f)
  {
    var m := FailureMessage(f);
    match f
    case ConnectionFailure(d) =>
      assert m[..|ConnectionPrefix|] == ConnectionPrefix;
      assert m[|ConnectionPrefix|..] == d;
    case InvalidResponse(d) =>
      assert m[0] != ConnectionPrefix[0];
      assert m[..|InvalidDataPrefix|] == InvalidDataPrefix;
      assert m[|InvalidDataPrefix|..] == d;
    case OtherFailure(d) =>
      assert m[0] != ConnectionPrefix[0] && m[0] != InvalidDataPrefix[0];
      assert m[..|UnknownPrefix|] == UnknownPrefix;
      assert m[|UnknownPrefix|..] == d;
  }

  /** The result-file text for a sequence of processed texts: each followed by a blank
      line, with nothing before, between or after them. */
  function Sections(texts: seq<string>): string
  {
    if |texts| == 0 then "" else Sections(texts[..|texts| - 1]) + texts[|texts| - 1] + SectionEnd
  }

  /** The file only grows: the text written for the first j sections is a prefix of the
      text written for all of them. */
  lemma {:induction false} SectionsPrefix(texts: seq<string>, j: nat)
    requires j <= |texts|
    ensures Sections(texts[..j]) <= Sections(texts)
    decreases |texts|
  {
    if j < |texts| {
      var init := texts[..|texts| - 1];
      assert texts[..j] == init[..j];
      SectionsPrefix(init, j);
    } else {
      assert texts[..j] == texts;
    }
  }

  /** Each section is the reply text followed by the blank line: the file holds exactly
      the concatenation of `text + "\n\n"` over the texts, in order. */
  lemma {:induction false} SectionsConcat(texts: seq<string>)
    ensures Sections(texts) == Concat(seq(|texts|, k requires 0 <= k < |texts| => texts[k] + SectionEnd))
  {
    if |texts| > 0 {
      var init := texts[..|texts| - 1];
      SectionsConcat(init);
      var all := seq(|texts|, k requires 0 <= k < |texts| => texts[k] + SectionEnd);
      assert all[..|all| - 1] == seq(|init|, k requires 0 <= k < |init| => init[k] + SectionEnd);
    }
  }

  /** The texts of a sequence of successful replies. */
  function Texts(rs: seq<Reply>): (ts: seq<string>)
    requires forall k :: 0 <= k < |rs| ==> rs[k].Processed?
  {
    seq(|rs|, k requires 0 <= k < |rs| => rs[k].text)
  }

  /** The index of the first failed reply, or the number of replies when none failed. */
  function FirstFailure(rs: seq<Reply>): (n: nat)
    ensures n <= |rs|
    ensures forall k :: 0 <= k < n ==> rs[k].Processed?
    ensures n < |rs| ==> rs[n].Raised?
  {
    if |rs| == 0 then 0
    else if rs[0].Raised? then 0
    else 1 + FirstFailure(rs[1..])
  }

  /** The first failure is the one failed reply that every earlier reply succeeded before. */
  lemma FirstFailureAt(rs: seq<Reply>, k: nat)
    requires k <= |rs|
    requires forall j :: 0 <= j < k ==> rs[j].Processed?
    requires k < |rs| ==> rs[k].Raised?
    ensures FirstFailure(rs) == k
  {
  }

  /** One more successful reply appends its section to the file. */
  lemma SectionsStep(rs: seq<Reply>, k: nat)
    requires k < |rs|
    requires forall j :: 0 <= j <= k ==> rs[j].Processed?
    ensures Sections(Texts(rs[..k + 1])) == Sections(Texts(rs[..k])) + rs[k].text + SectionEnd
  {
    var ts := Texts(rs[..k + 1]);
    assert ts[..k] == Texts(rs[..k]);
  }

  /** One more successful window appends its progress value. */
  lemma ProgressStep(k: nat, size: nat, total: nat)
    requires total > 0
    ensures ProgressAfter(k + 1, size, total) == ProgressAfter(k, size, total) + [Progress(k * size, size, total)]
  {
  }

  /** The progress value after the window at offset i, `min((i + size) / total * 100, 100)`,
      as an exact ratio. */
  function Progress(i: nat, size: nat, total: nat): real
    requires total > 0
  {
    var p := (i + size) as real / total as real * 100.0;
    if p <= 100.0 then p else 100.0
  }

  /** The progress values after the first n windows. */
  function ProgressAfter(n: nat, size: nat, total: nat): seq<real>
    requires n == 0 || total > 0
  {
    seq(n, k requires 0 <= k < n => Progress(k * size, size, total))
  }

  lemma DivMono(a: real, b: real, t: real)
    requires a <= b && t > 0.0
    ensures a / t * 100.0 <= b / t * 100.0
  {
  }

  /** Progress after an offset inside the content is in (0, 100]; it is 100 exactly when
      the window reaches the end of the content. */
  lemma ProgressBounds(i: nat, size: nat, total: nat)
    requires size > 0 && i < total
    ensures 0.0 < Progress(i, size, total) <= 100.0
    ensures Progress(i, size, total) == 100.0 <==> i + size >= total
  {
    var a := (i + size) as real;
    var t := total as real;
    assert a > 0.0;
    if i + size < total {
      DivMono(a, t, t);
      assert a / t * 100.0 != 100.0;
    } else {
      DivMono(t, a, t);
    }
  }

  /** Progress never decreases as the offset grows. */
  lemma ProgressMonotone(i: nat, j: nat, size: nat, total: nat)
    requires i <= j && total > 0
    ensures Progress(i, size, total) <= Progress(j, size, total)
  {
    DivMono((i + size) as real, (j + size) as real, total as real);
  }

  /** The requests the chunk loop makes, one per window, all with the same prompt. */
  function RequestsFor(systemPrompt: string, chunks: seq<string>): seq<Request>
  {
    seq(|chunks|, k requires 0 <= k < |chunks| => Request(systemPrompt, chunks[k]))
  }

  /** The completer's replies when the k-th request is the k-th call of the run. */
  function RepliesTo(requests: seq<Request>, complete: Completer): seq<Reply>
  {
    seq(|requests|, k requires 0 <= k < |requests| => complete(k, requests[k]))
  }

  /** The whole run, stated declaratively: a zero chunk size makes `range` raise before
      any call, with the result file already truncated; a negative one gives an empty
      range; otherwise the windows are requested in order up to and including the first
      failed call, the file holds the sections of the calls before it, one progress
      value is computed per successful call, and the failure is re-raised. */
  function ProcessSpec(content: string, systemPrompt: string, chunkSize: int, complete: Completer): Run
  {
    if chunkSize == 0 then Run([], "", [], Some(ValueError(RangeStepZero)))
    else if chunkSize < 0 then Run([], "", [], None)
    else
      var requests := RequestsFor(systemPrompt, Windows(content, chunkSize));
      var replies := RepliesTo(requests, complete);
      var n := FirstFailure(replies);
      if n < |replies| then
        Run(requests[..n + 1], Sections(Texts(replies[..n])), ProgressAfter(n, chunkSize, |content|),
            Some(RuntimeError(FailureMessage(replies[n].failure))))
      else
        Run(requests, Sections(Texts(replies)), ProgressAfter(n, chunkSize, |content|), None)
  }

  /** The state of the result after the first k windows were requested and all k calls
      succeeded, as the declarative run describes it. */
  ghost predicate Sofar(content: string, systemPrompt: string, size: nat, complete: Completer, k: nat,
                        requests: seq<Request>, written: string, progress: seq<real>)
    requires size > 0
  {
    var allRequests := RequestsFor(systemPrompt, Windows(content, size));
    var replies := RepliesTo(allRequests, complete);
    && k <= |replies|
    && (forall j :: 0 <= j < k ==> replies[j].Processed?)
    && requests == allRequests[..k]
    && written == Sections(Texts(replies[..k]))
    && progress == ProgressAfter(k, size, |content|)
  }

  lemma SofarStart(content: string, systemPrompt: string, size: nat, complete: Completer)
    requires size > 0
    ensures Sofar(content, systemPrompt, size, complete, 0, [], "", [])
  {
  }

  /** The request the loop makes at offset i = k * size is the k-th request of the run. */
  lemma RequestAt(content: string, systemPrompt: string, size: nat, k: nat, i: nat)
    requires size > 0 && i == k * size && i < |content|
    ensures k < |Windows(content, size)|
    ensures Request(systemPrompt, Slice(content, i, i + size)) == RequestsFor(systemPrompt, Windows(content, size))[k]
  {
    WindowVisited(content, size, k);
    WindowAt(content, size, k);
  }

  /** A successful call on the window at offset i = k * size extends the state by one
      request, one section and one progress value. */
  lemma SofarAdvance(content: string, systemPrompt: string, size: nat, complete: Completer, k: nat, i: nat,
                     requests: seq<Request>, written: string, progress: seq<real>, text: string)
    requires size > 0 && i == k * size && i < |content|
    requires Sofar(content, systemPrompt, size, complete, k, requests, written, progress)
    requires complete(k, Request(systemPrompt, Slice(content, i, i + size))) == Processed(text)
    ensures Sofar(content, systemPrompt, size, complete, k + 1,
                  requests + [Request(systemPrompt, Slice(content, i, i + size))],
                  written + text + SectionEnd, progress + [Progress(i, size, |content|)])
  {
    var allRequests := RequestsFor(systemPrompt, Windows(content, size));
    var replies := RepliesTo(allRequests, complete);
    RequestAt(content, systemPrompt, size, k, i);
    assert replies[k] == Processed(text);
    assert allRequests[..k + 1] == allRequests[..k] + [allRequests[k]];
    SectionsStep(replies, k);
    ProgressStep(k, size, |content|);
  }

  /** A failed call on the window at offset i = k * size ends the run as the declarative
      run says. */
  lemma SofarStop(content: string, systemPrompt: string, size: nat, complete: Completer, k: nat, i: nat,
                  requests: seq<Request>, written: string, progress: seq<real>, f: CallFailure)
    requires size > 0 && i == k * size && i < |content|
    requires Sofar(content, systemPrompt, size, complete, k, requests, written, progress)
    requires complete(k, Request(systemPrompt, Slice(content, i, i + size))) == Raised(f)
    ensures ProcessSpec(content, systemPrompt, size, complete)
      == Run(requests + [Request(systemPrompt, Slice(content, i, i + size))], written, progress,
             Some(RuntimeError(FailureMessage(f))))
  {
    var allRequests := RequestsFor(systemPrompt, Windows(content, size));
    var replies := RepliesTo(allRequests, complete);
    RequestAt(content, systemPrompt, size, k, i);
    assert replies[k] == Raised(f);
    FirstFailureAt(replies, k);
    assert allRequests[..k + 1] == allRequests[..k] + [allRequests[k]];
  }

  /** Once the offset passes the end of the content with every call successful, the run
      is complete as the declarative run says. */
  lemma SofarDone(content: string, systemPrompt: string, size: nat, complete: Completer, k: nat, i: nat,
                  requests: seq<Request>, written: string, progress: seq<real>)
    requires size > 0 && i == k * size && i >= |content|
    requires Sofar(content, systemPrompt, size, complete, k, requests, written, progress)
    ensures ProcessSpec(content, systemPrompt, size, complete) == Run(requests, written, progress, None)
  {
    var allRequests := RequestsFor(systemPrompt, Windows(content, size));
    var replies := RepliesTo(allRequests, complete);
    if k < |replies| {
      WindowVisited(content, size, k);
    }
    FirstFailureAt(replies, k);
    assert allRequests[..k] == allRequests;
    assert replies[..k] == replies;
  }

  /** `_process_content` over one content string, as the loop runs it. */
  method ProcessContent(content: string, systemPrompt: string, chunkSize: int, complete: Completer)
    returns (run: Run)
    ensures run == ProcessSpec(content, systemPrompt, chunkSize, complete)
  {
    if chunkSize == 0 {
      return Run([], "", [], Some(ValueError(RangeStepZero)));
    }
    if chunkSize < 0 {
      return Run([], "", [], None);
    }
    var total := |content|;
    var requests: seq<Request> := [];
    var written := "";
    var progress: seq<real> := [];
    var i := 0;
    SofarStart(content, systemPrompt, chunkSize, complete);
    while i < total
      invariant i == |requests| * chunkSize
      invariant Sofar(content, systemPrompt, chunkSize, complete, |requests|, requests, written, progress)
      decreases total - i
    {
      var k := |requests|;
      var request := Request(systemPrompt, Slice(content, i, i + chunkSize));
      var reply := complete(k, request);
      match reply {
        case Raised(f) =>
          SofarStop(content, systemPrompt, chunkSize, complete, k, i, requests, written, progress, f);
          return Run(requests + [request], written, progress, Some(RuntimeError(FailureMessage(f))));
        case Processed(text) =>
          SofarAdvance(content, systemPrompt, chunkSize, complete, k, i, requests, written, progress, text);
          requests := requests + [request];
          written := written + text + SectionEnd;
          progress := progress + [Progress(i, chunkSize, total)];
      }
      MulSucc(k, chunkSize);
      i := i + chunkSize;
    }
    SofarDone(content, systemPrompt, chunkSize, complete, |requests|, i, requests, written, progress);
    return Run(requests, written, progress, None);
  }
}

/** What a run of the chunk loop guarantees, stated over the declarative run. */
module ProcessorProperties {
  import opened Wrappers
  import opened Chunker
  import opened Processor

  /** The completer's reply to window k when it is the k-th call of the run: the same
      reply as `RepliesTo(RequestsFor(systemPrompt, Windows(content, size)), complete)[k]`,
      indexed by window instead of by request (`SpecShape` proves the two agree). */
  function ReplyTo(content: string, systemPrompt: string, size: nat, complete: Completer, k: nat): Reply
    requires size > 0 && k < |Windows(content, size)|
  {
    complete(k, Request(systemPrompt, Windows(content, size)[k]))
  }

  /** The sections of windows 0 .. n-1 when their calls all succeeded: each reply's text
      followed by a blank line, in window order. */
  function ReplySections(content: string, systemPrompt: string, size: nat, complete: Completer, n: nat): seq<string>
    requires size > 0 && n <= |Windows(content, size)|
    requires forall j :: 0 <= j < n ==> ReplyTo(content, systemPrompt, size, complete, j).Processed?
  {
    seq(n, j requires 0 <= j < n => ReplyTo(content, systemPrompt, size, complete, j).text + SectionEnd)
  }

  /** The run for a positive chunk size, in terms of the first failed call n. */
  lemma SpecShape(content: string, systemPrompt: string, size: nat, complete: Completer)
    requires size > 0
    ensures var allRequests := RequestsFor(systemPrompt, Windows(content, size));
      var replies := RepliesTo(allRequests, complete);
      var n := FirstFailure(replies);
      var run := ProcessSpec(content, systemPrompt, size, complete);
      && |replies| == |Windows(content, size)|
      && (forall j :: 0 <= j < |replies| ==> replies[j] == ReplyTo(content, systemPrompt, size, complete, j))
      && |run.requests| == (if n < |replies| then n + 1 else n)
      && (forall j :: 0 <= j < |run.requests| ==> run.requests[j] == Request(systemPrompt, Windows(content, size)[j]))
      && run.written == Sections(Texts(replies[..n]))
      && run.progress == ProgressAfter(n, size, |content|)
      && (run.raised.None? <==> n == |replies|)
      && (n < |replies| ==> run.raised == Some(RuntimeError(FailureMessage(replies[n].failure))))
  {
    var replies := RepliesTo(RequestsFor(systemPrompt, Windows(content, size)), complete);
    assert replies[..|replies|] == replies;
  }

  /** Calls go out one per window in increasing offset order, each with the same system
      prompt and the window `content[k*size .. k*size+size]` (cut at the end): no offset
      is skipped or repeated, and there are never more calls than windows. */
  lemma RequestsInOrder(content: string, systemPrompt: string, size: nat, complete: Completer)
    requires size > 0
    ensures var run := ProcessSpec(content, systemPrompt, size, complete);
      && |run.requests| <= CeilDiv(|content|, size)
      && forall k: nat :: k < |run.requests| ==>
           var i := Offset(k, size);
           i < |content| && run.requests[k] == Request(systemPrompt, Slice(content, i, i + size))
  {
    SpecShape(content, systemPrompt, size, complete);
    WindowCount(content, size);
    WindowsAreSlices(content, size);
  }

  /** The sections of the first n successful replies, as the concatenation of each
      reply's text and a blank line. */
  lemma SectionsOfReplies(rs: seq<Reply>, n: nat)
    requires n <= |rs|
    requires forall j :: 0 <= j < n ==> rs[j].Processed?
    ensures Sections(Texts(rs[..n])) == Concat(seq(n, j requires 0 <= j < n => rs[j].text + SectionEnd))
  {
    var texts := Texts(rs[..n]);
    SectionsConcat(texts);
    assert seq(|texts|, j requires 0 <= j < |texts| => texts[j] + SectionEnd)
        == seq(n, j requires 0 <= j < n => rs[j].text + SectionEnd);
  }

  /** The run ends without an exception exactly when every window's call succeeds; then
      every window was requested, and the result file holds exactly the replies, in
      window order, each followed by a blank line, and nothing else. */
  lemma CompletedRun(content: string, systemPrompt: string, size: nat, complete: Completer)
    requires size > 0
    ensures var run := ProcessSpec(content, systemPrompt, size, complete);
      run.raised.None? <==> forall k :: 0 <= k < |Windows(content, size)| ==> ReplyTo(content, systemPrompt, size, complete, k).Processed?
    ensures var run := ProcessSpec(content, systemPrompt, size, complete);
      run.raised.None? ==>
        && |run.requests| == CeilDiv(|content|, size)
        && |run.progress| == CeilDiv(|content|, size)
        && run.written == Concat(ReplySections(content, systemPrompt, size, complete, |Windows(content, size)|))
  {
    var ws := Windows(content, size);
    var replies := RepliesTo(RequestsFor(systemPrompt, ws), complete);
    var n := FirstFailure(replies);
    SpecShape(content, systemPrompt, size, complete);
    WindowCount(content, size);
    if n == |replies| {
      SectionsOfReplies(replies, n);
      assert seq(n, j requires 0 <= j < n => replies[j].text + SectionEnd)
          == ReplySections(content, systemPrompt, size, complete, n);
    } else {
      assert !ReplyTo(content, systemPrompt, size, complete, n).Processed?;
    }
  }

  /** Fail-fast: when the call on window k is the first to fail, no later window is
      requested, the result file holds exactly the sections of windows 0 .. k-1, one
      progress value was computed per earlier window, and the run ends with a
      `RuntimeError` whose message is the class prefix followed by the failure's text. */
  lemma FailFast(content: string, systemPrompt: string, size: nat, complete: Completer, k: nat)
    requires size > 0 && k < |Windows(content, size)|
    requires forall j :: 0 <= j < k ==> ReplyTo(content, systemPrompt, size, complete, j).Processed?
    requires ReplyTo(content, systemPrompt, size, complete, k).Raised?
    ensures var run := ProcessSpec(content, systemPrompt, size, complete);
      && |run.requests| == k + 1
      && |run.progress| == k
      && run.written == Concat(ReplySections(content, systemPrompt, size, complete, k))
    ensures var run := ProcessSpec(content, systemPrompt, size, complete);
      var f := ReplyTo(content, systemPrompt, size, complete, k).failure;
      && run.raised.Some? && run.raised.value.RuntimeError?
      && (f.ConnectionFailure? ==> run.raised.value.message == ConnectionPrefix + f.detail)
      && (f.InvalidResponse? ==> run.raised.value.message == InvalidDataPrefix + f.detail)
      && (f.OtherFailure? ==> run.raised.value.message == UnknownPrefix + f.detail)
  {
    var replies := RepliesTo(RequestsFor(systemPrompt, Windows(content, size)), complete);
    SpecShape(content, systemPrompt, size, complete);
    FirstFailureAt(replies, k);
    SectionsOfReplies(replies, k);
    assert seq(k, j requires 0 <= j < k => replies[j].text + SectionEnd)
        == ReplySections(content, systemPrompt, size, complete, k);
  }

  /** The progress values of the first n windows, for any n up to the window count. */
  lemma ProgressAfterShape(n: nat, size: nat, total: nat)
    requires size > 0 && n <= CeilDiv(total, size) && (n == 0 || total > 0)
    ensures var p := ProgressAfter(n, size, total);
      forall j :: 0 <= j < |p| ==> 0.0 < p[j] <= 100.0 && (p[j] == 100.0 <==> j == CeilDiv(total, size) - 1)
    ensures var p := ProgressAfter(n, size, total);
      forall j1, j2 :: 0 <= j1 <= j2 < |p| ==> p[j1] <= p[j2]
  {
    var p := ProgressAfter(n, size, total);
    forall j | 0 <= j < |p|
      ensures 0.0 < p[j] <= 100.0 && (p[j] == 100.0 <==> j == CeilDiv(total, size) - 1)
    {
      CeilDivLt(total, size, j);
      CeilDivLt(total, size, j + 1);
      assert (j + 1) * size == j * size + size;
      ProgressBounds(j * size, size, total);
    }
    forall j1, j2 | 0 <= j1 <= j2 < |p|
      ensures p[j1] <= p[j2]
    {
      MulLe(j1, j2, size);
      ProgressMonotone(j1 * size, j2 * size, size, total);
    }
  }

  /** Every progress value lies in (0, 100]; the values never decrease from one window
      to the next; and a value is 100 exactly when it belongs to the last window. */
  lemma ProgressOfRun(content: string, systemPrompt: string, size: nat, complete: Completer)
    requires size > 0
    ensures var p := ProcessSpec(content, systemPrompt, size, complete).progress;
      forall j :: 0 <= j < |p| ==> 0.0 < p[j] <= 100.0
    ensures var p := ProcessSpec(content, systemPrompt, size, complete).progress;
      forall j1, j2 :: 0 <= j1 <= j2 < |p| ==> p[j1] <= p[j2]
    ensures var p := ProcessSpec(content, systemPrompt, size, complete).progress;
      forall j :: 0 <= j < |p| ==> (p[j] == 100.0 <==> j == CeilDiv(|content|, size) - 1)
  {
    var replies := RepliesTo(RequestsFor(systemPrompt, Windows(content, size)), complete);
    var n := FirstFailure(replies);
    SpecShape(content, systemPrompt, size, complete);
    WindowCount(content, size);
    ProgressAfterShape(n, size, |content|);
  }

  /** A chunk size of at most 0 never reaches a call: `range` raises its `ValueError`
      for a zero step, before the first iteration, leaving the freshly truncated result
      file empty; a negative step gives no offsets, so the run ends quietly. */
  lemma NonPositiveChunkSize(content: string, systemPrompt: string, chunkSize: int, complete: Completer)
    requires chunkSize <= 0
    ensures var run := ProcessSpec(content, systemPrompt, chunkSize, complete);
      run.requests == [] && run.written == [] && run.progress == []
    ensures ProcessSpec(content, systemPrompt, chunkSize, complete).raised ==
      (if chunkSize == 0 then Some(ValueError(RangeStepZero)) else None)
    ensures var offsets := Range(|content|, chunkSize);
      && (offsets.Failure? ==> ProcessSpec(content, systemPrompt, chunkSize, complete).raised == Some(offsets.error))
      && (offsets.Success? ==> offsets.value == [])
  {
  }

}

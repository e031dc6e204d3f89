/** The bounded, cursor-addressed output log of a background task, and a poller that pages
    through it while the task keeps writing. */
module TaskLog {

  type Byte = b: int | 0 <= b < 256

  datatype Channel = Stdout | Stderr

  /** One byte of output and where it came from. */
  datatype Logged = Logged(channel: Channel, byte: Byte)

  const MAX_LOG_READ_BYTES := 256 * 1024

  function Tagged(channel: Channel, content: seq<Byte>): (r: seq<Logged>)
    ensures |r| == |content| && forall i | 0 <= i < |r| :: r[i] == Logged(channel, content[i])
  {
    seq(|content|, i requires 0 <= i < |content| => Logged(channel, content[i]))
  }

  /** The retained part of the log, oldest first. */
  datatype Segment = Segment(channel: Channel, content: seq<Byte>, start: nat, end: nat)

  datatype LogEvent = LogEvent(channel: Channel, content: seq<Byte>, cursor: nat)

  /** Segments lie end to end, non-empty, and hold exactly history from position from on. */
  ghost predicate Holds(segments: seq<Segment>, from: nat, history: seq<Logged>)
    decreases |segments|
  {
    if segments == [] then from == |history|
    else
      var s := segments[0];
      && s.start == from < s.end <= |history|
      && |s.content| == s.end - s.start
      && Tagged(s.channel, s.content) == history[s.start..s.end]
      && Holds(segments[1..], s.end, history)
  }

  /** Events lie end to end and carry exactly history between the two positions. */
  ghost predicate Carries(events: seq<LogEvent>, from: nat, to: nat, history: seq<Logged>)
    decreases |events|
  {
    if events == [] then from == to
    else
      var e := events[0];
      && e.cursor == from && 0 < |e.content| && from + |e.content| <= to <= |history|
      && Tagged(e.channel, e.content) == history[from..from + |e.content|]
      && Carries(events[1..], from + |e.content|, to, history)
  }

  function Max(a: int, b: int): int {
    if a > b then a else b
  }

  function Min(a: int, b: int): int {
    if a < b then a else b
  }

  // ------------------------------------------------------------------ lemmas on segments

  lemma {:induction false} HoldsAfterAppending(
    segments: seq<Segment>, from: nat, history: seq<Logged>, channel: Channel, content: seq<Byte>)
    requires Holds(segments, from, history) && content != []
    ensures var all := history + Tagged(channel, content);
      Holds(segments + [Segment(channel, content, |history|, |all|)], from, all)
    decreases |segments|
  {
    var all := history + Tagged(channel, content);
    var last := Segment(channel, content, |history|, |all|);
    if segments == [] {
      assert (segments + [last])[1..] == [];
      assert all[|history|..|all|] == Tagged(channel, content);
    } else {
      var s := segments[0];
      HoldsAfterAppending(segments[1..], s.end, history, channel, content);
      assert (segments + [last])[1..] == segments[1..] + [last];
      assert all[s.start..s.end] == history[s.start..s.end];
    }
  }

  lemma HoldsAfterTrimming(segments: seq<Segment>, from: nat, history: seq<Logged>, cut: nat)
    requires Holds(segments, from, history) && segments != [] && from <= cut < segments[0].end
    ensures var s := segments[0];
      Holds([s.(content := s.content[cut - s.start..], start := cut)] + segments[1..], cut, history)
  {
    var s := segments[0];
    var t := s.(content := s.content[cut - s.start..], start := cut);
    assert ([t] + segments[1..])[1..] == segments[1..];
    assert Tagged(t.channel, t.content) == history[t.start..t.end] by {
      forall i | 0 <= i < |t.content|
        ensures Tagged(t.channel, t.content)[i] == history[t.start..t.end][i]
      {
        assert Tagged(s.channel, s.content)[cut - s.start + i] == history[s.start..s.end][cut - s.start + i];
      }
    }
  }

  lemma {:induction false} CarriesMore(
    events: seq<LogEvent>, from: nat, to: nat, history: seq<Logged>, e: LogEvent)
    requires Carries(events, from, to, history) && from <= to
    requires e.cursor == to && 0 < |e.content| && to + |e.content| <= |history|
    requires Tagged(e.channel, e.content) == history[to..to + |e.content|]
    ensures Carries(events + [e], from, to + |e.content|, history)
    decreases |events|
  {
    if events == [] {
      assert (events + [e])[1..] == [];
    } else {
      CarriesMore(events[1..], from + |events[0].content|, to, history, e);
      assert (events + [e])[1..] == events[1..] + [e];
    }
  }

  lemma SliceTagged(s: Segment, history: seq<Logged>, offset: nat, length: nat)
    requires s.end <= |history| && s.start <= s.end && |s.content| == s.end - s.start
    requires Tagged(s.channel, s.content) == history[s.start..s.end]
    requires offset + length <= |s.content|
    ensures Tagged(s.channel, s.content[offset..offset + length])
            == history[s.start + offset..s.start + offset + length]
  {
    var whole, part := Tagged(s.channel, s.content), Tagged(s.channel, s.content[offset..offset + length]);
    var from, to := s.start + offset, s.start + offset + length;
    assert part == whole[offset..offset + length];
    assert history[s.start..s.end][offset..offset + length] == history[from..to];
  }

  lemma FirstOf(segments: seq<Segment>, i: nat, from: nat, history: seq<Logged>)
    requires i < |segments| && Holds(segments[i..], from, history)
    ensures var s := segments[i];
      && s.start == from < s.end <= |history| && |s.content| == s.end - s.start
      && Tagged(s.channel, s.content) == history[s.start..s.end]
      && Holds(segments[i + 1..], s.end, history)
  {
    assert segments[i..][1..] == segments[i + 1..];
  }

  lemma CarriesNothing(at: nat, history: seq<Logged>)
    ensures Carries([], at, at, history)
  {
  }

  lemma Ends(segments: seq<Segment>, from: nat, history: seq<Logged>)
    requires segments == [] && Holds(segments, from, history)
    ensures from == |history|
  {
  }

  // ------------------------------------------------------------------ the log

  class BoundedTaskLog {
    const limit: nat
    var segments: seq<Segment>
    var baseCursor: nat
    var nextCursor: nat
    ghost var history: seq<Logged>  // everything ever appended

    ghost predicate Valid()
      reads this
    {
      && nextCursor == |history|
      && baseCursor == Max(0, |history| - limit)
      && Holds(segments, baseCursor, history)
    }

    constructor (limit: nat)
      ensures Valid() && history == [] && this.limit == limit
    {
      this.limit := limit;
      segments, baseCursor, nextCursor, history := [], 0, 0, [];
    }

    method Append(channel: Channel, content: seq<Byte>)
      requires Valid()
      modifies this
      ensures Valid() && history == old(history) + Tagged(channel, content)
    {
      if content == [] {
        return;
      }
      HoldsAfterAppending(segments, baseCursor, history, channel, content);
      var start := nextCursor;
      nextCursor := nextCursor + |content|;
      segments := segments + [Segment(channel, content, start, nextCursor)];
      history := history + Tagged(channel, content);
      Prune();
    }

    method Prune()
      requires nextCursor == |history| && Holds(segments, baseCursor, history)
      requires baseCursor <= Max(0, |history| - limit)
      modifies `segments, `baseCursor
      ensures Valid()
    {
      var minimumCursor := Max(0, nextCursor - limit);
      ghost var from: nat := baseCursor;
      while segments != [] && segments[0].end <= minimumCursor
        invariant Holds(segments, from, history) && from <= minimumCursor
        decreases |segments|
      {
        from := segments[0].end;
        segments := segments[1..];
      }
      if segments != [] && segments[0].start < minimumCursor {
        var first := segments[0];
        var offset := minimumCursor - first.start;
        HoldsAfterTrimming(segments, from, history, minimumCursor);
        segments := [first.(content := first.content[offset..], start := minimumCursor)] + segments[1..];
      }
      baseCursor := minimumCursor;
    }

    /** The page from cursor on.  A cursor below the base is moved up to it; the byte limit is
        clamped to between one byte and MAX_LOG_READ_BYTES. */
    method Read(cursor: int, limitBytes: int)
      returns (events: seq<LogEvent>, hasMore: bool, next: nat, truncated: bool)
      requires Valid()
      ensures next == PageEnd(|history|, limit, cursor, limitBytes)
      ensures Carries(events, PageStart(|history|, limit, cursor), next, history)
      ensures hasMore <==> next < |history|
      ensures truncated <==> Max(0, cursor) < |history| - limit
    {
      hide Holds, Carries, Tagged;
      var requested := Max(0, cursor);
      var position: nat := Max(baseCursor, requested);
      ghost var start := position;
      var remaining: nat := Max(1, Min(limitBytes, MAX_LOG_READ_BYTES));
      ghost var budget := remaining;
      events := [];
      CarriesNothing(position, history);
      ghost var from: nat := baseCursor;
      assert segments[0..] == segments;
      for i := 0 to |segments|
        invariant Holds(segments[i..], from, history)
        invariant start <= position && position - start + remaining == budget
        invariant Carries(events, start, position, history)
        invariant start > |history| ==> position == start
        invariant remaining > 0 ==> position == Max(start, from)
        invariant position <= Max(start, from) && from <= |history|
      {
        var segment := segments[i];
        FirstOf(segments, i, from, history);
        from := segment.end;
        if segment.end <= position || remaining <= 0 {
          continue;
        }
        var offset: nat := Max(0, position - segment.start);
        var length := Min(|segment.content| - offset, remaining);
        if length <= 0 {
          continue;
        }
        var e := LogEvent(segment.channel, segment.content[offset..offset + length], segment.start + offset);
        SliceTagged(segment, history, offset, length);
        CarriesMore(events, start, position, history, e);
        events := events + [e];
        position := segment.start + offset + length;
        remaining := remaining - length;
      }
      Ends(segments[|segments|..], from, history);
      return events, position < nextCursor, position, requested < baseCursor;
    }
  }

  // ------------------------------------------------------------------ pages, as positions

  /** Where a page asked for at cursor begins and ends, for a history of total bytes. */
  function PageStart(total: nat, limit: nat, cursor: int): nat {
    Max(Max(0, total - limit), Max(0, cursor))
  }

  function PageEnd(total: nat, limit: nat, cursor: int, limitBytes: int): nat {
    var start := PageStart(total, limit, cursor);
    if start > total then start else Min(total, start + Max(1, Min(limitBytes, MAX_LOG_READ_BYTES)))
  }

  /** Where a page begins and ends, in numbers: it begins at the latest of zero, the cursor and the
      oldest byte kept, and has the bytes asked for, at least one and at most 256 KiB, or all there
      are. */
  lemma PageExactly(total: nat, limit: nat, cursor: int, limitBytes: int)
    ensures
      var start := PageStart(total, limit, cursor);
      && start >= cursor && start >= total - limit
      && (start == 0 || start == cursor || start == total - limit)
    ensures
      var start, next := PageStart(total, limit, cursor), PageEnd(total, limit, cursor, limitBytes);
      var asked := if limitBytes < 1 then 1 else if limitBytes > 262144 then 262144 else limitBytes;
      if start > total then next == start
      else start <= next <= total && next - start <= asked && (next == total || next - start == asked)
  {
  }

  // ------------------------------------------------------------------ what is retained

  function Retained(segments: seq<Segment>): seq<Logged> {
    if segments == [] then []
    else Tagged(segments[0].channel, segments[0].content) + Retained(segments[1..])
  }

  /** The segments are exactly the history from their base on; with the base that Valid gives,
      its last min(limit, total) bytes. */
  lemma {:induction false} RetainedIsTheTail(segments: seq<Segment>, from: nat, history: seq<Logged>)
    requires Holds(segments, from, history)
    ensures from <= |history| && Retained(segments) == history[from..]
    decreases |segments|
  {
    if segments != [] {
      var end := segments[0].end;
      RetainedIsTheTail(segments[1..], end, history);
      assert history[from..] == history[from..end] + history[end..];
    }
  }

  // ------------------------------------------------------------------ polling

  /** One answer to a poller: what it carries, and how long the history then was. */
  datatype Page = Page(total: nat, start: nat, next: nat, events: seq<LogEvent>, hasMore: bool, truncated: bool)

  /** The cursor the poller sends next. */
  function Cursor(pages: seq<Page>): nat {
    if pages == [] then 0 else pages[|pages| - 1].next
  }

  ghost predicate Answers(limit: nat, cursor: nat, p: Page, history: seq<Logged>) {
    && cursor <= p.start <= p.next <= p.total <= |history|
    && (p.start == cursor || p.start == p.total - limit)
    && Carries(p.events, p.start, p.next, history)
    && (p.truncated <==> cursor < p.start)
    && (p.hasMore <==> p.next < p.total)
    && (cursor < p.total ==> cursor < p.next)
  }

  /** Each page answers the cursor of the one before it. */
  ghost predicate Followed(limit: nat, pages: seq<Page>, history: seq<Logged>) {
    pages == [] ||
    var before := pages[..|pages| - 1];
    Followed(limit, before, history) && Answers(limit, Cursor(before), pages[|pages| - 1], history)
  }

  function Bytes(events: seq<LogEvent>): seq<Logged> {
    if events == [] then [] else Tagged(events[0].channel, events[0].content) + Bytes(events[1..])
  }

  function Delivered(pages: seq<Page>): seq<Logged> {
    if pages == [] then [] else Delivered(pages[..|pages| - 1]) + Bytes(pages[|pages| - 1].events)
  }

  /** Position i lies in the gap in front of page k. */
  predicate Skips(pages: seq<Page>, k: nat, i: nat)
    requires k < |pages|
  {
    Cursor(pages[..k]) <= i < pages[k].start
  }

  predicate Missed(pages: seq<Page>, i: nat) {
    exists k | 0 <= k < |pages| :: Skips(pages, k, i)
  }

  /** The first n bytes of history without those the pages missed. */
  function Without(history: seq<Logged>, n: nat, pages: seq<Page>): seq<Logged>
    requires n <= |history|
  {
    if n == 0 then [] else Without(history, n - 1, pages) + if Missed(pages, n - 1) then [] else [history[n - 1]]
  }

  lemma {:induction false} BytesCarried(events: seq<LogEvent>, from: nat, to: nat, history: seq<Logged>)
    requires Carries(events, from, to, history) && from <= to <= |history|
    ensures Bytes(events) == history[from..to]
    decreases |events|
  {
    if events != [] {
      var middle := from + |events[0].content|;
      BytesCarried(events[1..], middle, to, history);
      assert history[from..to] == history[from..middle] + history[middle..to];
    }
  }

  lemma {:induction false} WithoutGap(history: seq<Logged>, from: nat, to: nat, pages: seq<Page>)
    requires from <= to <= |history| && forall i: nat | from <= i < to :: Missed(pages, i)
    ensures Without(history, to, pages) == Without(history, from, pages)
  {
    if from < to {
      WithoutGap(history, from, to - 1, pages);
      assert Missed(pages, to - 1);
    }
  }

  lemma {:induction false} WithoutNothing(history: seq<Logged>, from: nat, to: nat, pages: seq<Page>)
    requires from <= to <= |history| && forall i: nat | from <= i < to :: !Missed(pages, i)
    ensures Without(history, to, pages) == Without(history, from, pages) + history[from..to]
  {
    if from < to {
      WithoutNothing(history, from, to - 1, pages);
      assert !Missed(pages, to - 1);
      assert history[from..to] == history[from..to - 1] + [history[to - 1]];
    }
  }

  lemma {:induction false} WithoutAgree(history: seq<Logged>, n: nat, pages: seq<Page>, more: seq<Page>)
    requires n <= |history| && forall i: nat | i < n :: Missed(pages, i) <==> Missed(more, i)
    ensures Without(history, n, pages) == Without(history, n, more)
  {
    if n > 0 {
      WithoutAgree(history, n - 1, pages, more);
      assert Missed(pages, n - 1) <==> Missed(more, n - 1);
    }
  }

  lemma {:induction false} CarriesInLonger(
    events: seq<LogEvent>, from: nat, to: nat, history: seq<Logged>, longer: seq<Logged>)
    requires Carries(events, from, to, history) && history <= longer
    ensures Carries(events, from, to, longer)
    decreases |events|
  {
    if events != [] {
      CarriesInLonger(events[1..], from + |events[0].content|, to, history, longer);
    }
  }

  lemma {:induction false} FollowedInLonger(limit: nat, pages: seq<Page>, history: seq<Logged>, longer: seq<Logged>)
    requires Followed(limit, pages, history) && history <= longer
    ensures Followed(limit, pages, longer)
    decreases |pages|
  {
    if pages != [] {
      var last := pages[|pages| - 1];
      FollowedInLonger(limit, pages[..|pages| - 1], history, longer);
      CarriesInLonger(last.events, last.start, last.next, history, longer);
    }
  }

  lemma {:induction false} EveryPageAnswers(limit: nat, pages: seq<Page>, history: seq<Logged>, k: nat)
    requires Followed(limit, pages, history) && k < |pages|
    ensures Answers(limit, Cursor(pages[..k]), pages[k], history)
    ensures pages[k].next <= Cursor(pages) <= |history|
    decreases |pages|
  {
    if k < |pages| - 1 {
      var before := pages[..|pages| - 1];
      EveryPageAnswers(limit, before, history, k);
      assert before[..k] == pages[..k] && before[k] == pages[k];
    }
  }

  /** One more page adds the gap in front of it and nothing else. */
  lemma MissedWithLast(limit: nat, pages: seq<Page>, history: seq<Logged>, i: nat)
    requires Followed(limit, pages, history) && pages != []
    ensures var before := pages[..|pages| - 1];
      Missed(pages, i) <==> Missed(before, i) || Cursor(before) <= i < pages[|pages| - 1].start
    ensures Missed(pages, i) ==> i < pages[|pages| - 1].start
  {
    var before, last := pages[..|pages| - 1], |pages| - 1;
    forall k | 0 <= k < last
      ensures Skips(pages, k, i) <==> Skips(before, k, i)
      ensures Skips(pages, k, i) ==> i < Cursor(before)
    {
      assert before[..k] == pages[..k];
      EveryPageAnswers(limit, before, history, k);
    }
    assert Skips(pages, last, i) <==> Cursor(before) <= i < pages[last].start;
  }

  /** Lossless paging: what a poller has received is the history up to its cursor without the
      positions in front of pages. */
  lemma {:induction false} PagesLoseNothingElse(limit: nat, pages: seq<Page>, history: seq<Logged>)
    requires Followed(limit, pages, history)
    ensures Cursor(pages) <= |history|
    ensures Delivered(pages) == Without(history, Cursor(pages), pages)
    decreases |pages|
  {
    if pages != [] {
      var before, last := pages[..|pages| - 1], pages[|pages| - 1];
      PagesLoseNothingElse(limit, before, history);
      BytesCarried(last.events, last.start, last.next, history);
      forall i: nat
        ensures Missed(pages, i) <==> Missed(before, i) || Cursor(before) <= i < last.start
        ensures Missed(pages, i) ==> i < last.start
        ensures Missed(before, i) ==> i < Cursor(before)
      {
        MissedWithLast(limit, pages, history, i);
        if before != [] {
          MissedWithLast(limit, before, history, i);
          EveryPageAnswers(limit, before, history, |before| - 1);
        }
      }
      hide Missed, Carries, Bytes, Followed;
      WithoutAgree(history, Cursor(before), before, pages);
      WithoutGap(history, Cursor(before), last.start, pages);
      WithoutNothing(history, last.start, last.next, pages);
    }
  }

  /** A page is flagged truncated exactly when positions in front of it were missed, and those
      had left the log before the page was read. */
  lemma GapsAreFlaggedAndForced(limit: nat, pages: seq<Page>, history: seq<Logged>, k: nat)
    requires Followed(limit, pages, history) && k < |pages|
    ensures pages[k].truncated <==> exists i: nat :: Skips(pages, k, i)
    ensures forall i: nat | Skips(pages, k, i) :: i < pages[k].total - limit
  {
    EveryPageAnswers(limit, pages, history, k);
    if pages[k].truncated {
      assert Skips(pages, k, Cursor(pages[..k]));
    }
  }

  // ------------------------------------------------------------------ progress

  /** Where the poller is after reads of the given sizes with nothing appended in between. */
  function After(total: nat, limit: nat, cursor: nat, sizes: seq<int>): nat {
    if sizes == [] then cursor
    else PageEnd(total, limit, After(total, limit, cursor, sizes[..|sizes| - 1]), sizes[|sizes| - 1])
  }

  /** Paging without appends ends: every read moves on, so one per byte is always enough. */
  lemma {:induction false} PagingEnds(total: nat, limit: nat, cursor: nat, sizes: seq<int>)
    requires cursor <= total
    ensures cursor <= After(total, limit, cursor, sizes) <= total
    ensures After(total, limit, cursor, sizes) == total || After(total, limit, cursor, sizes) >= cursor + |sizes|
    decreases |sizes|
  {
    if sizes != [] {
      PagingEnds(total, limit, cursor, sizes[..|sizes| - 1]);
    }
  }

  // ------------------------------------------------------------------ a poller and a task

  datatype Move = Write(channel: Channel, content: seq<Byte>) | Poll(limitBytes: int)

  /** Any interleaving of writes and polls, each poll feeding back the cursor it was last given. */
  method AnyPolling(log: BoundedTaskLog, moves: seq<Move>) returns (pages: seq<Page>)
    requires log.Valid() && log.history == []
    modifies log
    ensures log.Valid() && Followed(log.limit, pages, log.history)
    ensures Delivered(pages) == Without(log.history, Cursor(pages), pages)
  {
    pages := [];
    var cursor := 0;
    for m := 0 to |moves|
      invariant log.Valid() && Followed(log.limit, pages, log.history)
      invariant cursor == Cursor(pages) <= |log.history|
    {
      ghost var history := log.history;
      match moves[m] {
        case Write(channel, content) =>
          log.Append(channel, content);
          FollowedInLonger(log.limit, pages, history, log.history);
        case Poll(limitBytes) =>
          var events, hasMore, next, truncated := log.Read(cursor, limitBytes);
          var page := Page(log.nextCursor, Max(log.baseCursor, cursor), next, events, hasMore, truncated);
          assert (pages + [page])[..|pages|] == pages;
          pages, cursor := pages + [page], next;
      }
    }
    PagesLoseNothingElse(log.limit, pages, log.history);
  }
}

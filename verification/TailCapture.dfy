/** The two bounded captures of command output: byte-exact over SSH, whole chunks locally. */
module TailCapture {

  type Byte = b: int | 0 <= b < 256

  function Concat(chunks: seq<seq<Byte>>): seq<Byte> {
    if chunks == [] then [] else Concat(chunks[..|chunks| - 1]) + chunks[|chunks| - 1]
  }

  /** The last bytes of all, at most limit of them. */
  function Tail(all: seq<Byte>, limit: nat): seq<Byte> {
    if |all| <= limit then all else all[|all| - limit..]
  }

  predicate IsSuffix(suffix: seq<Byte>, all: seq<Byte>) {
    |suffix| <= |all| && all[|all| - |suffix|..] == suffix
  }

  lemma ConcatOneMore(chunks: seq<seq<Byte>>, chunk: seq<Byte>)
    ensures Concat(chunks + [chunk]) == Concat(chunks) + chunk
  {
    assert (chunks + [chunk])[..|chunks|] == chunks;
  }

  /** Dropping chunks in front drops their bytes in front. */
  lemma {:induction false} ConcatSplits(chunks: seq<seq<Byte>>, k: nat)
    requires k <= |chunks|
    ensures Concat(chunks) == Concat(chunks[..k]) + Concat(chunks[k..])
  {
    if k == |chunks| {
      assert chunks[..k] == chunks;
    } else {
      var last := |chunks| - 1;
      ConcatSplits(chunks[..last], k);
      assert chunks[..last][..k] == chunks[..k];
      assert chunks[k..][..last - k] == chunks[..last][k..];
    }
  }

  predicate SomeReaches(chunks: seq<seq<Byte>>, limit: nat) {
    exists c | c in chunks :: |c| >= limit
  }

  lemma SomeReachesOneMore(chunks: seq<seq<Byte>>, chunk: seq<Byte>, limit: nat)
    ensures SomeReaches(chunks + [chunk], limit) <==> SomeReaches(chunks, limit) || |chunk| >= limit
  {
    assert forall c :: c in chunks + [chunk] <==> c in chunks || c == chunk;
  }

  lemma TailOneMore(all: seq<Byte>, chunk: seq<Byte>, limit: nat)
    ensures |Tail(all, limit)| == if |all| <= limit then |all| else limit
    ensures |chunk| >= limit ==> Tail(all + chunk, limit) == chunk[|chunk| - limit..]
    ensures |chunk| < limit ==>
              var kept := Tail(all, limit);
              var overflow := if |kept| + |chunk| > limit then |kept| + |chunk| - limit else 0;
              Tail(all + chunk, limit) == kept[overflow..] + chunk
  {
  }

  /** core/ssh-executor. */
  class ByteTail {
    const limit: nat
    var buffer: seq<Byte>
    var truncated: bool
    ghost var chunks: seq<seq<Byte>>  // everything appended so far

    /** The flag is set once bytes were lost, and besides only by a chunk that alone reaches the limit. */
    ghost predicate Valid()
      reads this
    {
      && buffer == Tail(Concat(chunks), limit)
      && (truncated <==> |Concat(chunks)| > limit || SomeReaches(chunks, limit))
    }

    constructor (limit: nat)
      ensures Valid() && chunks == [] && this.limit == limit
    {
      this.limit, buffer, truncated, chunks := limit, [], false, [];
    }

    method Append(chunk: seq<Byte>)
      requires Valid()
      modifies this
      ensures Valid() && chunks == old(chunks) + [chunk]
    {
      ConcatOneMore(chunks, chunk);
      SomeReachesOneMore(chunks, chunk, limit);
      TailOneMore(Concat(chunks), chunk, limit);
      hide Concat, Tail, SomeReaches;
      chunks := chunks + [chunk];
      if |chunk| >= limit {
        buffer := chunk[|chunk| - limit..];
        truncated := true;
        return;
      }
      if |buffer| + |chunk| > limit {
        var overflow := |buffer| + |chunk| - limit;
        buffer := buffer[overflow..] + chunk;
        truncated := true;
        return;
      }
      buffer := buffer + chunk;
    }
  }

  /** What is left after dropping from chunks is the longest run at the end that fits. */
  ghost predicate LongestRun(all: seq<seq<Byte>>, from: nat, limit: nat) {
    && OverWithOneMore(all, from, limit)
    && |Concat(all[from..])| <= limit
  }

  ghost predicate OverWithOneMore(all: seq<seq<Byte>>, from: nat, limit: nat) {
    from <= |all| && (from > 0 ==> |Concat(all[from - 1..])| > limit)
  }

  lemma StaysOver(all: seq<seq<Byte>>, from: nat, limit: nat, chunk: seq<Byte>)
    requires OverWithOneMore(all, from, limit)
    ensures OverWithOneMore(all + [chunk], from, limit)
    ensures (all + [chunk])[from..] == all[from..] + [chunk]
    ensures |Concat(all[from..] + [chunk])| == |Concat(all[from..])| + |chunk|
  {
    ConcatOneMore(all[from..], chunk);
    if from > 0 {
      ConcatOneMore(all[from - 1..], chunk);
      assert all[from - 1..] + [chunk] == (all + [chunk])[from - 1..];
    }
  }

  lemma DropsOne(all: seq<seq<Byte>>, from: nat, limit: nat)
    requires from < |all| && |Concat(all[from..])| > limit
    ensures OverWithOneMore(all, from + 1, limit) && all[from..][1..] == all[from + 1..]
    ensures |Concat(all[from..])| == |all[from]| + |Concat(all[from + 1..])|
  {
    ConcatSplits(all[from..], 1);
    ConcatOneMore([], all[from]);
    assert all[from..][..1] == [] + [all[from]] && all[from..][1..] == all[from + 1..];
  }

  lemma NothingFits(chunks: seq<seq<Byte>>)
    ensures chunks == [] ==> |Concat(chunks)| == 0
  {
  }

  /** core/local-process-executor. */
  class ChunkTail {
    const limit: nat
    var chunks: seq<seq<Byte>>
    var size: nat
    var truncated: bool
    ghost var all: seq<seq<Byte>>  // everything appended so far
    ghost var from: nat            // how many of them have gone

    ghost predicate Valid()
      reads this
    {
      && LongestRun(all, from, limit) && chunks == all[from..] && size == |Concat(chunks)|
      && (truncated <==> from > 0)
    }

    constructor (limit: nat)
      ensures Valid() && all == [] && this.limit == limit
    {
      this.limit, chunks, size, truncated, all, from := limit, [], 0, false, [], 0;
    }

    method Append(chunk: seq<Byte>)
      requires Valid()
      modifies this
      ensures Valid() && all == old(all) + [chunk]
    {
      StaysOver(all, from, limit, chunk);
      hide Concat, OverWithOneMore;
      all := all + [chunk];
      chunks := chunks + [chunk];
      size := size + |chunk|;
      while size > limit && |chunks| > 0
        invariant all == old(all) + [chunk]
        invariant from <= |all| && OverWithOneMore(all, from, limit)
        invariant chunks == all[from..] && size == |Concat(chunks)|
        invariant truncated <==> from > 0
        decreases |chunks|
      {
        var removed := chunks[0];
        DropsOne(all, from, limit);
        chunks := chunks[1..];
        from := from + 1;
        size := size - |removed|;
        truncated := true;
      }
      NothingFits(chunks);
    }
  }

  /** The longest run that fits: every longer one would not have, and one is dropped exactly if
      the whole output does not fit. */
  lemma LongestRunIsLongest(all: seq<seq<Byte>>, from: nat, limit: nat, k: nat)
    requires LongestRun(all, from, limit) && k <= |all|
    ensures |Concat(all[k..])| <= limit <==> from <= k
    ensures from > 0 <==> |Concat(all)| > limit
  {
    if k < from {
      ConcatSplits(all[k..], from - 1 - k);
      assert all[k..][from - 1 - k..] == all[from - 1..];
    } else {
      ConcatSplits(all[from..], k - from);
      assert all[from..][k - from..] == all[k..];
    }
    if from > 0 {
      ConcatSplits(all, from - 1);
    }
    assert all[0..] == all;
  }

  /** Both captures of the same output: the local one is always a tail of the other. */
  method CaptureBoth(output: seq<seq<Byte>>, limit: nat) returns (exact: ByteTail, whole: ChunkTail)
    ensures exact.Valid() && whole.Valid() && exact.chunks == output && whole.all == output
    ensures exact.buffer == Tail(Concat(output), limit)
    ensures IsSuffix(Concat(whole.chunks), exact.buffer)
    ensures whole.truncated <==> |Concat(output)| > limit
    ensures whole.truncated ==> exact.truncated
  {
    hide Concat, Tail, LongestRun;
    exact := new ByteTail(limit);
    whole := new ChunkTail(limit);
    for i := 0 to |output|
      invariant fresh(exact) && fresh(whole)
      invariant exact.limit == limit && exact.Valid() && exact.chunks == output[..i]
      invariant whole.limit == limit && whole.Valid() && whole.all == output[..i]
    {
      exact.Append(output[i]);
      whole.Append(output[i]);
      assert output[..i + 1] == output[..i] + [output[i]];
    }
    assert output[..|output|] == output;
    FittingRunIsTail(output, whole.from, limit);
    LongestRunIsLongest(output, whole.from, limit, 0);
  }

  lemma FittingRunIsTail(chunks: seq<seq<Byte>>, k: nat, limit: nat)
    requires LongestRun(chunks, k, limit)
    ensures k <= |chunks| && IsSuffix(Concat(chunks[k..]), Tail(Concat(chunks), limit))
  {
    ConcatSplits(chunks, k);
  }

  /** The byte-exact flag errs in one case only: nothing lost, and exactly limit bytes seen. */
  lemma {:induction false} FlagErrsOnlyAtTheLimit(chunks: seq<seq<Byte>>, limit: nat)
    requires SomeReaches(chunks, limit)
    ensures |Concat(chunks)| >= limit
  {
    var last := |chunks| - 1;
    if |chunks[last]| < limit {
      assert chunks == chunks[..last] + [chunks[last]];
      SomeReachesOneMore(chunks[..last], chunks[last], limit);
      FlagErrsOnlyAtTheLimit(chunks[..last], limit);
    }
  }

  /** Tail is the suffix of that length: everything if it fits, else exactly limit bytes. */
  lemma TailIsLast(all: seq<Byte>, limit: nat)
    ensures IsSuffix(Tail(all, limit), all)
    ensures |Tail(all, limit)| == if |all| < limit then |all| else limit
  {
  }

  /** Concat is the chunks end to end. */
  lemma ConcatIsEndToEnd(chunks: seq<seq<Byte>>, k: nat)
    requires k < |chunks|
    ensures
      var from, to := |Concat(chunks[..k])|, |Concat(chunks[..k + 1])|;
      to - from == |chunks[k]| && to <= |Concat(chunks)| && Concat(chunks)[from..to] == chunks[k]
  {
    ConcatSplits(chunks, k);
    ConcatSplits(chunks, k + 1);
    ConcatOneMore(chunks[..k], chunks[k]);
    assert chunks[..k + 1] == chunks[..k] + [chunks[k]];
  }
}

/**
 * The frame assembler of the session's read handler: bytes accumulate in
 * a buffer, and every prefix that ends at the first terminator is cut off
 * as one frame, until no terminator is left. Generic in the element type,
 * so it applies to either meter's terminator.
 */
module Framing {
  import opened Sequences

  /** A complete frame: it ends with the terminator and holds no earlier one. */
  ghost predicate IsFrame<T>(f: seq<T>, t: T) {
    |f| >= 1 && f[|f| - 1] == t && t !in f[..|f| - 1]
  }

  /**
   * What a buffer keeps after all complete frames are cut off: the part
   * after the last terminator, or everything when there is no terminator.
   * It is a terminator-free suffix that is either all of `s` or follows a
   * terminator.
   */
  function AfterLast<T(==)>(s: seq<T>, t: T): (r: seq<T>)
    ensures t !in r
    ensures |r| <= |s| && r == s[|s| - |r|..]
    ensures |r| < |s| ==> s[|s| - |r| - 1] == t
  {
    s[LastIndexOf(s, t) + 1..]
  }

  /** The three properties of AfterLast determine it. */
  lemma AfterLastUnique<T>(s: seq<T>, t: T, r: seq<T>)
    requires t !in r && |r| <= |s| && r == s[|s| - |r|..]
    requires |r| < |s| ==> s[|s| - |r| - 1] == t
    ensures AfterLast(s, t) == r
  {
    if |r| < |s| {
      LastIndexOfAt(s, t, |s| - |r| - 1);
    } else {
      assert r == s;
    }
  }

  /** Cutting off everything up to a terminator does not change what remains at the end. */
  lemma AfterLastStep<T>(s: seq<T>, t: T, k: nat)
    requires k < |s| && s[k] == t
    ensures AfterLast(s, t) == AfterLast(s[k + 1..], t)
  {
    var r := AfterLast(s[k + 1..], t);
    SuffixStep(s, t, k, r);
    AfterLastUnique(s, t, r);
  }

  /** A terminator-free suffix of `s[k + 1..]` that follows a terminator there, or is all of it, is one of `s`. */
  lemma SuffixStep<T>(s: seq<T>, t: T, k: nat, r: seq<T>)
    requires k < |s| && s[k] == t
    requires t !in r && |r| <= |s| - k - 1 && r == s[k + 1..][|s| - k - 1 - |r|..]
    requires |r| < |s| - k - 1 ==> s[k + 1..][|s| - k - 1 - |r| - 1] == t
    ensures t !in r && |r| <= |s| && r == s[|s| - |r|..]
    ensures |r| < |s| ==> s[|s| - |r| - 1] == t
  {
    TailOfTail(s, k + 1, |r|);
  }

  /** A suffix of a suffix of `s` is a suffix of `s`, and so is the element just before it. */
  lemma TailOfTail<T>(s: seq<T>, j: nat, m: nat)
    requires j <= |s| && m <= |s| - j
    ensures s[j..][|s| - j - m..] == s[|s| - m..]
    ensures m < |s| - j ==> s[j..][|s| - j - m - 1] == s[|s| - m - 1]
  {
  }

  /** The frames the read loop cuts from `s`, in order: each prefix ending at the first terminator. */
  function Frames<T(==)>(s: seq<T>, t: T): seq<seq<T>>
    decreases |s|, 1
  {
    FramesFrom(s, t, IndexOf(s, t))
  }

  /** The frames of `s` when its first terminator is at `k` (-1 for none). */
  function FramesFrom<T(==)>(s: seq<T>, t: T, k: int): seq<seq<T>>
    requires k == -1 || 0 <= k < |s|
    decreases |s|, 0
  {
    if k == -1 then [] else [s[..k + 1]] + Frames(s[k + 1..], t)
  }

  /** One unfolding of Frames at the first terminator. */
  lemma FramesCons<T>(s: seq<T>, t: T, k: int)
    requires k == IndexOf(s, t) && k != -1
    ensures Frames(s, t) == [s[..k + 1]] + Frames(s[k + 1..], t)
  {
    FramesUnfold(s, t);
    FramesFromUnfold(s, t, k);
  }

  /** Frames looks for the first terminator and goes on from there. */
  lemma FramesUnfold<T>(s: seq<T>, t: T)
    ensures Frames(s, t) == FramesFrom(s, t, IndexOf(s, t))
  {
  }

  /** With a first terminator at `k`, the first frame runs up to it and the rest come from what follows. */
  lemma FramesFromUnfold<T>(s: seq<T>, t: T, k: nat)
    requires k < |s|
    ensures FramesFrom(s, t, k) == [s[..k + 1]] + Frames(s[k + 1..], t)
  {
  }

  /** Every frame cut is complete: it ends with the terminator and holds no earlier one. */
  lemma {:induction false} FramesComplete<T>(s: seq<T>, t: T)
    ensures forall f :: f in Frames(s, t) ==> IsFrame(f, t)
    decreases |s|
  {
    var k := IndexOf(s, t);
    if k != -1 {
      FramesCons(s, t, k);
      FramesComplete(s[k + 1..], t);
      FirstFrame(s, t, k);
    }
  }

  /** Framing loses nothing: the frames, then what remains, give back `s` exactly. */
  lemma {:induction false} FramesLossless<T>(s: seq<T>, t: T)
    ensures Concat(Frames(s, t)) + AfterLast(s, t) == s
    decreases |s|
  {
    var k := IndexOf(s, t);
    if k == -1 {
      NoTerminatorNoFrame(s, t);
    } else {
      FramesLossless(s[k + 1..], t);
      LosslessStep(s, t, k);
    }
  }

  /** Losslessness carries over from the rest of `s` to `s` through its first frame. */
  lemma LosslessStep<T>(s: seq<T>, t: T, k: int)
    requires k == IndexOf(s, t) && k != -1
    requires Concat(Frames(s[k + 1..], t)) + AfterLast(s[k + 1..], t) == s[k + 1..]
    ensures Concat(Frames(s, t)) + AfterLast(s, t) == s
  {
    FramesCons(s, t, k);
    AfterLastStep(s, t, k);
    PrefixThenRest(s, k + 1, Frames(s, t), Frames(s[k + 1..], t), AfterLast(s[k + 1..], t));
  }

  /** A first piece cut from `s`, then pieces and a remainder that give back the rest of `s`. */
  lemma PrefixThenRest<T>(s: seq<T>, j: nat, fs: seq<seq<T>>, rest: seq<seq<T>>, r: seq<T>)
    requires j <= |s| && fs == [s[..j]] + rest && Concat(rest) + r == s[j..]
    ensures Concat(fs) + r == s
  {
    ConcatCons(s[..j], rest);
    assert s[..j] + (Concat(rest) + r) == s;
  }

  lemma FirstFrame<T>(s: seq<T>, t: T, k: nat)
    requires k < |s| && s[k] == t && t !in s[..k]
    ensures IsFrame(s[..k + 1], t)
  {
    assert s[..k + 1][..k] == s[..k];
  }

  /** A buffer holding no terminator yields no frame and keeps everything. */
  lemma NoTerminatorNoFrame<T>(s: seq<T>, t: T)
    requires t !in s
    ensures Frames(s, t) == [] && AfterLast(s, t) == s
  {
  }

  /** Every terminator in `s` closes exactly one frame, and nothing else does. */
  lemma {:induction false} FrameCount<T>(s: seq<T>, t: T)
    ensures |Frames(s, t)| == multiset(s)[t]
    decreases |s|
  {
    var k := IndexOf(s, t);
    if k == -1 {
      assert multiset(s)[t] == 0;
    } else {
      FrameCount(s[k + 1..], t);
      CountStep(s, t, k);
    }
  }

  /** The count carries over from the rest of `s` to `s` through its first frame. */
  lemma CountStep<T>(s: seq<T>, t: T, k: int)
    requires k == IndexOf(s, t) && k != -1
    requires |Frames(s[k + 1..], t)| == multiset(s[k + 1..])[t]
    ensures |Frames(s, t)| == multiset(s)[t]
  {
    FramesCons(s, t, k);
    CountAround(s, t, k);
  }

  lemma CountAround<T>(s: seq<T>, t: T, k: nat)
    requires k < |s| && s[k] == t && t !in s[..k]
    ensures multiset(s)[t] == multiset(s[k + 1..])[t] + 1
  {
    assert s == s[..k] + [t] + s[k + 1..];
    assert multiset(s) == multiset(s[..k]) + multiset([t]) + multiset(s[k + 1..]);
    assert multiset(s[..k])[t] == 0;
  }

  /**
   * Reading `a` and then `b` cuts the frames of `a` and then the frames
   * of what `a` left behind followed by `b`; the bytes left at the end
   * are those one read of `a + b` leaves.
   */
  lemma {:induction false} FramesAppend<T>(a: seq<T>, b: seq<T>, t: T)
    ensures Frames(a + b, t) == Frames(a, t) + Frames(AfterLast(a, t) + b, t)
    ensures AfterLast(a + b, t) == AfterLast(AfterLast(a, t) + b, t)
    decreases |a|
  {
    var k := IndexOf(a, t);
    if k == -1 {
      NoTerminatorNoFrame(a, t);
      assert Frames(a, t) + Frames(AfterLast(a, t) + b, t) == Frames(a + b, t);
    } else {
      var s := a + b;
      var frame, tail := a[..k + 1], a[k + 1..];
      FirstTerminatorOfAppend(a, b, t, k);
      FramesCons(s, t, k);
      FramesCons(a, t, k);
      FramesAppend(tail, b, t);
      AfterLastStep(a, t, k);
      AfterLastStep(s, t, k);
      Associate([frame], Frames(tail, t), Frames(AfterLast(tail, t) + b, t));
    }
  }

  lemma FirstTerminatorOfAppend<T>(a: seq<T>, b: seq<T>, t: T, k: int)
    requires k == IndexOf(a, t) && k != -1
    ensures IndexOf(a + b, t) == k && (a + b)[..k + 1] == a[..k + 1] && (a + b)[k + 1..] == a[k + 1..] + b
  {
    assert (a + b)[..k] == a[..k];
    IndexOfAt(a + b, t, k);
  }

  /** The frames cut by successive reads of `chunks`, starting from `buffer`. */
  function FeedFrames<T(==)>(buffer: seq<T>, chunks: seq<seq<T>>, t: T): seq<seq<T>>
    decreases |chunks|
  {
    if chunks == [] then []
    else Frames(buffer + chunks[0], t) + FeedFrames(AfterLast(buffer + chunks[0], t), chunks[1..], t)
  }

  /** The buffer left after successive reads of `chunks`, starting from `buffer`. */
  function FeedRemainder<T(==)>(buffer: seq<T>, chunks: seq<seq<T>>, t: T): seq<T>
    decreases |chunks|
  {
    if chunks == [] then buffer
    else FeedRemainder(AfterLast(buffer + chunks[0], t), chunks[1..], t)
  }

  /**
   * Chunk-boundary independence: however the same bytes are split into
   * reads, the frames cut and the bytes left are those of a single read.
   */
  lemma {:induction false} ChunkingIndependent<T>(buffer: seq<T>, chunks: seq<seq<T>>, t: T)
    requires t !in buffer
    ensures FeedFrames(buffer, chunks, t) == Frames(buffer + Concat(chunks), t)
    ensures FeedRemainder(buffer, chunks, t) == AfterLast(buffer + Concat(chunks), t)
    decreases |chunks|
  {
    if chunks == [] {
      assert buffer + Concat(chunks) == buffer;
      NoTerminatorNoFrame(buffer, t);
    } else {
      var c, more := chunks[0], chunks[1..];
      var left := AfterLast(buffer + c, t);
      ChunkingIndependent(left, more, t);
      FramesAppend(buffer + c, Concat(more), t);
      BufferThenChunks(buffer, chunks);
    }
  }

  lemma BufferThenChunks<T>(buffer: seq<T>, chunks: seq<seq<T>>)
    requires chunks != []
    ensures buffer + Concat(chunks) == (buffer + chunks[0]) + Concat(chunks[1..])
  {
  }
}

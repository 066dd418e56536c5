/** What `async_read_until` does to a byte stream: it cuts the stream after each delimiter,
    however the bytes arrive. */
module Segments {
  /** The complete segments of a stream, each ending in its delimiter, and the incomplete rest. */
  datatype Pieces = Pieces(segments: seq<string>, rest: string)

  /** The first position of `c`, or the length of `s`. */
  function IndexOf(s: string, c: char): (i: nat)
    ensures i <= |s|
    ensures i < |s| ==> s[i] == c
    ensures forall j :: 0 <= j < i ==> s[j] != c
  {
    if s == [] || s[0] == c then 0 else 1 + IndexOf(s[1..], c)
  }

  function Split(s: string, stop: char): Pieces
    decreases |s|
  {
    var i := IndexOf(s, stop);
    if i == |s| then Pieces([], s)
    else
      var tail := Split(s[i + 1..], stop);
      Pieces([s[..i + 1]] + tail.segments, tail.rest)
  }

  lemma IndexOfIsFirst(s: string, c: char, i: nat)
    requires i <= |s| && (i < |s| ==> s[i] == c)
    requires forall j :: 0 <= j < i ==> s[j] != c
    ensures IndexOf(s, c) == i
  {
  }

  function Join(segments: seq<string>, q: Pieces): Pieces {
    Pieces(segments + q.segments, q.rest)
  }

  lemma JoinNone(q: Pieces)
    ensures Join([], q) == q
  {
    assert [] + q.segments == q.segments;
  }

  lemma JoinJoin(a: seq<string>, b: seq<string>, q: Pieces)
    ensures Join(a, Join(b, q)) == Join(a + b, q)
  {
    assert a + (b + q.segments) == (a + b) + q.segments;
  }

  lemma SplitOne(s: string, t: string, stop: char)
    requires s != [] && IndexOf(s, stop) == |s| - 1
    ensures Split(s + t, stop) == Join([s], Split(t, stop))
  {
    var n := |s| - 1;
    IndexOfIsFirst(s + t, stop, n);
    assert (s + t)[..n + 1] == s && (s + t)[n + 1..] == t;
  }

  /** A stream that arrives as `a` then `b` is cut as if it had arrived whole. */
  lemma {:induction false} SplitAppend(a: string, b: string, stop: char)
    ensures Split(a + b, stop) == Join(Split(a, stop).segments, Split(Split(a, stop).rest + b, stop))
    decreases |a|
  {
    var i := IndexOf(a, stop);
    if i == |a| {
      JoinNone(Split(a + b, stop));
    } else {
      var head, tail := a[..i + 1], a[i + 1..];
      assert a == head + tail;
      assert Split(a, stop) == Join([head], Split(tail, stop));
      SplitAppend(tail, b, stop);
      SplitTail(head, tail, b, stop);
      JoinJoin([head], Split(tail, stop).segments, Split(Split(tail, stop).rest + b, stop));
    }
  }

  lemma SplitTail(head: string, tail: string, b: string, stop: char)
    requires |head| > 0 && head[|head| - 1] == stop && forall j :: 0 <= j < |head| - 1 ==> head[j] != stop
    ensures Split((head + tail) + b, stop) == Join([head], Split(tail + b, stop))
  {
    IndexOfIsFirst(head, stop, |head| - 1);
    assert (head + tail) + b == head + (tail + b);
    SplitOne(head, tail + b, stop);
  }

  function DropEmpty(lines: seq<string>): seq<string> {
    if lines == [] then []
    else (if lines[0] == [] then [] else [lines[0]]) + DropEmpty(lines[1..])
  }

  lemma Regroup<T>(a: seq<T>, b: seq<T>, c: seq<T>)
    ensures (a + b) + c == a + (b + c)
  {
  }

  predicate IsSegment(s: string, stop: char) {
    s != [] && IndexOf(s, stop) == |s| - 1
  }

  /** A complete segment behind complete segments is one more of them. */
  lemma SplitSnoc(s: string, segment: string, stop: char)
    requires Split(s, stop).rest == [] && IsSegment(segment, stop)
    ensures Split(s + segment, stop) == Pieces(Split(s, stop).segments + [segment], [])
  {
    SplitAppend(s, segment, stop);
    SplitOne(segment, [], stop);
    assert [] + segment == segment && segment + [] == segment;
    assert [segment] + [] == [segment];
  }

  function Concat(segments: seq<string>): string {
    if segments == [] then [] else segments[0] + Concat(segments[1..])
  }

  /** Nothing is lost or moved: the segments and the rest, put together, are the stream. */
  lemma {:induction false} SplitJoins(s: string, stop: char)
    ensures Concat(Split(s, stop).segments) + Split(s, stop).rest == s
    decreases |s|
  {
    var i := IndexOf(s, stop);
    if i < |s| {
      var tail := Split(s[i + 1..], stop);
      SplitJoins(s[i + 1..], stop);
      assert Split(s, stop).segments[1..] == tail.segments;
      Regroup(s[..i + 1], Concat(tail.segments), tail.rest);
    }
  }

  /** There is one segment per delimiter, and the rest has none. */
  lemma {:induction false} SplitCounts(s: string, stop: char)
    ensures |Split(s, stop).segments| == Count(s, stop)
    ensures IndexOf(Split(s, stop).rest, stop) == |Split(s, stop).rest|
    decreases |s|
  {
    var i := IndexOf(s, stop);
    CountFrom(s, stop);
    if i < |s| {
      SplitCounts(s[i + 1..], stop);
    }
  }

  lemma {:induction false} SplitSegments(s: string, stop: char)
    ensures forall k :: 0 <= k < |Split(s, stop).segments| ==> IsSegment(Split(s, stop).segments[k], stop)
    decreases |s|
  {
    var i := IndexOf(s, stop);
    if i < |s| {
      SplitSegments(s[i + 1..], stop);
      IndexOfIsFirst(s[..i + 1], stop, i);
    }
  }

  function Count(s: string, c: char): nat {
    if s == [] then 0 else (if s[0] == c then 1 else 0) + Count(s[1..], c)
  }

  lemma {:induction false} CountFrom(s: string, c: char)
    ensures var i := IndexOf(s, c);
            Count(s, c) == if i == |s| then 0 else 1 + Count(s[i + 1..], c)
  {
    if s != [] && s[0] != c {
      var i := IndexOf(s[1..], c);
      CountFrom(s[1..], c);
      if i < |s[1..]| {
        assert s[1..][i + 1..] == s[i + 2..];
      }
    }
  }
}

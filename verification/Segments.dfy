/** Publishing a buffer in segments, and fetching it back segment by segment. */
module Segments {
  import opened Options
  import opened Tlv

  /** Half the size of a packet. */
  const MAX_SEGMENT_SIZE: nat := MAX_NDN_PACKET_SIZE / 2

  /** A Data packet of the dataset: its segment number, its content and its final block id. */
  datatype Segment = Segment(number: nat, content: Bytes, finalBlockId: Option<nat>)

  /** The segments of the rest of a buffer, numbered from `number`. An empty rest is one segment. */
  function Cut(rest: Bytes, number: nat): (ss: seq<Segment>)
    ensures |ss| > 0
    decreases |rest|
  {
    if |rest| <= MAX_SEGMENT_SIZE then [Segment(number, rest, Some(number))]
    else [Segment(number, rest[..MAX_SEGMENT_SIZE], None)] + Cut(rest[MAX_SEGMENT_SIZE..], number + 1)
  }

  /** The do-while loop of publish. */
  method Publish(buffer: Bytes) returns (published: seq<Segment>)
    ensures published == Cut(buffer, 0)
  {
    published := [];
    var segmentBegin, segmentNo := 0, 0;
    var more := true;
    while more
      invariant segmentBegin <= |buffer|
      invariant more ==> published + Cut(buffer[segmentBegin..], segmentNo) == Cut(buffer, 0)
      invariant !more ==> published == Cut(buffer, 0)
      decreases more, |buffer| - segmentBegin
    {
      var segmentEnd := segmentBegin + MAX_SEGMENT_SIZE;
      if segmentEnd > |buffer| {
        segmentEnd := |buffer|;
      }
      var data := Segment(segmentNo, buffer[segmentBegin..segmentEnd], None);
      CutStep(buffer, segmentBegin, segmentEnd, segmentNo, published);
      segmentBegin := segmentEnd;
      if segmentBegin >= |buffer| {
        data := data.(finalBlockId := Some(segmentNo));
      }
      published := published + [data];
      segmentNo := segmentNo + 1;
      more := segmentBegin < |buffer|;
    }
  }

  lemma CutStep(buffer: Bytes, begin: nat, end: nat, number: nat, front: seq<Segment>)
    requires begin <= end <= |buffer|
    requires (end == begin + MAX_SEGMENT_SIZE || (end == |buffer| && end < begin + MAX_SEGMENT_SIZE))
    ensures front + Cut(buffer[begin..], number)
            == front + [Segment(number, buffer[begin..end], if end == |buffer| then Some(number) else None)]
               + if end == |buffer| then [] else Cut(buffer[end..], number + 1)
  {
    if end == |buffer| {
      assert buffer[begin..] == buffer[begin..end];
    } else {
      assert buffer[begin..][..MAX_SEGMENT_SIZE] == buffer[begin..end];
      assert buffer[begin..][MAX_SEGMENT_SIZE..] == buffer[end..];
    }
  }

  /** The segments from a number on. */
  ghost function From(published: map<nat, Segment>, current: nat): set<nat> {
    set k | k in published && k >= current
  }

  lemma FromNext(published: map<nat, Segment>, current: nat)
    requires current in published
    ensures From(published, current + 1) == From(published, current) - {current}
    ensures |From(published, current + 1)| < |From(published, current)|
  {
  }

  /** fetchSegments on the segment with the given number, and so on until the final block id is
      reached; None when a segment is not there and the fetch times out. */
  method Fetch(published: map<nat, Segment>) returns (buffer: Option<Bytes>)
    ensures buffer == Fetched(published, 0)
  {
    var collected: Bytes := [];
    var current := 0;
    AppendNothing(Fetched(published, 0));
    while current in published
      invariant Fetched(published, 0) == Append(collected, Fetched(published, current))
      decreases |From(published, current)|
    {
      var data := published[current];
      FromNext(published, current);
      AppendTwice(collected, data.content, Fetched(published, current + 1));
      collected := collected + data.content;
      if data.finalBlockId.Some? && data.finalBlockId.value <= current {
        return Some(collected);
      }
      current := current + 1;
    }
    return None;
  }

  function Append(a: Bytes, b: Option<Bytes>): Option<Bytes> {
    if b.None? then None else Some(a + b.value)
  }

  lemma AppendNothing(b: Option<Bytes>)
    ensures Append([], b) == b
  {
    if b.Some? {
      assert [] + b.value == b.value;
    }
  }

  lemma AppendTwice(a: Bytes, b: Bytes, c: Option<Bytes>)
    ensures Append(a + b, c) == Append(a, Append(b, c))
  {
    if c.Some? {
      assert a + b + c.value == a + (b + c.value);
    }
  }

  /** What fetching from a number on collects. */
  ghost function Fetched(published: map<nat, Segment>, current: nat): Option<Bytes>
    decreases |From(published, current)|
  {
    if current !in published then None
    else
      var data := published[current];
      FromNext(published, current);
      if data.finalBlockId.Some? && data.finalBlockId.value <= current then Some(data.content)
      else Append(data.content, Fetched(published, current + 1))
  }

  /** The k-th segment is numbered k, and exactly the last one carries the final block id. */
  lemma {:induction false} CutNumbers(rest: Bytes, number: nat, k: nat)
    requires k < |Cut(rest, number)|
    ensures var ss := Cut(rest, number);
            && ss[k].number == number + k && |ss[k].content| <= MAX_SEGMENT_SIZE
            && ss[k].finalBlockId == if k == |ss| - 1 then Some(number + k) else None
    decreases |rest|
  {
    if |rest| > MAX_SEGMENT_SIZE && k > 0 {
      CutNumbers(rest[MAX_SEGMENT_SIZE..], number + 1, k - 1);
    }
  }

  /** The segments are found under their numbers. */
  ghost predicate Found(published: map<nat, Segment>, ss: seq<Segment>) {
    forall s :: s in ss ==> s.number in published && published[s.number] == s
  }

  lemma {:induction false} FetchedRest(published: map<nat, Segment>, rest: Bytes, number: nat)
    requires Found(published, Cut(rest, number))
    ensures Fetched(published, number) == Some(rest)
    decreases |rest|
  {
    var ss := Cut(rest, number);
    assert ss[0] in ss && ss[0].number == number;
    if |rest| > MAX_SEGMENT_SIZE {
      var tail := Cut(rest[MAX_SEGMENT_SIZE..], number + 1);
      assert forall s :: s in tail ==> s in ss;
      FetchedRest(published, rest[MAX_SEGMENT_SIZE..], number + 1);
      assert rest[..MAX_SEGMENT_SIZE] + rest[MAX_SEGMENT_SIZE..] == rest;
    }
  }

  /** Whatever buffer is published, the empty one too, is what is fetched, whatever else has been
      published under higher numbers; and the last segment, and no other, says it is the last. */
  lemma SegmentRoundTrip(buffer: Bytes, published: map<nat, Segment>)
    requires Found(published, Cut(buffer, 0))
    ensures Fetched(published, 0) == Some(buffer)
    ensures var ss := Cut(buffer, 0);
            forall k {:trigger ss[k]} :: 0 <= k < |ss| ==>
              ss[k].number == k && (ss[k].finalBlockId.Some? <==> k == |ss| - 1) && |ss[k].content| <= MAX_SEGMENT_SIZE
  {
    var ss := Cut(buffer, 0);
    forall k {:trigger ss[k]} | 0 <= k < |ss|
      ensures ss[k].number == k && (ss[k].finalBlockId.Some? <==> k == |ss| - 1) && |ss[k].content| <= MAX_SEGMENT_SIZE
    {
      CutNumbers(buffer, 0, k);
    }
    FetchedRest(published, buffer, 0);
  }
}

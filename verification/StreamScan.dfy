/** Decoding a byte stream from its front.  A decoder looks at the bytes that are
    buffered and either waits for more or takes a non-empty prefix.  Everything
    here holds for any decoder whose decisions survive further bytes. */
module StreamScan {
  datatype Decision<S> = Wait | Emit(segment: S, size: nat)

  datatype Trace<T, S> = Trace(segments: seq<S>, rest: seq<T>)

  function Prepend<T, S>(segments: seq<S>, t: Trace<T, S>): Trace<T, S> {
    Trace(segments + t.segments, t.rest)
  }

  lemma PrependAssociates<T, S>(a: seq<S>, b: seq<S>, t: Trace<T, S>)
    ensures Prepend(a + b, t) == Prepend(a, Prepend(b, t))
  {
    assert (a + b) + t.segments == a + (b + t.segments);
  }

  /** A decision takes some but not too many bytes, and is final. */
  ghost predicate Steady<T(!new), S>(front: seq<T> -> Decision<S>) {
    && (forall buf :: front(buf).Emit? ==> 0 < front(buf).size <= |buf|)
    && (forall buf, more {:trigger front(buf + more)} :: front(buf).Emit? ==> front(buf + more) == front(buf))
  }

  /** The decoder takes a prefix of the buffer. */
  ghost predicate Takes<T, S>(front: seq<T> -> Decision<S>, buf: seq<T>) {
    front(buf).Emit? && 0 < front(buf).size <= |buf|
  }

  /** One left-to-right pass over the whole buffer. */
  ghost function Scan<T(!new), S>(front: seq<T> -> Decision<S>, buf: seq<T>): Trace<T, S>
    decreases |buf|
  {
    if !Takes(front, buf) then Trace([], buf)
    else Prepend([front(buf).segment], Scan(front, buf[front(buf).size..]))
  }

  lemma {:induction false} ScanInTwoParts<T(!new), S>(front: seq<T> -> Decision<S>, a: seq<T>, b: seq<T>)
    requires Steady(front)
    ensures Scan(front, a + b) == Prepend(Scan(front, a).segments, Scan(front, Scan(front, a).rest + b))
    decreases |a|
  {
    if Takes(front, a) {
      var n := front(a).size;
      assert front(a + b) == front(a);
      assert (a + b)[n..] == a[n..] + b;
      ScanInTwoParts(front, a[n..], b);
      var s := Scan(front, a[n..]);
      PrependAssociates([front(a).segment], s.segments, Scan(front, s.rest + b));
    }
  }

  function Join<T>(chunks: seq<seq<T>>): seq<T> {
    if chunks == [] then [] else chunks[0] + Join(chunks[1..])
  }

  /** Scanning chunk after chunk, carrying the undecided rest over. */
  ghost function ScanChunks<T(!new), S>(front: seq<T> -> Decision<S>, rest: seq<T>, chunks: seq<seq<T>>): Trace<T, S>
    decreases |chunks|
  {
    if chunks == [] then Trace([], rest)
    else
      var t := Scan(front, rest + chunks[0]);
      Prepend(t.segments, ScanChunks(front, t.rest, chunks[1..]))
  }

  /** Every cutting of the bytes that follow `history` gives the same segments
      and the same leftover as one pass over all of them. */
  lemma {:induction false} CutsDoNotMatter<T(!new), S>(
    front: seq<T> -> Decision<S>, history: seq<T>, chunks: seq<seq<T>>)
    requires Steady(front)
    ensures Scan(front, history + Join(chunks))
      == Prepend(Scan(front, history).segments, ScanChunks(front, Scan(front, history).rest, chunks))
    decreases |chunks|
  {
    if chunks == [] {
      assert history + Join(chunks) == history;
    } else {
      assert history + Join(chunks) == (history + chunks[0]) + Join(chunks[1..]);
      CutsDoNotMatter(front, history + chunks[0], chunks[1..]);
      ScanInTwoParts(front, history, chunks[0]);
      var s := Scan(front, history);
      var t := Scan(front, s.rest + chunks[0]);
      PrependAssociates(s.segments, t.segments, ScanChunks(front, t.rest, chunks[1..]));
    }
  }

  /** What is left over is waiting. */
  lemma {:induction false} RestWaits<T(!new), S>(front: seq<T> -> Decision<S>, buf: seq<T>)
    requires Steady(front)
    ensures front(Scan(front, buf).rest).Wait?
    decreases |buf|
  {
    if front(buf).Emit? {
      RestWaits(front, buf[front(buf).size..]);
    }
  }

  lemma {:induction false} ScanNothing<T(!new), S>(front: seq<T> -> Decision<S>, buf: seq<T>)
    requires front(buf).Wait?
    ensures Scan(front, buf) == Trace([], buf)
  {
  }

  lemma ScanOne<T(!new), S>(front: seq<T> -> Decision<S>, buf: seq<T>, d: Decision<S>)
    requires Steady(front)
    requires d == front(buf) && d.Emit?
    ensures d.size <= |buf|
    ensures Scan(front, buf) == Prepend([d.segment], Scan(front, buf[d.size..]))
  {
  }

  /** A stream built from parts that the decoder takes one by one. */
  lemma {:induction false} ScanParts<T(!new), S>(
    front: seq<T> -> Decision<S>, parts: seq<seq<T>>, segments: seq<S>, rest: seq<T>)
    requires |segments| == |parts|
    requires forall i :: 0 <= i < |parts| ==> parts[i] != []
    requires forall i, later {:trigger front(parts[i] + later)} ::
      0 <= i < |parts| ==> front(parts[i] + later) == Emit(segments[i], |parts[i]|)
    ensures Scan(front, Join(parts) + rest) == Prepend(segments, Scan(front, rest))
    decreases |parts|
  {
    if parts == [] {
      assert Join(parts) + rest == rest;
    } else {
      var later := Join(parts[1..]) + rest;
      assert Join(parts) + rest == parts[0] + later;
      assert front(parts[0] + later) == Emit(segments[0], |parts[0]|);
      assert (parts[0] + later)[|parts[0]|..] == later;
      ScanParts(front, parts[1..], segments[1..], rest);
      assert [segments[0]] + segments[1..] == segments;
      PrependAssociates([segments[0]], segments[1..], Scan(front, rest));
    }
  }

  // ---- Where the segments lie ------------------------------------------------

  datatype Placed<S> = Placed(segment: S, start: nat, size: nat)

  /** The segments of a pass with the place each was taken from. */
  ghost function Places<T(!new), S>(front: seq<T> -> Decision<S>, buf: seq<T>, offset: nat): seq<Placed<S>>
    decreases |buf|
  {
    if !Takes(front, buf) then []
    else [Placed(front(buf).segment, offset, front(buf).size)]
         + Places(front, buf[front(buf).size..], offset + front(buf).size)
  }

  /** The segments tile the stream up to the leftover: every byte belongs to
      exactly one of them or is still buffered. */
  ghost predicate Tiles<S>(places: seq<Placed<S>>, from: nat, to: nat) {
    if places == [] then from == to
    else places[0].start == from && places[0].size > 0 && Tiles(places[1..], from + places[0].size, to)
  }

  lemma {:induction false} PlacesTile<T(!new), S>(front: seq<T> -> Decision<S>, buf: seq<T>, offset: nat)
    ensures var t := Scan(front, buf);
      && |t.rest| <= |buf| && t.rest == buf[|buf| - |t.rest|..]
      && Tiles(Places(front, buf, offset), offset, offset + |buf| - |t.rest|)
    decreases |buf|
  {
    if Takes(front, buf) {
      var n := front(buf).size;
      PlacesTile(front, buf[n..], offset + n);
    }
  }

  /** The segments of a pass tile the buffer up to the leftover at its end. */
  ghost predicate TilesBuffer<T(!new), S>(front: seq<T> -> Decision<S>, buf: seq<T>) {
    var rest := Scan(front, buf).rest;
    && |rest| <= |buf| && rest == buf[|buf| - |rest|..]
    && Tiles(Places(front, buf, 0), 0, |buf| - |rest|)
  }

  lemma BufferIsTiled<T(!new), S>(front: seq<T> -> Decision<S>, buf: seq<T>)
    ensures TilesBuffer(front, buf)
  {
    PlacesTile(front, buf, 0);
  }

  lemma {:induction false} PlacesAreTheSegments<T(!new), S>(front: seq<T> -> Decision<S>, buf: seq<T>, offset: nat)
    ensures |Places(front, buf, offset)| == |Scan(front, buf).segments|
    ensures forall k :: 0 <= k < |Places(front, buf, offset)| ==>
      Places(front, buf, offset)[k].segment == Scan(front, buf).segments[k]
        && Places(front, buf, offset)[k].start >= offset
    decreases |buf|
  {
    if Takes(front, buf) {
      var n := front(buf).size;
      PlacesAreTheSegments(front, buf[n..], offset + n);
    }
  }

  /** Each segment is what the decoder decides at its own place. */
  lemma {:induction false} PlacesAreDecisions<T(!new), S>(front: seq<T> -> Decision<S>, buf: seq<T>,
    offset: nat, k: nat)
    requires k < |Places(front, buf, offset)|
    ensures var p := Places(front, buf, offset)[k];
      && offset <= p.start && p.start - offset + p.size <= |buf|
      && front(buf[p.start - offset..]) == Emit(p.segment, p.size)
    decreases |buf|
  {
    if k == 0 {
      assert buf[0..] == buf;
    } else {
      var n := front(buf).size;
      PlacesAreDecisions(front, buf[n..], offset + n, k - 1);
      var p := Places(front, buf[n..], offset + n)[k - 1];
      assert buf[n..][p.start - (offset + n)..] == buf[p.start - offset..];
    }
  }

  /** What holds of every decision holds of every segment taken. */
  lemma PlacesSatisfy<T(!new), S(!new)>(front: seq<T> -> Decision<S>, buf: seq<T>, holds: Placed<S> -> bool)
    requires forall p: Placed<S> {:trigger holds(p)} ::
      p.start + p.size <= |buf| && front(buf[p.start..]) == Emit(p.segment, p.size) ==> holds(p)
    ensures forall k :: 0 <= k < |Places(front, buf, 0)| ==> holds(Places(front, buf, 0)[k])
  {
    forall k | 0 <= k < |Places(front, buf, 0)| ensures holds(Places(front, buf, 0)[k]) {
      PlacesAreDecisions(front, buf, 0, k);
    }
  }

  /** Position `i` lies strictly inside a segment. */
  ghost predicate Inside<S>(places: seq<Placed<S>>, i: nat) {
    exists k :: 0 <= k < |places| && places[k].start < i < places[k].start + places[k].size
  }

  ghost predicate TakenIffNotInside<T(!new), S>(
    front: seq<T> -> Decision<S>, buf: seq<T>, places: seq<Placed<S>>, offset: nat, i: nat, d: Decision<S>)
    requires i <= |buf| && d.Emit?
  {
    Placed(d.segment, offset + i, d.size) in places <==> front(buf[i..]) == d && !Inside(places, offset + i)
  }

  /** If the decoder never waits with `settled` bytes in hand then, as soon as a
      position has that many bytes after it, a segment is taken there exactly when
      the decoder would take it there and no segment in progress covers it. */
  lemma {:induction false} TakenIffDecided<T(!new), S>(
    front: seq<T> -> Decision<S>, settled: nat, buf: seq<T>, offset: nat, i: nat, d: Decision<S>)
    requires forall b :: |b| >= settled ==> Takes(front, b)
    requires i + settled <= |buf| && d.Emit?
    ensures TakenIffNotInside(front, buf, Places(front, buf, offset), offset, i, d)
    decreases |buf|
  {
    var n := front(buf).size;
    assert Takes(front, buf);
    if i >= n {
      TakenIffDecided(front, settled, buf[n..], offset + n, i - n, d);
      assert buf[n..][i - n..] == buf[i..];
    }
    PlacesAreTheSegments(front, buf[n..], offset + n);
    TakenStep(front, buf, Placed(front(buf).segment, offset, n), Places(front, buf[n..], offset + n), offset, i, d);
  }

  lemma TakenStep<T(!new), S>(front: seq<T> -> Decision<S>, buf: seq<T>,
    head: Placed<S>, tail: seq<Placed<S>>, offset: nat, i: nat, d: Decision<S>)
    requires i <= |buf| && d.Emit?
    requires front(buf).Emit? && head == Placed(front(buf).segment, offset, front(buf).size) && head.size > 0
    requires forall k :: 0 <= k < |tail| ==> tail[k].start >= offset + head.size
    requires i >= head.size ==>
      (Placed(d.segment, offset + i, d.size) in tail <==> front(buf[i..]) == d && !Inside(tail, offset + i))
    ensures TakenIffNotInside(front, buf, [head] + tail, offset, i, d)
  {
    var p := [head] + tail;
    if i == 0 {
      assert buf[0..] == buf;
      assert p[0] == head;
    } else if i < head.size {
      assert p[0].start < offset + i < p[0].start + p[0].size;
    } else {
      InsideTail(head, tail, offset + i);
    }
  }

  lemma InsideTail<S>(head: Placed<S>, tail: seq<Placed<S>>, i: nat)
    requires head.start + head.size <= i
    ensures Inside([head] + tail, i) <==> Inside(tail, i)
  {
    var p := [head] + tail;
    if Inside(tail, i) {
      var k :| 0 <= k < |tail| && tail[k].start < i < tail[k].start + tail[k].size;
      assert p[k + 1] == tail[k];
    }
  }

  // ---- Counting segments by their places -------------------------------------

  ghost predicate Begins<S>(places: seq<Placed<S>>, i: nat) {
    exists k :: 0 <= k < |places| && places[k].start == i
  }

  /** A position within the tiles begins one of them or lies strictly inside one. */
  lemma {:induction false} StartsIffNotInside<S>(places: seq<Placed<S>>, from: nat, to: nat, i: nat)
    requires Tiles(places, from, to) && from <= i < to
    ensures Begins(places, i) <==> !Inside(places, i)
    decreases |places|
  {
    var head, tail := places[0], places[1..];
    assert places == [head] + tail;
    StartsAfter(tail, from + head.size, to);
    if i >= from + head.size {
      StartsIffNotInside(tail, from + head.size, to, i);
      InsideTail(head, tail, i);
      if k :| 0 <= k < |tail| && tail[k].start == i { assert places[k + 1] == tail[k]; }
    } else if i == from {
      assert places[0].start == i;
    } else {
      assert places[0].start < i < places[0].start + places[0].size;
    }
  }

  lemma {:induction false} StartsAfter<S>(places: seq<Placed<S>>, from: nat, to: nat)
    requires Tiles(places, from, to)
    ensures from <= to
    ensures forall k :: 0 <= k < |places| ==> from <= places[k].start < to
    decreases |places|
  {
    if places != [] { StartsAfter(places[1..], from + places[0].size, to); }
  }

  function Count<S>(segments: seq<S>, q: S -> bool): nat {
    if segments == [] then 0 else (if q(segments[0]) then 1 else 0) + Count(segments[1..], q)
  }

  ghost function Starts<S(!new)>(places: seq<Placed<S>>, q: S -> bool): set<nat> {
    set p | p in places && q(p.segment) :: p.start
  }

  /** Segments of a sort are as many as the positions they start at. */
  lemma {:induction false} CountIsStarts<S(!new)>(places: seq<Placed<S>>, segments: seq<S>, from: nat, to: nat,
    q: S -> bool)
    requires Tiles(places, from, to) && |segments| == |places|
    requires forall k :: 0 <= k < |places| ==> places[k].segment == segments[k]
    ensures Count(segments, q) == |Starts(places, q)|
    decreases |places|
  {
    if places != [] {
      var head, tail := places[0], places[1..];
      assert places == [head] + tail;
      StartsAfter(tail, from + head.size, to);
      CountIsStarts(tail, segments[1..], from + head.size, to, q);
      var own: set<nat> := if q(head.segment) then {head.start} else {};
      assert Starts(places, q) == own + Starts(tail, q);
      assert own !! Starts(tail, q);
    }
  }
}

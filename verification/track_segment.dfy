/** The track segment: an ordered sequence of `trkpt` children, each read by
    the waypoint consumer.  The waypoint consumer is not part of this model; it
    is a parameter, and all the segment needs of it is that a successful read
    moves the cursor forward. */
module TrackSegmentParser {
  import opened Wrappers
  import opened XmlEvents
  import opened Errors
  import opened Parser

  datatype TrackSegment<W> = TrackSegment(points: seq<W>)

  /** Reads one `trkpt` element starting at the cursor. */
  type PointConsumer<W> = (seq<Event>, nat) -> ParseResult<W>

  /** A successful read consumes at least one event and stays in the stream. */
  ghost predicate Advances<W>(consumePoint: PointConsumer<W>) {
    forall events: seq<Event>, pos: nat ::
      consumePoint(events, pos).Ok? ==> pos < consumePoint(events, pos).value.next <= |events|
  }

  /** Reads a `trkseg` element.  Leaves the cursor just after its closing tag. */
  function ConsumeTrackSegment<W>(consumePoint: PointConsumer<W>, events: seq<Event>, pos: nat): (r: ParseResult<TrackSegment<W>>)
    requires Advances(consumePoint)
    ensures VerifyStartingTag(events, pos, "trkseg").Err? ==>
              r == Err(VerifyStartingTag(events, pos, "trkseg").error)
    ensures r.Ok? ==>
              && VerifyStartingTag(events, pos, "trkseg").Ok?
              && VerifyStartingTag(events, pos, "trkseg").value.next < r.value.next <= |events|
              && events[r.value.next - 1] == EndElement("trkseg")
  {
    match VerifyStartingTag(events, pos, "trkseg")
    case Err(e) => Err(e)
    case Ok(start) => SegmentContent(consumePoint, events, start.next, [])
  }

  /** The peek-then-dispatch loop of `ConsumeTrackSegment`; `points` holds
      the points read so far, in document order. */
  function SegmentContent<W>(consumePoint: PointConsumer<W>, events: seq<Event>, pos: nat, points: seq<W>): (r: ParseResult<TrackSegment<W>>)
    requires Advances(consumePoint)
    ensures r.Ok? ==>
              && pos < r.value.next <= |events|
              && events[r.value.next - 1] == EndElement("trkseg")
              && points <= r.value.value.points
    decreases |events| - pos
  {
    if pos >= |events| then Err(MissingClosingTag("tracksegment"))
    else
      match events[pos]
      case TokError => Err(TrackSegmentError)
      case StartElement(name, _) =>
        if name == "trkpt" then
          match consumePoint(events, pos)
          case Err(e) => Err(e)
          case Ok(point) => SegmentContent(consumePoint, events, point.next, points + [point.value])
        else Err(InvalidChildElement(name, "tracksegment"))
      case EndElement(name) =>
        if name != "trkseg" then Err(InvalidClosingTag(name, "trksegment"))
        else Ok(Parsed(TrackSegment(points), pos + 1))
      case _ => SegmentContent(consumePoint, events, pos + 1, points)
  }

  /** After a run of text and other filler, the first remaining event decides
      what the segment loop does. */
  lemma {:induction false} SegmentContentStops<W>(consumePoint: PointConsumer<W>, events: seq<Event>, pos: nat, c: nat, points: seq<W>)
    requires Advances(consumePoint)
    requires pos <= c
    requires OnlyFiller(events, pos, c)
    ensures var r := SegmentContent(consumePoint, events, pos, points);
            && (c == |events| ==> r == Err(MissingClosingTag("tracksegment")))
            && (c < |events| && events[c].TokError? ==> r == Err(TrackSegmentError))
            && (c < |events| && events[c].StartElement? && events[c].name != "trkpt" ==>
                  r == Err(InvalidChildElement(events[c].name, "tracksegment")))
            && (c < |events| && events[c].IsStartOf("trkpt") && consumePoint(events, c).Err? ==>
                  r == Err(consumePoint(events, c).error))
            && (c < |events| && events[c].EndElement? && events[c].name != "trkseg" ==>
                  r == Err(InvalidClosingTag(events[c].name, "trksegment")))
            && (c < |events| && events[c].IsEndOf("trkseg") ==> r == Ok(Parsed(TrackSegment(points), c + 1)))
    decreases c - pos
  {
    if pos < c {
      SegmentContentStops(consumePoint, events, pos + 1, c, points);
    }
  }

  /** The layout of a segment body holding the points `ws`: the i-th point
      is read from `starts[i]` and ends at `gaps[i + 1]`; only filler lies
      between `gaps[i]` and `starts[i]`, and between `gaps[|ws|]` and the
      closing tag at `close`. */
  ghost predicate PointLayout<W>(consumePoint: PointConsumer<W>, events: seq<Event>, ws: seq<W>,
                                 starts: seq<nat>, gaps: seq<nat>, close: nat)
  {
    && |starts| == |ws|
    && |gaps| == |ws| + 1
    && (forall i :: 0 <= i < |ws| ==>
          && gaps[i] <= starts[i] < |events|
          && OnlyFiller(events, gaps[i], starts[i])
          && events[starts[i]].IsStartOf("trkpt")
          && consumePoint(events, starts[i]) == Ok(Parsed(ws[i], gaps[i + 1])))
    && gaps[|ws|] <= close < |events|
    && OnlyFiller(events, gaps[|ws|], close)
    && events[close] == EndElement("trkseg")
  }

  /** The loop appends one point per `trkpt` child, in document order, and
      stops just after the closing tag. */
  lemma {:induction false} SegmentContentCollects<W>(consumePoint: PointConsumer<W>, events: seq<Event>, ws: seq<W>,
                                                     starts: seq<nat>, gaps: seq<nat>, close: nat, points: seq<W>)
    requires Advances(consumePoint)
    requires PointLayout(consumePoint, events, ws, starts, gaps, close)
    ensures SegmentContent(consumePoint, events, gaps[0], points) == Ok(Parsed(TrackSegment(points + ws), close + 1))
    decreases |ws|
  {
    if |ws| == 0 {
      SegmentContentStops(consumePoint, events, gaps[0], close, points);
      assert points + ws == points;
    } else {
      assert SegmentContent(consumePoint, events, gaps[0], points)
          == SegmentContent(consumePoint, events, starts[0], points) by {
        SegmentContentSkips(consumePoint, events, gaps[0], starts[0], points);
      }
      PointLayoutTail(consumePoint, events, ws, starts, gaps, close);
      assert consumePoint(events, starts[0]) == Ok(Parsed(ws[0], gaps[1]));
      SegmentContentCollects(consumePoint, events, ws[1..], starts[1..], gaps[1..], close, points + [ws[0]]);
      assert (points + [ws[0]]) + ws[1..] == points + ws;
    }
  }

  /** Dropping the first point of a layout leaves a layout of the rest. */
  lemma PointLayoutTail<W>(consumePoint: PointConsumer<W>, events: seq<Event>, ws: seq<W>,
                           starts: seq<nat>, gaps: seq<nat>, close: nat)
    requires |ws| > 0
    requires PointLayout(consumePoint, events, ws, starts, gaps, close)
    ensures PointLayout(consumePoint, events, ws[1..], starts[1..], gaps[1..], close)
  {
    forall i | 0 <= i < |ws| - 1
      ensures && gaps[1..][i] <= starts[1..][i] < |events|
              && OnlyFiller(events, gaps[1..][i], starts[1..][i])
              && events[starts[1..][i]].IsStartOf("trkpt")
              && consumePoint(events, starts[1..][i]) == Ok(Parsed(ws[1..][i], gaps[1..][i + 1]))
    {
      assert gaps[1..][i] == gaps[i + 1] && starts[1..][i] == starts[i + 1] && ws[1..][i] == ws[i + 1];
      assert gaps[1..][i + 1] == gaps[i + 2];
    }
  }

  /** Filler before the cursor's next decisive event is skipped. */
  lemma {:induction false} SegmentContentSkips<W>(consumePoint: PointConsumer<W>, events: seq<Event>, pos: nat, c: nat, points: seq<W>)
    requires Advances(consumePoint)
    requires pos <= c
    requires OnlyFiller(events, pos, c)
    ensures SegmentContent(consumePoint, events, pos, points) == SegmentContent(consumePoint, events, c, points)
    decreases c - pos
  {
    if pos < c {
      SegmentContentSkips(consumePoint, events, pos + 1, c, points);
    }
  }

  /** The whole track-segment consumer: once the `trkseg` opening tag is
      accepted, a body laid out as `ws` gives exactly the points `ws`, in
      order, one per `trkpt` child. */
  lemma ConsumeTrackSegmentCollects<W>(consumePoint: PointConsumer<W>, events: seq<Event>, pos: nat, ws: seq<W>,
                                       starts: seq<nat>, gaps: seq<nat>, close: nat)
    requires Advances(consumePoint)
    requires VerifyStartingTag(events, pos, "trkseg").Ok?
    requires PointLayout(consumePoint, events, ws, starts, gaps, close)
    requires gaps[0] == VerifyStartingTag(events, pos, "trkseg").value.next
    ensures ConsumeTrackSegment(consumePoint, events, pos) == Ok(Parsed(TrackSegment(ws), close + 1))
  {
    SegmentContentCollects(consumePoint, events, ws, starts, gaps, close, []);
    assert [] + ws == ws;
  }

  /** A layout of the points after `w`, read from `start`, gives a layout of
      `w` followed by them. */
  lemma PointLayoutCons<W>(consumePoint: PointConsumer<W>, events: seq<Event>, w: W, start: nat, ws: seq<W>,
                           starts: seq<nat>, gaps: seq<nat>, close: nat)
    requires PointLayout(consumePoint, events, ws, starts, gaps, close)
    requires start < |events| && events[start].IsStartOf("trkpt")
    requires consumePoint(events, start) == Ok(Parsed(w, gaps[0]))
    ensures PointLayout(consumePoint, events, [w] + ws, [start] + starts, [start] + gaps, close)
  {
    var ws', starts', gaps' := [w] + ws, [start] + starts, [start] + gaps;
    forall i | 0 <= i < |ws'|
      ensures && gaps'[i] <= starts'[i] < |events|
              && OnlyFiller(events, gaps'[i], starts'[i])
              && events[starts'[i]].IsStartOf("trkpt")
              && consumePoint(events, starts'[i]) == Ok(Parsed(ws'[i], gaps'[i + 1]))
    {
      if i > 0 {
        assert gaps'[i] == gaps[i - 1] && starts'[i] == starts[i - 1] && ws'[i] == ws[i - 1];
        assert gaps'[i + 1] == gaps[i];
      }
    }
    assert gaps'[|ws'|] == gaps[|ws|];
  }

  /** One more filler event before a layout's first gap still leaves a
      layout. */
  lemma PointLayoutWiden<W>(consumePoint: PointConsumer<W>, events: seq<Event>, ws: seq<W>,
                            starts: seq<nat>, gaps: seq<nat>, close: nat, pos: nat)
    requires PointLayout(consumePoint, events, ws, starts, gaps, close)
    requires gaps[0] == pos + 1 && events[pos].IsFiller()
    ensures PointLayout(consumePoint, events, ws, starts, [pos] + gaps[1..], close)
  {
    var gaps' := [pos] + gaps[1..];
    var first := if |ws| == 0 then close else starts[0];
    assert OnlyFiller(events, gaps[0], first);
    assert OnlyFiller(events, pos, first) by {
      forall j | pos <= j < first ensures events[j].IsFiller() {
        if j > pos {
          assert gaps[0] <= j;
        }
      }
    }
    forall i | 0 <= i < |ws|
      ensures && gaps'[i] <= starts[i] < |events|
              && OnlyFiller(events, gaps'[i], starts[i])
              && events[starts[i]].IsStartOf("trkpt")
              && consumePoint(events, starts[i]) == Ok(Parsed(ws[i], gaps'[i + 1]))
    {
      assert gaps'[i + 1] == gaps[i + 1];
      if i > 0 {
        assert gaps'[i] == gaps[i];
      }
    }
    assert gaps'[|ws|] == if |ws| == 0 then pos else gaps[|ws|];
  }

  /** Every point the segment loop returns was read from a `trkpt` child,
      in order, with only filler between them: the returned points have a
      layout starting at the cursor and closing just before the returned
      cursor. */
  lemma {:induction false} SegmentContentLayout<W>(consumePoint: PointConsumer<W>, events: seq<Event>, pos: nat, points: seq<W>)
    returns (ws: seq<W>, starts: seq<nat>, gaps: seq<nat>)
    requires Advances(consumePoint)
    ensures var r := SegmentContent(consumePoint, events, pos, points);
            r.Ok? ==> && r.value.value.points == points + ws
                      && PointLayout(consumePoint, events, ws, starts, gaps, r.value.next - 1)
                      && gaps[0] == pos
    decreases |events| - pos, 1
  {
    ws, starts, gaps := [], [], [pos];
    var r := SegmentContent(consumePoint, events, pos, points);
    if r.Err? || pos >= |events| {
      return;
    }
    if events[pos].StartElement? {
      ws, starts, gaps := PointLayoutAt(consumePoint, events, pos, points);
    } else if events[pos].IsFiller() {
      ws, starts, gaps := FillerLayoutAt(consumePoint, events, pos, points);
    } else {
      assert events[pos] == EndElement("trkseg") && r.value.next == pos + 1;
      assert OnlyFiller(events, pos, pos);
    }
  }

  /** `SegmentContentLayout` when a `trkpt` child is read at the cursor. */
  lemma {:induction false} PointLayoutAt<W>(consumePoint: PointConsumer<W>, events: seq<Event>, pos: nat, points: seq<W>)
    returns (ws: seq<W>, starts: seq<nat>, gaps: seq<nat>)
    requires Advances(consumePoint)
    requires pos < |events| && events[pos].StartElement?
    requires SegmentContent(consumePoint, events, pos, points).Ok?
    ensures var r := SegmentContent(consumePoint, events, pos, points);
            && r.value.value.points == points + ws
            && PointLayout(consumePoint, events, ws, starts, gaps, r.value.next - 1)
            && gaps[0] == pos
    decreases |events| - pos, 0
  {
    var r := SegmentContent(consumePoint, events, pos, points);
    SegmentContentAtPoint(consumePoint, events, pos, points);
    var point := consumePoint(events, pos).value;
    var ws', starts', gaps' := SegmentContentLayout(consumePoint, events, point.next, points + [point.value]);
    PointLayoutCons(consumePoint, events, point.value, pos, ws', starts', gaps', r.value.next - 1);
    ws, starts, gaps := [point.value] + ws', [pos] + starts', [pos] + gaps';
    assert (points + [point.value]) + ws' == points + ws;
  }

  /** A segment loop that succeeds with an opening tag at the cursor read a
      `trkpt` there and went on after it. */
  lemma SegmentContentAtPoint<W>(consumePoint: PointConsumer<W>, events: seq<Event>, pos: nat, points: seq<W>)
    requires Advances(consumePoint)
    requires pos < |events| && events[pos].StartElement?
    requires SegmentContent(consumePoint, events, pos, points).Ok?
    ensures events[pos].IsStartOf("trkpt") && consumePoint(events, pos).Ok?
    ensures SegmentContent(consumePoint, events, pos, points)
            == SegmentContent(consumePoint, events, consumePoint(events, pos).value.next,
                              points + [consumePoint(events, pos).value.value])
  {
  }

  /** `SegmentContentLayout` when filler is at the cursor. */
  lemma {:induction false} FillerLayoutAt<W>(consumePoint: PointConsumer<W>, events: seq<Event>, pos: nat, points: seq<W>)
    returns (ws: seq<W>, starts: seq<nat>, gaps: seq<nat>)
    requires Advances(consumePoint)
    requires pos < |events| && events[pos].IsFiller()
    requires SegmentContent(consumePoint, events, pos, points).Ok?
    ensures var r := SegmentContent(consumePoint, events, pos, points);
            && r.value.value.points == points + ws
            && PointLayout(consumePoint, events, ws, starts, gaps, r.value.next - 1)
            && gaps[0] == pos
    decreases |events| - pos, 0
  {
    var r := SegmentContent(consumePoint, events, pos, points);
    assert r == SegmentContent(consumePoint, events, pos + 1, points);
    ws, starts, gaps := SegmentContentLayout(consumePoint, events, pos + 1, points);
    PointLayoutWiden(consumePoint, events, ws, starts, gaps, r.value.next - 1, pos);
    gaps := [pos] + gaps[1..];
  }

  /** The converse of `ConsumeTrackSegmentCollects`: whatever the consumer
      accepts is a `trkseg` whose body is laid out as the points it returns. */
  lemma ConsumeTrackSegmentSound<W>(consumePoint: PointConsumer<W>, events: seq<Event>, pos: nat)
    requires Advances(consumePoint)
    ensures var r := ConsumeTrackSegment(consumePoint, events, pos);
            r.Ok? ==> LaidOut(consumePoint, events, r.value.value.points,
                              VerifyStartingTag(events, pos, "trkseg").value.next, r.value.next - 1)
  {
    var r := ConsumeTrackSegment(consumePoint, events, pos);
    if r.Ok? {
      var start := VerifyStartingTag(events, pos, "trkseg").value.next;
      var ws, starts, gaps := SegmentContentLayout(consumePoint, events, start, []);
      assert [] + ws == ws;
      assert PointLayout(consumePoint, events, r.value.value.points, starts, gaps, r.value.next - 1);
    }
  }

  /** Some layout of `ws` starts at `first` and closes at `close`. */
  ghost predicate LaidOut<W>(consumePoint: PointConsumer<W>, events: seq<Event>, ws: seq<W>, first: nat, close: nat) {
    exists starts: seq<nat>, gaps: seq<nat> ::
      PointLayout(consumePoint, events, ws, starts, gaps, close) && gaps[0] == first
  }
}

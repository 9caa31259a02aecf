/**
 The history parser of app.js (`parseWatchHistory`): it walks the candidate content
 cells of a watch-history export in document order and turns each well-formed
 "Watched" cell into one watch event, skipping every other cell.

 The document tree is abstract: a cell is given by its text content, the links found
 inside it (display text and target, in document order) and its inner markup. Resolving
 the date text to an instant (`new Date(...)`) is the parameter `parseDate`, which
 yields `None` where the source's date would be invalid.
 */
module WatchHistory {
  import opened Wrappers
  import opened JsStrings

  // ---------------------------------------------------------------------------
  // data model
  // ---------------------------------------------------------------------------

  type Hour = h: int | 0 <= h < 24
  type Month0 = m: int | 0 <= m < 12

  datatype Weekday = Sunday | Monday | Tuesday | Wednesday | Thursday | Friday | Saturday

  /** A resolved instant, already broken down in the viewer's time zone: the full year,
      the zero-based month, the hour of the day and the day of the week. */
  datatype Timestamp = Timestamp(year: int, month0: Month0, hour: Hour, weekday: Weekday)

  /** An `<a>` element: its display text and its target. */
  datatype Link = Link(text: string, href: string)

  /** A candidate content cell of the export. */
  datatype Cell = Cell(text: string, links: seq<Link>, innerHtml: string)

  datatype WatchEvent = WatchEvent(
    videoTitle: string,
    videoUrl: string,
    channelName: string,
    channelUrl: string,
    timestamp: Timestamp)

  // ---------------------------------------------------------------------------
  // the positional extraction points of the export layout
  // ---------------------------------------------------------------------------

  const WatchedPrefix: string := "Watched"
  const MinLinks: nat := 2
  const VideoLink: nat := 0
  const ChannelLink: nat := 1
  const ChannelMarker: string := "youtube.com/channel"
  const LineBreak: string := "<br>"
  const DateSegment: nat := 2
  /** The pattern of the second replacement applied to the date text. As app.js writes
      it, this is a plain space, so that replacement leaves the text unchanged. */
  const DateSpacePattern: string := " "

  /** The date text normalised as the source does before resolving it: trimmed, every
      comma-space turned into a space, then the second replacement. */
  function CleanDate(segment: string): (r: string)
    ensures r == DropCommasBeforeSpace(Trim(segment))
  {
    ReplaceCommaSpace(Trim(segment));
    ReplaceAllSelf(ReplaceAll(Trim(segment), ", ", " "), DateSpacePattern);
    ReplaceAll(ReplaceAll(Trim(segment), ", ", " "), DateSpacePattern, " ")
  }

  /** The date segment of a cell: the third piece of its inner markup split on `<br>`. */
  function DateText(cell: Cell): Option<string> {
    var parts := Split(cell.innerHtml, LineBreak);
    if |parts| <= DateSegment then None else Some(CleanDate(parts[DateSegment]))
  }

  // ---------------------------------------------------------------------------
  // one cell
  // ---------------------------------------------------------------------------

  /** What every emitted event satisfies: non-empty trimmed title and channel name and a
      link into the channel namespace. */
  predicate ValidEvent(e: WatchEvent) {
    && e.videoTitle != [] && Trim(e.videoTitle) == e.videoTitle
    && e.channelName != [] && Trim(e.channelName) == e.channelName
    && Includes(e.channelUrl, ChannelMarker)
  }

  /** The body of the per-cell callback, whose early returns and caught exceptions both
      mean "no event": `Some(event)` for a cell the source pushes, `None` otherwise. */
  function ParseCell(cell: Cell, parseDate: string -> Option<Timestamp>): Option<WatchEvent> {
    if !StartsWith(Trim(cell.text), WatchedPrefix) then None
    else if |cell.links| < MinLinks then None
    else
      var videoLink := cell.links[VideoLink];
      var channelLink := cell.links[ChannelLink];
      if !Includes(channelLink.href, ChannelMarker) then None
      else
        var videoTitle := Trim(videoLink.text);
        var channelName := Trim(channelLink.text);
        var htmlParts := Split(cell.innerHtml, LineBreak);
        if |htmlParts| <= DateSegment then None
        else
          match parseDate(CleanDate(htmlParts[DateSegment]))
          case None => None
          case Some(timestamp) =>
            if videoTitle != [] && channelName != [] then
              Some(WatchEvent(videoTitle, videoLink.href, channelName, channelLink.href, timestamp))
            else None
  }

  /** The per-cell callback itself, with its early returns; it yields what `ParseCell` says. */
  method ParseEntry(cell: Cell, parseDate: string -> Option<Timestamp>) returns (parsed: Option<WatchEvent>)
    ensures parsed == ParseCell(cell, parseDate)
  {
    parsed := None;
    if !StartsWith(Trim(cell.text), WatchedPrefix) {
      return;
    }
    if |cell.links| < MinLinks {
      return;
    }
    var videoLink := cell.links[VideoLink];
    var channelLink := cell.links[ChannelLink];
    if !Includes(channelLink.href, ChannelMarker) {
      return;
    }
    var videoTitle := Trim(videoLink.text);
    var videoUrl := videoLink.href;
    var channelName := Trim(channelLink.text);
    var channelUrl := channelLink.href;
    var htmlParts := Split(cell.innerHtml, LineBreak);
    if |htmlParts| < DateSegment + 1 {
      return;
    }
    var timestamp := parseDate(CleanDate(htmlParts[DateSegment]));
    if videoTitle != [] && channelName != [] && timestamp.Some? {
      parsed := Some(WatchEvent(videoTitle, videoUrl, channelName, channelUrl, timestamp.value));
    }
  }

  /** A cell that fails any one check yields no event. */
  lemma ParseCellRejects(cell: Cell, parseDate: string -> Option<Timestamp>)
    ensures !StartsWith(Trim(cell.text), WatchedPrefix) ==> ParseCell(cell, parseDate) == None
    ensures |cell.links| < MinLinks ==> ParseCell(cell, parseDate) == None
    ensures |cell.links| >= MinLinks && !Includes(cell.links[ChannelLink].href, ChannelMarker)
      ==> ParseCell(cell, parseDate) == None
    ensures |Split(cell.innerHtml, LineBreak)| <= DateSegment ==> ParseCell(cell, parseDate) == None
    ensures DateText(cell).Some? && parseDate(DateText(cell).value).None? ==> ParseCell(cell, parseDate) == None
    ensures |cell.links| >= MinLinks && (Trim(cell.links[VideoLink].text) == [] || Trim(cell.links[ChannelLink].text) == [])
      ==> ParseCell(cell, parseDate) == None
  {
  }

  /** An event comes from the cell's first two links and from the date text resolved, and it is valid. */
  lemma ParseCellEmits(cell: Cell, parseDate: string -> Option<Timestamp>)
    requires ParseCell(cell, parseDate).Some?
    ensures var e := ParseCell(cell, parseDate).value;
      && ValidEvent(e)
      && |cell.links| >= MinLinks
      && e.videoTitle == Trim(cell.links[VideoLink].text)
      && e.videoUrl == cell.links[VideoLink].href
      && e.channelName == Trim(cell.links[ChannelLink].text)
      && e.channelUrl == cell.links[ChannelLink].href
      && DateText(cell).Some?
      && parseDate(DateText(cell).value) == Some(e.timestamp)
  {
    TrimIdempotent(cell.links[VideoLink].text);
    TrimIdempotent(cell.links[ChannelLink].text);
  }

  /** A cell that passes every check yields exactly the event made of its parts. */
  lemma ParseCellAccepts(cell: Cell, parseDate: string -> Option<Timestamp>, t: Timestamp)
    requires StartsWith(Trim(cell.text), WatchedPrefix)
    requires |cell.links| >= MinLinks
    requires Includes(cell.links[ChannelLink].href, ChannelMarker)
    requires Trim(cell.links[VideoLink].text) != [] && Trim(cell.links[ChannelLink].text) != []
    requires DateText(cell).Some? && parseDate(DateText(cell).value) == Some(t)
    ensures ParseCell(cell, parseDate) == Some(WatchEvent(
      Trim(cell.links[VideoLink].text), cell.links[VideoLink].href,
      Trim(cell.links[ChannelLink].text), cell.links[ChannelLink].href, t))
  {
  }

  // ---------------------------------------------------------------------------
  // all cells
  // ---------------------------------------------------------------------------

  /** The per-cell step with the date resolver fixed. */
  function Parser(parseDate: string -> Option<Timestamp>): Cell -> Option<WatchEvent> {
    cell => ParseCell(cell, parseDate)
  }

  /** The outcome of every cell, in cell order. */
  function Outcomes(cells: seq<Cell>, parse: Cell -> Option<WatchEvent>): (outs: seq<Option<WatchEvent>>)
    ensures |outs| == |cells|
  {
    if cells == [] then []
    else Outcomes(cells[..|cells| - 1], parse) + [parse(cells[|cells| - 1])]
  }

  lemma {:induction false} OutcomesAt(cells: seq<Cell>, parse: Cell -> Option<WatchEvent>)
    ensures forall i :: 0 <= i < |cells| ==> Outcomes(cells, parse)[i] == parse(cells[i])
    decreases |cells|
  {
    if cells != [] {
      var n := |cells| - 1;
      OutcomesAt(cells[..n], parse);
      assert forall i :: 0 <= i < n ==> cells[..n][i] == cells[i];
    }
  }

  /** The successes among the outcomes, in order. */
  function Successes(outs: seq<Option<WatchEvent>>): seq<WatchEvent> {
    if outs == [] then []
    else
      var n := |outs| - 1;
      Successes(outs[..n]) + (if outs[n].Some? then [outs[n].value] else [])
  }

  /** The history the source builds: the events of the accepted cells, in cell order. */
  function Collect(cells: seq<Cell>, parseDate: string -> Option<Timestamp>): seq<WatchEvent> {
    Successes(Outcomes(cells, Parser(parseDate)))
  }

  /** The positions of the successes, in ascending order. */
  function SuccessPositions(outs: seq<Option<WatchEvent>>): seq<nat> {
    if outs == [] then []
    else
      var n := |outs| - 1;
      SuccessPositions(outs[..n]) + (if outs[n].Some? then [n] else [])
  }

  /** `parseWatchHistory`: one pass over the cells, pushing the event of every cell that has one. */
  method ParseWatchHistory(cells: seq<Cell>, parseDate: string -> Option<Timestamp>)
    returns (history: seq<WatchEvent>)
    ensures history == Collect(cells, parseDate)
  {
    ghost var outs := Outcomes(cells, Parser(parseDate));
    OutcomesAt(cells, Parser(parseDate));
    history := [];
    for i := 0 to |cells|
      invariant history == Successes(outs[..i])
    {
      SuccessesStep(outs, i);
      var parsed := ParseEntry(cells[i], parseDate);
      if parsed.Some? {
        history := history + [parsed.value];
      }
    }
    assert outs[..|cells|] == outs;
  }

  /** Every event collected is a valid event, and there are no more events than cells. */
  lemma CollectValid(cells: seq<Cell>, parseDate: string -> Option<Timestamp>)
    ensures |Collect(cells, parseDate)| <= |cells|
    ensures forall i :: 0 <= i < |Collect(cells, parseDate)| ==> ValidEvent(Collect(cells, parseDate)[i])
  {
    var history := Collect(cells, parseDate);
    var pos := SuccessPositions(Outcomes(cells, Parser(parseDate)));
    CollectOrder(cells, parseDate);
    forall i | 0 <= i < |history| ensures ValidEvent(history[i]) {
      ParseCellEmits(cells[pos[i]], parseDate);
    }
  }

  lemma SuccessesStep(outs: seq<Option<WatchEvent>>, i: nat)
    requires i < |outs|
    ensures Successes(outs[..i + 1]) == Successes(outs[..i]) + if outs[i].Some? then [outs[i].value] else []
  {
    assert outs[..i + 1][..i] == outs[..i];
  }

  /** The successes are the `Some` outcomes in order: their positions ascend, a position is
      listed exactly when its outcome is `Some`, and each listed outcome holds the
      corresponding success; so there are no more successes than outcomes. */
  lemma SuccessesOrder(outs: seq<Option<WatchEvent>>)
    ensures var events := Successes(outs);
      var pos := SuccessPositions(outs);
      && |events| == |pos| <= |outs|
      && (forall k :: 0 <= k < |pos| ==> pos[k] < |outs|)
      && (forall k, l :: 0 <= k < l < |pos| ==> pos[k] < pos[l])
      && (forall k :: 0 <= k < |pos| ==> outs[pos[k]] == Some(events[k]))
      && (forall i :: 0 <= i < |outs| && outs[i].Some? ==> i in pos)
  {
    PositionsAscend(outs);
    PositionsHold(outs);
    PositionsComplete(outs);
  }

  lemma {:induction false} PositionsAscend(outs: seq<Option<WatchEvent>>)
    ensures var pos := SuccessPositions(outs);
      && |Successes(outs)| == |pos| <= |outs|
      && (forall k :: 0 <= k < |pos| ==> pos[k] < |outs|)
      && (forall k, l :: 0 <= k < l < |pos| ==> pos[k] < pos[l])
    decreases |outs|
  {
    if outs != [] {
      PositionsAscend(outs[..|outs| - 1]);
    }
  }

  lemma {:induction false} PositionsHold(outs: seq<Option<WatchEvent>>)
    ensures var pos := SuccessPositions(outs);
      && |Successes(outs)| == |pos|
      && forall k :: 0 <= k < |pos| ==> pos[k] < |outs| && outs[pos[k]] == Some(Successes(outs)[k])
    decreases |outs|
  {
    if outs != [] {
      var n := |outs| - 1;
      var prefix := outs[..n];
      PositionsHold(prefix);
      PositionsAscend(prefix);
      var pos' := SuccessPositions(prefix);
      var pos := SuccessPositions(outs);
      forall k | 0 <= k < |pos| ensures pos[k] < |outs| && outs[pos[k]] == Some(Successes(outs)[k]) {
        if k < |pos'| {
          assert pos[k] == pos'[k];
          assert outs[pos'[k]] == prefix[pos'[k]];
          assert Successes(outs)[k] == Successes(prefix)[k];
        }
      }
    }
  }

  lemma {:induction false} PositionsComplete(outs: seq<Option<WatchEvent>>)
    ensures forall i :: 0 <= i < |outs| && outs[i].Some? ==> i in SuccessPositions(outs)
    decreases |outs|
  {
    if outs != [] {
      var n := |outs| - 1;
      var prefix := outs[..n];
      PositionsComplete(prefix);
      forall i | 0 <= i < |outs| && outs[i].Some? ensures i in SuccessPositions(outs) {
        if i < n {
          assert outs[i] == prefix[i];
          assert i in SuccessPositions(prefix);
        }
      }
    }
  }

  /** Outcomes contribute independently: the successes of two runs of outcomes are the two
      runs' successes one after the other. */
  lemma {:induction false} SuccessesAppend(a: seq<Option<WatchEvent>>, b: seq<Option<WatchEvent>>)
    ensures Successes(a + b) == Successes(a) + Successes(b)
    decreases |b|
  {
    if b == [] {
      assert a + b == a;
    } else {
      var n := |b| - 1;
      SuccessesAppend(a, b[..n]);
      assert (a + b)[..|a + b| - 1] == a + b[..n];
    }
  }

  /** When every outcome is a success, there is one event per outcome. */
  lemma {:induction false} AllSucceed(outs: seq<Option<WatchEvent>>)
    requires forall i :: 0 <= i < |outs| ==> outs[i].Some?
    ensures |Successes(outs)| == |outs|
    decreases |outs|
  {
    if outs != [] {
      AllSucceed(outs[..|outs| - 1]);
    }
  }

  lemma {:induction false} OutcomesAppend(a: seq<Cell>, b: seq<Cell>, parse: Cell -> Option<WatchEvent>)
    ensures Outcomes(a + b, parse) == Outcomes(a, parse) + Outcomes(b, parse)
    decreases |b|
  {
    if b == [] {
      assert a + b == a;
    } else {
      var n := |b| - 1;
      OutcomesAppend(a, b[..n], parse);
      assert (a + b)[..|a + b| - 1] == a + b[..n];
      assert (a + b)[|a + b| - 1] == b[n];
    }
  }

  /** The history of the cells is the accepted cells' events in cell order, at most one per cell. */
  lemma CollectOrder(cells: seq<Cell>, parseDate: string -> Option<Timestamp>)
    ensures var history := Collect(cells, parseDate);
      var pos := SuccessPositions(Outcomes(cells, Parser(parseDate)));
      && |history| == |pos| <= |cells|
      && (forall k :: 0 <= k < |pos| ==> pos[k] < |cells|)
      && (forall k, l :: 0 <= k < l < |pos| ==> pos[k] < pos[l])
      && (forall k :: 0 <= k < |pos| ==> ParseCell(cells[pos[k]], parseDate) == Some(history[k]))
      && (forall i :: 0 <= i < |cells| && ParseCell(cells[i], parseDate).Some? ==> i in pos)
  {
    OutcomesOrder(cells, Parser(parseDate));
  }

  /** The same for any per-cell outcome. */
  lemma OutcomesOrder(cells: seq<Cell>, parse: Cell -> Option<WatchEvent>)
    ensures var history := Successes(Outcomes(cells, parse));
      var pos := SuccessPositions(Outcomes(cells, parse));
      && |history| == |pos| <= |cells|
      && (forall k :: 0 <= k < |pos| ==> pos[k] < |cells|)
      && (forall k, l :: 0 <= k < l < |pos| ==> pos[k] < pos[l])
      && (forall k :: 0 <= k < |pos| ==> parse(cells[pos[k]]) == Some(history[k]))
      && (forall i :: 0 <= i < |cells| && parse(cells[i]).Some? ==> i in pos)
  {
    SuccessesOrder(Outcomes(cells, parse));
    OutcomesAt(cells, parse);
  }

  /** Cells contribute independently: the history of two runs of cells is the two
      histories one after the other. */
  lemma CollectAppend(a: seq<Cell>, b: seq<Cell>, parseDate: string -> Option<Timestamp>)
    ensures Collect(a + b, parseDate) == Collect(a, parseDate) + Collect(b, parseDate)
  {
    OutcomesAppend(a, b, Parser(parseDate));
    SuccessesAppend(Outcomes(a, Parser(parseDate)), Outcomes(b, Parser(parseDate)));
  }

  /** A rejected cell changes nothing about the events of the others. */
  lemma RejectedCellIsSkipped(a: seq<Cell>, c: Cell, b: seq<Cell>, parseDate: string -> Option<Timestamp>)
    requires ParseCell(c, parseDate) == None
    ensures Collect(a + [c] + b, parseDate) == Collect(a + b, parseDate)
  {
    CollectAppend(a + [c], b, parseDate);
    CollectAppend(a, [c], parseDate);
    CollectAppend(a, b, parseDate);
    assert Outcomes([c], Parser(parseDate)) == [None];
    var rejected: seq<Option<WatchEvent>> := [None];
    assert rejected[..0] == [];
    assert Successes(rejected) == [];
    assert Collect([c], parseDate) == [];
    assert Collect(a, parseDate) + [] == Collect(a, parseDate);
  }

  /** An accepted cell adds exactly its own event, at its place in the order. */
  lemma AcceptedCellIsKept(a: seq<Cell>, c: Cell, b: seq<Cell>, parseDate: string -> Option<Timestamp>)
    requires ParseCell(c, parseDate).Some?
    ensures Collect(a + [c] + b, parseDate)
      == Collect(a, parseDate) + [ParseCell(c, parseDate).value] + Collect(b, parseDate)
  {
    CollectAppend(a + [c], b, parseDate);
    CollectAppend(a, [c], parseDate);
    var o := ParseCell(c, parseDate);
    assert Outcomes([c], Parser(parseDate)) == [o];
    assert [o][..0] == [];
    assert Successes([o]) == [o.value];
  }

  /** When every cell is well formed, there is one event per cell. */
  lemma AllAccepted(cells: seq<Cell>, parseDate: string -> Option<Timestamp>)
    requires forall i :: 0 <= i < |cells| ==> ParseCell(cells[i], parseDate).Some?
    ensures |Collect(cells, parseDate)| == |cells|
  {
    OutcomesAt(cells, Parser(parseDate));
    AllSucceed(Outcomes(cells, Parser(parseDate)));
  }
}

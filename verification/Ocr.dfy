/** The assembly of recognised characters into text events. */
module OcrAssembly {
  import opened Arith
  import opened Canvas
  import opened Events

  /** Vertical extent of a character or of the box an event was created with. */
  datatype Extent = Extent(y: int, h: int)

  /** The texts of events, one after the other. */
  function Texts(events: seq<TextEvent>): string {
    if events == [] then "" else events[0].text + Texts(events[1..])
  }

  lemma {:induction false} TextsAppend(a: seq<TextEvent>, b: seq<TextEvent>)
    ensures Texts(a + b) == Texts(a) + Texts(b)
    decreases |a|
  {
    if a == [] {
      assert a + b == b;
    } else {
      assert (a + b)[1..] == a[1..] + b;
      TextsAppend(a[1..], b);
    }
  }

  /** The event spans exactly from the highest to the lowest pixel row of the extents. */
  predicate IsHull(e: TextEvent, extents: seq<Extent>) {
    && (forall x :: x in extents ==> e.y <= x.y && x.y + x.h <= e.y + e.h)
    && (exists x :: x in extents && x.y == e.y)
    && (exists x :: x in extents && x.y + x.h == e.y + e.h)
  }

  /** Blank space allowed inside a word, in pixels. */
  function MaxBlankSpace(model: Model): int {
    match model
    case Stax => 24
    case Flex => 26
    case _ => 12
  }

  class Ocr {
    const maxBlankSpace: int
    var events: seq<TextEvent>
    ghost var shapes: seq<seq<Extent>>   // for each event, the extents that gave it its shape
    ghost var added: string              // every character and text added so far
    ghost var drained: seq<TextEvent>    // every event given away so far

    ghost predicate Valid()
      reads this
    {
      && |shapes| == |events|
      && (forall i :: 0 <= i < |events| ==> IsHull(events[i], shapes[i]))
      && Texts(drained + events) == added
    }

    constructor (model: Model)
      ensures Valid() && events == [] && drained == [] && added == ""
      ensures maxBlankSpace == if model == Stax then 24 else if model == Flex then 26 else 12
    {
      maxBlankSpace := MaxBlankSpace(model);
      events, shapes, added, drained := [], [], "", [];
    }

    /** Append an event; its text counts as added. */
    method AppendEvent(e: TextEvent)
      requires Valid()
      modifies this`events, this`shapes, this`added
      ensures Valid()
      ensures events == old(events) + [e] && shapes == old(shapes) + [[Extent(e.y, e.h)]]
      ensures added == old(added) + e.text
    {
      TextsAppend(drained + events, [e]);
      assert drained + events + [e] == drained + (events + [e]);
      assert [Extent(e.y, e.h)][0] == Extent(e.y, e.h);
      events := events + [e];
      shapes := shapes + [[Extent(e.y, e.h)]];
      added := added + e.text;
      assert Texts([e]) == e.text;
    }

    /** Change the last event to one whose text is longer by `ch`. */
    ghost method ReplaceLast(was: seq<TextEvent>, e: TextEvent, ch: string, shape: seq<Extent>)
      requires |was| > 0 && |shapes| == |was|
      requires forall i :: 0 <= i < |was| ==> IsHull(was[i], shapes[i])
      requires Texts(drained + was) == added
      requires events == was[..|was| - 1] + [e]
      requires e.text == was[|was| - 1].text + ch && IsHull(e, shape)
      modifies this`shapes, this`added
      ensures Valid()
      ensures shapes == old(shapes)[..|was| - 1] + [shape] && added == old(added) + ch
    {
      var init, last := was[..|was| - 1], was[|was| - 1];
      assert was == init + [last];
      TextsAppend(drained + init, [last]);
      TextsAppend(drained + init, [e]);
      assert drained + was == drained + init + [last] && drained + events == drained + init + [e];
      assert Texts([last]) == last.text && Texts([e]) == e.text;
      shapes := shapes[..|was| - 1] + [shape];
      added := added + ch;
    }

    /** Add a character to the last event: its box grows to the vertical hull, its right edge moves to
        that of the character. */
    method StoreCharInLastEvent(x: int, y: int, w: int, h: int, ch: string)
      requires Valid() && |events| > 0
      modifies this`events, this`shapes, this`added
      ensures Valid() && added == old(added) + ch
      ensures |events| == |old(events)| && events[..|events| - 1] == old(events)[..|events| - 1]
      ensures shapes == old(shapes)[..|events| - 1] + [old(shapes)[|events| - 1] + [Extent(y, h)]]
      ensures
        var last, e := old(events)[|events| - 1], events[|events| - 1];
        e.text == last.text + ch && e.x == last.x && e.x + e.w == x + w && e.clear == last.clear
    {
      ghost var was := events;
      var n := |events| - 1;
      var e := events[n];
      e := e.(text := e.text + ch);
      var x2 := x + w - 1;
      e := e.(w := x2 - e.x + 1);
      var y1 := y;
      if y1 > e.y {
        y1 := e.y;
      }
      var y2 := y + h - 1;
      if y2 < e.y + e.h {
        y2 := e.y + e.h - 1;
      }
      e := e.(y := y1, h := y2 - y1 + 1);
      events := events[..n] + [e];
      HullGrows(was[n], e, shapes[n], Extent(y, h));
      ReplaceLast(was, e, ch, shapes[n] + [Extent(y, h)]);
    }

    static lemma HullGrows(last: TextEvent, e: TextEvent, shape: seq<Extent>, extent: Extent)
      requires IsHull(last, shape)
      requires e.y == Min(last.y, extent.y) && e.y + e.h == Max(last.y + last.h, extent.y + extent.h)
      ensures IsHull(e, shape + [extent])
    {
      var all := shape + [extent];
      var top :| top in shape && top.y == last.y;
      var bottom :| bottom in shape && bottom.y + bottom.h == last.y + last.h;
      assert top in all && bottom in all && all[|shape|] == extent;
    }

    /** Add a character to the last event, or start a new one. */
    method AddCharacter(x: int, y: int, w: int, h: int, ch: string)
      requires Valid()
      modifies this`events, this`shapes, this`added
      ensures Valid() && added == old(added) + ch
      ensures if |old(events)| > 0 && var last := old(events)[|old(events)| - 1];
          && y < last.y + last.h && -maxBlankSpace < x - (last.x + last.w) < maxBlankSpace
        then |events| == |old(events)| && events[..|events| - 1] == old(events)[..|events| - 1]
             && events[|events| - 1].text == old(events)[|events| - 1].text + ch
             && events[|events| - 1].x + events[|events| - 1].w == x + w
             && shapes == old(shapes)[..|events| - 1] + [old(shapes)[|events| - 1] + [Extent(y, h)]]
        else events == old(events) + [TextEvent(ch, x, y, w, h, false)]
             && shapes == old(shapes) + [[Extent(y, h)]]
    {
      if |events| > 0 {
        var last := events[|events| - 1];
        var xDiff := x - (last.x + last.w);
        if xDiff < 0 {
          xDiff := -xDiff;
        }
        if y < last.y + last.h && xDiff < maxBlankSpace {
          StoreCharInLastEvent(x, y, w, h, ch);
          return;
        }
      }
      AppendEvent(TextEvent(ch, x, y, w, h, false));
    }

    /** Add a character recognised from its bitmap, if any: on the line of the last event it joins that
        event without changing its box. */
    method FindBitmap(x: int, y: int, w: int, h: int, ch: string)
      requires Valid()
      modifies this`events, this`shapes, this`added
      ensures Valid() && added == old(added) + ch
      ensures ch == "" ==> events == old(events) && shapes == old(shapes)
      ensures ch != "" ==>
        if |old(events)| > 0 && y <= old(events)[|old(events)| - 1].y
        then var last := old(events)[|old(events)| - 1];
             events == old(events)[..|old(events)| - 1] + [last.(text := last.text + ch)]
             && shapes == old(shapes)
        else events == old(events) + [TextEvent(ch, x, y, w, h, false)]
             && shapes == old(shapes) + [[Extent(y, h)]]
    {
      if ch != "" {
        if |events| > 0 && y <= events[|events| - 1].y {
          ghost var was := events;
          var n := |events| - 1;
          var e := events[n].(text := events[n].text + ch);
          events := events[..n] + [e];
          ReplaceLast(was, e, ch, shapes[n]);
          assert shapes == old(shapes)[..n] + [old(shapes)[n]];
        } else {
          AppendEvent(TextEvent(ch, x, y, w, h, false));
        }
      }
    }

    method AddText(text: string, x: int, y: int, w: int, h: int)
      requires Valid()
      modifies this`events, this`shapes, this`added
      ensures Valid() && added == old(added) + text
      ensures events == old(events) + [TextEvent(text, x, y, w, h, false)] && shapes == old(shapes) + [[Extent(y, h)]]
    {
      AppendEvent(TextEvent(text, x, y, w, h, false));
    }

    /** Hand over all events and forget them. */
    method GetEvents() returns (r: seq<TextEvent>)
      requires Valid()
      modifies this`events, this`shapes, this`drained
      ensures Valid()
      ensures r == old(events) && events == [] && shapes == [] && drained == old(drained) + r
    {
      r := events;
      drained := drained + events;
      events, shapes := [], [];
      assert drained + [] == drained;
    }
  }

  /** The calls on the OCR, in any order. */
  datatype Call =
    | Character(x: int, y: int, w: int, h: int, ch: string)
    | FoundBitmap(x: int, y: int, w: int, h: int, ch: string)
    | Line(text: string, x: int, y: int, w: int, h: int)
    | Drain

  function TextOf(c: Call): string {
    match c
    case Character(_, _, _, _, ch) => ch
    case FoundBitmap(_, _, _, _, ch) => ch
    case Line(text, _, _, _, _) => text
    case Drain => ""
  }

  /** Everything the calls add, in order. */
  function AddedBy(calls: seq<Call>): string {
    if |calls| == 0 then "" else AddedBy(calls[..|calls| - 1]) + TextOf(calls[|calls| - 1])
  }

  // ----- which calls made an event

  /** The extent that a call gives to the event it starts. */
  function Created(c: Call): seq<Extent> {
    match c
    case Character(_, y, _, h, _) => [Extent(y, h)]
    case FoundBitmap(_, y, _, h, _) => [Extent(y, h)]
    case Line(_, _, y, _, h) => [Extent(y, h)]
    case Drain => []
  }

  /** The extent that a call adds to an event that is already there: only a character has one. */
  function Grown(c: Call): seq<Extent> {
    if c.Character? then [Extent(c.y, c.h)] else []
  }

  /** The extents that shape an event: that of the first call and those of all later characters. */
  function ShapeOf(group: seq<Call>): seq<Extent> {
    if |group| == 0 then []
    else if |group| == 1 then Created(group[0])
    else ShapeOf(group[..|group| - 1]) + Grown(group[|group| - 1])
  }

  /** Event i is made by the calls from starts[i] to the start of the next event, or to the end. */
  function GroupEnd(starts: seq<nat>, i: nat, n: nat): nat {
    if i + 1 < |starts| then starts[i + 1] else n
  }

  predicate Ordered(starts: seq<nat>, n: nat) {
    forall i :: 0 <= i < |starts| ==> starts[i] < GroupEnd(starts, i, n) <= n
  }

  function Group(calls: seq<Call>, starts: seq<nat>, i: nat): seq<Call>
    requires Ordered(starts, |calls|) && i < |starts|
  {
    calls[starts[i]..GroupEnd(starts, i, |calls|)]
  }

  /** The event has the texts of its calls, in order, and spans the vertical hull of their extents. */
  predicate MadeBy(e: TextEvent, shape: seq<Extent>, group: seq<Call>) {
    e.text == AddedBy(group) && shape == ShapeOf(group) && IsHull(e, shape)
  }

  /** Events and their shapes are made by consecutive groups of calls. */
  predicate Grouped(events: seq<TextEvent>, shapes: seq<seq<Extent>>, calls: seq<Call>, starts: seq<nat>) {
    && |events| == |shapes| == |starts| && Ordered(starts, |calls|)
    && forall i :: 0 <= i < |events| ==> MadeBy(events[i], shapes[i], Group(calls, starts, i))
  }

  lemma OneMoreCall(group: seq<Call>, c: Call)
    ensures AddedBy(group + [c]) == AddedBy(group) + TextOf(c)
    ensures ShapeOf(group + [c]) == if group == [] then Created(c) else ShapeOf(group) + Grown(c)
  {
    assert (group + [c])[..|group|] == group;
  }

  /** A call that starts an event. */
  lemma StartsGroup(events: seq<TextEvent>, shapes: seq<seq<Extent>>, calls: seq<Call>, starts: seq<nat>,
                    c: Call, e: TextEvent)
    requires Grouped(events, shapes, calls, starts) && e.text == TextOf(c) && IsHull(e, Created(c))
    ensures Grouped(events + [e], shapes + [Created(c)], calls + [c], starts + [|calls|])
  {
    hide IsHull, ShapeOf, AddedBy;
    var starts' := starts + [|calls|];
    OneMoreCall([], c);
    EmptyGroup();
    forall i | 0 <= i < |starts'|
      ensures starts'[i] < GroupEnd(starts', i, |calls| + 1) <= |calls| + 1
    {
      assert i < |starts| ==> starts[i] < GroupEnd(starts, i, |calls|) <= |calls|;
    }
    forall i | 0 <= i < |starts'|
      ensures MadeBy((events + [e])[i], (shapes + [Created(c)])[i], Group(calls + [c], starts', i))
    {
      if i < |starts| {
        assert starts[i] < GroupEnd(starts, i, |calls|) <= |calls|;
        assert Group(calls + [c], starts', i) == Group(calls, starts, i);
      } else {
        assert Group(calls + [c], starts', i) == [] + [c];
      }
    }
  }

  lemma EmptyGroup()
    ensures AddedBy([]) == ""
  {
  }

  /** One more call belongs to the last group. */
  lemma GroupsGrow(calls: seq<Call>, starts: seq<nat>, c: Call)
    requires Ordered(starts, |calls|)
    ensures Ordered(starts, |calls| + 1)
    ensures forall i :: 0 <= i < |starts| - 1 ==> Group(calls + [c], starts, i) == Group(calls, starts, i)
    ensures |starts| > 0 ==> Group(calls + [c], starts, |starts| - 1) == Group(calls, starts, |starts| - 1) + [c]
    ensures forall i :: 0 <= i < |starts| ==> Group(calls, starts, i) != []
  {
    forall i | 0 <= i < |starts|
      ensures starts[i] < GroupEnd(starts, i, |calls|) <= |calls|
      ensures starts[i] < GroupEnd(starts, i, |calls| + 1) <= |calls| + 1
    {
      assert starts[i] < GroupEnd(starts, i, |calls|) <= |calls|;
    }
  }

  /** A call that goes on with the last event. */
  lemma ExtendsGroup(events: seq<TextEvent>, shapes: seq<seq<Extent>>, calls: seq<Call>, starts: seq<nat>,
                     c: Call, e: TextEvent, events': seq<TextEvent>, shapes': seq<seq<Extent>>)
    requires Grouped(events, shapes, calls, starts) && |events| > 0
    requires e.text == events[|events| - 1].text + TextOf(c) && IsHull(e, shapes[|events| - 1] + Grown(c))
    requires |events'| == |shapes'| == |events| && events'[|events| - 1] == e
    requires shapes'[|events| - 1] == shapes[|events| - 1] + Grown(c)
    requires forall i :: 0 <= i < |events| - 1 ==> events'[i] == events[i] && shapes'[i] == shapes[i]
    ensures Grouped(events', shapes', calls + [c], starts)
  {
    hide IsHull, ShapeOf, AddedBy, TextOf, Grown, Group, Ordered, MadeBy;
    GroupsGrow(calls, starts, c);
    var n := |events| - 1;
    MadeByMore(events[n], shapes[n], Group(calls, starts, n), c, e);
    forall i | 0 <= i < |starts|
      ensures MadeBy(events'[i], shapes'[i], Group(calls + [c], starts, i))
    {
      assert MadeBy(events[i], shapes[i], Group(calls, starts, i));
    }
  }

  lemma MadeByMore(e: TextEvent, shape: seq<Extent>, group: seq<Call>, c: Call, e': TextEvent)
    requires MadeBy(e, shape, group) && group != []
    requires e'.text == e.text + TextOf(c) && IsHull(e', shape + Grown(c))
    ensures MadeBy(e', shape + Grown(c), group + [c])
  {
    hide IsHull, ShapeOf, AddedBy, TextOf, Grown;
    OneMoreCall(group, c);
  }

  /** What one call does to the pending events: it starts one, goes on with the last, or does nothing. */
  ghost predicate Absorbed(events: seq<TextEvent>, shapes: seq<seq<Extent>>,
                           events': seq<TextEvent>, shapes': seq<seq<Extent>>, c: Call) {
    && |events'| == |shapes'| && (forall i :: 0 <= i < |events'| ==> IsHull(events'[i], shapes'[i]))
    && var n := |events| - 1;
       || (&& |events'| == |events| + 1 && events' == events + [events'[|events|]]
           && shapes' == shapes + [Created(c)] && events'[|events|].text == TextOf(c))
       || (&& |events| > 0 && |events| == |shapes| == |events'|
           && (forall i :: 0 <= i < n ==> events'[i] == events[i] && shapes'[i] == shapes[i])
           && shapes'[n] == shapes[n] + Grown(c) && events'[n].text == events[n].text + TextOf(c))
       || (events' == events && shapes' == shapes && TextOf(c) == "" && Grown(c) == [])
  }

  lemma Regroup(given: seq<TextEvent>, givenShapes: seq<seq<Extent>>, events: seq<TextEvent>,
                shapes: seq<seq<Extent>>, events': seq<TextEvent>, shapes': seq<seq<Extent>>,
                calls: seq<Call>, starts: seq<nat>, c: Call) returns (starts': seq<nat>)
    requires |given| == |givenShapes| && Grouped(given + events, givenShapes + shapes, calls, starts)
    requires Absorbed(events, shapes, events', shapes', c)
    ensures Grouped(given + events', givenShapes + shapes', calls + [c], starts')
  {
    hide IsHull, MadeBy;
    var all, allShapes := given + events, givenShapes + shapes;
    var n := |events| - 1;
    starts' := starts;
    if |events'| == |events| + 1 {
      StartsGroup(all, allShapes, calls, starts, c, events'[|events|]);
      assert given + events' == all + [events'[|events|]];
      assert givenShapes + shapes' == allShapes + [Created(c)];
      starts' := starts + [|calls|];
    } else if events' == events && shapes' == shapes && TextOf(c) == "" && Grown(c) == [] {
      NothingNew(all, allShapes, calls, starts, c);
    } else {
      ExtendsGroup(all, allShapes, calls, starts, c, events'[n], given + events', givenShapes + shapes');
    }
  }

  lemma NothingNew(events: seq<TextEvent>, shapes: seq<seq<Extent>>, calls: seq<Call>, starts: seq<nat>, c: Call)
    requires Grouped(events, shapes, calls, starts) && TextOf(c) == "" && Grown(c) == []
    ensures Grouped(events, shapes, calls + [c], starts)
  {
    if |events| > 0 {
      var n := |events| - 1;
      var e, shape := events[n], shapes[n];
      LastIsHull(events, shapes, calls, starts);
      hide Grouped, TextOf, Grown, IsHull;
      assert shape + Grown(c) == shape && e.text + TextOf(c) == e.text;
      ExtendsGroup(events, shapes, calls, starts, c, e, events, shapes);
    }
  }

  lemma LastIsHull(events: seq<TextEvent>, shapes: seq<seq<Extent>>, calls: seq<Call>, starts: seq<nat>)
    requires Grouped(events, shapes, calls, starts) && |events| > 0
    ensures |shapes| == |events| && IsHull(events[|events| - 1], shapes[|events| - 1])
  {
    assert MadeBy(events[|events| - 1], shapes[|events| - 1], Group(calls, starts, |events| - 1));
  }

  /** Over any run of calls, the texts drained and those still pending are what was added, in order; and
      every event, drained or pending, is made by a group of consecutive calls: it has their texts and
      spans the vertical hull of the call that started it and of its later characters. */
  method Assemble(model: Model, calls: seq<Call>)
      returns (drained: seq<TextEvent>, pending: seq<TextEvent>, ghost shapes: seq<seq<Extent>>, ghost starts: seq<nat>)
    ensures Texts(drained) + Texts(pending) == AddedBy(calls)
    ensures Grouped(drained + pending, shapes, calls, starts)
  {
    var ocr := new Ocr(model);
    drained, starts := [], [];
    ghost var given := [];
    hide Grouped, ShapeOf;
    NoGroups();
    for i := 0 to |calls|
      invariant fresh(ocr) && ocr.Valid() && ocr.drained == drained
      invariant ocr.added == AddedBy(calls[..i])
      invariant |given| == |drained| && Grouped(drained + ocr.events, given + ocr.shapes, calls[..i], starts)
    {
      assert calls[..i + 1] == calls[..i] + [calls[i]];
      OneMoreCall(calls[..i], calls[i]);
      hide AddedBy, Ocr.Valid;
      if calls[i].Drain? {
        ghost var events, shapes := ocr.events, ocr.shapes;
        NothingNew(drained + events, given + shapes, calls[..i], starts, calls[i]);
        ShapesFit(ocr);
        var r := ocr.GetEvents();
        drained, given := drained + r, given + shapes;
        assert drained + ocr.events == drained && given + ocr.shapes == given;
      } else {
        starts := MakeCall(ocr, calls[i], given, calls[..i], starts);
      }
    }
    assert calls[..|calls|] == calls;
    pending, shapes := ocr.events, given + ocr.shapes;
    TextsAppend(drained, pending);
  }

  lemma NoGroups()
    ensures Grouped([] + [], [] + [], [], [])
  {
  }

  lemma ShapesFit(ocr: Ocr)
    requires ocr.Valid()
    ensures |ocr.shapes| == |ocr.events|
  {
  }

  /** A call that is not a drain. */
  method MakeCall(ocr: Ocr, c: Call, ghost given: seq<seq<Extent>>, ghost calls: seq<Call>, ghost starts: seq<nat>)
      returns (ghost starts': seq<nat>)
    requires ocr.Valid() && !c.Drain?
    requires |given| == |ocr.drained| && Grouped(ocr.drained + ocr.events, given + ocr.shapes, calls, starts)
    modifies ocr
    ensures ocr.Valid() && ocr.drained == old(ocr.drained) && ocr.added == old(ocr.added) + TextOf(c)
    ensures Grouped(ocr.drained + ocr.events, given + ocr.shapes, calls + [c], starts')
  {
    hide Grouped, Absorbed, Ocr.Valid;
    ghost var events, shapes := ocr.events, ocr.shapes;
    Absorb(ocr, c);
    starts' := Regroup(ocr.drained, given, events, shapes, ocr.events, ocr.shapes, calls, starts, c);
  }

  method Absorb(ocr: Ocr, c: Call)
    requires ocr.Valid() && !c.Drain?
    modifies ocr
    ensures ocr.Valid() && ocr.drained == old(ocr.drained) && ocr.added == old(ocr.added) + TextOf(c)
    ensures Absorbed(old(ocr.events), old(ocr.shapes), ocr.events, ocr.shapes, c)
  {
    hide Absorbed, Ocr.Valid, TextOf;
    match c {
      case Character(_, _, _, _, _) => AbsorbCharacter(ocr, c);
      case FoundBitmap(_, _, _, _, _) => AbsorbBitmap(ocr, c);
      case Line(_, _, _, _, _) => AbsorbLine(ocr, c);
    }
  }

  method AbsorbCharacter(ocr: Ocr, c: Call)
    requires ocr.Valid() && c.Character?
    modifies ocr
    ensures ocr.Valid() && ocr.drained == old(ocr.drained) && ocr.added == old(ocr.added) + TextOf(c)
    ensures Absorbed(old(ocr.events), old(ocr.shapes), ocr.events, ocr.shapes, c)
  {
    hide IsHull;
    ghost var events, n := ocr.events, |ocr.events| - 1;
    ocr.AddCharacter(c.x, c.y, c.w, c.h, c.ch);
    if n >= 0 && |ocr.events| == |events| {
      assert ocr.events[..n] == events[..n];
      assert forall i :: 0 <= i < n ==> ocr.events[i] == ocr.events[..n][i] == events[..n][i] == events[i];
    }
  }

  method AbsorbBitmap(ocr: Ocr, c: Call)
    requires ocr.Valid() && c.FoundBitmap?
    modifies ocr
    ensures ocr.Valid() && ocr.drained == old(ocr.drained) && ocr.added == old(ocr.added) + TextOf(c)
    ensures Absorbed(old(ocr.events), old(ocr.shapes), ocr.events, ocr.shapes, c)
  {
    hide IsHull;
    ghost var shapes, n := ocr.shapes, |ocr.events| - 1;
    assert n >= 0 ==> shapes[n] + [] == shapes[n];
    ocr.FindBitmap(c.x, c.y, c.w, c.h, c.ch);
  }

  method AbsorbLine(ocr: Ocr, c: Call)
    requires ocr.Valid() && c.Line?
    modifies ocr
    ensures ocr.Valid() && ocr.drained == old(ocr.drained) && ocr.added == old(ocr.added) + TextOf(c)
    ensures Absorbed(old(ocr.events), old(ocr.shapes), ocr.events, ocr.shapes, c)
  {
    hide IsHull;
    ocr.AddText(c.text, c.x, c.y, c.w, c.h);
  }
}

/**
 * Choosing the gesture to run (simplestroke detect, in both the newer
 * src/simplestroke_detect.c and the older simplestroke_detect.c): every
 * stored template is compared with the captured stroke, template first;
 * the state keeps the lowest score seen that is below stroke_infinity, and
 * the gesture that scored it; detection succeeds when some template scored
 * below stroke_infinity.
 *
 * The templates arrive one by one from the database through a callback:
 * each row's points are copied into a zeroed stroke that is handed to the
 * callback. Here the sequence of templates stands for those rows, in the
 * order the query returns them.
 */
module Detect {
  import opened Wrappers
  import opened Geometry
  import opened Strokes
  import opened Compare
  import opened CStrings

  /** A stored gesture's texts. */
  datatype Gesture = Gesture(description: seq<char>, command: seq<char>)

  /** A stored template, as a row of the gesture table: the points of its
      stroke and its texts. */
  datatype Template = Template(points: seq<Point>, description: seq<char>, command: seq<char>)

  /** A row the stroke buffer can hold, with at least one point. */
  predicate Loadable(t: Template)
  {
    1 <= |t.points| <= MaxStrokePoints
  }

  function Gestures(templates: seq<Template>): (gs: seq<Gesture>)
    ensures |gs| == |templates|
    ensures forall i :: 0 <= i < |gs| ==> gs[i] == Gesture(templates[i].description, templates[i].command)
  {
    seq(|templates|, i requires 0 <= i < |templates| => Gesture(templates[i].description, templates[i].command))
  }

  /** The selection state: the best score so far and its gesture. */
  datatype Choice = Choice(score: real, best: Option<Gesture>)

  /** Before any template: score stroke_infinity, no gesture. */
  const Initial: Choice := Choice(StrokeInfinity, None)

  /** One template with this score: it replaces the best only when its score
      is below stroke_infinity and strictly below the best so far. */
  function Consider(c: Choice, score: real, g: Gesture): (r: Choice)
    ensures r.score <= c.score
    ensures score >= c.score || score >= StrokeInfinity ==> r == c
    ensures r != c ==> r.best == Some(g) && r.score == score < StrokeInfinity
  {
    if score < StrokeInfinity && score < c.score then Choice(score, Some(g)) else c
  }

  /** The state after the templates with these scores, in order. */
  function Select(scores: seq<real>, gs: seq<Gesture>): Choice
    requires |scores| == |gs|
  {
    if scores == [] then Initial
    else Consider(Select(scores[..|scores| - 1], gs[..|gs| - 1]), scores[|scores| - 1], gs[|gs| - 1])
  }

  /** Template i scores below stroke_infinity, strictly below every earlier
      template and no higher than any later one. */
  predicate FirstMinimum(scores: seq<real>, i: int)
  {
    && 0 <= i < |scores| && scores[i] < StrokeInfinity
    && (forall j :: 0 <= j < i ==> scores[j] > scores[i])
    && (forall j :: i < j < |scores| ==> scores[j] >= scores[i])
  }

  /** What the fold's state means after the templates with these scores:
      the first template of lowest score below stroke_infinity, if any. */
  ghost predicate Characterises(scores: seq<real>, gs: seq<Gesture>, r: Choice)
    requires |scores| == |gs|
  {
    && r.score <= StrokeInfinity
    && (r.best.None? <==> forall j :: 0 <= j < |scores| ==> scores[j] >= StrokeInfinity)
    && (r.best.None? ==> r.score == StrokeInfinity)
    && (r.best.Some? ==> exists i :: FirstMinimum(scores, i) && r.score == scores[i] && r.best.value == gs[i])
  }

  /** The fold finds the first template of lowest score below
      stroke_infinity, if there is one; ties keep the earlier template. */
  lemma {:induction false} SelectFirstMinimum(scores: seq<real>, gs: seq<Gesture>)
    requires |scores| == |gs|
    ensures Characterises(scores, gs, Select(scores, gs))
  {
    if scores != [] {
      var k := |scores| - 1;
      SelectFirstMinimum(scores[..k], gs[..k]);
      assert scores == scores[..k] + [scores[k]] && gs == gs[..k] + [gs[k]];
      ConsiderStep(scores[..k], gs[..k], scores[k], gs[k], Select(scores[..k], gs[..k]));
    }
  }

  lemma ConsiderStep(front: seq<real>, fgs: seq<Gesture>, s: real, g: Gesture, prev: Choice)
    requires |front| == |fgs| && Characterises(front, fgs, prev)
    ensures Characterises(front + [s], fgs + [g], Consider(prev, s, g))
  {
    if s < StrokeInfinity && s < prev.score {
      ReplaceStep(front, fgs, s, g, prev);
    } else if prev.best.Some? {
      var i :| FirstMinimum(front, i) && prev.score == front[i] && prev.best.value == fgs[i];
      KeepStep(front, fgs, s, g, i);
    } else {
      assert forall j :: 0 <= j < |front| ==> (front + [s])[j] == front[j];
    }
  }

  /** A template scoring below everything before it becomes the first
      minimum. */
  lemma ReplaceStep(front: seq<real>, fgs: seq<Gesture>, s: real, g: Gesture, prev: Choice)
    requires |front| == |fgs| && Characterises(front, fgs, prev)
    requires s < StrokeInfinity && s < prev.score
    ensures FirstMinimum(front + [s], |front|)
  {
    var scores := front + [s];
    assert forall j :: 0 <= j < |front| ==> scores[j] == front[j];
    if prev.best.Some? {
      var i :| FirstMinimum(front, i) && prev.score == front[i] && prev.best.value == fgs[i];
      assert forall j :: 0 <= j < |front| ==> front[j] >= front[i];
    }
  }

  /** A template scoring no lower than the first minimum leaves it the
      first minimum. */
  lemma KeepStep(front: seq<real>, fgs: seq<Gesture>, s: real, g: Gesture, i: int)
    requires |front| == |fgs| && FirstMinimum(front, i)
    requires !(s < StrokeInfinity && s < front[i])
    ensures FirstMinimum(front + [s], i) && (fgs + [g])[i] == fgs[i]
  {
    var scores := front + [s];
    assert forall j :: 0 <= j < |front| ==> scores[j] == front[j];
  }

  /** The first minimum is unique. */
  lemma FirstMinimumUnique(scores: seq<real>, i: int, j: int)
    requires FirstMinimum(scores, i) && FirstMinimum(scores, j)
    ensures i == j
  {
  }

  /** The best score never increases as templates are added. */
  lemma {:induction false} SelectMonotone(scores: seq<real>, gs: seq<Gesture>, i: nat, j: nat)
    requires |scores| == |gs| && i <= j <= |scores|
    ensures Select(scores[..j], gs[..j]).score <= Select(scores[..i], gs[..i]).score
  {
    if i < j {
      SelectMonotone(scores, gs, i, j - 1);
      assert scores[..j][..j - 1] == scores[..j - 1] && gs[..j][..j - 1] == gs[..j - 1];
    }
  }

  /** The exit status of detect: EXIT_SUCCESS when a template matched,
      EXIT_FAILURE otherwise. */
  function ExitStatus(c: Choice): int
  {
    if c.score < StrokeInfinity then 0 else 1
  }

  /** Detection succeeds exactly when some template scores below
      stroke_infinity, and then a gesture has been chosen. */
  lemma AcceptIffMatch(scores: seq<real>, gs: seq<Gesture>)
    requires |scores| == |gs|
    ensures ExitStatus(Select(scores, gs)) == 0 <==> exists j :: 0 <= j < |scores| && scores[j] < StrokeInfinity
    ensures ExitStatus(Select(scores, gs)) == 0 <==> Select(scores, gs).best.Some?
  {
    SelectFirstMinimum(scores, gs);
  }

  /** The first |scores| templates scored as stroke_compare promises
      against the captured points. */
  ghost predicate AllScored(templates: seq<Template>, pts: seq<Point>, scores: seq<real>)
  {
    |scores| <= |templates| && forall j :: 0 <= j < |scores| ==> Scored(templates[j].points, pts, scores[j])
  }

  /** The next template's score joins the others. */
  lemma ScoredAppend(templates: seq<Template>, pts: seq<Point>, scores: seq<real>, A: seq<Point>, B: seq<Point>, cost: real)
    requires AllScored(templates, pts, scores) && |scores| < |templates|
    requires templates[|scores|].points == A && pts == B && Scored(A, B, cost)
    ensures AllScored(templates, pts, scores + [cost])
  {
  }

  /** Some stored template has exactly the captured points, and these are
      comparable and every segment spans at least epsilon. */
  ghost predicate CopyStored(pts: seq<Point>, templates: seq<Template>)
  {
    Comparable(pts) && Paced(pts) && exists j :: 0 <= j < |templates| && templates[j].points == pts
  }

  /** A stored copy of the capture scores 0 against it, so the decision on
      scores that stroke_compare produced is success. */
  lemma CopyAccepted(templates: seq<Template>, pts: seq<Point>, scores: seq<real>)
    requires |scores| == |templates| && AllScored(templates, pts, scores)
    ensures CopyStored(pts, templates) ==> ExitStatus(Select(scores, Gestures(templates))) == 0
  {
    if CopyStored(pts, templates) {
      var j :| 0 <= j < |templates| && templates[j].points == pts;
      assert scores[j] == 0.0;
      AcceptIffMatch(scores, Gestures(templates));
    }
  }

  // ---------------------------------------------------------------------
  // The newer front end: command and description are heap copies

  /** GestureSelectionState of src/simplestroke_detect.c. */
  class Selection {
    const captured: Stroke
    var score: real
    var command: Option<seq<char>>
    var description: Option<seq<char>>

    ghost predicate Valid()
      reads this
    {
      command.Some? == description.Some?
    }

    /** The state as a Choice. */
    function Current(): Choice
      reads this
    {
      Choice(score, if command.Some? && description.Some? then Some(Gesture(description.value, command.value)) else None)
    }

    /** The initial state: score stroke_infinity, both texts NULL. */
    constructor (captured: Stroke)
      ensures Valid() && Current() == Initial && this.captured == captured
    {
      this.captured := captured;
      score := StrokeInfinity;
      command := None;
      description := None;
    }

    /** load_gestures_cb: compare the template with the captured stroke
        and keep the template if it is the best so far. */
    method LoadGesture(template: Stroke, description: seq<char>, command: seq<char>) returns (cost: real)
      requires Valid() && template.Valid() && template.n >= 1
      requires captured.Valid() && captured.n >= 1
      modifies this
      ensures Valid() && Scored(template.Points(), captured.Points(), cost)
      ensures Current() == Consider(old(Current()), cost, Gesture(description, command))
    {
      ghost var route;
      cost, route := Compare.Compare(template, captured, null, null);
      if cost < StrokeInfinity {
        if cost < score {
          score := cost;
          this.command := Some(command);
          this.description := Some(description);
        }
      }
    }

    /** One step of database_load_gestures: the next row's points are
        copied into a zeroed stroke, which load_gestures_cb compares; its
        score joins those of the rows before it. */
    method LoadRow(templates: seq<Template>, scores: seq<real>) returns (scores': seq<real>)
      requires Valid() && captured.Valid() && captured.n >= 1
      requires |scores| < |templates| && Loadable(templates[|scores|])
      requires AllScored(templates, captured.Points(), scores)
      requires Current() == Select(scores, Gestures(templates)[..|scores|])
      modifies this
      ensures Valid() && |scores'| == |scores| + 1
      ensures AllScored(templates, captured.Points(), scores')
      ensures Current() == Select(scores', Gestures(templates)[..|scores'|])
    {
      var i := |scores|;
      var row := templates[i];
      ghost var pts := captured.Points();
      var stroke := new Stroke.FromPoints(row.points);
      var cost := LoadGesture(stroke, row.description, row.command);
      ScoredAppend(templates, pts, scores, stroke.Points(), captured.Points(), cost);
      ghost var gs := Gestures(templates);
      assert (scores + [cost])[..i] == scores && gs[..i + 1][..i] == gs[..i];
      scores' := scores + [cost];
    }

    /** database_load_gestures with this callback: each row, in order, is
        copied into a zeroed stroke and handed to load_gestures_cb. Returns
        every template's score. */
    method LoadAll(templates: seq<Template>) returns (scores: seq<real>)
      requires Valid() && Current() == Initial && captured.Valid() && captured.n >= 1
      requires forall t :: t in templates ==> Loadable(t)
      modifies this
      ensures Valid() && |scores| == |templates|
      ensures AllScored(templates, captured.Points(), scores)
      ensures Current() == Select(scores, Gestures(templates))
    {
      scores := [];
      while |scores| < |templates|
        invariant Valid() && |scores| <= |templates|
        invariant AllScored(templates, captured.Points(), scores)
        invariant Current() == Select(scores, Gestures(templates)[..|scores|])
        decreases |templates| - |scores|
      {
        assert templates[|scores|] in templates;
        scores := LoadRow(templates, scores);
      }
      assert Gestures(templates)[..|scores|] == Gestures(templates);
    }
  }

  /** simplestroke_detect after recording: the fold over the templates and
      the decision. Returns the exit status, the command to run on success,
      and the score of every template. */
  method Detect(captured: Stroke, templates: seq<Template>)
    returns (status: int, command: Option<seq<char>>, scores: seq<real>)
    requires captured.Valid() && captured.n >= 1
    requires forall t :: t in templates ==> Loadable(t)
    ensures |scores| == |templates| && AllScored(templates, captured.Points(), scores)
    ensures var r := Select(scores, Gestures(templates));
      && status == ExitStatus(r)
      && (status == 0 ==> r.best.Some? && command == Some(r.best.value.command))
      && (status != 0 ==> command == None)
    ensures CopyStored(captured.Points(), templates) ==> status == 0
  {
    var state := new Selection(captured);
    scores := state.LoadAll(templates);
    AcceptIffMatch(scores, Gestures(templates));
    CopyAccepted(templates, captured.Points(), scores);
    if state.score < StrokeInfinity {
      status, command := 0, state.command;
    } else {
      status, command := 1, None;
    }
  }

  // ---------------------------------------------------------------------
  // The older front end: command and description are copied into fixed
  // 2048-character buffers with strlcpy

  const TextBufferSize: nat := 2048

  /** GestureSelectionState of simplestroke_detect.c. The choice is the
      gesture whose texts the buffers hold, cut to their size. */
  class FixedSelection {
    const captured: Stroke
    var score: real
    const command: array<char>
    const description: array<char>
    ghost var choice: Choice

    ghost predicate Valid()
      reads this, command, description
    {
      && command.Length == TextBufferSize && description.Length == TextBufferSize
      && command != description && score == choice.score
      && (choice.best.None? ==> Holds(command, []) && Holds(description, []))
      && (choice.best.Some? ==>
          && Holds(command, Truncate(choice.best.value.command, TextBufferSize))
          && Holds(description, Truncate(choice.best.value.description, TextBufferSize)))
    }

    /** The zero-initialised state: score stroke_infinity, empty texts. */
    constructor (captured: Stroke)
      ensures Valid() && choice == Initial && this.captured == captured
      ensures fresh(command) && fresh(description)
    {
      this.captured := captured;
      score := StrokeInfinity;
      command := new char[TextBufferSize](_ => NUL);
      description := new char[TextBufferSize](_ => NUL);
      choice := Initial;
    }

    /** load_gestures_cb: as in the newer front end, but the texts of a
        better template are copied into the buffers, cut to 2047
        characters. */
    method LoadGesture(template: Stroke, description: seq<char>, command: seq<char>) returns (cost: real)
      requires Valid() && template.Valid() && template.n >= 1
      requires captured.Valid() && captured.n >= 1
      requires NoNul(description) && NoNul(command)
      modifies this, this.command, this.description
      ensures Valid() && Scored(template.Points(), captured.Points(), cost)
      ensures choice == Consider(old(choice), cost, Gesture(description, command))
    {
      ghost var route;
      cost, route := Compare.Compare(template, captured, null, null);
      if cost < StrokeInfinity {
        if cost < score {
          score := cost;
          var _ := Strlcpy(this.command, command, TextBufferSize);
          var _ := Strlcpy(this.description, description, TextBufferSize);
          choice := Choice(cost, Some(Gesture(description, command)));
        }
      }
    }

    /** One step of database_load_gestures, as in the newer front end. */
    method LoadRow(templates: seq<Template>, scores: seq<real>) returns (scores': seq<real>)
      requires Valid() && captured.Valid() && captured.n >= 1
      requires |scores| < |templates| && Loadable(templates[|scores|])
      requires NoNul(templates[|scores|].description) && NoNul(templates[|scores|].command)
      requires AllScored(templates, captured.Points(), scores)
      requires choice == Select(scores, Gestures(templates)[..|scores|])
      modifies this, command, description
      ensures Valid() && |scores'| == |scores| + 1
      ensures AllScored(templates, captured.Points(), scores')
      ensures choice == Select(scores', Gestures(templates)[..|scores'|])
    {
      var i := |scores|;
      var row := templates[i];
      ghost var pts := captured.Points();
      var stroke := new Stroke.FromPoints(row.points);
      var cost := LoadGesture(stroke, row.description, row.command);
      ScoredAppend(templates, pts, scores, stroke.Points(), captured.Points(), cost);
      ghost var gs := Gestures(templates);
      assert (scores + [cost])[..i] == scores && gs[..i + 1][..i] == gs[..i];
      scores' := scores + [cost];
    }

    /** database_load_gestures with this callback, as in the newer front
        end. */
    method LoadAll(templates: seq<Template>) returns (scores: seq<real>)
      requires Valid() && choice == Initial && captured.Valid() && captured.n >= 1
      requires forall t :: t in templates ==> Loadable(t) && NoNul(t.description) && NoNul(t.command)
      modifies this, command, description
      ensures Valid() && |scores| == |templates|
      ensures AllScored(templates, captured.Points(), scores)
      ensures choice == Select(scores, Gestures(templates))
    {
      scores := [];
      while |scores| < |templates|
        invariant Valid() && |scores| <= |templates|
        invariant AllScored(templates, captured.Points(), scores)
        invariant choice == Select(scores, Gestures(templates)[..|scores|])
        decreases |templates| - |scores|
      {
        assert templates[|scores|] in templates;
        scores := LoadRow(templates, scores);
      }
      assert Gestures(templates)[..|scores|] == Gestures(templates);
    }

    /** The command buffer read back as a C string: the chosen command cut
        to the buffer, or empty when nothing was chosen. */
    method Command() returns (text: seq<char>)
      requires Valid()
      ensures choice.best.None? ==> text == []
      ensures choice.best.Some? ==> text == Truncate(choice.best.value.command, TextBufferSize)
    {
      ghost var held := if choice.best.Some? then Truncate(choice.best.value.command, TextBufferSize) else [];
      HoldsStrLen(command, held, TextBufferSize);
      text := command[..StrLen(command[..])];
    }
  }

  /** simplestroke_detect of the older front end: the same decision, and on
      success the command text as the buffer holds it. */
  method FixedDetect(captured: Stroke, templates: seq<Template>)
    returns (status: int, command: seq<char>, scores: seq<real>)
    requires captured.Valid() && captured.n >= 1
    requires forall t :: t in templates ==> Loadable(t) && NoNul(t.description) && NoNul(t.command)
    ensures |scores| == |templates| && AllScored(templates, captured.Points(), scores)
    ensures var r := Select(scores, Gestures(templates));
      && status == ExitStatus(r)
      && (status == 0 ==> r.best.Some? && command == Truncate(r.best.value.command, TextBufferSize))
    ensures CopyStored(captured.Points(), templates) ==> status == 0
  {
    var state := new FixedSelection(captured);
    scores := state.LoadAll(templates);
    AcceptIffMatch(scores, Gestures(templates));
    CopyAccepted(templates, captured.Points(), scores);
    status := if state.score < StrokeInfinity then 0 else 1;
    command := state.Command();
  }
}

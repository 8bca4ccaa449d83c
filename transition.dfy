/** The deck's transition state machine on values: the initial-index rule,
    the target rule of `goToScene`, its synchronous part, the frame flip and
    the completion (wrapped.js, lines 2-6 and 53-94), and the key mapping of
    the input handlers (lines 97-111).  The class `Wrapped.Deck` performs
    the same steps in place and is proved against these functions. */
module Transition {
  import opened Wrappers
  import opened Scenes

  /** The callbacks the host has scheduled for the deck.  `Entering(f, t)`:
      a transition from scene `f` to scene `t` whose frame flip and
      completion are both still due; `Animating(f, t)`: the flip has run and
      only the completion is due; `Stuck`: a call raised the guard and then
      threw before scheduling anything. */
  datatype Pending = AtRest | Entering(from: nat, to: nat) | Animating(from: nat, to: nat) | Stuck

  /** The whole deck: the scenes, `currentScene`, `isTransitioning` and what
      is scheduled. */
  datatype DeckState = DeckState(scenes: seq<Scene>, current: nat, transitioning: bool, pending: Pending)

  /** What a call to `goToScene` did: returned at the guard, returned
      because the target is the current scene, started a transition to
      `target`, or raised the guard and then threw a TypeError (an empty
      deck, or a target index below zero). */
  datatype Outcome = Busy | SameScene | Started(target: nat) | Faulted

  /** The deck's invariant: the index is in range (it is 0 for an empty
      deck), the guard is raised exactly when something is scheduled or the
      deck is stuck, and a scheduled transition leaves the current scene for
      another scene of the deck. */
  predicate Inv(st: DeckState) {
    && (if |st.scenes| == 0 then st.current == 0 else st.current < |st.scenes|)
    && (st.transitioning <==> !st.pending.AtRest?)
    && ((st.pending.Entering? || st.pending.Animating?) ==>
          && st.pending.from == st.current
          && st.pending.to < |st.scenes|
          && st.pending.to != st.current)
  }

  /** `scenes.findIndex((s) => s.classList.contains("active"))`. */
  function FirstActive(scenes: seq<Scene>): (r: int)
    ensures -1 <= r < |scenes|
    ensures r >= 0 ==> Active in scenes[r].classes
    ensures forall j :: 0 <= j < |scenes| && (r < 0 || j < r) ==> Active !in scenes[j].classes
    decreases |scenes|
  {
    if scenes == [] then -1
    else if Active in scenes[0].classes then 0
    else
      var r := FirstActive(scenes[1..]);
      assert forall j :: 1 <= j < |scenes| ==> scenes[j] == scenes[1..][j - 1];
      if r < 0 then -1 else r + 1
  }

  /** The initial `currentScene`: the first scene marked active, or 0 when
      none is. */
  function InitialIndex(scenes: seq<Scene>): (i: nat)
    ensures |scenes| > 0 ==> i < |scenes|
    ensures i < |scenes| ==> forall j :: 0 <= j < i ==> Active !in scenes[j].classes
    ensures (i < |scenes| && Active in scenes[i].classes)
            || (i == 0 && forall j :: 0 <= j < |scenes| ==> Active !in scenes[j].classes)
  {
    var r := FirstActive(scenes);
    if r < 0 then 0 else r
  }

  /** The deck as the page sets it up. */
  function Init(scenes: seq<Scene>): (st: DeckState)
    ensures Inv(st)
    ensures st.scenes == scenes && !st.transitioning && st.pending == AtRest
    ensures st.current == InitialIndex(scenes)
  {
    DeckState(scenes, InitialIndex(scenes), false, AtRest)
  }

  /** JavaScript's `a % b` for a positive `b`: the remainder truncated
      towards zero, which takes the sign of `a`. */
  function JsRemainder(a: int, b: int): (r: int)
    requires b > 0
    ensures -b < r < b
    ensures a >= 0 ==> r >= 0
    ensures a <= 0 ==> r <= 0
    ensures a >= 0 ==> r == a % b
    ensures a == b * JsQuotient(a, b) + r
    ensures (a - r) % b == 0
  {
    var r := if a >= 0 then a % b else -((-a) % b);
    assert a == b * JsQuotient(a, b) + r by {
      if a < 0 {
        var q := (-a) / b;
        assert -a == b * q + (-a) % b;
        assert b * JsQuotient(a, b) == -(b * q);
      }
    }
    ModOfMultiple(b, JsQuotient(a, b));
    r
  }

  /** The quotient of `a / b` truncated towards zero (`Math.trunc`). */
  function JsQuotient(a: int, b: int): int
    requires b > 0
  {
    if a >= 0 then a / b else -((-a) / b)
  }

  /** A multiple of a positive `b` leaves no remainder. */
  lemma ModOfMultiple(b: int, q: int)
    requires b > 0
    ensures (b * q) % b == 0
  {
    var m := b * q;
    var k := q - m / b;
    assert m == b * (m / b) + m % b;
    assert b * k == m % b;
    MulBounds(b, k);
    MulNegative(b, k);
  }

  /** The multiples of a positive `b` below zero. */
  lemma MulNegative(b: int, k: int)
    requires b > 0
    ensures k <= -1 ==> b * k <= -b
  {
    if k <= -1 {
      assert b * k == b * (k + 1) - b;
      MulBounds(b, k + 1);
    }
  }

  /** `(nextIndex + total) % total`; `None` stands for NaN (an empty deck). */
  function TargetIndex(next: int, total: nat): (t: Option<int>)
    ensures t.None? <==> total == 0
    ensures t.Some? ==> -(total as int) < t.value < total
    ensures t.Some? && next >= -(total as int) ==> 0 <= t.value && t.value == (next + total) % total
    ensures t.Some? && next < -(total as int) ==> t.value <= 0
    ensures t.Some? ==> (next + total - t.value) % total == 0
  {
    if total == 0 then None else Some(JsRemainder(next + total, total))
  }

  /** How `goToScene(next)` decides.  A target of -0 behaves as 0 in the
      source, both in `===` and as an index, so the integer 0 stands for
      it. */
  function Decide(transitioning: bool, current: nat, next: int, total: nat): (r: Outcome)
    ensures r.Busy? <==> transitioning
    ensures r.SameScene? <==> !transitioning && TargetIndex(next, total) == Some(current)
    ensures r.Started? ==> r.target < total && r.target != current && TargetIndex(next, total) == Some(r.target)
    ensures r.Faulted? ==> total == 0 || TargetIndex(next, total).value < 0
  {
    if transitioning then Busy
    else
      match TargetIndex(next, total)
      case None => Faulted
      case Some(t) =>
        if t == current then SameScene
        else if 0 <= t < total then Started(t)
        else Faulted
  }

  /** The scenes after the synchronous part of an accepted `goToScene`:
      exit distances on the old scene, "active" and "is-entering" on the
      new one, enter distances on the new one derived from the old one's,
      and "is-leaving" on the old one, in that order. */
  function StartScenes(s: seq<Scene>, from: nat, to: nat, innerHeight: nat): (r: seq<Scene>)
    requires from < |s| && to < |s|
    ensures |r| == |s|
    ensures forall j :: 0 <= j < |s| ==> |r[j].anims| == |s[j].anims|
    ensures forall j :: 0 <= j < |s| && j != from && j != to ==> r[j] == s[j]
    ensures IsLeaving in r[from].classes && Active in r[to].classes && IsEntering in r[to].classes
  {
    var s1 := s[from := ExitScene(s[from])];
    var s2 := s1[to := s1[to].(classes := s1[to].classes + {Active, IsEntering})];
    var s3 := s2[to := EnterScene(s2[from].anims, s2[to], innerHeight + SafetyMargin)];
    s3[from := s3[from].(classes := s3[from].classes + {IsLeaving})]
  }

  /** The scenes after a call that threw after raising the guard: on a
      non-empty deck the exit distances of the current scene were already
      written. */
  function FaultScenes(s: seq<Scene>, current: nat): (r: seq<Scene>)
    ensures |r| == |s|
    ensures current < |s| ==> r[current] == Scene(s[current].classes, ExitAll(s[current].anims))
    ensures forall j :: 0 <= j < |s| && j != current ==> r[j] == s[j]
  {
    if current < |s| then s[current := ExitScene(s[current])] else s
  }

  /** The scenes after the frame flip: "is-entering" removed from the new
      scene. */
  function FlipScenes(s: seq<Scene>, to: nat): (r: seq<Scene>)
    requires to < |s|
    ensures |r| == |s|
    ensures r[to].classes == s[to].classes - {IsEntering} && r[to].anims == s[to].anims
    ensures forall j :: 0 <= j < |s| && j != to ==> r[j] == s[j]
  {
    s[to := s[to].(classes := s[to].classes - {IsEntering})]
  }

  /** The scenes after the completion: "active" and "is-leaving" removed
      from the old scene and its exit distances cleared, then the new
      scene's enter distances cleared. */
  function CompleteScenes(s: seq<Scene>, from: nat, to: nat): (r: seq<Scene>)
    requires from < |s| && to < |s|
    ensures |r| == |s|
    ensures from != to ==> r[from] == Scene(s[from].classes - {Active, IsLeaving}, ClearExits(s[from].anims))
    ensures from != to ==> r[to] == Scene(s[to].classes, ClearEnters(s[to].anims))
    ensures forall j :: 0 <= j < |s| && j != from && j != to ==> r[j] == s[j]
  {
    var s1 := s[from := ClearExitScene(s[from].(classes := s[from].classes - {Active, IsLeaving}))];
    s1[to := ClearEnterScene(s1[to])]
  }

  /** `goToScene(next)` with the viewport height `innerHeight`. */
  function GoTo(st: DeckState, next: int, innerHeight: nat): (r: DeckState)
    requires Inv(st)
    ensures Inv(r)
    ensures r.current == st.current
    ensures st.transitioning ==> r == st
    ensures Decide(st.transitioning, st.current, next, |st.scenes|).SameScene? ==> r == st
    ensures Decide(st.transitioning, st.current, next, |st.scenes|).Started? ==>
      r.transitioning && r.pending == Entering(st.current, Decide(st.transitioning, st.current, next, |st.scenes|).target)
    ensures Decide(st.transitioning, st.current, next, |st.scenes|).Faulted? ==>
      r.transitioning && r.pending == Stuck
  {
    match Decide(st.transitioning, st.current, next, |st.scenes|)
    case Busy => st
    case SameScene => st
    case Faulted =>
      st.(scenes := FaultScenes(st.scenes, st.current), transitioning := true, pending := Stuck)
    case Started(t) =>
      st.(scenes := StartScenes(st.scenes, st.current, t, innerHeight),
          transitioning := true, pending := Entering(st.current, t))
  }

  /** The inner `requestAnimationFrame` callback. */
  function FrameFlip(st: DeckState): (r: DeckState)
    requires Inv(st) && st.pending.Entering?
    ensures Inv(r) && r.pending == Animating(st.pending.from, st.pending.to)
    ensures r.current == st.current && r.transitioning && |r.scenes| == |st.scenes|
    ensures r.scenes[st.pending.to].classes == st.scenes[st.pending.to].classes - {IsEntering}
    ensures forall j :: 0 <= j < |st.scenes| ==> r.scenes[j].anims == st.scenes[j].anims
    ensures forall j :: 0 <= j < |st.scenes| && j != st.pending.to ==> r.scenes[j] == st.scenes[j]
  {
    st.(scenes := FlipScenes(st.scenes, st.pending.to),
        pending := Animating(st.pending.from, st.pending.to))
  }

  /** The `setTimeout` callback: commits the target and drops the guard. */
  function Complete(st: DeckState): (r: DeckState)
    requires Inv(st) && st.pending.Animating?
    ensures Inv(r) && r.pending.AtRest?
    ensures r.current == st.pending.to && !r.transitioning
  {
    DeckState(CompleteScenes(st.scenes, st.pending.from, st.pending.to), st.pending.to, false, AtRest)
  }

  /** The keys that advance and the keys that go back. */
  const NextKeys: set<string> := {"ArrowDown", "ArrowRight", " "}
  const PrevKeys: set<string> := {"ArrowUp", "ArrowLeft"}

  /** The step a key press asks for, if any. */
  function KeyStep(key: string): (d: Option<int>)
    ensures d == Some(1) <==> key in NextKeys
    ensures d == Some(-1) <==> key in PrevKeys
    ensures d.Some? ==> d == Some(1) || d == Some(-1)
  {
    if key in NextKeys then Some(1) else if key in PrevKeys then Some(-1) else None
  }

  /** The keydown handler. */
  function OnKey(st: DeckState, key: string, innerHeight: nat): (r: DeckState)
    requires Inv(st)
    ensures Inv(r)
    ensures KeyStep(key).None? ==> r == st
  {
    match KeyStep(key)
    case Some(d) => GoTo(st, st.current + d, innerHeight)
    case None => st
  }

  /** The click handler: every click advances. */
  function OnClick(st: DeckState, innerHeight: nat): (r: DeckState)
    requires Inv(st)
    ensures Inv(r)
  {
    GoTo(st, st.current + 1, innerHeight)
  }

  // ---------------------------------------------------------------------
  // Properties

  /** Exactly the scene `c` carries "active". */
  predicate OnlyActive(s: seq<Scene>, c: nat) {
    forall j :: 0 <= j < |s| ==> (Active in s[j].classes <==> j == c)
  }

  /** A deck at rest as the markup intends it: only scene `c` is active, no
      scene is entering or leaving, and no element carries an annotation. */
  predicate Tidy(s: seq<Scene>, c: nat) {
    && OnlyActive(s, c)
    && (forall j :: 0 <= j < |s| ==> IsEntering !in s[j].classes && IsLeaving !in s[j].classes)
    && (forall j, k :: 0 <= j < |s| && 0 <= k < |s[j].anims| ==>
          s[j].anims[k].exitY.None? && s[j].anims[k].enterY.None?)
  }

  /** Stepping by one from a valid index: the target is the neighbour
      modulo the deck size, with wrap-around at both ends, and a one-scene
      deck never starts a transition. */
  lemma StepTarget(current: nat, delta: int, total: nat)
    requires current < total && (delta == 1 || delta == -1)
    ensures total == 1 ==> Decide(false, current, current + delta, total) == SameScene
    ensures total > 1 ==> Decide(false, current, current + delta, total) == Started((current + delta + total) % total)
    ensures total > 1 && delta == 1 ==>
      Decide(false, current, current + delta, total) == Started(if current == total - 1 then 0 else current + 1)
    ensures total > 1 && delta == -1 ==>
      Decide(false, current, current + delta, total) == Started(if current == 0 then total - 1 else current - 1)
  {
    var a := current + delta + total;
    var t := if delta == 1 then (if current == total - 1 then 0 else current + 1)
             else (if current == 0 then total - 1 else current - 1);
    assert 0 <= t < total;
    assert a == t || a == t + total || a == t + 2 * total;
    ModShift(t, total);
    assert TargetIndex(current + delta, total) == Some(t);
  }

  /** `(t + k * b) % b == t` for the three shifts a step can produce.
      Stated step by step so that `StepTarget` stays within the resource
      limit on every solver seed: without these facts the solver has to find
      the quotient by nonlinear search, which it does only on some seeds. */
  lemma ModShift(t: int, b: int)
    requires 0 <= t < b
    ensures t % b == t && (t + b) % b == t && (t + 2 * b) % b == t
  {
    ModShiftOnce(t, b);
    ModShiftTwice(t, b);
  }

  lemma ModShiftOnce(t: int, b: int)
    requires 0 <= t < b
    ensures (t + b) % b == t
  {
    var q := (t + b) / b;
    assert t + b == b * q + (t + b) % b;
    MulBounds(b, q);
  }

  lemma ModShiftTwice(t: int, b: int)
    requires 0 <= t < b
    ensures (t + 2 * b) % b == t
  {
    var q := (t + 2 * b) / b;
    assert t + 2 * b == b * q + (t + 2 * b) % b;
    MulBounds(b, q);
  }

  /** The multiples of a positive `b` around `b` and `2 * b`. */
  lemma MulBounds(b: int, q: int)
    requires b > 0
    ensures q <= 0 ==> b * q <= 0
    ensures q == 1 ==> b * q == b
    ensures q == 2 ==> b * q == 2 * b
    ensures q >= 3 ==> b * q >= 3 * b
  {
    if q >= 3 {
      assert b * q == b * (q - 3) + 3 * b;
    }
  }

  /** The shape of the scenes while a transition runs: the old scene has
      "is-leaving" added and its elements carry their exit distances; the
      new scene has "active" and "is-entering" added and its elements carry
      enter distances derived from the old scene's; nothing else changes. */
  lemma StartShape(s: seq<Scene>, from: nat, to: nat, innerHeight: nat)
    requires from < |s| && to < |s| && from != to
    ensures StartScenes(s, from, to, innerHeight)[from]
            == Scene(s[from].classes + {IsLeaving}, ExitAll(s[from].anims))
    ensures StartScenes(s, from, to, innerHeight)[to]
            == Scene(s[to].classes + {Active, IsEntering},
                     EnterAll(ExitAll(s[from].anims), s[to].anims, innerHeight + SafetyMargin))
    ensures forall j :: 0 <= j < |s| && j != from && j != to ==> StartScenes(s, from, to, innerHeight)[j] == s[j]
  {
  }

  /** Distance continuity on the deck: every element of the incoming scene
      enters from `{d}px`, where `d` is the exit distance of its partner in
      the outgoing scene, or `innerHeight + 80` when there is none; and `d`
      is never negative. */
  lemma StartEnterDistances(s: seq<Scene>, from: nat, to: nat, innerHeight: nat, i: nat)
    requires from < |s| && to < |s| && from != to && i < |s[to].anims|
    ensures |StartScenes(s, from, to, innerHeight)[to].anims| == |s[to].anims|
    ensures StartScenes(s, from, to, innerHeight)[to].anims[i].enterY
            == Some(PxString(ExpectedEnter(s[from].anims, i, innerHeight + SafetyMargin)))
    ensures ExpectedEnter(s[from].anims, i, innerHeight + SafetyMargin) >= 0
  {
    StartShape(s, from, to, innerHeight);
    EnterContinuity(s[from].anims, i, innerHeight + SafetyMargin);
  }

  /** What a whole transition leaves behind: the old scene has lost
      "active" and "is-leaving" and all its `--exitY`; the new scene has
      gained "active", has no "is-entering" and no `--enterY`; every other
      class, annotation, geometry and every other scene is as before. */
  lemma CycleEffect(s: seq<Scene>, from: nat, to: nat, innerHeight: nat)
    requires from < |s| && to < |s| && from != to
    ensures var r := CompleteScenes(FlipScenes(StartScenes(s, from, to, innerHeight), to), from, to);
      && |r| == |s|
      && r[from] == Scene(s[from].classes - {Active, IsLeaving}, ClearExits(s[from].anims))
      && r[to] == Scene(s[to].classes + {Active} - {IsEntering}, ClearEnters(s[to].anims))
      && forall j :: 0 <= j < |s| && j != from && j != to ==> r[j] == s[j]
  {
    var s3 := StartScenes(s, from, to, innerHeight);
    StartShape(s, from, to, innerHeight);
    var s4 := FlipScenes(s3, to);
    var r := CompleteScenes(s4, from, to);
    assert ClearExits(ExitAll(s[from].anims)) == ClearExits(s[from].anims);
    assert ClearEnters(EnterAll(ExitAll(s[from].anims), s[to].anims, innerHeight + SafetyMargin))
           == ClearEnters(s[to].anims);
    assert s[from].classes + {IsLeaving} - {Active, IsLeaving} == s[from].classes - {Active, IsLeaving};
    assert s[to].classes + {Active, IsEntering} - {IsEntering} == s[to].classes + {Active} - {IsEntering};
  }

  /** The accepted call leaves `currentScene` alone; the completion commits
      the target and drops the guard; and if only the current scene was
      active, only the target is active afterwards. */
  lemma TransitionCommits(st: DeckState, next: int, innerHeight: nat)
    requires Inv(st) && Decide(st.transitioning, st.current, next, |st.scenes|).Started?
    ensures var t := Decide(st.transitioning, st.current, next, |st.scenes|).target;
      var mid := GoTo(st, next, innerHeight);
      && mid.current == st.current && mid.transitioning && mid.pending == Entering(st.current, t)
      && var done := Complete(FrameFlip(mid));
      && done.current == t && !done.transitioning && done.pending == AtRest
      && (OnlyActive(st.scenes, st.current) ==> OnlyActive(done.scenes, t))
  {
    var t := Decide(st.transitioning, st.current, next, |st.scenes|).target;
    CycleEffect(st.scenes, st.current, t, innerHeight);
  }

  /** A tidy deck goes through a transition with exactly two scenes in
      play (the old one active and leaving, the new one active and
      entering) and comes back tidy, at the new index. */
  lemma TidyTransition(st: DeckState, next: int, innerHeight: nat)
    requires Inv(st) && Tidy(st.scenes, st.current)
    requires Decide(st.transitioning, st.current, next, |st.scenes|).Started?
    ensures var t := Decide(st.transitioning, st.current, next, |st.scenes|).target;
      var mid := GoTo(st, next, innerHeight);
      && (forall j :: 0 <= j < |mid.scenes| ==>
            && (Active in mid.scenes[j].classes <==> j == st.current || j == t)
            && (IsEntering in mid.scenes[j].classes <==> j == t)
            && (IsLeaving in mid.scenes[j].classes <==> j == st.current))
      && Tidy(Complete(FrameFlip(mid)).scenes, t)
  {
    var f := st.current;
    var t := Decide(st.transitioning, st.current, next, |st.scenes|).target;
    StartShape(st.scenes, f, t, innerHeight);
    var mid := GoTo(st, next, innerHeight);
    assert Complete(FrameFlip(mid)).scenes
        == CompleteScenes(FlipScenes(StartScenes(st.scenes, f, t, innerHeight), t), f, t);
    TidyCycle(st.scenes, f, t, innerHeight);
  }

  /** A whole transition on tidy scenes leaves them tidy at the target. */
  lemma TidyCycle(s: seq<Scene>, f: nat, t: nat, innerHeight: nat)
    requires f < |s| && t < |s| && f != t && Tidy(s, f)
    ensures Tidy(CompleteScenes(FlipScenes(StartScenes(s, f, t, innerHeight), t), f, t), t)
  {
    CycleEffect(s, f, t, innerHeight);
    var r := CompleteScenes(FlipScenes(StartScenes(s, f, t, innerHeight), t), f, t);
    forall j, k | 0 <= j < |r| && 0 <= k < |r[j].anims|
      ensures r[j].anims[k].exitY.None? && r[j].anims[k].enterY.None?
    {
      if j == f {
        assert r[j].anims == ClearExits(s[f].anims);
      } else if j == t {
        assert r[j].anims == ClearEnters(s[t].anims);
      }
    }
  }

  /** The animating phase, between the frame flip and the completion: the
      old scene is still active and leaving, the new one is active and no
      longer entering, and every element keeps the annotation the start
      wrote on it. */
  lemma TidyAnimating(st: DeckState, next: int, innerHeight: nat)
    requires Inv(st) && Tidy(st.scenes, st.current)
    requires Decide(st.transitioning, st.current, next, |st.scenes|).Started?
    ensures var t := Decide(st.transitioning, st.current, next, |st.scenes|).target;
      var mid := GoTo(st, next, innerHeight);
      var anim := FrameFlip(mid);
      && anim.current == st.current && anim.transitioning && anim.pending == Animating(st.current, t)
      && |anim.scenes| == |mid.scenes|
      && (forall j :: 0 <= j < |anim.scenes| ==>
            && (Active in anim.scenes[j].classes <==> j == st.current || j == t)
            && IsEntering !in anim.scenes[j].classes
            && (IsLeaving in anim.scenes[j].classes <==> j == st.current)
            && anim.scenes[j].anims == mid.scenes[j].anims)
  {
    var t := Decide(st.transitioning, st.current, next, |st.scenes|).target;
    StartShape(st.scenes, st.current, t, innerHeight);
  }

  /** A deck that threw mid-call ignores every later request. */
  lemma StuckDeckIgnoresInput(st: DeckState, next: int, innerHeight: nat)
    requires Inv(st) && st.pending == Stuck
    ensures GoTo(st, next, innerHeight) == st
    ensures Decide(st.transitioning, st.current, next, |st.scenes|) == Busy
  {
  }

  /** On a one-scene deck every key press and click targets the scene on
      show, so no transition ever starts and the deck is left as it is. */
  lemma OneSceneDeckStaysPut(st: DeckState, key: string, innerHeight: nat)
    requires Inv(st) && |st.scenes| == 1
    ensures OnKey(st, key, innerHeight) == st
    ensures OnClick(st, innerHeight) == st
  {
    if !st.transitioning {
      StepTarget(st.current, 1, 1);
      StepTarget(st.current, -1, 1);
    }
  }

  /** On a one-scene deck every request, however far below `-1`, targets
      scene 0: the truncating `%` gives 0 or `-0`, never a negative index. */
  lemma OneSceneTarget(next: int)
    ensures TargetIndex(next, 1) == Some(0)
    ensures Decide(false, 0, next, 1) == SameScene
  {
  }

  /** Key presses and clicks on a non-empty deck never make the call
      throw. */
  lemma InputNeverFaults(st: DeckState, key: string)
    requires Inv(st) && |st.scenes| > 0
    ensures !Decide(st.transitioning, st.current, st.current + 1, |st.scenes|).Faulted?
    ensures KeyStep(key).Some? ==>
      !Decide(st.transitioning, st.current, st.current + KeyStep(key).value, |st.scenes|).Faulted?
  {
  }

  /** A tidy three-scene deck showing scene 0: one click, the frame flip
      and the completion leave scene 1 showing, the guard down and no
      annotation anywhere. */
  lemma ClickOnThreeScenes(scenes: seq<Scene>, innerHeight: nat)
    requires |scenes| == 3 && Tidy(scenes, 0)
    ensures var mid := OnClick(Init(scenes), innerHeight);
      && mid.pending == Entering(0, 1)
      && var done := Complete(FrameFlip(mid));
      && done.current == 1 && !done.transitioning && Tidy(done.scenes, 1)
  {
    var st := Init(scenes);
    assert st.current == 0;
    StepTarget(0, 1, 3);
    TidyTransition(st, 1, innerHeight);
  }
}

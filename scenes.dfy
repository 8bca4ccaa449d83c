/** Scenes and their animated elements, and the rule that turns the
    outgoing scene's geometry into exit and enter distances
    (wrapped.js, lines 10-51). */
module Scenes {
  import opened Wrappers
  import opened Text

  /** The presentation classes the controller adds and removes. */
  const Active := "active"
  const IsEntering := "is-entering"
  const IsLeaving := "is-leaving"

  /** The safety margin, in pixels, added to every travel distance. */
  const SafetyMargin := 80

  /** An element of a scene that carries the class "anim": the bottom edge
      of its bounding box relative to the viewport (whole pixels), and its
      inline style annotations `--exitY` and `--enterY` (`None` when the
      property is not set). */
  datatype Anim = Anim(bottom: int, exitY: Option<string>, enterY: Option<string>)

  /** A scene container: its class list and its animated elements in
      document order. */
  datatype Scene = Scene(classes: set<string>, anims: seq<Anim>)

  /** The `--exitY` value for travel distance `d`: `-{d}px` (negative means
      upwards). */
  function ExitString(d: int): string {
    "-" + IntToString(d) + "px"
  }

  /** The `--enterY` value for travel distance `d`: `{d}px`. */
  function PxString(d: int): string {
    IntToString(d) + "px"
  }

  function WithExit(a: Anim): Anim {
    a.(exitY := Some(ExitString(a.bottom + SafetyMargin)))
  }

  /** Every element annotated with its exit distance, as `setExitDistances`
      leaves them. */
  function ExitAll(anims: seq<Anim>): seq<Anim> {
    seq(|anims|, i requires 0 <= i < |anims| => WithExit(anims[i]))
  }

  /** Every element with `--exitY` removed, as `clearExitDistances` leaves
      them. */
  function ClearExits(anims: seq<Anim>): seq<Anim> {
    seq(|anims|, i requires 0 <= i < |anims| => anims[i].(exitY := None))
  }

  /** Every element with `--enterY` removed, as `clearEnterDistances` leaves
      them. */
  function ClearEnters(anims: seq<Anim>): seq<Anim> {
    seq(|anims|, i requires 0 <= i < |anims| => anims[i].(enterY := None))
  }

  /** What `parseFloat(v.trim().replace("px", ""))` makes of an element's
      `--exitY`, with `Number.isFinite` applied: an unset property reads as
      the empty string. */
  function ReadExit(v: Option<string>): (r: Option<int>)
    ensures v.None? ==> r.None?
  {
    var raw := if v.Some? then v.value else "";
    ParseFinite(ReplaceFirst(Trim(raw), "px", ""))
  }

  /** The outgoing element that incoming element `i` takes its distance
      from: `prevAnim[i] || prevAnim[0]`. */
  function Paired(prev: seq<Anim>, i: nat): (p: Option<nat>)
    ensures p.Some? <==> |prev| > 0
    ensures p.Some? ==> p.value < |prev|
    ensures p.Some? && i < |prev| ==> p.value == i
    ensures p.Some? && i >= |prev| ==> p.value == 0
  {
    if i < |prev| then Some(i) else if |prev| > 0 then Some(0) else None
  }

  function Abs(n: int): nat {
    if n < 0 then -n else n
  }

  /** The enter distance of incoming element `i`: the magnitude of its
      partner's exit value, or `fallback` when there is no partner or its
      value is not a finite number. */
  function EnterDistance(prev: seq<Anim>, i: nat, fallback: int): (d: int)
    ensures d == fallback || d >= 0  // so never negative when fallback is not ("altijd positief")
    ensures |prev| == 0 ==> d == fallback
  {
    match Paired(prev, i)
    case None => fallback
    case Some(p) =>
      match ReadExit(prev[p].exitY)
      case Some(n) => Abs(n)
      case None => fallback
  }

  /** Every incoming element annotated with its enter distance, as
      `setEnterDistances` leaves them. */
  function EnterAll(prev: seq<Anim>, next: seq<Anim>, fallback: int): seq<Anim> {
    seq(|next|, i requires 0 <= i < |next| =>
      next[i].(enterY := Some(PxString(EnterDistance(prev, i, fallback)))))
  }

  function ExitScene(s: Scene): Scene {
    s.(anims := ExitAll(s.anims))
  }

  function EnterScene(prev: seq<Anim>, s: Scene, fallback: int): Scene {
    s.(anims := EnterAll(prev, s.anims, fallback))
  }

  function ClearExitScene(s: Scene): Scene {
    s.(anims := ClearExits(s.anims))
  }

  function ClearEnterScene(s: Scene): Scene {
    s.(anims := ClearEnters(s.anims))
  }

  /** The intended enter distance, stated on geometry alone: incoming
      element `i` travels as far as its partner travelled out (the partner's
      bottom edge plus the margin), and `fallback` is used only when the
      outgoing scene has no animated elements or that distance is negative. */
  function ExpectedEnter(prev: seq<Anim>, i: nat, fallback: int): int {
    if |prev| == 0 then fallback
    else
      var partner := if i < |prev| then prev[i] else prev[0];
      var d := partner.bottom + SafetyMargin;
      if d >= 0 then d else fallback
  }

  /** Writing an exit distance and reading it back: a non-negative distance
      `d` comes back as `-d`; a negative one is written as `--{|d|}px`,
      which is not a number. */
  lemma ExitRoundTrip(d: int, v: Option<string>)
    requires v == Some(ExitString(d))
    ensures ReadExit(v) == if d >= 0 then Some(-d) else None
  {
    var x := "-" + IntToString(d);
    var s := ExitString(d);
    assert s == x + "px";
    assert s[0] == '-' && s[|s| - 1] == 'x';
    assert TrimStart(s) == s;
    assert Trim(s) == s;
    assert forall k :: 0 <= k < |x| ==> x[k] != 'p' by {
      forall k | 0 <= k < |x| ensures x[k] != 'p' {
        if k > 0 {
          assert x[k] == IntToString(d)[k - 1];
        }
      }
    }
    ReplacePxSuffix(x);
    if d >= 0 {
      assert x == ['-'] + (Digits(d) + []);
      ParseNegative(d, [], x);
    } else {
      assert x == "-" + IntToString(d) + [];
      ParseDoubleMinus(d, []);
    }
  }

  /** Distance continuity: once the outgoing elements carry their exit
      annotations, each incoming element's enter distance is the reference
      distance of its positional partner. */
  lemma EnterContinuity(prev: seq<Anim>, i: nat, fallback: int)
    ensures EnterDistance(ExitAll(prev), i, fallback) == ExpectedEnter(prev, i, fallback)
  {
    var exited := ExitAll(prev);
    if |prev| > 0 {
      var p := if i < |prev| then i else 0;
      assert exited[p].exitY == Some(ExitString(prev[p].bottom + SafetyMargin));
      ContinuityAt(prev, exited, i, fallback, p, prev[p].bottom + SafetyMargin, exited[p].exitY);
    }
  }

  /** Continuity for one incoming element `i`, whose partner at index `p`
      now carries the exit value `v` written for the distance `d`. */
  lemma ContinuityAt(prev: seq<Anim>, exited: seq<Anim>, i: nat, fallback: int, p: nat, d: int, v: Option<string>)
    requires |exited| == |prev| > 0
    requires p == if i < |prev| then i else 0
    requires d == prev[p].bottom + SafetyMargin && v == exited[p].exitY
    requires v == Some(ExitString(d))
    ensures EnterDistance(exited, i, fallback) == ExpectedEnter(prev, i, fallback)
  {
    ExitRoundTrip(d, v);
    DistanceFromPartner(exited, i, fallback, p, v, ReadExit(v));
  }

  /** The enter distance of element `i` in terms of what was read from the
      exit value `v` of its partner at index `p`. */
  lemma DistanceFromPartner(prev: seq<Anim>, i: nat, fallback: int, p: nat, v: Option<string>, r: Option<int>)
    requires Paired(prev, i) == Some(p)
    requires v == prev[p].exitY
    requires ReadExit(v) == r
    ensures EnterDistance(prev, i, fallback) == if r.Some? then Abs(r.value) else fallback
  {
  }
}

/** The controller as the page runs it: the scene list, `currentScene` and
    `isTransitioning` as the fields of one deck object, the distance helpers
    as loops over a scene's elements, and `goToScene` with its two deferred
    callbacks as three methods (wrapped.js).  Every method is proved against
    the functions of `Transition`, where the deck's properties are proved. */
module Wrapped {
  import opened Wrappers
  import opened Scenes
  import opened Transition

  class Deck {
    /** `const scenes`: the scene containers, fixed for the page's lifetime. */
    const scenes: array<Scene>
    var currentScene: nat
    var isTransitioning: bool
    /** The callbacks `goToScene` has handed to the host and that have not run. */
    var pending: Pending

    ghost function State(): DeckState
      reads this, scenes
    {
      DeckState(scenes[..], currentScene, isTransitioning, pending)
    }

    ghost predicate Valid()
      reads this, scenes
    {
      Inv(State())
    }

    /** Module initialisation: collect the scenes and pick the first one
        marked active, or scene 0. */
    constructor (initial: seq<Scene>)
      ensures Valid() && fresh(scenes)
      ensures State() == Init(initial)
    {
      var deck := new Scene[|initial|](i requires 0 <= i < |initial| => initial[i]);
      assert deck[..] == initial;
      scenes := deck;
      var found := FirstActive(initial);
      if found < 0 {
        found := 0;
      }
      currentScene := found;
      isTransitioning := false;
      pending := AtRest;
    }

    /** `setExitDistances(scenes[index])`. */
    method SetExitDistances(index: nat)
      requires index < scenes.Length
      modifies scenes
      ensures scenes[..] == old(scenes[..])[index := ExitScene(old(scenes[index]))]
    {
      ghost var before := scenes[..];
      var scene := scenes[index];
      var k := 0;
      while k < |scene.anims|
        invariant 0 <= k <= |scene.anims|
        invariant scenes[index].classes == scene.classes
        invariant |scenes[index].anims| == |scene.anims|
        invariant forall m :: 0 <= m < k ==> scenes[index].anims[m] == WithExit(scene.anims[m])
        invariant forall m :: k <= m < |scene.anims| ==> scenes[index].anims[m] == scene.anims[m]
        invariant forall j :: 0 <= j < scenes.Length && j != index ==> scenes[j] == before[j]
      {
        var current := scenes[index];
        scenes[index] := current.(anims := current.anims[k := WithExit(current.anims[k])]);
        k := k + 1;
      }
      assert scenes[index] == ExitScene(before[index]);
      assert scenes[..] == before[index := ExitScene(before[index])];
    }

    /** `clearExitDistances(scenes[index])`. */
    method ClearExitDistances(index: nat)
      requires index < scenes.Length
      modifies scenes
      ensures scenes[..] == old(scenes[..])[index := ClearExitScene(old(scenes[index]))]
    {
      ghost var before := scenes[..];
      var scene := scenes[index];
      var k := 0;
      while k < |scene.anims|
        invariant 0 <= k <= |scene.anims|
        invariant scenes[index].classes == scene.classes
        invariant |scenes[index].anims| == |scene.anims|
        invariant forall m :: 0 <= m < k ==> scenes[index].anims[m] == scene.anims[m].(exitY := None)
        invariant forall m :: k <= m < |scene.anims| ==> scenes[index].anims[m] == scene.anims[m]
        invariant forall j :: 0 <= j < scenes.Length && j != index ==> scenes[j] == before[j]
      {
        var current := scenes[index];
        scenes[index] := current.(anims := current.anims[k := current.anims[k].(exitY := None)]);
        k := k + 1;
      }
      assert scenes[index] == ClearExitScene(before[index]);
      assert scenes[..] == before[index := ClearExitScene(before[index])];
    }

    /** `clearEnterDistances(scenes[index])`. */
    method ClearEnterDistances(index: nat)
      requires index < scenes.Length
      modifies scenes
      ensures scenes[..] == old(scenes[..])[index := ClearEnterScene(old(scenes[index]))]
    {
      ghost var before := scenes[..];
      var scene := scenes[index];
      var k := 0;
      while k < |scene.anims|
        invariant 0 <= k <= |scene.anims|
        invariant scenes[index].classes == scene.classes
        invariant |scenes[index].anims| == |scene.anims|
        invariant forall m :: 0 <= m < k ==> scenes[index].anims[m] == scene.anims[m].(enterY := None)
        invariant forall m :: k <= m < |scene.anims| ==> scenes[index].anims[m] == scene.anims[m]
        invariant forall j :: 0 <= j < scenes.Length && j != index ==> scenes[j] == before[j]
      {
        var current := scenes[index];
        scenes[index] := current.(anims := current.anims[k := current.anims[k].(enterY := None)]);
        k := k + 1;
      }
      assert scenes[index] == ClearEnterScene(before[index]);
      assert scenes[..] == before[index := ClearEnterScene(before[index])];
    }

    /** `setEnterDistances(prevScene, scenes[next])` with `window.innerHeight`
        given as `innerHeight`; a missing previous scene is `None`. */
    method SetEnterDistances(prev: Option<nat>, next: nat, innerHeight: nat)
      requires prev.Some? ==> prev.value < scenes.Length
      requires next < scenes.Length
      modifies scenes
      ensures scenes[..] == old(scenes[..])[next := EnterScene(
                if prev.Some? then old(scenes[prev.value].anims) else [],
                old(scenes[next]), innerHeight + SafetyMargin)]
    {
      ghost var before := scenes[..];
      var fallback := innerHeight + SafetyMargin;
      var prevAnim := if prev.Some? then scenes[prev.value].anims else [];
      var scene := scenes[next];
      var i := 0;
      while i < |scene.anims|
        invariant 0 <= i <= |scene.anims|
        invariant scenes[next].classes == scene.classes
        invariant |scenes[next].anims| == |scene.anims|
        invariant forall m :: 0 <= m < i ==>
          scenes[next].anims[m] == scene.anims[m].(enterY := Some(PxString(EnterDistance(prevAnim, m, fallback))))
        invariant forall m :: i <= m < |scene.anims| ==> scenes[next].anims[m] == scene.anims[m]
        invariant forall j :: 0 <= j < scenes.Length && j != next ==> scenes[j] == before[j]
      {
        // the callback's own computation: partner, read-back, fallback
        var dist := EnterDistance(prevAnim, i, fallback);
        var current := scenes[next];
        scenes[next] := current.(anims := current.anims[i := current.anims[i].(enterY := Some(PxString(dist)))]);
        i := i + 1;
      }
      assert scenes[next] == EnterScene(prevAnim, before[next], fallback);
      assert scenes[..] == before[next := EnterScene(prevAnim, before[next], fallback)];
    }

    /** `goToScene(nextIndex)`: its synchronous part, with the frame flip and
        the completion recorded in `pending`. */
    method GoToScene(nextIndex: int, innerHeight: nat) returns (outcome: Outcome)
      requires Valid()
      modifies this, scenes
      ensures Valid()
      ensures outcome == Decide(old(isTransitioning), old(currentScene), nextIndex, scenes.Length)
      ensures State() == GoTo(old(State()), nextIndex, innerHeight)
    {
      if isTransitioning {
        return Busy;
      }
      var total := scenes.Length;
      var target := TargetIndex(nextIndex, total);
      if target == Some(currentScene) {
        return SameScene;
      }
      isTransitioning := true;
      var oldIndex := currentScene;
      if oldIndex >= total {
        // scenes[currentScene] is undefined: setExitDistances throws
        pending := Stuck;
        return Faulted;
      }
      SetExitDistances(oldIndex);
      if target.value < 0 {
        // scenes[targetIndex] is undefined: classList.add throws
        pending := Stuck;
        return Faulted;
      }
      var newIndex: nat := target.value;
      scenes[newIndex] := scenes[newIndex].(classes := scenes[newIndex].classes + {Active, IsEntering});
      SetEnterDistances(Some(oldIndex), newIndex, innerHeight);
      scenes[oldIndex] := scenes[oldIndex].(classes := scenes[oldIndex].classes + {IsLeaving});
      pending := Entering(oldIndex, newIndex);
      outcome := Started(newIndex);
    }

    /** The second `requestAnimationFrame` callback: the new scene may slide
        to its resting place. */
    method FrameFlip()
      requires Valid() && pending.Entering?
      modifies this`pending, scenes
      ensures Valid()
      ensures State() == Transition.FrameFlip(old(State()))
    {
      var newIndex := pending.to;
      scenes[newIndex] := scenes[newIndex].(classes := scenes[newIndex].classes - {IsEntering});
      pending := Animating(pending.from, newIndex);
    }

    /** The `setTimeout` callback after `DURATION`. */
    method Complete()
      requires Valid() && pending.Animating?
      modifies this, scenes
      ensures Valid()
      ensures State() == Transition.Complete(old(State()))
    {
      var oldIndex, newIndex := pending.from, pending.to;
      scenes[oldIndex] := scenes[oldIndex].(classes := scenes[oldIndex].classes - {Active, IsLeaving});
      ClearExitDistances(oldIndex);
      ClearEnterDistances(newIndex);
      currentScene := newIndex;
      isTransitioning := false;
      pending := AtRest;
    }

    /** The keydown listener; `None` when the key is not one the deck
        reacts to. */
    method OnKeyDown(key: string, innerHeight: nat) returns (outcome: Option<Outcome>)
      requires Valid()
      modifies this, scenes
      ensures Valid()
      ensures State() == OnKey(old(State()), key, innerHeight)
      ensures outcome.Some? <==> KeyStep(key).Some?
      ensures outcome.Some? ==>
                outcome.value == Decide(old(isTransitioning), old(currentScene),
                                        old(currentScene) + KeyStep(key).value, scenes.Length)
    {
      outcome := None;
      if key in NextKeys {
        var o := GoToScene(currentScene + 1, innerHeight);
        outcome := Some(o);
      }
      if key in PrevKeys {
        var o := GoToScene(currentScene - 1, innerHeight);
        outcome := Some(o);
      }
    }

    /** The click listener. */
    method OnClick(innerHeight: nat) returns (outcome: Outcome)
      requires Valid()
      modifies this, scenes
      ensures Valid()
      ensures State() == Transition.OnClick(old(State()), innerHeight)
      ensures outcome == Decide(old(isTransitioning), old(currentScene), old(currentScene) + 1, scenes.Length)
    {
      outcome := GoToScene(currentScene + 1, innerHeight);
    }
  }
}

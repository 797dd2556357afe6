/**
 * The deck card of the All Decks list. A long press arms "delete mode",
 * which swaps the card's face for a trash button over a background that
 * disarms it; entering the mode starts a shake and a spring-in of the
 * trash button, leaving it stops both at rest.
 */
module AllDeckCard {
  import opened DeckCard

  /** This card's own copy of the mana colour table. */
  const MANA_COLORS: map<string, string> := map[
    "White" := "#F8F4E3",
    "Blue" := "#4A90E2",
    "Black" := "#2C2C2C",
    "Red" := "#D64541",
    "Green" := "#4CAF50"
  ]

  /** The copied computation draws, for every deck, the same gradient as
      the home card. */
  function GradientColors(deck: Deck): (r: seq<string>)
    ensures r == DeckCard.GradientColors(deck)
    ensures |r| >= 2
  {
    GradientIn(MANA_COLORS, deck.colors)
  }

  // ---------------------------------------------------------------------
  // The interaction state machine.

  /** A gesture on whichever widget is at the touched spot: the card face
      (tap, long press), the delete-mode background, or the trash button. */
  datatype Gesture = Tap | LongPress | BackgroundTap | TrashTap

  /** What a gesture hands back to the parent screen: at most one call. */
  datatype Callback = NoCallback | OnPress(deck: Deck) | OnDelete(deck: Deck)

  /** The face with tap and long press is rendered outside delete mode,
      the background and the trash button inside it; a gesture aimed at a
      widget that is not rendered reaches no handler. */
  predicate Rendered(deleteMode: bool, g: Gesture)
    ensures Rendered(deleteMode, g) <==> (deleteMode <==> g == BackgroundTap || g == TrashTap)
  {
    match g
    case Tap => !deleteMode
    case LongPress => !deleteMode
    case BackgroundTap => deleteMode
    case TrashTap => deleteMode
  }

  /** `deleteMode` after a gesture. */
  function NextMode(deleteMode: bool, g: Gesture): (r: bool)
    ensures r != deleteMode <==> (!deleteMode && g == LongPress) || (deleteMode && g == BackgroundTap)
  {
    if !Rendered(deleteMode, g) then deleteMode
    else match g
      case LongPress => true
      case BackgroundTap => false
      case _ => deleteMode
  }

  /** The callback a gesture fires. */
  function Fired(deck: Deck, deleteMode: bool, g: Gesture): (r: Callback)
    ensures r in {NoCallback, OnPress(deck), OnDelete(deck)}
    ensures r == OnPress(deck) <==> g == Tap && !deleteMode
    ensures r == OnDelete(deck) <==> g == TrashTap && deleteMode
  {
    if !Rendered(deleteMode, g) then NoCallback
    else match g
      case Tap => OnPress(deck)
      case TrashTap => OnDelete(deck)
      case _ => NoCallback
  }

  /** The transition table, gesture by gesture: a tap is ignored in delete
      mode and otherwise calls `onPress` with the card's deck; a long press
      arms; a background tap disarms; a trash tap calls `onDelete` with the
      card's deck and leaves the mode alone. */
  lemma Transitions(deck: Deck, deleteMode: bool, g: Gesture)
    ensures g == Tap ==>
      NextMode(deleteMode, g) == deleteMode
      && Fired(deck, deleteMode, g) == (if deleteMode then NoCallback else OnPress(deck))
    ensures g == LongPress && !deleteMode ==> NextMode(deleteMode, g) && Fired(deck, deleteMode, g) == NoCallback
    ensures g == BackgroundTap && deleteMode ==> !NextMode(deleteMode, g) && Fired(deck, deleteMode, g) == NoCallback
    ensures g == TrashTap && deleteMode ==> NextMode(deleteMode, g) && Fired(deck, deleteMode, g) == OnDelete(deck)
    ensures Fired(deck, deleteMode, g) in {NoCallback, OnPress(deck), OnDelete(deck)}
  {
  }

  /** `deleteMode` after a sequence of gestures on a freshly mounted card. */
  function ModeAfter(gs: seq<Gesture>): bool {
    if gs == [] then false else NextMode(ModeAfter(gs[..|gs| - 1]), gs[|gs| - 1])
  }

  /** The callbacks a sequence of gestures fires, one slot per gesture. */
  function CallbacksOf(deck: Deck, gs: seq<Gesture>): (r: seq<Callback>)
    ensures |r| == |gs|
  {
    if gs == [] then []
    else CallbacksOf(deck, gs[..|gs| - 1]) + [Fired(deck, ModeAfter(gs[..|gs| - 1]), gs[|gs| - 1])]
  }

  /** A long press that no later background tap has cancelled. */
  ghost predicate Armed(gs: seq<Gesture>) {
    exists i :: 0 <= i < |gs| && gs[i] == LongPress
      && forall j :: i < j < |gs| ==> gs[j] != BackgroundTap
  }

  /** A card is in delete mode exactly when it has been long-pressed since
      mount and not dismissed by a background tap since. */
  lemma {:induction false} ModeAfterIsArmed(gs: seq<Gesture>)
    ensures ModeAfter(gs) <==> Armed(gs)
  {
    if gs != [] {
      var pre, g := gs[..|gs| - 1], gs[|gs| - 1];
      ModeAfterIsArmed(pre);
      if g == LongPress {
        assert gs[|gs| - 1] == LongPress;
      } else if g == BackgroundTap {
        assert gs[|gs| - 1] == BackgroundTap;
      } else {
        if Armed(pre) {
          var i :| 0 <= i < |pre| && pre[i] == LongPress
            && forall j :: i < j < |pre| ==> pre[j] != BackgroundTap;
          assert gs[i] == LongPress;
        }
        if Armed(gs) {
          var i :| 0 <= i < |gs| && gs[i] == LongPress
            && forall j :: i < j < |gs| ==> gs[j] != BackgroundTap;
          assert pre[i] == LongPress;
        }
      }
    }
  }

  /** Slot k of the callbacks is what gesture k fires in the mode the
      gestures before it left. */
  lemma {:induction false} CallbackAt(deck: Deck, gs: seq<Gesture>, k: nat)
    requires k < |gs|
    ensures CallbacksOf(deck, gs)[k] == Fired(deck, ModeAfter(gs[..k]), gs[k])
  {
    var pre := gs[..|gs| - 1];
    if k < |gs| - 1 {
      CallbackAt(deck, pre, k);
      assert pre[..k] == gs[..k];
    } else {
      if |pre| > 0 { CallbackAt(deck, pre, 0); }
      assert pre == gs[..k];
    }
  }

  /** The trash button calls `onDelete`, with this card's deck, exactly when
      it is tapped while the card is armed; a tap calls `onPress`, with this
      card's deck, exactly when the card is not armed; nothing else calls
      back. */
  lemma GestureCallbacks(deck: Deck, gs: seq<Gesture>, k: nat)
    requires k < |gs|
    ensures CallbacksOf(deck, gs)[k] == OnDelete(deck) <==> gs[k] == TrashTap && Armed(gs[..k])
    ensures CallbacksOf(deck, gs)[k] == OnPress(deck) <==> gs[k] == Tap && !Armed(gs[..k])
    ensures CallbacksOf(deck, gs)[k] in {NoCallback, OnPress(deck), OnDelete(deck)}
  {
    CallbackAt(deck, gs, k);
    ModeAfterIsArmed(gs[..k]);
  }

  // ---------------------------------------------------------------------
  // The card as a component instance.

  /** The discrete state of an animated value: at rest at a value,
      springing from a value toward a target, or running the shake loop. */
  datatype Animation = Resting(value: real) | Springing(from: real, target: real) | ShakeLoop

  class Card {
    const deck: Deck
    var deleteMode: bool
    var shake: Animation
    var trashScale: Animation
    var hapticPulses: nat

    /** The effect keyed on `deleteMode` has run for the current mode. */
    ghost predicate Valid()
      reads this
    {
      if deleteMode then shake == ShakeLoop && trashScale == Springing(0.0, 1.0)
      else shake == Resting(0.0) && trashScale == Resting(0.0)
    }

    /** Mounting: not in delete mode; the effect runs once for it. */
    constructor (deck: Deck)
      ensures this.deck == deck && !deleteMode && hapticPulses == 0
      ensures shake == Resting(0.0) && trashScale == Resting(0.0)
      ensures Valid()
    {
      this.deck := deck;
      deleteMode := false;
      shake := Resting(0.0);
      trashScale := Resting(0.0);
      hapticPulses := 0;
      new;
      DeleteModeEffect();
    }

    /** The effect run after `deleteMode` changes. Entering: a haptic pulse,
        the shake loop, and the trash button reset to 0 then sprung toward 1.
        Leaving: the shake stopped and both values set back to 0. */
    method DeleteModeEffect()
      modifies this`shake, this`trashScale, this`hapticPulses
      ensures Valid()
      ensures deleteMode ==> shake == ShakeLoop && trashScale == Springing(0.0, 1.0)
      ensures !deleteMode ==> shake == Resting(0.0) && trashScale == Resting(0.0)
      ensures hapticPulses == old(hapticPulses) + (if deleteMode then 1 else 0)
    {
      if deleteMode {
        hapticPulses := hapticPulses + 1;
        shake := ShakeLoop;
        trashScale := Resting(0.0);
        trashScale := Springing(trashScale.value, 1.0);
      } else {
        shake := Resting(0.0);
        trashScale := Resting(0.0);
      }
    }

    /** `setDeleteMode(on)`: the effect runs only when the value changes. */
    method SetDeleteMode(on: bool)
      requires Valid()
      modifies this`deleteMode, this`shake, this`trashScale, this`hapticPulses
      ensures Valid() && deleteMode == on
      ensures hapticPulses == old(hapticPulses) + (if on && !old(deleteMode) then 1 else 0)
      ensures on == old(deleteMode) ==> unchanged(this)
    {
      if on != deleteMode {
        deleteMode := on;
        DeleteModeEffect();
      }
    }

    /** The face's tap handler: ignored in delete mode, otherwise calls
        `onPress` with this card's deck once the press animation ends. */
    method AnimatePress() returns (cb: Callback)
      ensures cb == if deleteMode then NoCallback else OnPress(deck)
    {
      if deleteMode {
        return NoCallback;
      }
      cb := OnPress(deck);
    }

    /** The face's long-press handler. */
    method HandleLongPress()
      requires Valid()
      modifies this`deleteMode, this`shake, this`trashScale, this`hapticPulses
      ensures Valid() && deleteMode
      ensures hapticPulses == old(hapticPulses) + (if old(deleteMode) then 0 else 1)
    {
      SetDeleteMode(true);
    }

    /** The delete-mode background's tap handler. */
    method HandleBackgroundTap()
      requires Valid()
      modifies this`deleteMode, this`shake, this`trashScale, this`hapticPulses
      ensures Valid() && !deleteMode
      ensures shake == Resting(0.0) && trashScale == Resting(0.0)
      ensures hapticPulses == old(hapticPulses)
    {
      SetDeleteMode(false);
    }

    /** The trash button's tap handler: calls `onDelete` and leaves the
        mode to the parent's staged deletion. */
    method HandleTrashTap() returns (cb: Callback)
      ensures cb == OnDelete(deck)
    {
      cb := OnDelete(deck);
    }

    /** Delivers a gesture to the widget the current mode renders. */
    method Dispatch(g: Gesture) returns (cb: Callback)
      requires Valid()
      modifies this`deleteMode, this`shake, this`trashScale, this`hapticPulses
      ensures Valid()
      ensures deleteMode == NextMode(old(deleteMode), g)
      ensures cb == Fired(deck, old(deleteMode), g)
      ensures hapticPulses == old(hapticPulses) + (if deleteMode && !old(deleteMode) then 1 else 0)
    {
      cb := NoCallback;
      if !deleteMode {
        match g
        case Tap => cb := AnimatePress();
        case LongPress => HandleLongPress();
        case _ =>
      } else {
        match g
        case BackgroundTap => HandleBackgroundTap();
        case TrashTap => cb := HandleTrashTap();
        case _ =>
      }
    }
  }

  /** Mounting a card and replaying gestures on it fires exactly the
      callbacks the state machine predicts and leaves the mode it predicts. */
  method Replay(deck: Deck, gs: seq<Gesture>) returns (fired: seq<Callback>, deleteMode: bool)
    ensures fired == CallbacksOf(deck, gs)
    ensures deleteMode == ModeAfter(gs)
  {
    var card := new Card(deck);
    fired := [];
    var n := 0;
    while n < |gs|
      invariant 0 <= n <= |gs|
      invariant card.Valid() && card.deck == deck
      invariant fired == CallbacksOf(deck, gs[..n])
      invariant card.deleteMode == ModeAfter(gs[..n])
    {
      assert gs[..n + 1][..n] == gs[..n];
      var cb := card.Dispatch(gs[n]);
      fired := fired + [cb];
      n := n + 1;
    }
    assert gs[..n] == gs;
    deleteMode := card.deleteMode;
  }
}

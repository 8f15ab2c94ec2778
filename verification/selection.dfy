/**
  The text-selection automaton of the viewer: a four-state machine driven by
  touch actions that records the rectangle the user drags out.

  Touch coordinates arrive already truncated to integers, and the dialog and
  controller calls the automaton makes are reduced to an `Effect` value that
  says which of them a transition triggers.
 */
module Selection {
  import opened Wrappers

  /** `MotionEvent.ACTION_DOWN` and `MotionEvent.ACTION_UP`. */
  const ACTION_DOWN: int := 0
  const ACTION_UP: int := 1

  datatype State = Start | Moving | End | Canceled

  /** A selection is under way: touches are consumed. */
  predicate Active(s: State) {
    s == Start || s == Moving
  }

  /** What a touch asks of the surrounding dialog when the state changes. */
  datatype Effect =
    | NoEffect
      /** the selection was abandoned: the dialog is dismissed */
    | Dismiss
      /** the drag ended: the controller is asked for the text in this rectangle */
    | SelectText(x: int, y: int, width: int, height: int)

  /** What happens with the text the controller found in a finished selection. */
  datatype Reaction =
    | LookUpInDictionary(text: string)
    | ShowTextActions(text: string)
    | WarnNoText

  /** The state component of `onTouch`. */
  function NextState(s: State, action: int): (t: State)
    ensures !Active(s) ==> t == s
    ensures t != Start
    ensures t == Moving <==> (s == Start && action == ACTION_DOWN) || (s == Moving && action != ACTION_UP)
    ensures t == End <==> s == End || (s == Moving && action == ACTION_UP)
    ensures t == Canceled <==> s == Canceled || (s == Start && action != ACTION_DOWN)
  {
    match s
    case Start => if action == ACTION_DOWN then Moving else Canceled
    case Moving => if action == ACTION_UP then End else Moving
    case _ => s
  }

  /** The state after a whole gesture. */
  function Run(s: State, actions: seq<int>): State
    decreases |actions|
  {
    if actions == [] then s else Run(NextState(s, actions[0]), actions[1..])
  }

  /** END and CANCELED are absorbing: no sequence of touches leaves them. */
  lemma {:induction false} RunAbsorbing(s: State, actions: seq<int>)
    requires !Active(s)
    ensures Run(s, actions) == s
  {
    if actions != [] {
      RunAbsorbing(NextState(s, actions[0]), actions[1..]);
    }
  }

  /** While moving, the gesture ends exactly at the first ACTION_UP. */
  lemma {:induction false} RunFromMoving(actions: seq<int>)
    ensures Run(Moving, actions) == if ACTION_UP in actions then End else Moving
  {
    if actions != [] {
      if actions[0] == ACTION_UP {
        RunAbsorbing(End, actions[1..]);
      } else {
        RunFromMoving(actions[1..]);
        assert ACTION_UP in actions <==> ACTION_UP in actions[1..];
      }
    }
  }

  /**
    A selection started by `startSelection` succeeds exactly when the gesture
    opens with ACTION_DOWN and some later action is ACTION_UP; any other first
    action cancels it.
   */
  lemma RunFromStart(actions: seq<int>)
    ensures Run(Start, actions) ==
      if actions == [] then Start
      else if actions[0] != ACTION_DOWN then Canceled
      else if ACTION_UP in actions[1..] then End
      else Moving
  {
    if actions != [] {
      if actions[0] == ACTION_DOWN {
        RunFromMoving(actions[1..]);
      } else {
        RunAbsorbing(Canceled, actions[1..]);
      }
    }
  }

  /** Every reaction closes the dialog except the list of text actions, which keeps it. */
  predicate DismissesDialog(r: Reaction) {
    !r.ShowTextActions?
  }

  /**
    The follow-up once the controller returned the selected text (None for
    null). The dialog stays open only when non-empty text was selected in
    free-text mode.
   */
  function ReactToSelectedText(text: Option<string>, isSingleWord: bool): (r: Reaction)
    ensures r == WarnNoText <==> text == None || text == Some("")
    ensures r.LookUpInDictionary? <==> r != WarnNoText && isSingleWord
    ensures r != WarnNoText ==> text == Some(r.text)
    ensures !DismissesDialog(r) <==> text.Some? && text.value != "" && !isSingleWord
  {
    if text.Some? && text.value != "" then
      if isSingleWord then LookUpInDictionary(text.value) else ShowTextActions(text.value)
    else
      WarnNoText
  }

  class SelectionAutomata {
    /** Extra margin, in pixels, by which a single-word selection is widened. */
    const singleWordArea: int

    var state: State
    var startX: int
    var startY: int
    var width: int
    var height: int
    var isSingleWord: bool

    constructor (singleWordArea: int)
      ensures this.singleWordArea == singleWordArea
      ensures state == Canceled && !isSingleWord
      ensures startX == 0 && startY == 0 && width == 0 && height == 0
    {
      this.singleWordArea := singleWordArea;
      state := Canceled;
      startX, startY, width, height := 0, 0, 0, 0;
      isSingleWord := false;
    }

    /** Consumes one touch at (x, y); `handled` is what the listener returns. */
    method OnTouch(action: int, x: int, y: int) returns (handled: bool, effect: Effect)
      modifies this
      ensures handled == Active(old(state))
      ensures state == NextState(old(state), action)
      ensures isSingleWord == old(isSingleWord)
      ensures old(state) == Start && action == ACTION_DOWN ==>
        startX == x && startY == y && width == 0 && height == 0
      ensures old(state) == Moving ==>
        startX == old(startX) && startY == old(startY) && width == x - startX && height == y - startY
      ensures old(state) != Moving && !(old(state) == Start && action == ACTION_DOWN) ==>
        startX == old(startX) && startY == old(startY) && width == old(width) && height == old(height)
      ensures effect ==
        if state == old(state) || state == Moving then NoEffect
        else if state == Canceled then Dismiss
        else SelectText(GetStartX(), GetStartY(), GetWidth(), GetHeight())
    {
      var oldState := state;
      handled := true;
      match state {
        case Start =>
          if action == ACTION_DOWN {
            startX := x;
            startY := y;
            width := 0;
            height := 0;
            state := Moving;
          } else {
            state := Canceled;
          }
        case Moving =>
          width := x - startX;
          height := y - startY;
          if action == ACTION_UP {
            state := End;
          }
        case _ =>
          handled := false;
      }
      effect := NoEffect;
      if oldState != state {
        if state == Canceled {
          effect := Dismiss;
        } else if state == End {
          effect := SelectText(GetStartX(), GetStartY(), GetWidth(), GetHeight());
        }
      }
    }

    /** Opens a new selection, in word or free-text mode. */
    method StartSelection(isSingleWord: bool)
      modifies this
      ensures state == Start && this.isSingleWord == isSingleWord
      ensures startX == old(startX) && startY == old(startY)
      ensures width == old(width) && height == old(height)
    {
      state := Start;
      this.isSingleWord := isSingleWord;
    }

    predicate InSelection()
      reads this
      ensures InSelection() <==> state != End && state != Canceled
    {
      state == Start || state == Moving
    }

    predicate IsSuccessful()
      reads this
      ensures IsSuccessful() ==> !InSelection()
    {
      state == End
    }

    /** Left edge of the reported selection; widening never moves the right edge. */
    function GetStartX(): (r: int)
      reads this
      ensures r + GetWidth() == startX + width
      ensures isSingleWord || r == startX
    {
      if isSingleWord then startX - singleWordArea else startX
    }

    function GetStartY(): (r: int)
      reads this
      ensures r + GetHeight() == startY + height
      ensures isSingleWord || r == startY
    {
      if isSingleWord then startY - singleWordArea else startY
    }

    function GetWidth(): (r: int)
      reads this
      ensures isSingleWord || r == width
    {
      if isSingleWord then width + singleWordArea else width
    }

    function GetHeight(): (r: int)
      reads this
      ensures isSingleWord || r == height
    {
      if isSingleWord then height + singleWordArea else height
    }

    /**
      In single-word mode the reported rectangle is the dragged one pushed out
      by `singleWordArea` on its left and top sides only.
     */
    lemma SingleWordWidening()
      requires isSingleWord
      ensures GetStartX() == startX - singleWordArea && GetStartY() == startY - singleWordArea
      ensures GetWidth() == width + singleWordArea && GetHeight() == height + singleWordArea
      ensures singleWordArea >= 0 ==> GetStartX() <= startX && GetStartY() <= startY
    {
    }
  }
}

/**
 * The receiver of components/Receiver.tsx: a shared tree shown read-only, lit while the
 * visitor holds the press-to-light button, with a hint overlay until the first press.
 */
module ReceiverModel {
  import opened TreeTypes
  import opened TreeView

  /** The two display flags. */
  datatype RevealState = RevealState(isRevealing: bool, hasInteracted: bool)

  /** Pointer down (Press) and pointer up or leave (Release) on the button. */
  datatype PointerEvent = Press | Release

  const Initial: RevealState := RevealState(false, false)

  /** One handler: a press lights the tree and records the interaction, a release darkens it. */
  function Step(st: RevealState, ev: PointerEvent): (r: RevealState)
    ensures ev == Press ==> r.isRevealing && r.hasInteracted
    ensures ev == Release ==> !r.isRevealing && r.hasInteracted == st.hasInteracted
  {
    match ev
    case Press => RevealState(true, true)
    case Release => st.(isRevealing := false)
  }

  /** The state after a sequence of events, in order. */
  function Run(st: RevealState, evs: seq<PointerEvent>): (r: RevealState)
    ensures evs != [] ==> r.isRevealing == (evs[|evs| - 1] == Press)
  {
    if evs == [] then st else Step(Run(st, evs[..|evs| - 1]), evs[|evs| - 1])
  }

  /** The hint overlay condition: never interacted and not lit. */
  predicate HintVisible(st: RevealState)
  {
    !st.hasInteracted && !st.isRevealing
  }

  /** Once set, the interaction flag stays set, and it is set by any press. */
  lemma {:induction false} InteractionIsSticky(st: RevealState, evs: seq<PointerEvent>)
    ensures st.hasInteracted ==> Run(st, evs).hasInteracted
    ensures Press in evs ==> Run(st, evs).hasInteracted
    ensures Press !in evs ==> Run(st, evs).hasInteracted == st.hasInteracted
  {
    if evs != [] {
      var init := evs[..|evs| - 1];
      InteractionIsSticky(st, init);
      assert evs == init + [evs[|evs| - 1]];
    }
  }

  /** From the initial state the hint is shown exactly until the first press. */
  lemma HintUntilFirstPress(evs: seq<PointerEvent>)
    ensures HintVisible(Run(Initial, evs)) <==> Press !in evs
  {
    InteractionIsSticky(Initial, evs);
    if Press !in evs && evs != [] {
      assert evs[|evs| - 1] in evs;
    }
  }

  /** The receiver component: the shared record, which it never changes, and the two flags. */
  class Receiver {
    const data: TreeData
    var isRevealing: bool
    var hasInteracted: bool

    function State(): (r: RevealState)
      reads this
      ensures r.isRevealing == isRevealing && r.hasInteracted == hasInteracted
    {
      RevealState(isRevealing, hasInteracted)
    }

    constructor (data: TreeData)
      ensures this.data == data
      ensures State() == Initial
    {
      this.data := data;
      isRevealing := false;
      hasInteracted := false;
    }

    /** `handleStart` */
    method HandleStart()
      modifies this
      ensures isRevealing && hasInteracted
      ensures State() == Step(old(State()), Press)
    {
      isRevealing := true;
      hasInteracted := true;
    }

    /** `handleEnd` */
    method HandleEnd()
      modifies this
      ensures !isRevealing && hasInteracted == old(hasInteracted)
      ensures State() == Step(old(State()), Release)
    {
      isRevealing := false;
    }

    /** Whether the hint overlay is drawn. */
    function ShowsHint(): (r: bool)
      reads this
      ensures r <==> HintVisible(State())
    {
      !hasInteracted && !isRevealing
    }
  }

  /** The receiver's tree is drawn without highlight mode, so no click reaches a handler. */
  lemma ReceiverTreeIgnoresClicks(item: TreeChar)
    ensures ClickTarget(item, false, false) == None
  {
  }
}

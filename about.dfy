/**
 * The about page (about.js): the mission/vision tabs, whose buttons and panes
 * are rewritten on every click, and the gallery lightbox with its current
 * image index, its previous/next wrap-around and its keyboard handling.
 */
module About {

  // ----- mission/vision toggle -----

  /** A toggle button's `active` class and its `aria-selected` attribute. */
  datatype ButtonState = ButtonState(active: bool, selected: bool)

  /** Which pane a button's `data-target` names. */
  datatype Pane = MissionPane | VisionPane | NoPane

  function PaneOf(target: string): Pane
  {
    if target == "mission" then MissionPane
    else if target == "vision" then VisionPane
    else NoPane
  }

  /** `b.classList.remove('active')` and `aria-selected='false'` on every button. */
  method DeselectAll(buttons: array<ButtonState>)
    modifies buttons
    ensures forall j :: 0 <= j < buttons.Length ==> buttons[j] == ButtonState(false, false)
  {
    var i := 0;
    while i < buttons.Length
      invariant 0 <= i <= buttons.Length
      invariant forall j :: 0 <= j < i ==> buttons[j] == ButtonState(false, false)
    {
      buttons[i] := ButtonState(false, false);
      i := i + 1;
    }
  }

  /** The toggle: its buttons with their targets, and each pane's `active` class and `aria-hidden`. */
  class Toggle {
    const buttons: array<ButtonState>
    const targets: seq<string>
    var missionActive: bool
    var visionActive: bool
    var missionHidden: bool
    var visionHidden: bool

    /** Each button's `aria-selected` agrees with its `active` class. */
    predicate Consistent()
      reads buttons
    {
      forall j :: 0 <= j < buttons.Length ==> buttons[j].selected == buttons[j].active
    }

    /**
     * Initialisation: every button's `aria-selected` copies its `active` class
     * from the page; the panes' classes and `aria-hidden` flags are as the page
     * has them. With at least one button the mission pane is then announced
     * visible and the vision pane hidden; with none the script returns first and
     * the panes keep their flags.
     */
    constructor (initiallyActive: seq<bool>, targets: seq<string>, missionActive: bool, visionActive: bool,
                 missionHidden: bool, visionHidden: bool)
      requires |targets| == |initiallyActive|
      ensures fresh(buttons) && buttons.Length == |initiallyActive| && this.targets == targets
      ensures forall j :: 0 <= j < buttons.Length ==> buttons[j] == ButtonState(initiallyActive[j], initiallyActive[j])
      ensures this.missionActive == missionActive && this.visionActive == visionActive
      ensures |initiallyActive| > 0 ==> !this.missionHidden && this.visionHidden
      ensures |initiallyActive| == 0 ==> this.missionHidden == missionHidden && this.visionHidden == visionHidden
      ensures Consistent()
    {
      buttons := new ButtonState[|initiallyActive|](j requires 0 <= j < |initiallyActive| => ButtonState(initiallyActive[j], initiallyActive[j]));
      this.targets := targets;
      this.missionActive := missionActive;
      this.visionActive := visionActive;
      if |initiallyActive| > 0 {
        this.missionHidden := false;
        this.visionHidden := true;
      } else {
        this.missionHidden := missionHidden;
        this.visionHidden := visionHidden;
      }
    }

    /**
     * A click on button `k`: exactly that button becomes active and selected;
     * a `mission` target shows the mission pane and hides the vision pane, a
     * `vision` target the reverse, and any other target leaves both panes.
     */
    method Click(k: int)
      requires 0 <= k < buttons.Length && |targets| == buttons.Length
      modifies this, buttons
      ensures forall j :: 0 <= j < buttons.Length ==> buttons[j] == ButtonState(j == k, j == k)
      ensures Consistent()
      ensures PaneOf(targets[k]) == MissionPane ==> missionActive && !visionActive && !missionHidden && visionHidden
      ensures PaneOf(targets[k]) == VisionPane ==> !missionActive && visionActive && missionHidden && !visionHidden
      ensures PaneOf(targets[k]) == NoPane ==>
        missionActive == old(missionActive) && visionActive == old(visionActive) &&
        missionHidden == old(missionHidden) && visionHidden == old(visionHidden)
    {
      DeselectAll(buttons);
      buttons[k] := ButtonState(true, true);
      var pane := PaneOf(targets[k]);
      if pane == MissionPane {
        missionActive, visionActive, missionHidden, visionHidden := true, false, false, true;
      } else if pane == VisionPane {
        missionActive, visionActive, missionHidden, visionHidden := false, true, true, false;
      }
    }

    /** Enter or Space on a button acts as a click on it; any other key does nothing. */
    method KeyDown(k: int, key: string)
      requires 0 <= k < buttons.Length && |targets| == buttons.Length
      modifies this, buttons
      ensures key == "Enter" || key == " " ==> forall j :: 0 <= j < buttons.Length ==> buttons[j] == ButtonState(j == k, j == k)
      ensures key == "Enter" || key == " " ==>
        (PaneOf(targets[k]) == MissionPane ==> missionActive && !visionActive && !missionHidden && visionHidden) &&
        (PaneOf(targets[k]) == VisionPane ==> !missionActive && visionActive && missionHidden && !visionHidden) &&
        (PaneOf(targets[k]) == NoPane ==>
          missionActive == old(missionActive) && visionActive == old(visionActive) &&
          missionHidden == old(missionHidden) && visionHidden == old(visionHidden))
      ensures !(key == "Enter" || key == " ") ==>
        buttons[..] == old(buttons[..]) &&
        missionActive == old(missionActive) && visionActive == old(visionActive) &&
        missionHidden == old(missionHidden) && visionHidden == old(visionHidden)
    {
      if key == "Enter" || key == " " {
        Click(k);
      }
    }
  }

  // ----- lightbox -----

  /** `(i + 1) % n`: the image after `i`, the first after the last. */
  function NextIndex(i: int, n: int): int
    requires 0 <= i && 1 <= n
  {
    (i + 1) % n
  }

  /** `(i - 1 + n) % n`: the image before `i`, the last before the first. */
  function PrevIndex(i: int, n: int): int
    requires 0 <= i && 1 <= n
  {
    (i - 1 + n) % n
  }

  /** Both steps stay among the images, and each undoes the other. */
  lemma StepsAreInverse(i: int, n: int)
    requires 0 <= i < n
    ensures 0 <= NextIndex(i, n) < n && 0 <= PrevIndex(i, n) < n
    ensures PrevIndex(NextIndex(i, n), n) == i
    ensures NextIndex(PrevIndex(i, n), n) == i
  {
    if i + 1 < n {
      ModSmall(i + 1, n);
      ModOnce(i + n, n);
    } else {
      ModOnce(n, n);
      ModSmall(n - 1, n);
    }
    if i == 0 {
      ModSmall(n - 1, n);
      ModOnce(n, n);
    } else {
      ModOnce(i - 1 + n, n);
      ModSmall(i, n);
    }
  }

  lemma ModSmall(x: int, n: int)
    requires 0 <= x < n
    ensures x % n == x
  {
  }

  lemma ModOnce(x: int, n: int)
    requires 0 < n <= x < 2 * n
    ensures x % n == x - n
  {
    assert x == n + (x - n);
  }

  /** Where keyboard focus is: the `k`th focusable element of the lightbox, the `k`th gallery item, or elsewhere. */
  datatype Focus = Inside(k: int) | GalleryItem(k: int) | Elsewhere

  /**
   * The Tab handler as written: the default move is always prevented, Shift+Tab
   * on the first focusable element goes to the last and Tab on the last goes
   * to the first; from anywhere else focus does not move at all.
   */
  function TabAsWritten(focus: Focus, n: nat, shift: bool): Focus
  {
    if n == 0 then focus
    else if shift && focus == Inside(0) then Inside(n - 1)
    else if !shift && focus == Inside(n - 1) then Inside(0)
    else focus
  }

  /**
   * As written, with three or more focusable elements and focus on the first
   * or last, Tab and Shift+Tab only ever reach the first or the last: the
   * elements between them are never reached.
   */
  lemma {:induction false} TabAsWrittenSkipsMiddle(n: nat, presses: seq<bool>, start: Focus)
    requires n >= 3 && (start == Inside(0) || start == Inside(n - 1))
    ensures var f := TabsAsWritten(start, n, presses); f == Inside(0) || f == Inside(n - 1)
  {
    if presses != [] {
      TabAsWrittenSkipsMiddle(n, presses[..|presses| - 1], start);
    }
  }

  /** Focus after a run of Tab presses (`true` for Shift+Tab) with the handler as written. */
  function TabsAsWritten(start: Focus, n: nat, presses: seq<bool>): Focus
  {
    if presses == [] then start
    else TabAsWritten(TabsAsWritten(start, n, presses[..|presses| - 1]), n, presses[|presses| - 1])
  }

  /** The concrete case: three elements, focus on the first, Tab leaves it on the first. */
  lemma TabAsWrittenStuckOnFirst()
    ensures TabAsWritten(Inside(0), 3, false) == Inside(0)
  {
  }

  /**
   * The trap as intended: focus moves to the neighbouring element as Tab
   * normally does, and wraps from the last to the first (Tab) and from the
   * first to the last (Shift+Tab). Focus outside the lightbox is left alone.
   */
  function TabTrapped(focus: Focus, n: nat, shift: bool): Focus
  {
    match focus
    case Inside(k) =>
      if n == 0 || !(0 <= k < n) then focus
      else if shift then Inside(PrevIndex(k, n))
      else Inside(NextIndex(k, n))
    case _ => focus
  }

  /** With the intended trap, focus stays inside, Shift+Tab undoes Tab, and the wrap happens at both ends. */
  lemma TabTrappedCycles(k: int, n: nat)
    requires 0 <= k < n
    ensures TabTrapped(Inside(k), n, false) == Inside(NextIndex(k, n))
    ensures 0 <= NextIndex(k, n) < n && 0 <= PrevIndex(k, n) < n
    ensures TabTrapped(TabTrapped(Inside(k), n, false), n, true) == Inside(k)
    ensures TabTrapped(Inside(n - 1), n, false) == Inside(0)
    ensures TabTrapped(Inside(0), n, true) == Inside(n - 1)
  {
    StepsAreInverse(k, n);
    StepsAreInverse(n - 1, n);
    StepsAreInverse(0, n);
  }

  /** Every element is reached from the first by Tab presses: `j` presses lead to element `j`. */
  lemma {:induction false} TabTrappedReachesAll(n: nat, j: nat)
    requires j < n
    ensures TabsTrapped(Inside(0), n, j) == Inside(j)
  {
    if j > 0 {
      TabTrappedReachesAll(n, j - 1);
      ModSmall(j, n);
    }
  }

  /** Focus after `j` Tab presses with the intended trap. */
  function TabsTrapped(start: Focus, n: nat, j: nat): Focus
  {
    if j == 0 then start else TabTrapped(TabsTrapped(start, n, j - 1), n, false)
  }

  /** The keys the lightbox handles. */
  datatype Key = Escape | ArrowLeft | ArrowRight | Tab | OtherKey

  /** The lightbox: the gallery size, the current image, what is shown and where focus is. */
  class Lightbox {
    const count: nat
    const focusables: nat
    const closeAt: nat
    var index: int
    var shown: int
    var active: bool
    var scrollLocked: bool
    var focus: Focus

    /** The current index names an image when there is one, and an open lightbox shows it. */
    predicate Valid()
      reads this
    {
      0 <= index && (count > 0 ==> index < count) && (active ==> count > 0 && shown == index) && closeAt < focusables
    }

    /** A closed lightbox at image 0; the close button is focusable element `closeAt`. */
    constructor (count: nat, focusables: nat, closeAt: nat)
      requires closeAt < focusables
      ensures this.count == count && this.focusables == focusables && this.closeAt == closeAt
      ensures index == 0 && !active && !scrollLocked && focus == Elsewhere
      ensures Valid()
    {
      this.count := count;
      this.focusables := focusables;
      this.closeAt := closeAt;
      index := 0;
      shown := 0;
      active := false;
      scrollLocked := false;
      focus := Elsewhere;
    }

    /** Opening gallery item `k`: it becomes the current and shown image, the page stops scrolling and the close button takes focus. */
    method Open(k: int)
      requires Valid() && 0 <= k < count
      modifies this
      ensures Valid()
      ensures index == k && shown == k && active && scrollLocked && focus == Inside(closeAt)
    {
      index := k;
      shown := k;
      active := true;
      scrollLocked := true;
      focus := Inside(closeAt);
    }

    /** Closing: the lightbox hides, scrolling returns, and focus goes back to the current image's gallery item. */
    method Close()
      requires Valid()
      modifies this
      ensures Valid()
      ensures !active && !scrollLocked && index == old(index) && shown == old(shown)
      ensures focus == (if index < count then GalleryItem(index) else old(focus))
    {
      active := false;
      scrollLocked := false;
      if index < count {
        focus := GalleryItem(index);
      }
    }

    /** The previous image, the last one before the first. */
    method Prev()
      requires Valid() && count >= 1
      modifies this
      ensures Valid()
      ensures index == PrevIndex(old(index), count) && shown == index
      ensures active == old(active) && scrollLocked == old(scrollLocked) && focus == old(focus)
    {
      StepsAreInverse(index, count);
      index := (index - 1 + count) % count;
      shown := index;
    }

    /** The next image, the first one after the last. */
    method Next()
      requires Valid() && count >= 1
      modifies this
      ensures Valid()
      ensures index == NextIndex(old(index), count) && shown == index
      ensures active == old(active) && scrollLocked == old(scrollLocked) && focus == old(focus)
    {
      StepsAreInverse(index, count);
      index := (index + 1) % count;
      shown := index;
    }

    /**
     * The document's `keydown` handler as written: nothing while the lightbox
     * is closed; Escape closes it, the arrows step through the images, and Tab
     * is handled by `TabAsWritten`, which moves focus only from the first or
     * the last focusable element.
     */
    method KeyDown(key: Key, shift: bool)
      requires Valid()
      modifies this
      ensures Valid()
      ensures !old(active) ==> Unchanged(old(index), old(shown), old(active), old(scrollLocked), old(focus))
      ensures old(active) && key == Escape ==>
        !active && !scrollLocked && index == old(index) && shown == old(shown) && focus == GalleryItem(index)
      ensures old(active) && key == ArrowLeft ==>
        active && index == PrevIndex(old(index), count) && shown == index &&
        scrollLocked == old(scrollLocked) && focus == old(focus)
      ensures old(active) && key == ArrowRight ==>
        active && index == NextIndex(old(index), count) && shown == index &&
        scrollLocked == old(scrollLocked) && focus == old(focus)
      ensures old(active) && key == Tab ==>
        Unchanged(old(index), old(shown), old(active), old(scrollLocked), TabAsWritten(old(focus), focusables, shift))
      ensures old(active) && key == OtherKey ==> Unchanged(old(index), old(shown), old(active), old(scrollLocked), old(focus))
    {
      if !active {
        return;
      }
      match key
      case Escape => Close();
      case ArrowLeft => Prev();
      case ArrowRight => Next();
      case Tab => focus := TabAsWritten(focus, focusables, shift);
      case OtherKey =>
    }

    /**
     * The handler with the trap as intended: Tab and Shift+Tab move focus to
     * the neighbouring element by `TabTrapped`, wrapping at both ends; every
     * other key is handled as `KeyDown` handles it.
     */
    method KeyDownTrapped(key: Key, shift: bool)
      requires Valid()
      modifies this
      ensures Valid()
      ensures !old(active) ==> Unchanged(old(index), old(shown), old(active), old(scrollLocked), old(focus))
      ensures old(active) && key == Escape ==>
        !active && !scrollLocked && index == old(index) && shown == old(shown) && focus == GalleryItem(index)
      ensures old(active) && key == ArrowLeft ==>
        active && index == PrevIndex(old(index), count) && shown == index &&
        scrollLocked == old(scrollLocked) && focus == old(focus)
      ensures old(active) && key == ArrowRight ==>
        active && index == NextIndex(old(index), count) && shown == index &&
        scrollLocked == old(scrollLocked) && focus == old(focus)
      ensures old(active) && key == Tab ==>
        Unchanged(old(index), old(shown), old(active), old(scrollLocked), TabTrapped(old(focus), focusables, shift))
      ensures old(active) && key == OtherKey ==> Unchanged(old(index), old(shown), old(active), old(scrollLocked), old(focus))
    {
      if active && key == Tab {
        focus := TabTrapped(focus, focusables, shift);
      } else {
        KeyDown(key, shift);
      }
    }

    /** The lightbox's state is exactly the given one. */
    predicate Unchanged(index0: int, shown0: int, active0: bool, scrollLocked0: bool, focus0: Focus)
      reads this
    {
      index == index0 && shown == shown0 && active == active0 && scrollLocked == scrollLocked0 && focus == focus0
    }
  }
}

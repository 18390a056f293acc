/**
 * The single-selection coordinator `Toggler` and the two button-group
 * wrappers built on it (`ButtonsToggler`, `ButtonsTogglerView`).
 *
 * A member is a reference-identity control with a selected flag. The
 * coordinator keeps an ordered sequence of members, possibly with the same
 * object at several positions; selecting a target writes `member == target`
 * into every member, so selection is decided by identity, not by position.
 */
module Toggling {

  import opened Wrappers

  /**
   * A toggle-capable control: the `Togglable` capability as `UIControl`
   * provides it, with `isOn` reading and `selectedToggle` writing the
   * control's selected flag.
   */
  class Control {
    var isSelected: bool

    constructor (selected: bool)
      ensures isSelected == selected
    {
      isSelected := selected;
    }

    /** `isOn`: whether the control is currently selected. */
    function IsOn(): (r: bool)
      reads this
      ensures r <==> isSelected
    {
      isSelected
    }

    /** `selectedToggle(select:)`: sets the selected flag. */
    method SelectedToggle(select: bool)
      modifies this
      ensures isSelected == select && IsOn() == select
    {
      isSelected := select;
    }
  }

  // ---------------------------------------------------------------------
  // Specification functions over member sequences and their states

  /** The on/off state of each member, position by position. */
  function States(cs: seq<Control>): (s: seq<bool>)
    reads cs
    ensures |s| == |cs|
    ensures forall j :: 0 <= j < |cs| ==> s[j] == cs[j].IsOn()
  {
    if cs == [] then [] else [cs[0].IsOn()] + States(cs[1..])
  }

  /** The states a selection of `target` produces: on exactly where the member is `target` itself. */
  function SelectionOf(cs: seq<Control>, target: Control): (s: seq<bool>)
  {
    seq(|cs|, j requires 0 <= j < |cs| => cs[j] == target)
  }

  /** No object appears twice. */
  predicate Distinct(cs: seq<Control>)
  {
    forall j, k :: 0 <= j < k < |cs| ==> cs[j] != cs[k]
  }

  /** Some position is on. */
  predicate AnyOn(s: seq<bool>)
  {
    exists j :: 0 <= j < |s| && s[j]
  }

  /**
   * The single-selection invariant for states `s` of members `cs`: every
   * position that is on holds the same object.
   */
  predicate AtMostOneOn(cs: seq<Control>, s: seq<bool>)
    requires |s| == |cs|
  {
    forall j, k :: 0 <= j < |s| && 0 <= k < |s| && s[j] && s[k] ==> cs[j] == cs[k]
  }

  /** `s[..i] + s[i + 1..]`: the sequence without position `i`, as `Array.remove(at:)` leaves it. */
  function RemoveAt<T>(s: seq<T>, i: nat): (r: seq<T>)
    requires i < |s|
    ensures |r| == |s| - 1
    ensures forall j :: 0 <= j < i ==> r[j] == s[j]
    ensures forall j :: i <= j < |r| ==> r[j] == s[j + 1]
  {
    s[..i] + s[i + 1..]
  }

  /** `Array.at(_:)`: the element at `i`, or `None` when `i` is not a valid position. */
  function At<T>(s: seq<T>, i: int): (r: Option<T>)
    ensures r.Some? <==> 0 <= i < |s|
    ensures r.Some? ==> r.value == s[i]
  {
    if 0 <= i < |s| then Some(s[i]) else None
  }

  /**
   * `firstIndex(where: { $0.isOn })` over the states: the first position
   * that is on, or `None` when no position is.
   */
  function FirstOn(s: seq<bool>): (r: Option<nat>)
    ensures r.None? <==> !AnyOn(s)
    ensures r.Some? ==> r.value < |s| && s[r.value]
    ensures r.Some? ==> forall j :: 0 <= j < r.value ==> !s[j]
  {
    if s == [] then None
    else if s[0] then Some(0)
    else match FirstOn(s[1..])
      case None => None
      case Some(k) => Some(k + 1)
  }

  // ---------------------------------------------------------------------
  // Lemmas about selections

  /** A selection never has two different objects on. */
  lemma SelectionAtMostOneOn(cs: seq<Control>, target: Control)
    ensures AtMostOneOn(cs, SelectionOf(cs, target))
  {
  }

  /** A selection has some member on exactly when the target is a member. */
  lemma SelectionAnyOn(cs: seq<Control>, target: Control)
    ensures AnyOn(SelectionOf(cs, target)) <==> target in cs
  {
    if target in cs {
      var i :| 0 <= i < |cs| && cs[i] == target;
      assert SelectionOf(cs, target)[i];
    }
  }

  /**
   * Selecting the member at position `i` turns on exactly position `i` when
   * the members are distinct, and the first position on is then `i`.
   */
  lemma SelectionAt(cs: seq<Control>, i: nat)
    requires i < |cs| && Distinct(cs)
    ensures forall j :: 0 <= j < |cs| ==> (SelectionOf(cs, cs[i])[j] <==> j == i)
    ensures FirstOn(SelectionOf(cs, cs[i])) == Some(i)
  {
    var s := SelectionOf(cs, cs[i]);
    assert s[i];
    assert forall j :: 0 <= j < |cs| && j != i ==> !s[j];
  }

  /** Appending a state changes the first position on only when none was on before. */
  lemma {:induction false} FirstOnAppend(s: seq<bool>, b: bool)
    ensures FirstOn(s + [b]) == if AnyOn(s) then FirstOn(s) else if b then Some(|s|) else None
  {
    var t := s + [b];
    assert forall j :: 0 <= j < |s| ==> t[j] == s[j];
    assert t[|s|] == b;
    if AnyOn(s) {
      var m := FirstOn(s).value;
      assert t[m];
      var k := FirstOn(t).value;
      assert k <= m;
      assert s[k];
    } else if b {
      assert AnyOn(t);
      assert forall j :: 0 <= j < |s| ==> !t[j];
    } else {
      assert !AnyOn(t) by {
        forall j | 0 <= j < |t| ensures !t[j] {
          if j < |s| { assert t[j] == s[j]; }
        }
      }
    }
  }

  /**
   * Appending a member keeps the single-selection invariant when the new
   * member is off, or when it is the object already on.
   */
  lemma AppendKeepsAtMostOneOn(cs: seq<Control>, s: seq<bool>, c: Control, b: bool)
    requires |s| == |cs| && AtMostOneOn(cs, s)
    requires b ==> exists p :: 0 <= p < |cs| && cs[p] == c && s[p]
    ensures AtMostOneOn(cs + [c], s + [b])
  {
  }

  /** Removing a position keeps the single-selection invariant. */
  lemma RemoveAtKeepsAtMostOneOn(cs: seq<Control>, s: seq<bool>, i: nat)
    requires |s| == |cs| && i < |cs|
    requires AtMostOneOn(cs, s)
    ensures AtMostOneOn(RemoveAt(cs, i), RemoveAt(s, i))
  {
  }

  /**
   * Removing the member that is on, from distinct members that keep the
   * single-selection invariant, leaves no member on.
   */
  lemma RemoveSelectedLeavesNoneOn(cs: seq<Control>, s: seq<bool>, i: nat)
    requires |s| == |cs| && i < |cs|
    requires Distinct(cs) && AtMostOneOn(cs, s) && s[i]
    ensures !AnyOn(RemoveAt(s, i))
  {
  }

  // ---------------------------------------------------------------------
  // The coordinator

  /**
   * `toggleControl(toggle:togglers:)`: one pass over the members, setting
   * each one on exactly when it is `toggle` itself.
   */
  method ToggleControl(toggle: Control, togglers: seq<Control>)
    modifies togglers
    ensures States(togglers) == SelectionOf(togglers, toggle)
  {
    for i := 0 to |togglers|
      invariant forall j :: 0 <= j < i ==> togglers[j].isSelected == (togglers[j] == toggle)
    {
      togglers[i].SelectedToggle(togglers[i] == toggle);
    }
  }

  /** `Toggler`: selects one member of an ordered group and switches the others off. */
  class Toggler {
    var togglers: seq<Control>

    /**
     * `index`: the position of the first member that is on, recomputed from
     * the members' states on every read; 0 when no member is on.
     */
    function Index(): (r: nat)
      reads this, togglers
      ensures AnyOn(States(togglers)) ==> r < |togglers| && togglers[r].IsOn()
      ensures AnyOn(States(togglers)) ==> forall j :: 0 <= j < r ==> !togglers[j].IsOn()
      ensures !AnyOn(States(togglers)) ==> r == 0
    {
      match FirstOn(States(togglers))
      case Some(i) => i
      case None => 0
    }

    /**
     * `init(default:togglers:)`: stores the members, then selects
     * `defaultIndex` exactly as `OnAt` does; an out-of-range default leaves
     * every member as it was.
     */
    constructor (defaultIndex: int, togglers: seq<Control>)
      modifies togglers
      ensures this.togglers == togglers
      ensures 0 <= defaultIndex < |togglers| ==>
        States(togglers) == SelectionOf(togglers, togglers[defaultIndex])
      ensures !(0 <= defaultIndex < |togglers|) ==> unchanged(togglers)
      ensures 0 <= defaultIndex < |togglers| && Distinct(togglers) ==> Index() == defaultIndex
    {
      this.togglers := togglers;
      new;
      OnAt(defaultIndex);
    }

    /** `on(toggle:)`: switches `toggle` on and every other member off, by identity. */
    method On(toggle: Control)
      modifies togglers
      ensures States(togglers) == SelectionOf(togglers, toggle)
      ensures AtMostOneOn(togglers, States(togglers))
      ensures toggle !in togglers ==> !AnyOn(States(togglers)) && Index() == 0
    {
      ToggleControl(toggle, togglers);
      SelectionAtMostOneOn(togglers, toggle);
      SelectionAnyOn(togglers, toggle);
    }

    /**
     * `onAt(index:)`: selects the member at `index`; a position outside the
     * sequence changes nothing.
     */
    method OnAt(index: int)
      modifies togglers
      ensures 0 <= index < |togglers| ==>
        States(togglers) == SelectionOf(togglers, togglers[index]) &&
        togglers[index].IsOn() && AtMostOneOn(togglers, States(togglers))
      ensures 0 <= index < |togglers| && Distinct(togglers) ==> Index() == index
      ensures !(0 <= index < |togglers|) ==> unchanged(togglers)
    {
      match At(togglers, index)
      case Some(toggle) =>
        ToggleControl(toggle, togglers);
        SelectionAtMostOneOn(togglers, toggle);
        assert SelectionOf(togglers, toggle)[index];
        if Distinct(togglers) {
          SelectionAt(togglers, index);
        }
      case None =>
    }

    /**
     * `add(toggle:)`: appends a member and touches no member's state. The
     * first member on stays where it was unless none was on and the new
     * member already is.
     */
    method Add(toggle: Control)
      modifies this
      ensures togglers == old(togglers) + [toggle]
      ensures States(togglers) == old(States(togglers)) + [toggle.IsOn()]
      ensures Index() == if old(AnyOn(States(togglers))) || !toggle.IsOn()
                         then old(Index()) else |old(togglers)|
      ensures old(AtMostOneOn(togglers, States(togglers))) && (!toggle.IsOn() || toggle in old(togglers)) ==>
        AtMostOneOn(togglers, States(togglers))
    {
      ghost var cs, s := togglers, States(togglers);
      togglers := togglers + [toggle];
      assert States(togglers) == s + [toggle.IsOn()];
      FirstOnAppend(s, toggle.IsOn());
      if AtMostOneOn(cs, s) && (!toggle.IsOn() || toggle in cs) {
        if toggle.IsOn() {
          var p :| 0 <= p < |cs| && cs[p] == toggle;
          assert s[p];
        }
        AppendKeepsAtMostOneOn(cs, s, toggle, toggle.IsOn());
      }
    }

    /**
     * `remove(at:)`: deletes the member at `index` and keeps the others in
     * order with their states; the source aborts on an index outside the
     * sequence. Removing the selected member of a distinct group leaves no
     * member on.
     */
    method Remove(index: int)
      requires 0 <= index < |togglers|
      modifies this
      ensures togglers == RemoveAt(old(togglers), index)
      ensures States(togglers) == RemoveAt(old(States(togglers)), index)
      ensures old(AtMostOneOn(togglers, States(togglers))) ==> AtMostOneOn(togglers, States(togglers))
      ensures old(Distinct(togglers) && AtMostOneOn(togglers, States(togglers)) && togglers[index].IsOn()) ==>
        !AnyOn(States(togglers)) && Index() == 0
    {
      ghost var cs, s := togglers, States(togglers);
      togglers := togglers[..index] + togglers[index + 1..];
      assert States(togglers) == RemoveAt(s, index);
      if AtMostOneOn(cs, s) {
        RemoveAtKeepsAtMostOneOn(cs, s, index);
        if Distinct(cs) && s[index] {
          RemoveSelectedLeavesNoneOn(cs, s, index);
        }
      }
    }
  }

  // ---------------------------------------------------------------------
  // The button-group wrappers

  /**
   * The handler both wrappers subscribe to each button's touch-up event:
   * a press on the current index is ignored; any other press makes it the
   * current index, selects it, and hands it to the `onToggle` callback,
   * returned here as `emitted`.
   */
  method HandlePress(toggler: Toggler, currentIndex: int, index: nat) returns (newIndex: int, emitted: Option<int>)
    requires index < |toggler.togglers|
    modifies toggler.togglers
    ensures index == currentIndex ==>
      newIndex == currentIndex && emitted == None && unchanged(toggler.togglers)
    ensures index != currentIndex ==>
      newIndex == index && emitted == Some(index) &&
      States(toggler.togglers) == SelectionOf(toggler.togglers, toggler.togglers[index])
    ensures index != currentIndex && Distinct(toggler.togglers) ==> toggler.Index() == index
  {
    if index == currentIndex {
      return currentIndex, None;
    }
    newIndex := index;
    toggler.OnAt(index);
    emitted := Some(index);
  }

  /** `ButtonsToggler`: a button group that tracks its current index. */
  class ButtonsToggler {
    const toggler: Toggler
    /** The buttons the group was built over, one press handler each. */
    ghost const buttons: seq<Control>
    var currentIndex: int

    /** The coordinator's members stay the buttons: the Swift `let` never changes. */
    ghost predicate Valid()
      reads this, toggler
    {
      toggler.togglers == buttons
    }

    /**
     * `init(defaultIndex:buttons:)`: records the default as the current
     * index, unchecked, and builds the coordinator, which selects it when
     * it is in range.
     */
    constructor (defaultIndex: int, buttons: seq<Control>)
      modifies buttons
      ensures Valid() && fresh(toggler) && this.buttons == buttons
      ensures currentIndex == defaultIndex
      ensures 0 <= defaultIndex < |buttons| ==>
        States(buttons) == SelectionOf(buttons, buttons[defaultIndex])
      ensures !(0 <= defaultIndex < |buttons|) ==> unchanged(buttons)
    {
      currentIndex := defaultIndex;
      toggler := new Toggler(defaultIndex, buttons);
      this.buttons := buttons;
    }

    /**
     * `selectIndex(at:)`: selects `index` and makes it current when it is a
     * valid position, with no callback; otherwise does nothing.
     */
    method SelectIndex(index: int)
      requires Valid()
      modifies this, buttons
      ensures Valid()
      ensures 0 <= index < |buttons| ==>
        currentIndex == index && States(buttons) == SelectionOf(buttons, buttons[index])
      ensures 0 <= index < |buttons| && Distinct(buttons) ==> toggler.Index() == index
      ensures !(0 <= index < |buttons|) ==>
        currentIndex == old(currentIndex) && unchanged(buttons)
    {
      if !(index >= 0 && index < |toggler.togglers|) {
        return;
      }
      toggler.OnAt(index);
      currentIndex := index;
    }

    /** A press on the button at `index`, handled by `HandlePress`. */
    method Press(index: nat) returns (emitted: Option<int>)
      requires Valid() && index < |buttons|
      modifies this, buttons
      ensures Valid()
      ensures index == old(currentIndex) ==>
        currentIndex == old(currentIndex) && emitted == None && unchanged(buttons)
      ensures index != old(currentIndex) ==>
        currentIndex == index && emitted == Some(index) &&
        States(buttons) == SelectionOf(buttons, buttons[index])
      ensures index != old(currentIndex) && Distinct(buttons) ==> toggler.Index() == index
    {
      currentIndex, emitted := HandlePress(toggler, currentIndex, index);
    }
  }

  /** `ButtonsTogglerView`: the same button group laid out in a stack view. */
  class ButtonsTogglerView {
    const toggler: Toggler
    ghost const buttons: seq<Control>
    var currentIndex: int

    ghost predicate Valid()
      reads this, toggler
    {
      toggler.togglers == buttons
    }

    /** `init(defaultIndex:buttons:...)`: as `ButtonsToggler`'s, without the layout. */
    constructor (defaultIndex: int, buttons: seq<Control>)
      modifies buttons
      ensures Valid() && fresh(toggler) && this.buttons == buttons
      ensures currentIndex == defaultIndex
      ensures 0 <= defaultIndex < |buttons| ==>
        States(buttons) == SelectionOf(buttons, buttons[defaultIndex])
      ensures !(0 <= defaultIndex < |buttons|) ==> unchanged(buttons)
    {
      currentIndex := defaultIndex;
      toggler := new Toggler(defaultIndex, buttons);
      this.buttons := buttons;
    }

    /** A press on the button at `index`, handled by `HandlePress`. */
    method Press(index: nat) returns (emitted: Option<int>)
      requires Valid() && index < |buttons|
      modifies this, buttons
      ensures Valid()
      ensures index == old(currentIndex) ==>
        currentIndex == old(currentIndex) && emitted == None && unchanged(buttons)
      ensures index != old(currentIndex) ==>
        currentIndex == index && emitted == Some(index) &&
        States(buttons) == SelectionOf(buttons, buttons[index])
      ensures index != old(currentIndex) && Distinct(buttons) ==> toggler.Index() == index
    {
      currentIndex, emitted := HandlePress(toggler, currentIndex, index);
    }
  }
}

# Toggler and Comparable clamp — a Dafny model

This project models two small parts of the RambaHamba Swift utilities.

**Single-selection toggling** (`toggler.dfy`, module `Toggling`). A `Toggler` keeps an ordered
sequence of toggle-capable controls and switches one of them on and every other one off. It can
select a member directly (`on(toggle:)`) or by position (`onAt(index:)`). It can append a member
(`add`) and delete one (`remove(at:)`). Its `index` is recomputed from the members on every read:
the first member that is on, or 0 when none is. Two button-group wrappers build on it:
`ButtonsToggler` and `ButtonsTogglerView`. Each one tracks a `currentIndex`. A button press on a
new index selects that index and reports it to the `onToggle` callback. A press on the current
index is ignored. `ButtonsToggler.selectIndex(at:)` selects an in-range index without reporting it.

Members are objects compared by identity. A control is a `Control` class with the
`isSelected` flag that `UIControl` exposes through the `Togglable` capability. `Toggler` is a Swift
struct; here it is a class whose `togglers` field is a `seq<Control>`. Its `on`/`onAt` change
only the members' flags, and `add`/`remove(at:)` reassign the sequence. The Swift array may hold
the same object at several positions, and the model allows that too. So the single-selection
invariant is stated per object (`AtMostOneOn`: every position that is on holds the same object).
Position-level facts such as "`index == i` after `onAt(i)`" are stated under `Distinct`.
`Array.at(_:)` is defined elsewhere in the repository and is not part of this model. It is
modelled as the bounds-checked lookup `At` that its use at `Toggler.swift:43` relies on.

**Clamping** (`comparable_ext.dfy`, module `ComparableExt`), over `int`. `limited(min:max:)`
computes `max(min(value, max), min)`. `limit(min:max:)` is its in-place form: the `mutating`
receiver becomes an in-out value that the method takes and returns. `limited(_:_:)` is the
unlabelled spelling.

`wrappers.dfy` holds the `Option` type that stands for Swift optionals.

Two behaviours of the code worth stating:
- An out-of-range default index in `init(default:togglers:)` leaves every member's state as it was.
  It does not switch every member off, so members that were already on stay on.
- "At most one member on after every operation" does not hold for `add`. Appending a member
  that is already on, next to another member that is on, gives two members on. `Toggler.Add`
  states when the invariant survives.

## Model

| member | source | states |
|---|---|---|
| `Toggling.Control.IsOn` | Sources/RambaHamba/Utopia/UIKit/Toggler.swift:11 | `isOn` of the `Togglable` capability: true exactly when the control's selected flag is set |
| `Toggling.Control.SelectedToggle` | Sources/RambaHamba/Utopia/UIKit/Toggler.swift:13-15 | after the call, the control's selected flag, and so `IsOn()`, equals the argument |
| `Toggling.At` | Sources/RambaHamba/Utopia/UIKit/Toggler.swift:43 | the lookup yields a member exactly when 0 <= i < count, and then the member at i |
| `Toggling.FirstOn` | Sources/RambaHamba/Utopia/UIKit/Toggler.swift:30 | `firstIndex(where:)`: None exactly when no state is on; otherwise a position that is on with every earlier position off |
| `Toggling.Toggler.Index` | Sources/RambaHamba/Utopia/UIKit/Toggler.swift:29-31 | when some member is on, the result is a member that is on and every earlier member is off; when none is on, it is 0 |
| `Toggling.ToggleControl` | Sources/RambaHamba/Utopia/UIKit/Toggler.swift:59-63 | after the pass, each member is on exactly when it is the target object itself |
| `Toggling.Toggler.constructor` | Sources/RambaHamba/Utopia/UIKit/Toggler.swift:33-36 | stores the members; an in-range default selects that member as `OnAt` does, with `Index() == default` when members are distinct; an out-of-range default leaves every member untouched |
| `Toggling.Toggler.On` | Sources/RambaHamba/Utopia/UIKit/Toggler.swift:38-40 | each member ends on exactly when it is `toggle`; at most one object is on; a non-member target leaves no member on and `Index() == 0` |
| `Toggling.Toggler.OnAt` | Sources/RambaHamba/Utopia/UIKit/Toggler.swift:42-46 | for a valid index, the member there is on and the states are that member's selection; with distinct members `Index() == index`; an invalid index changes no member |
| `Toggling.Toggler.Add` | Sources/RambaHamba/Utopia/UIKit/Toggler.swift:48-50 | the new member is last and no state changes; `Index()` is unchanged unless no member was on and the new one is; single selection survives when the new member is off or already a member |
| `Toggling.Toggler.Remove` | Sources/RambaHamba/Utopia/UIKit/Toggler.swift:52-57 | requires a valid index (the source aborts otherwise); deletes exactly that position and keeps the others in order with their states; single selection survives; removing the selected member of a distinct group leaves none on and `Index() == 0` |
| `Toggling.RemoveAt` | Sources/RambaHamba/Utopia/UIKit/Toggler.swift:56 | `Array.remove(at:)`: one element shorter, positions before i kept, positions after i shifted down by one |
| `Toggling.SelectionAtMostOneOn` | Sources/RambaHamba/Utopia/UIKit/Toggler.swift:59-63 | a selection never has two different objects on |
| `Toggling.SelectionAnyOn` | Sources/RambaHamba/Utopia/UIKit/Toggler.swift:59-63 | a selection has a member on if and only if the target is a member |
| `Toggling.SelectionAt` | Sources/RambaHamba/Utopia/UIKit/Toggler.swift:42-46 | for distinct members, selecting the member at i turns on exactly position i, and the first position on is i |
| `Toggling.FirstOnAppend` | Sources/RambaHamba/Utopia/UIKit/Toggler.swift:48-50 | appending a state keeps the first position on unless none was on, in which case it is the new position if that is on |
| `Toggling.AppendKeepsAtMostOneOn` | Sources/RambaHamba/Utopia/UIKit/Toggler.swift:48-50 | appending a member keeps "every position on holds the same object" when the new member is off or is the object already on |
| `Toggling.RemoveAtKeepsAtMostOneOn` | Sources/RambaHamba/Utopia/UIKit/Toggler.swift:52-57 | deleting a position keeps "every position on holds the same object" |
| `Toggling.RemoveSelectedLeavesNoneOn` | Sources/RambaHamba/Utopia/UIKit/Toggler.swift:52-57 | deleting the position that is on, from distinct members with single selection, leaves no position on |
| `Toggling.HandlePress` | Sources/RambaHamba/Utopia/UIKit/Toggler.swift:93-99 | a press on the current index changes nothing and reports nothing; any other press makes it current, selects it (with `Index()` equal to it for distinct members) and reports it to the callback |
| `Toggling.ButtonsToggler.constructor` | Sources/RambaHamba/Utopia/UIKit/Toggler.swift:119-132 | the current index is the default, unchecked; the buttons are selected as `Toggler`'s initializer does |
| `Toggling.ButtonsToggler.SelectIndex` | Sources/RambaHamba/Utopia/UIKit/Toggler.swift:113-117 | a valid index becomes current and selected, with no callback; an invalid one changes neither the current index nor any button |
| `Toggling.ButtonsToggler.Press` | Sources/RambaHamba/Utopia/UIKit/Toggler.swift:124-130 | ignores a press on the current index; otherwise makes it current, selects it (with `Index()` equal to it for distinct buttons) and reports it |
| `Toggling.ButtonsTogglerView.constructor` | Sources/RambaHamba/Utopia/UIKit/Toggler.swift:75-101 | as `ButtonsToggler`'s initializer, without the layout |
| `Toggling.ButtonsTogglerView.Press` | Sources/RambaHamba/Utopia/UIKit/Toggler.swift:93-99 | as `ButtonsToggler.Press` |
| `ComparableExt.Min` | Sources/RambaHamba/Utopia/Utilities/Comparable+ext.swift:36 | `Swift.min`: one of its arguments, no greater than either |
| `ComparableExt.Max` | Sources/RambaHamba/Utopia/Utilities/Comparable+ext.swift:36 | `Swift.max`: one of its arguments, no less than either |
| `ComparableExt.Limited` | Sources/RambaHamba/Utopia/Utilities/Comparable+ext.swift:11-15 | with lo <= hi the result lies in [lo, hi]; an in-range value is returned unchanged; a value below lo gives lo and one above hi gives hi; inverted bounds always give lo |
| `ComparableExt.Limit` | Sources/RambaHamba/Utopia/Utilities/Comparable+ext.swift:35-37 | the new receiver is what `Limited` returns, so an in-range receiver keeps its value |
| `ComparableExt.LimitedUnlabelled` | Sources/RambaHamba/Utopia/Utilities/Comparable+ext.swift:25-27 | equals the labelled `Limited` on every input |
| `ComparableExt.LimitedIdempotent` | Sources/RambaHamba/Utopia/Utilities/Comparable+ext.swift:36 | clamping a clamped value with the same bounds changes nothing |

## Left out

- Switches are not modelled. `Control` stands for controls that use `UIControl`'s `selectedToggle` (Toggler.swift:13-15), such as the wrappers' buttons. The `UISwitch` override (Toggler.swift:19-23) calls `setOn(_:animated:)`, which writes the switch's on/off state and not `isSelected`, while `isOn` (Toggler.swift:11) still reads `isSelected`. So for a switch, selecting it would not change what `isOn` and `index` read; this is an observation from reading the code, not executed.
- The Swift default arguments `default index: Int = 0` (Toggler.swift:33) and `defaultIndex index: Int = 0` (Toggler.swift:75, 119) are not modelled: omitting the argument is the same as passing 0.
- `ButtonsTogglerView`'s stack-view layout (axis, spacing, distribution, alignment, arranged subviews) and `init(coder:)`, which only aborts: user-interface plumbing with no selection logic.
- Event subscription (`onTouchUpInside.subscribe`) is modelled as a direct call of `Press` with the button's position. The `onToggle` closure is modelled as the `emitted` value passed to it; a nil closure is not distinguished.
- `fatalError` in `remove(at:)` and the trap of `Array.remove(at:)` on a negative index are modelled as the precondition `0 <= index < count` of `Toggler.Remove`.
- `Toggler` is a Swift struct: copies of it that share member objects are not modelled; the wrappers hold theirs as a `let` and never copy it.
- `ButtonsToggler` and `ButtonsTogglerView` keep their coordinator's members equal to their buttons (`Valid`), which the Swift `let` guarantees.
- `ComparableExt.Limited` is modelled over `int` only: other `Comparable` types, and floating-point values with NaN, which are not totally ordered, are not modelled.
- `UIAlertController+ext.swift` builds alerts and presents them through UIKit; it has no logic of its own.

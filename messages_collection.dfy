/**
 * The quick-reply control strip of the chat screen (MessagesCollectionViewController): which group
 * control is open, the items of the controls data source and of the sub-menu data source.
 * Layout (constraints, measured widths and heights, transforms, delays) is not modelled.
 */
module MessagesCollection {
  import opened Wrappers
  import opened Sofa
  import opened Sequences
  import opened Selection

  /** The sub-menu: the open group control and the items its data source holds. */
  datatype Menu = Menu(current: Option<Button>, items: seq<Button>)

  /** The closed menu. */
  const Hidden: Menu := Menu(None, [])

  /** The menu open on `b`; the items are reversed because the collection view is upside down. */
  function Shown(b: Button): Menu {
    Menu(Some(b), Reverse(b.subcontrols))
  }

  /** Either closed, or open on a group and showing that group's subcontrols. */
  predicate Consistent(m: Menu) {
    m == Hidden || (m.current.Some? && m == Shown(m.current.value))
  }

  /** The menu after `updateSubcontrols(with: b)`. */
  function AfterUpdate(m: Menu, b: Option<Button>): (r: Menu)
    ensures b.None? ==> r.current.None?
    ensures b.None? && Consistent(m) ==> r == Hidden
    ensures b.Some? && m.current == b ==> r == Hidden
    ensures b.Some? && m.current != b ==> r == Shown(b.value)
    ensures Consistent(m) ==> Consistent(r)
  {
    match DisplayStateTable(b, m.current)
    case Show => Shown(b.value)
    case Hide => Hidden
    case HideAndShow => Shown(b.value)
    case DoNothing => m
  }

  /** Selecting the same group twice from any other state closes the menu again (a toggle). */
  lemma SelectGroupTwice(m: Menu, g: Button)
    requires m.current != Some(g)
    ensures AfterUpdate(m, Some(g)) == Shown(g)
    ensures AfterUpdate(AfterUpdate(m, Some(g)), Some(g)) == Hidden
  {
  }

  class MessagesCollectionViewController {
    var buttons: seq<Button>
    /** `controlsViewDelegateDatasource.items` */
    var controlItems: seq<Button>
    var currentButton: Option<Button>
    /** `subcontrolsViewDelegateDatasource.items` */
    var subcontrolItems: seq<Button>
    /** The leaf buttons handed to `didTapControlButton`, in order. */
    var tappedButtons: seq<Button>

    ghost function MenuState(): Menu
      reads this
    {
      Menu(currentButton, subcontrolItems)
    }

    ghost predicate Valid()
      reads this
    {
      Consistent(MenuState())
    }

    /** The controller after `viewDidLoad`, which hides the sub-menu. */
    constructor ()
      ensures Valid() && MenuState() == Hidden
      ensures buttons == [] && controlItems == [] && tappedButtons == []
    {
      buttons, controlItems, tappedButtons := [], [], [];
      currentButton, subcontrolItems := None, [];
    }

    /** `displayState(for:)`, written with the source's own branches. */
    function DisplayStateFor(button: Option<Button>): (d: DisplayState)
      reads this
      ensures d == DisplayStateTable(button, currentButton)
    {
      if button.Some? && currentButton.Some? then
        if button.value == currentButton.value then Hide else HideAndShow
      else if button.None? && currentButton.None? then DoNothing
      else if button.None? && currentButton.Some? then Hide
      else Show
    }

    method HideSubcontrolsMenu()
      modifies this
      ensures MenuState() == Hidden
      ensures buttons == old(buttons) && controlItems == old(controlItems) && tappedButtons == old(tappedButtons)
    {
      subcontrolItems := [];
      currentButton := None;
    }

    method ShowSubcontrolsMenu(button: Button)
      modifies this
      ensures MenuState() == Shown(button)
      ensures |subcontrolItems| == |button.subcontrols|
      ensures buttons == old(buttons) && controlItems == old(controlItems) && tappedButtons == old(tappedButtons)
    {
      subcontrolItems := Reverse(button.subcontrols);
      currentButton := Some(button);
    }

    method UpdateSubcontrols(button: Option<Button>)
      requires Valid()
      modifies this
      ensures Valid()
      ensures MenuState() == AfterUpdate(old(MenuState()), button)
      ensures buttons == old(buttons) && controlItems == old(controlItems) && tappedButtons == old(tappedButtons)
    {
      match DisplayStateFor(button)
      case Show =>
        ShowSubcontrolsMenu(button.value);
      case Hide =>
        HideSubcontrolsMenu();
      case HideAndShow =>
        HideSubcontrolsMenu();
        ShowSubcontrolsMenu(button.value);
      case DoNothing =>
    }

    /** `controlsCollectionViewDidSelectControl`: a leaf is handed on, a group drives the sub-menu. */
    method DidSelectControl(button: Button)
      requires Valid()
      modifies this
      ensures Valid()
      ensures button.kind == ButtonControl ==>
        MenuState() == old(MenuState()) && tappedButtons == old(tappedButtons) + [button]
      ensures button.kind == GroupControl ==>
        MenuState() == AfterUpdate(old(MenuState()), Some(button)) && tappedButtons == old(tappedButtons)
      ensures buttons == old(buttons) && controlItems == old(controlItems)
    {
      match button.kind
      case ButtonControl =>
        tappedButtons := tappedButtons + [button];
      case GroupControl =>
        UpdateSubcontrols(Some(button));
    }

    /** Assigning `buttons`: the sub-menu is closed and the control strip shows exactly the new buttons. */
    method SetButtons(newButtons: seq<Button>)
      requires Valid()
      modifies this
      ensures Valid()
      ensures buttons == newButtons && controlItems == newButtons
      ensures MenuState() == Hidden
      ensures tappedButtons == old(tappedButtons)
    {
      buttons := newButtons;
      UpdateSubcontrols(None);
      controlItems := buttons;
    }
  }
}

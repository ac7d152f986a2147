/** The decision how to move the quick-reply sub-menu, shared by the chat screen's view model and controller. */
module Selection {
  import opened Wrappers
  import opened Sofa

  datatype DisplayState = Hide | Show | HideAndShow | DoNothing

  /**
   * The five-row table: a candidate equal to the open group hides it, a different one replaces it,
   * no candidate hides an open menu and does nothing otherwise, and a candidate with nothing open shows.
   */
  function DisplayStateTable(candidate: Option<Button>, current: Option<Button>): DisplayState {
    match (candidate, current)
    case (Some(b), Some(c)) => if b == c then Hide else HideAndShow
    case (None, None) => DoNothing
    case (None, Some(_)) => Hide
    case (Some(_), None) => Show
  }
}

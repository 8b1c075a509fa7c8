/**
 * Keyboard shortcuts (src/lib/keyboard-shortcuts.ts): whether a key press matches a
 * shortcut, and the key-down handler that runs the first matching shortcut.
 */
module KeyboardShortcuts {
  /** The parts of a `KeyboardEvent` the matcher reads. */
  datatype KeyEvent = KeyEvent(key: string, metaKey: bool, ctrlKey: bool, shiftKey: bool, altKey: bool)

  /**
   * A shortcut's key combination; an optional flag left out is `false`. The action is a
   * callback and is represented by the shortcut's position in the list.
   */
  datatype Shortcut = Shortcut(key: string, metaOrCtrl: bool, shift: bool, alt: bool, id: string)

  /**
   * `matchesShortcut`: the key must be the shortcut's, and each modifier the shortcut asks
   * for must be held. A shortcut that asks for meta-or-ctrl also refuses shift and alt
   * unless it asks for them; one that does not ask for meta-or-ctrl refuses nothing extra.
   */
  function MatchesShortcut(e: KeyEvent, s: Shortcut): (r: bool)
    ensures e.key != s.key ==> !r
    ensures r ==> (s.metaOrCtrl ==> e.metaKey || e.ctrlKey) && (s.shift ==> e.shiftKey) && (s.alt ==> e.altKey)
    ensures r && s.metaOrCtrl ==> (e.shiftKey ==> s.shift) && (e.altKey ==> s.alt)
    ensures !s.metaOrCtrl ==> (r <==> e.key == s.key && (s.shift ==> e.shiftKey) && (s.alt ==> e.altKey))
    ensures s.metaOrCtrl ==>
              (r <==> e.key == s.key && (e.metaKey || e.ctrlKey)
                      && e.shiftKey == s.shift && e.altKey == s.alt)
  {
    if e.key != s.key then false
    else if s.metaOrCtrl && !(e.metaKey || e.ctrlKey) then false
    else if s.shift && !e.shiftKey then false
    else if s.alt && !e.altKey then false
    else if s.metaOrCtrl && e.shiftKey && !s.shift then false
    else if s.metaOrCtrl && e.altKey && !s.alt then false
    else true
  }

  /**
   * The key-down handler: the shortcuts are tried in list order, and at the first match the
   * default is prevented, that shortcut's action runs and the search stops. `ran` lists the
   * positions whose action ran.
   */
  method Dispatch(shortcuts: seq<Shortcut>, e: KeyEvent) returns (ran: seq<nat>, prevented: bool)
    ensures |ran| <= 1
    ensures prevented <==> |ran| == 1
    ensures |ran| == 1 <==> exists i :: 0 <= i < |shortcuts| && MatchesShortcut(e, shortcuts[i])
    ensures |ran| == 1 ==> ran[0] < |shortcuts| && MatchesShortcut(e, shortcuts[ran[0]])
                           && forall j :: 0 <= j < ran[0] ==> !MatchesShortcut(e, shortcuts[j])
  {
    ran := [];
    prevented := false;
    var i := 0;
    while i < |shortcuts|
      invariant 0 <= i <= |shortcuts|
      invariant ran == [] && !prevented
      invariant forall j :: 0 <= j < i ==> !MatchesShortcut(e, shortcuts[j])
    {
      if MatchesShortcut(e, shortcuts[i]) {
        prevented := true;
        ran := ran + [i];
        break;
      }
      i := i + 1;
    }
  }
}

/**
  The mobile menu of `initNavigation` (js/main.js:15-48) as a state machine.
  The state is the two things the handlers write: whether `.nav-menu`
  carries the `active` class, and the text of `.menu-toggle`. The text is
  kept as a separate field, as the page keeps it, so that its agreement
  with the open flag is something to prove rather than a definition.
 */
module Navigation {

  /** Where a click lands. */
  datatype Target =
    | ToggleButton  // `.menu-toggle` or something inside it
    | MenuLink      // an `a` inside `.nav-menu`
    | InsideMenu    // any other point inside `.nav-menu`
    | Outside       // anywhere else in the document

  datatype Menu = Menu(open: bool, glyph: string)

  const OpenGlyph := "\U{2715}"    // ✕
  const ClosedGlyph := "\U{2630}"  // ☰

  const Closed := Menu(false, ClosedGlyph)

  /** The glyph shows '✕' exactly when the menu is open. */
  predicate InSync(m: Menu) {
    m.glyph == (if m.open then OpenGlyph else ClosedGlyph)
  }

  /** The toggle's click handler: flip the class, then pick the glyph from
      the class just set. */
  function OnToggle(m: Menu): Menu {
    var open := !m.open;
    Menu(open, if open then OpenGlyph else ClosedGlyph)
  }

  /** The handler each menu link carries. */
  function OnLink(m: Menu): Menu {
    Menu(false, ClosedGlyph)
  }

  /** The document's click handler, run for every click that reaches it. */
  function OnDocument(m: Menu, t: Target): Menu {
    var inMenu := t == MenuLink || t == InsideMenu;
    var inToggle := t == ToggleButton;
    if !inMenu && !inToggle then Menu(false, ClosedGlyph) else m
  }

  /** One click: the target's own handler, then the document's, unless the
      toggle's handler stopped the event from bubbling. */
  function Click(m: Menu, t: Target): (r: Menu)
    ensures InSync(m) ==> InSync(r)
    ensures t != InsideMenu ==> InSync(r)
    ensures t == ToggleButton ==> r.open == !m.open
    ensures t == MenuLink || t == Outside ==> r == Closed
    ensures t == InsideMenu ==> r == m
  {
    match t
    case ToggleButton => OnToggle(m)
    case MenuLink => OnDocument(OnLink(m), t)
    case InsideMenu => OnDocument(m, t)
    case Outside => OnDocument(m, t)
  }

  /** Two clicks on the toggle give back the state the menu was in. */
  lemma ToggleTwice(m: Menu)
    ensures Click(Click(m, ToggleButton), ToggleButton).open == m.open
    ensures InSync(m) ==> Click(Click(m, ToggleButton), ToggleButton) == m
  {
  }

  /** A sequence of clicks, in order. */
  function Run(m: Menu, clicks: seq<Target>): Menu
    decreases |clicks|
  {
    if clicks == [] then m else Run(Click(m, clicks[0]), clicks[1..])
  }

  /** Once in sync, the glyph stays in sync whatever is clicked. */
  lemma {:induction false} RunKeepsSync(m: Menu, clicks: seq<Target>)
    requires InSync(m)
    ensures InSync(Run(m, clicks))
    decreases |clicks|
  {
    if clicks != [] {
      RunKeepsSync(Click(m, clicks[0]), clicks[1..]);
    }
  }

  function Toggles(clicks: seq<Target>): nat {
    if clicks == [] then 0
    else (if clicks[0] == ToggleButton then 1 else 0) + Toggles(clicks[1..])
  }

  predicate Closes(t: Target) {
    t == MenuLink || t == Outside
  }

  /** Without a closing click, the menu ends open exactly when it started
      open and was toggled an even number of times, or started closed and
      was toggled an odd number of times. */
  lemma {:induction false} RunWithoutClosing(m: Menu, clicks: seq<Target>)
    requires forall i | 0 <= i < |clicks| :: !Closes(clicks[i])
    ensures Run(m, clicks).open <==> (m.open <==> Toggles(clicks) % 2 == 0)
    decreases |clicks|
  {
    if clicks != [] {
      RunWithoutClosing(Click(m, clicks[0]), clicks[1..]);
    }
  }

  /** After a closing click the earlier history no longer matters: the
      outcome is that of the later clicks from the closed menu. */
  lemma {:induction false} RunAfterClosing(m: Menu, before: seq<Target>, t: Target, after: seq<Target>)
    requires Closes(t)
    ensures Run(m, before + [t] + after) == Run(Closed, after)
    decreases |before|
  {
    if before == [] {
      assert [] + [t] + after == [t] + after;
      assert ([t] + after)[1..] == after;
    } else {
      assert (before + [t] + after)[1..] == before[1..] + [t] + after;
      RunAfterClosing(Click(m, before[0]), before[1..], t, after);
    }
  }
}

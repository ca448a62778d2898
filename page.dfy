/** The state the page script changes in place once the document has loaded:
    the storage, the body's `dark-mode` class, the theme button's text, the
    heading, and the fact widget's paragraph together with its `fade-out`
    class and the fade timers still to fire. */
module Page {
  import opened Wrappers
  import opened Facts
  import opened Resolver
  import opened Clicks
  import Preferences

  /** The widget's text before any click. */
  const Placeholder: string := "Click the button to reveal a fun fact."

  /** A text the widget can hold: the placeholder, a fact of the global pool,
      or a fact of a category behind its key. */
  predicate Displayable(t: string) {
    || t == Placeholder
    || t in AllFacts()
    || exists key, i :: key in FactsByCategory && 0 <= i < |FactsByCategory[key]| &&
         t == Labelled(key, FactsByCategory[key][i])
  }

  class Page {
    var storage: map<string, string>
    var dark: bool
    var themeLabel: string
    var heading: Option<string>
    var factText: string
    var fadingOut: bool
    /** The facts of the fade timers scheduled and not yet fired, oldest
        first: timers with the same delay fire in the order they were set. */
    var pendingFacts: seq<string>

    /** The toolbar part of the state, as a value. */
    function Ui(): Preferences.Ui
      reads this
    {
      Preferences.Ui(storage, dark, themeLabel, heading)
    }

    /** The theme button shows the label of the current theme, the widget
        shows a text it can legitimately hold and every pending fade carries a
        fact of the global pool: however clicks and timers interleave, the
        paragraph never holds anything else. */
    ghost predicate Valid()
      reads this
    {
      && Preferences.WellFormed(Ui())
      && Displayable(factText)
      && forall i :: 0 <= i < |pendingFacts| ==> pendingFacts[i] in AllFacts()
    }

    /** The `DOMContentLoaded` handler, on a page whose storage, heading and
        initial body class are given; `reply` is what the name prompt returns
        if it is shown. */
    constructor (storage0: map<string, string>, heading0: Option<string>, bodyDark: bool,
                 reply: Option<string>)
      ensures Valid()
      ensures Ui() == Preferences.Load(storage0, heading0, bodyDark, reply)
      ensures factText == Placeholder && !fadingOut && pendingFacts == []
    {
      var st := storage0;
      var h := heading0;
      var name := Preferences.StoredName(st);
      if name.None? {
        name := Preferences.PromptedName(reply);
        if name.Some? {
          st := st[Preferences.NameKey := name.value];
        }
      }
      if name.Some? {
        h := Preferences.Retitle(h, name.value);
      }
      var d := bodyDark;
      if Preferences.ThemeKey in st && st[Preferences.ThemeKey] == "dark" {
        d := true;
      }
      storage, heading, dark := st, h, d;
      themeLabel := Preferences.ThemeLabel(d);
      factText, fadingOut, pendingFacts := Placeholder, false, [];
    }

    /** The theme button's click handler. */
    method ToggleTheme()
      requires Valid()
      modifies this
      ensures Valid()
      ensures Ui() == Preferences.ToggleTheme(old(Ui()))
      ensures factText == old(factText) && fadingOut == old(fadingOut) && pendingFacts == old(pendingFacts)
    {
      dark := !dark;
      storage := storage[Preferences.ThemeKey := if dark then "dark" else "light"];
      themeLabel := if dark then Preferences.LightLabel else Preferences.DarkLabel;
    }

    /** The rename button's click handler; `reply` is what the prompt returns. */
    method Rename(reply: Option<string>)
      requires Valid()
      modifies this
      ensures Valid()
      ensures Ui() == Preferences.Rename(old(Ui()), reply)
      ensures factText == old(factText) && fadingOut == old(fadingOut) && pendingFacts == old(pendingFacts)
    {
      var newName := Preferences.PromptedName(reply);
      if newName.Some? {
        storage := storage[Preferences.NameKey := newName.value];
        if heading.Some? {
          heading := Some(Preferences.Greeting(newName.value));
        }
      }
      assert Preferences.WellFormed(Ui());
      assert Displayable(factText);
      assert forall i :: 0 <= i < |pendingFacts| ==> pendingFacts[i] in AllFacts();
    }

    /** The random-fact button's click handler, for the random number `r`:
        the paragraph starts fading out and a timer is set that will show a
        fact of the global pool. */
    method ClickRandomFact(r: real)
      requires Valid() && 0.0 <= r < 1.0
      modifies this
      ensures Valid()
      ensures fadingOut && pendingFacts == old(pendingFacts) + [GlobalFact(r)]
      ensures factText == old(factText) && Ui() == old(Ui())
    {
      var newFact := GlobalFact(r);
      fadingOut := true;
      pendingFacts := pendingFacts + [newFact];
    }

    /** The oldest pending fade timer fires: its fact replaces the text and
        the paragraph stops fading, even if other timers are still pending. */
    method FireFadeTimer()
      requires Valid() && pendingFacts != []
      modifies this
      ensures Valid()
      ensures factText == old(pendingFacts)[0] && pendingFacts == old(pendingFacts)[1..]
      ensures !fadingOut && Ui() == old(Ui())
    {
      factText := pendingFacts[0];
      pendingFacts := pendingFacts[1..];
      fadingOut := false;
    }

    /** A category link's click handler for the link text and the event's
        modifier keys and button. The early return is taken under the
        condition as the source writes it, which is the middle button alone;
        any other click, a Ctrl-, Meta- or Shift-click included, shows a fact
        of the resolved category. A fade still pending overwrites that text
        when it fires. */
    method ClickCategoryLink(linkText: string, ctrl: bool, meta: bool, shift: bool, button: int,
                             r: real)
      returns (exempt: bool)
      requires Valid() && 0.0 <= r < 1.0
      modifies this
      ensures Valid()
      ensures exempt == ExemptAsWritten(ctrl, meta, shift, button)
      ensures exempt <==> button == 1
      ensures exempt ==> factText == old(factText)
      ensures !exempt ==>
        var key := ResolveLabel(linkText);
        factText == CategoryText(Pool(key), key, r) && factText != NoFactsMessage
      ensures fadingOut == old(fadingOut) && pendingFacts == old(pendingFacts) && Ui() == old(Ui())
    {
      AsWrittenOnlyMiddleButton(ctrl, meta, shift, button);
      if ExemptAsWritten(ctrl, meta, shift, button) {
        return true;
      }
      var key := ResolveLabel(linkText);
      var pool := Pool(key);
      ResolvedKeyIsCategory(linkText);
      ResolvedPoolNonEmpty(linkText, r);
      factText := CategoryText(pool, key, r);
      exempt := false;
    }
  }
}

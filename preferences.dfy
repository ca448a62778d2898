/** The greeting and the toolbar as values: the browser's key-value storage,
    whether the page is in dark mode, the theme button's label and the text
    of the page heading, with what page load, the theme button and the
    rename button do to them. The page class in `Page` keeps these as its
    fields and is specified by these functions. */
module Preferences {
  import opened Wrappers
  import opened Text

  /** The two storage keys the page uses. */
  const NameKey: string := "visitorName"
  const ThemeKey: string := "theme"

  /** The theme button's two labels: the action it offers next. */
  const LightLabel: string := "\U{2600}\U{FE0F} Light"
  const DarkLabel: string := "\U{1F319} Dark"

  /** `storage` is `localStorage`; `heading` is the text of the first `h1`,
      `None` when the page has no `h1`. */
  datatype Ui = Ui(storage: map<string, string>, dark: bool, buttonText: string, heading: Option<string>)

  /** `setThemeBtnText`: the label offers the theme the page is not in. */
  function ThemeLabel(dark: bool): (l: string)
    ensures l == LightLabel <==> dark
    ensures l == DarkLabel <==> !dark
  {
    if dark then LightLabel else DarkLabel
  }

  /** The value the toggle stores under `theme`. */
  function ThemeValue(dark: bool): (v: string)
    ensures v == "dark" <==> dark
    ensures v == "light" <==> !dark
  {
    if dark then "dark" else "light"
  }

  /** `Hello, ${name}!` */
  function Greeting(name: string): string {
    "Hello, " + name + "!"
  }

  /** The label always matches the theme. */
  predicate WellFormed(u: Ui) {
    u.buttonText == ThemeLabel(u.dark)
  }

  /** The stored name the greeting uses without prompting: present and not
      the empty string, which JavaScript treats as false. */
  function StoredName(storage: map<string, string>): (name: Option<string>)
    ensures name.Some? <==> NameKey in storage && storage[NameKey] != ""
    ensures name.Some? ==> name.value == storage[NameKey]
  {
    if NameKey in storage && storage[NameKey] != "" then Some(storage[NameKey]) else None
  }

  /** `prompt(...)?.trim()` taken as a condition: `reply` is `None` when the
      visitor cancels, and a reply that trims to the empty string counts as
      no name either. */
  function PromptedName(reply: Option<string>): (name: Option<string>)
    ensures reply.None? ==> name.None?
    ensures reply.Some? ==> (name.Some? <==> Trim(reply.value) != "")
    ensures name.Some? ==> name.value == Trim(reply.value) && name.value != [] && Trim(name.value) == name.value
  {
    match reply
    case None => None
    case Some(s) =>
      var t := Trim(s);
      TrimIdempotent(s);
      if t == "" then None else Some(t)
  }

  /** `if (h1) h1.textContent = Hello, name!`. */
  function Retitle(heading: Option<string>, name: string): Option<string> {
    if heading.Some? then Some(Greeting(name)) else None
  }

  /** Page load: use the stored name, or prompt and store a non-empty reply;
      greet by whichever name is known; then apply a stored `dark` theme on
      top of the page's initial body class, and label the theme button.
      `reply` is what the prompt would return; it is consulted only when no
      name is stored. */
  function Load(storage: map<string, string>, heading: Option<string>, bodyDark: bool,
                reply: Option<string>): (u: Ui)
    ensures WellFormed(u)
    ensures u.dark <==> bodyDark || (ThemeKey in storage && storage[ThemeKey] == "dark")
    ensures StoredName(storage).Some? ==>
      u.storage == storage && u.heading == Retitle(heading, StoredName(storage).value)
    ensures StoredName(storage).None? && PromptedName(reply).Some? ==>
      u.storage == storage[NameKey := PromptedName(reply).value] &&
      u.heading == Retitle(heading, PromptedName(reply).value)
    ensures StoredName(storage).None? && PromptedName(reply).None? ==>
      u.storage == storage && u.heading == heading
  {
    var name := if StoredName(storage).Some? then StoredName(storage) else PromptedName(reply);
    var stored := if StoredName(storage).None? && name.Some? then storage[NameKey := name.value] else storage;
    var titled := if name.Some? then Retitle(heading, name.value) else heading;
    var dark := bodyDark || (ThemeKey in stored && stored[ThemeKey] == "dark");
    Ui(stored, dark, ThemeLabel(dark), titled)
  }

  /** The theme button: flip dark mode, store the new theme, relabel. */
  function ToggleTheme(u: Ui): (v: Ui)
    ensures v.dark == !u.dark
    ensures ThemeKey in v.storage && (v.storage[ThemeKey] == "dark" <==> v.dark)
    ensures v.storage == u.storage[ThemeKey := ThemeValue(v.dark)]
    ensures WellFormed(v)
    ensures v.heading == u.heading
  {
    var dark := !u.dark;
    Ui(u.storage[ThemeKey := ThemeValue(dark)], dark, ThemeLabel(dark), u.heading)
  }

  /** The rename button: a non-empty trimmed reply is stored and greeted;
      a cancelled or blank reply changes nothing. */
  function Rename(u: Ui, reply: Option<string>): (v: Ui)
    ensures PromptedName(reply).None? ==> v == u
    ensures PromptedName(reply).Some? ==>
      && v.storage == u.storage[NameKey := PromptedName(reply).value]
      && v.heading == Retitle(u.heading, PromptedName(reply).value)
      && v.dark == u.dark && v.buttonText == u.buttonText
  {
    match PromptedName(reply)
    case None => u
    case Some(name) => u.(storage := u.storage[NameKey := name], heading := Retitle(u.heading, name))
  }

  /** Toggling twice restores the theme and the label, and leaves the
      stored theme naming the theme the page is in. */
  lemma ToggleTwice(u: Ui)
    requires WellFormed(u)
    ensures var v := ToggleTheme(ToggleTheme(u));
      v.dark == u.dark && v.buttonText == u.buttonText && v.heading == u.heading &&
      v.storage == u.storage[ThemeKey := ThemeValue(u.dark)]
  {
  }

  /** With `dark` stored, the page loads in dark mode and the button offers
      the light theme. */
  lemma LoadStoredDark(storage: map<string, string>, heading: Option<string>, bodyDark: bool,
                       reply: Option<string>)
    requires ThemeKey in storage && storage[ThemeKey] == "dark"
    ensures Load(storage, heading, bodyDark, reply).dark
    ensures Load(storage, heading, bodyDark, reply).buttonText == LightLabel
  {
  }

  /** A stored name is used without prompting: the reply is never consulted. */
  lemma LoadIgnoresReplyWhenNameStored(storage: map<string, string>, heading: Option<string>,
                                       bodyDark: bool, r1: Option<string>, r2: Option<string>)
    requires StoredName(storage).Some?
    ensures Load(storage, heading, bodyDark, r1) == Load(storage, heading, bodyDark, r2)
  {
  }

  /** No name stored and the visitor answers "Ada": the heading greets Ada
      and the storage remembers her name. */
  lemma LoadGreetsAda(storage: map<string, string>, heading: string, bodyDark: bool)
    requires NameKey !in storage
    ensures var u := Load(storage, Some(heading), bodyDark, Some("Ada"));
      u.heading == Some("Hello, Ada!") && NameKey in u.storage && u.storage[NameKey] == "Ada"
  {
    AdaReply();
    assert Greeting("Ada") == "Hello, Ada!";
  }

  lemma AdaReply()
    ensures PromptedName(Some("Ada")) == Some("Ada")
  {
    TrimUnchanged("Ada");
    TrimmedReply("Ada");
  }

  /** A reply without surrounding white space is taken as it is. */
  lemma TrimmedReply(s: string)
    requires s != "" && Trim(s) == s
    ensures PromptedName(Some(s)) == Some(s)
  {
  }

  /** The name a rename stores is the one the next page load greets with,
      without prompting again. */
  lemma RenamePersists(u: Ui, reply: Option<string>, heading: Option<string>, bodyDark: bool,
                       later: Option<string>)
    requires PromptedName(reply).Some?
    ensures var v := Load(Rename(u, reply).storage, heading, bodyDark, later);
      v.heading == Retitle(heading, PromptedName(reply).value) &&
      StoredName(Rename(u, reply).storage) == PromptedName(reply)
  {
  }

  /** The theme a toggle stores is the one the next page load restores,
      on a page whose body starts light. */
  lemma ThemePersists(u: Ui, heading: Option<string>, reply: Option<string>)
    ensures Load(ToggleTheme(u).storage, heading, false, reply).dark == ToggleTheme(u).dark
  {
  }

  /** Page load only ever adds the dark class: on a page whose body starts
      dark, a stored `light` theme is not restored, and the button offers the
      light theme. */
  lemma LoadNeverClearsDark(storage: map<string, string>, heading: Option<string>,
                            reply: Option<string>)
    ensures Load(storage, heading, true, reply).dark
    ensures Load(storage, heading, true, reply).buttonText == LightLabel
  {
  }
}

/** Theme selection: the three user choices, their resolution to a concrete
    light or dark appearance, validation of the remembered choice, the
    provider's reactions (mount, choice, operating-system change), the
    three-way cycle button and the two-way toggle button. The operating
    system's preference and the remembered string are inputs. */
module Theme {

  import opened Types

  datatype Theme = Dark | Light | System

  /** What is actually applied to the page. */
  datatype Resolved = ResolvedDark | ResolvedLight

  /** The default choice when nothing valid is remembered. */
  const DefaultTheme := System

  /** The string a choice is remembered as. */
  function Name(t: Theme): string
  {
    match t
    case Dark => "dark"
    case Light => "light"
    case System => "system"
  }

  /** The accepted remembered values, as the provider lists them. */
  predicate IsThemeName(s: string)
  {
    s == "dark" || s == "light" || s == "system"
  }

  function Parse(s: string): (r: Option<Theme>)
    ensures r.Some? <==> IsThemeName(s)
    ensures r.Some? ==> Name(r.value) == s
  {
    if s == "dark" then Some(Dark)
    else if s == "light" then Some(Light)
    else if s == "system" then Some(System)
    else None
  }

  /** Remembering a choice and reading it back gives the same choice. */
  lemma ParseName(t: Theme)
    ensures Parse(Name(t)) == Some(t)
  {
  }

  /** The choice the provider starts from: the remembered value when it is
      one of the three names, otherwise the default. */
  function InitialTheme(saved: Option<string>, default: Theme): (r: Theme)
    ensures saved.Some? && IsThemeName(saved.value) ==> Name(r) == saved.value
    ensures !(saved.Some? && IsThemeName(saved.value)) ==> r == default
  {
    if saved.Some? && Parse(saved.value).Some? then Parse(saved.value).value else default
  }

  /** `resolveTheme`: the identity on light and dark; "system" follows the
      operating system. */
  function Resolve(t: Theme, systemPreference: Resolved): (r: Resolved)
    ensures t == Light ==> r == ResolvedLight
    ensures t == Dark ==> r == ResolvedDark
    ensures t == System ==> r == systemPreference
  {
    match t
    case System => systemPreference
    case Light => ResolvedLight
    case Dark => ResolvedDark
  }

  /** The resolution of a concrete choice does not depend on the operating system. */
  lemma ConcreteIgnoresSystem(t: Theme, p: Resolved, q: Resolved)
    requires t != System
    ensures Resolve(t, p) == Resolve(t, q)
  {
  }

  /** The cycle button's order. */
  const ThemeOrder: seq<Theme> := [Light, Dark, System]

  /** `themeOrder.indexOf(theme)`. */
  function IndexOf(t: Theme): (r: int)
    ensures 0 <= r < |ThemeOrder| && ThemeOrder[r] == t
  {
    match t
    case Light => 0
    case Dark => 1
    case System => 2
  }

  /** `cycleTheme`: the next choice in the order, wrapping around. */
  function Cycle(t: Theme): (r: Theme)
    ensures t == Light ==> r == Dark
    ensures t == Dark ==> r == System
    ensures t == System ==> r == Light
  {
    ThemeOrder[(IndexOf(t) + 1) % |ThemeOrder|]
  }

  /** Three presses of the cycle button return to the starting choice, and
      no fewer do. */
  lemma CycleThrice(t: Theme)
    ensures Cycle(Cycle(Cycle(t))) == t
    ensures Cycle(t) != t && Cycle(Cycle(t)) != t
  {
  }

  /** The provider's state: the choice, what is applied, whether the
      remembered value has been read yet, and the value remembered in local
      storage under the key "skillswap-theme". */
  datatype Provider = Provider(theme: Theme, resolved: Resolved, mounted: bool, stored: Option<string>)

  /** Before mounting: the default choice, light applied. */
  function Unmounted(default: Theme, stored: Option<string>): (r: Provider)
    ensures r.theme == default && r.resolved == ResolvedLight
    ensures !r.mounted && r.stored == stored
    ensures !ListenerActive(r)
    ensures forall pref :: Consistent(r, pref)
  {
    Provider(default, ResolvedLight, false, stored)
  }

  datatype ProviderEvent =
    | Mount
    | SetTheme(choice: Theme)
    | SystemChange

  /** The operating-system listener is attached only while "system" is chosen. */
  predicate ListenerActive(p: Provider)
  {
    p.mounted && p.theme == System
  }

  /** Once mounted, what is applied is the resolution of the choice and the
      choice is what is remembered. */
  predicate Consistent(p: Provider, systemPreference: Resolved)
  {
    p.mounted ==> p.resolved == Resolve(p.theme, systemPreference) && p.stored == Some(Name(p.theme))
  }

  /** The provider after one event, given the operating system's preference
      at that moment. After any change of choice (and on mount) the
      resolution effect applies and remembers the choice; an operating-system
      change is heard only while the listener is attached. */
  function Step(p: Provider, e: ProviderEvent, default: Theme, systemPreference: Resolved): (r: Provider)
    ensures e.Mount? ==> r.mounted && r.theme == InitialTheme(p.stored, default)
    ensures e.SetTheme? ==> r.theme == e.choice && r.mounted == p.mounted
    ensures e.SetTheme? && !p.mounted ==> r.resolved == p.resolved && r.stored == p.stored
    ensures e.SystemChange? && !ListenerActive(p) ==> r == p
    ensures e.SystemChange? && ListenerActive(p) ==> r == p.(resolved := systemPreference)
  {
    match e
    case Mount =>
      var t := InitialTheme(p.stored, default);
      Provider(t, Resolve(t, systemPreference), true, Some(Name(t)))
    case SetTheme(t) =>
      if p.mounted then Provider(t, Resolve(t, systemPreference), true, Some(Name(t)))
      else p.(theme := t)
    case SystemChange =>
      if ListenerActive(p) then p.(resolved := systemPreference) else p
  }

  /** Every event keeps the applied appearance in step with the choice and
      the operating system, and keeps the choice remembered. */
  lemma StepKeepsConsistent(p: Provider, e: ProviderEvent, default: Theme,
                            before: Resolved, after: Resolved)
    requires Consistent(p, before)
    requires !e.SystemChange? ==> after == before
    ensures Consistent(Step(p, e, default, after), after)
  {
  }

  /** Reloading after a choice restores that choice, whatever the default. */
  lemma ChoiceSurvivesReload(p: Provider, t: Theme, default: Theme, pref: Resolved, default2: Theme)
    requires p.mounted
    ensures Step(Unmounted(default2, Step(p, SetTheme(t), default, pref).stored), Mount, default2, pref).theme == t
  {
    ParseName(t);
  }

  /** `toggleTheme`: light goes to dark; anything else goes to light. */
  function Toggle(resolved: Resolved): (r: Theme)
    ensures resolved == ResolvedLight ==> r == Dark
    ensures resolved != ResolvedLight ==> r == Light
    ensures r != System
  {
    if resolved == ResolvedLight then Dark else Light
  }

  /** Two toggles from a concrete choice come back to it. */
  lemma ToggleTwice(t: Theme, systemPreference: Resolved)
    requires t != System
    ensures Toggle(Resolve(Toggle(Resolve(t, systemPreference)), systemPreference)) == t
  {
  }

  /** The toggle always flips what is applied. */
  lemma ToggleFlips(t: Theme, systemPreference: Resolved)
    ensures Resolve(Toggle(Resolve(t, systemPreference)), systemPreference) != Resolve(t, systemPreference)
  {
  }
}

/**
 * The light/dark theme: the `data-theme` attribute on the root element and the
 * `theme` entry in local storage, which `setTheme` always writes together.
 * Storage and the `prefers-color-scheme` query are inputs here.
 */
module Theme {
  import opened Optional

  const Light := "light"
  const Dark := "dark"

  /** The `data-theme` attribute and the stored `theme` value; `None` is `null`. */
  datatype ThemeState = ThemeState(attribute: Option<string>, stored: Option<string>)

  function SystemTheme(prefersDark: bool): string
  {
    if prefersDark then Dark else Light
  }

  /** `getPreferredTheme`: the stored choice when there is one, else the system's. */
  function PreferredTheme(saved: Option<string>, prefersDark: bool): (t: string)
    ensures t != ""
    ensures Truthy(saved) ==> t == saved.value
    ensures !Truthy(saved) ==> (t == Light || t == Dark) && (t == Dark <==> prefersDark)
  {
    if Truthy(saved) then saved.value else SystemTheme(prefersDark)
  }

  /** `setTheme`: the attribute and the stored value both become `t`. */
  function SetTheme(t: string): ThemeState
  {
    ThemeState(Some(t), Some(t))
  }

  /** The attribute matches the stored value, and that value is a non-empty theme. */
  predicate Synced(st: ThemeState)
  {
    st.attribute == st.stored && Truthy(st.stored)
  }

  /** Page load: `setTheme(getPreferredTheme())`. */
  function Load(stored: Option<string>, prefersDark: bool): (st: ThemeState)
    ensures Synced(st)
    ensures Truthy(stored) ==> st.attribute == stored
    ensures !Truthy(stored) ==> st.attribute == Some(SystemTheme(prefersDark))
  {
    SetTheme(PreferredTheme(stored, prefersDark))
  }

  /** The theme the toggle switches to: `light` becomes `dark`, anything else becomes `light`. */
  function Toggled(current: Option<string>): (t: string)
    ensures t == Light || t == Dark
    ensures t == Dark <==> current == Some(Light)
  {
    if current == Some(Light) then Dark else Light
  }

  /** A click on the theme toggle. */
  function OnToggleClick(st: ThemeState): (st': ThemeState)
    ensures Synced(st')
    ensures st'.attribute == Some(Toggled(st.attribute))
    ensures st.attribute in {Some(Light), Some(Dark)} ==> st'.attribute != st.attribute
  {
    SetTheme(Toggled(st.attribute))
  }

  /** A `prefers-color-scheme` change: followed only while nothing truthy is stored. */
  function OnSystemChange(st: ThemeState, prefersDark: bool): (st': ThemeState)
    ensures Truthy(st.stored) ==> st' == st
    ensures !Truthy(st.stored) ==> Synced(st') && st'.attribute == Some(SystemTheme(prefersDark))
  {
    if !Truthy(st.stored) then SetTheme(SystemTheme(prefersDark)) else st
  }

  /** Toggling twice from `light` or `dark` comes back to it; from anything else it ends on `dark`. */
  lemma ToggleTwice(st: ThemeState)
    ensures st.attribute in {Some(Light), Some(Dark)} ==> OnToggleClick(OnToggleClick(st)).attribute == st.attribute
    ensures st.attribute !in {Some(Light), Some(Dark)} ==> OnToggleClick(OnToggleClick(st)).attribute == Some(Dark)
  {
  }

  /**
   * Load always stores a non-empty theme, so after it no system change is ever
   * followed: whatever sequence of toggles and system changes comes next, the
   * system listener leaves the theme alone.
   */
  lemma {:induction false} SystemChangeIgnoredAfterLoad(stored: Option<string>, prefersDark: bool, events: seq<Option<bool>>)
    ensures Synced(Replay(Load(stored, prefersDark), events))
    ensures forall d :: OnSystemChange(Replay(Load(stored, prefersDark), events), d) == Replay(Load(stored, prefersDark), events)
  {
    ReplayKeepsSynced(Load(stored, prefersDark), events);
  }

  /** A run of events: `Some(d)` is a system change to `d` (dark when true), `None` a toggle click. */
  function Replay(st: ThemeState, events: seq<Option<bool>>): ThemeState
    decreases |events|
  {
    if |events| == 0 then st
    else
      var next := match events[0]
        case None => OnToggleClick(st)
        case Some(d) => OnSystemChange(st, d);
      Replay(next, events[1..])
  }

  lemma {:induction false} ReplayKeepsSynced(st: ThemeState, events: seq<Option<bool>>)
    requires Synced(st)
    ensures Synced(Replay(st, events))
    decreases |events|
  {
    if |events| > 0 {
      var next := match events[0]
        case None => OnToggleClick(st)
        case Some(d) => OnSystemChange(st, d);
      ReplayKeepsSynced(next, events[1..]);
    }
  }
}

/**
 * The registration switch: a stored setting whose value "1" means that
 * registration is open.
 */
module Registration {
  import opened Wrappers

  /** Registration is open exactly when the stored setting is "1". */
  predicate IsOpen(setting: Option<string>)
  {
    setting == Some("1")
  }

  /** The setting after start-up: an unset switch is stored as open, a set one is kept. */
  function Initialized(current: Option<string>): (s: Option<string>)
    ensures s.Some?
    ensures current.Some? ==> s == current
    ensures current.None? ==> IsOpen(s)
  {
    if current.None? then Some("1") else current
  }

  /** The value the toggle stores: "0" when registration was open, "1" in every other case. */
  function Toggled(current: Option<string>): (v: string)
    ensures v == "0" || v == "1"
    ensures IsOpen(Some(v)) <==> !IsOpen(current)
  {
    if current == Some("1") then "0" else "1"
  }

  /** The toggle: the new setting and the message reporting it. */
  function ToggleRegistration(current: Option<string>): (res: (Option<string>, string))
    ensures IsOpen(res.0) <==> !IsOpen(current)
    ensures res.1 == if IsOpen(res.0) then "Registration has been opened" else "Registration has been closed"
  {
    var v := Toggled(current);
    (Some(v), "Registration has been " + (if v == "1" then "opened" else "closed"))
  }

  /** Toggling a stored "0" or "1" twice restores it. */
  lemma ToggleTwiceRestores(current: Option<string>)
    requires current == Some("0") || current == Some("1")
    ensures ToggleRegistration(ToggleRegistration(current).0).0 == current
  {
  }

  /** Toggling twice restores openness whatever the stored value was. */
  lemma ToggleTwiceRestoresOpenness(current: Option<string>)
    ensures IsOpen(ToggleRegistration(ToggleRegistration(current).0).0) == IsOpen(current)
  {
  }

  /** A value other than "0" and "1" (or no value) counts as closed, so toggling it opens registration. */
  lemma UnrecognisedValueToggleOpens(current: Option<string>)
    requires current != Some("1")
    ensures ToggleRegistration(current) == (Some("1"), "Registration has been opened")
  {
  }
}

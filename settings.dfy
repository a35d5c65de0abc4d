/**
 * The `settings` table (the popup shortcut and the theme), the
 * `set-popup-shortcut` handler with the global-shortcut registration it
 * drives, and the placement arithmetic of the popup window.
 */
module Settings {
  import opened Options
  import opened JsStrings

  /** The popup shortcut `dbInit` stores and `getSettings` falls back to. */
  const DefaultShortcut := "CommandOrControl+Shift+V"

  /** `DEFAULT_THEME`, as the field-name to value object it is. */
  const DefaultTheme: map<string, string> := map[
    "bg" := "#0f1115",
    "panel" := "#151922",
    "border" := "rgba(255, 255, 255, 0.12)",
    "text" := "rgba(235, 242, 251, 0.95)",
    "muted" := "rgba(160, 175, 195, 0.9)",
    "danger" := "#ff5a5a",
    "accent" := "#5aa0ff"
  ]

  /**
   * The text stored under the `theme` key, as `safeJson` sees it: empty,
   * not JSON, JSON that spreads to no fields (`null`, a number, a boolean),
   * or an object with string fields.
   */
  datatype ThemeText = Blank | NotJson | NotObject | Object(fields: map<string, string>)

  /** What the `set-popup-shortcut` handler answers. */
  datatype ShortcutReply = Accepted | Refused(reason: string)

  /** `getTheme()` for the stored `theme` row (None when the row is missing). */
  function ThemeOf(stored: Option<ThemeText>): (theme: map<string, string>)
    ensures forall k :: k in DefaultTheme ==> k in theme
    ensures stored.Some? && stored.value.Object? ==>
              forall k :: k in stored.value.fields ==> k in theme && theme[k] == stored.value.fields[k]
    ensures stored.Some? && stored.value.Object? ==>
              forall k :: k in theme ==> k in DefaultTheme || k in stored.value.fields
    ensures stored.Some? && stored.value.Object? ==>
              forall k :: k in DefaultTheme && k !in stored.value.fields ==> theme[k] == DefaultTheme[k]
    ensures !(stored.Some? && stored.value.Object?) ==> theme == DefaultTheme
  {
    match stored
    case Some(Object(fields)) => DefaultTheme + fields
    case _ => DefaultTheme
  }

  /** Reading back what `setTheme(t)` stored gives the defaults overridden by `t`. */
  lemma SetThenGetTheme(t: map<string, string>)
    ensures ThemeOf(Some(Object(DefaultTheme + t))) == DefaultTheme + t
    ensures forall k :: k in t ==> ThemeOf(Some(Object(DefaultTheme + t)))[k] == t[k]
    ensures forall k :: k in DefaultTheme && k !in t ==> ThemeOf(Some(Object(DefaultTheme + t)))[k] == DefaultTheme[k]
  {
    var m := DefaultTheme + t;
    assert DefaultTheme + m == m;
  }

  /**
   * The popup's position on one axis: `min(max(c - offset, lo), lo + span - size)`,
   * for the cursor coordinate `c` and the work area `[lo, lo + span)`. A
   * position that fits is kept, one that does not snaps to the near edge, and
   * on an area smaller than the window the far edges line up.
   */
  function Clamp(c: int, offset: int, lo: int, span: int, size: int): (p: int)
    ensures span >= size ==> lo <= p && p + size <= lo + span
    ensures lo <= c - offset <= lo + span - size ==> p == c - offset
    ensures span >= size && c - offset < lo ==> p == lo
    ensures span >= size && c - offset > lo + span - size ==> p == lo + span - size
    ensures span < size ==> p + size == lo + span
  {
    var p := if c - offset < lo then lo else c - offset;
    if p < lo + span - size then p else lo + span - size
  }

  /** The popup's width and height. */
  const PopupWidth := 560
  const PopupHeight := 620

  /** `showPopupNearCursor`: the window's top-left corner for a cursor and a work area. */
  function PopupOrigin(cursorX: int, cursorY: int, x: int, y: int, width: int, height: int): (origin: (int, int))
    ensures width >= PopupWidth ==> x <= origin.0 && origin.0 + PopupWidth <= x + width
    ensures height >= PopupHeight ==> y <= origin.1 && origin.1 + PopupHeight <= y + height
    ensures x <= cursorX - 280 <= x + width - PopupWidth ==> origin.0 == cursorX - 280
    ensures y <= cursorY - 206 <= y + height - PopupHeight ==> origin.1 == cursorY - 206
  {
    (Clamp(cursorX, PopupWidth / 2, x, width, PopupWidth), Clamp(cursorY, PopupHeight / 3, y, height, PopupHeight))
  }

  /**
   * The `settings` table and the one global shortcut the process holds.
   * `registered` is the accelerator currently bound to opening the popup.
   */
  class Preferences {
    /** The `popupShortcut` row, None when there is none. */
    var popupShortcut: Option<string>
    /** The `theme` row, None when there is none. */
    var theme: Option<ThemeText>
    /** The accelerator registered with the global-shortcut service, if any. */
    var registered: Option<string>

    /** A `settings` table with the given rows, before `dbInit` has run. */
    constructor (shortcutRow: Option<string>, themeRow: Option<ThemeText>)
      ensures popupShortcut == shortcutRow && theme == themeRow && registered == None
    {
      popupShortcut := shortcutRow;
      theme := themeRow;
      registered := None;
    }

    /** The default rows of `dbInit`: each is written only where its key is missing. */
    method InitDefaults()
      modifies this`popupShortcut, this`theme
      ensures popupShortcut == Some(if old(popupShortcut).Some? then old(popupShortcut).value else DefaultShortcut)
      ensures theme == Some(if old(theme).Some? then old(theme).value else Object(DefaultTheme))
    {
      if popupShortcut.None? {
        popupShortcut := Some(DefaultShortcut);
      }
      if theme.None? {
        theme := Some(Object(DefaultTheme));
      }
    }

    /** `getSettings().popupShortcut` */
    function Shortcut(): (s: string)
      reads this
      ensures popupShortcut.None? ==> s == DefaultShortcut
      ensures popupShortcut.Some? ==> s == popupShortcut.value
    {
      match popupShortcut case Some(v) => v case None => DefaultShortcut
    }

    /** `getTheme()` */
    function Theme(): (t: map<string, string>)
      reads this
      ensures forall k :: k in DefaultTheme ==> k in t
    {
      ThemeOf(theme)
    }

    /** `setTheme(theme)`: the defaults overridden by the given fields are stored. */
    method SetTheme(t: map<string, string>) returns (ok: bool)
      modifies this`theme
      ensures ok && theme == Some(Object(DefaultTheme + t))
      ensures Theme() == DefaultTheme + t
    {
      theme := Some(Object(DefaultTheme + t));
      SetThenGetTheme(t);
      ok := true;
    }

    /**
     * `registerShortcut(accel)`: every global shortcut is unregistered, then
     * `accel` is registered; `succeeds` is the answer of the registration.
     */
    method RegisterShortcut(accel: string, succeeds: bool) returns (ok: bool)
      modifies this`registered
      ensures ok == succeeds
      ensures registered == if succeeds then Some(accel) else None
    {
      registered := None;
      if succeeds {
        registered := Some(accel);
      }
      ok := succeeds;
    }

    /** At start-up the stored (or default) shortcut is registered. */
    method RegisterSaved(succeeds: bool)
      modifies this`registered
      ensures registered == if succeeds then Some(Shortcut()) else None
    {
      var _ := RegisterShortcut(Shortcut(), succeeds);
    }

    /**
     * The `set-popup-shortcut` handler. `accelerator` is None for a missing
     * argument; `succeeds` is what the registration would answer.
     * A blank shortcut is refused with nothing touched. A failed registration
     * is refused and leaves the stored setting as it was, but the previous
     * binding is gone too. Otherwise the trimmed shortcut is both bound and
     * stored.
     */
    method SetPopupShortcut(accelerator: Option<string>, succeeds: bool) returns (reply: ShortcutReply)
      modifies this`popupShortcut, this`registered
      ensures var accel := Trim(match accelerator case Some(a) => a case None => "");
        && (accel == "" ==>
              reply == Refused("Empty shortcut")
              && popupShortcut == old(popupShortcut) && registered == old(registered))
        && (accel != "" && !succeeds ==>
              reply == Refused("Invalid or already in use")
              && popupShortcut == old(popupShortcut) && registered == None)
        && (accel != "" && succeeds ==>
              reply == Accepted && popupShortcut == Some(accel) && registered == Some(accel)
              && Shortcut() == accel)
    {
      var accel := Trim(match accelerator case Some(a) => a case None => "");
      if accel == "" {
        return Refused("Empty shortcut");
      }
      var ok := RegisterShortcut(accel, succeeds);
      if !ok {
        return Refused("Invalid or already in use");
      }
      popupShortcut := Some(accel);
      reply := Accepted;
    }
  }
}

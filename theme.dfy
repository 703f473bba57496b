/** `applyTheme` (in `apply-theme.ts` and the renderer's `util.ts`): the root element's
    class list, updated in place. */
module Theme {

  /** The class list after `applyTheme(theme)`. */
  function Themed(classes: set<string>, theme: string): set<string>
  {
    if theme in classes then classes else classes - {"light", "dark"} + {theme}
  }

  /** The theme is always present afterwards, the other theme class is gone unless it is
      the theme itself or was already paired with it, and every other class is kept. */
  lemma ThemedMeans(classes: set<string>, theme: string)
    ensures theme in Themed(classes, theme)
    ensures theme in classes ==> Themed(classes, theme) == classes
    ensures theme !in classes ==> forall c :: c != theme && c != "light" && c != "dark" ==>
      (c in Themed(classes, theme) <==> c in classes)
    ensures theme !in classes ==> forall c :: c in {"light", "dark"} && c != theme ==> c !in Themed(classes, theme)
  {
  }

  /** Applying the same theme twice is applying it once. */
  lemma ThemedIdempotent(classes: set<string>, theme: string)
    ensures Themed(Themed(classes, theme), theme) == Themed(classes, theme)
  {
  }

  /** `document.documentElement.classList`. */
  class ClassList {
    var classes: set<string>

    constructor(initial: set<string>)
      ensures classes == initial
    {
      classes := initial;
    }

    method ApplyTheme(theme: string)
      modifies this
      ensures classes == Themed(old(classes), theme)
    {
      if theme in classes {
        return;
      }
      classes := classes - {"light", "dark"};
      classes := classes + {theme};
    }
  }
}

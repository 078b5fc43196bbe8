/**
 The two page-wide flags and the navigation bar style derived from them.

 The scrolled flag is recomputed from the window's vertical offset on every
 scroll event; the theme flag starts dark and is flipped by the theme button.
 The navigation bar is transparent at the top of the page and takes a solid,
 theme-coloured background once the page has scrolled.
 */
module PageFlags {

  /** Vertical offset, in pixels, past which the page counts as scrolled. */
  const ScrollThreshold: real := 20.0

  /**
   The scroll handler's flag: `scrollY > 20`, a strict comparison, so every
   offset up to and including the threshold counts as not scrolled.
   */
  function ScrolledAt(scrollY: real): (r: bool)
    ensures !r <==> scrollY <= ScrollThreshold
  {
    scrollY > ScrollThreshold
  }

  /**
   The flag is monotone in the offset and changes between two offsets
   exactly when the threshold lies between them: at or below 20 on one side,
   above 20 on the other.
   */
  lemma ScrolledChangesOnlyAcrossThreshold(y1: real, y2: real)
    requires y1 <= y2
    ensures ScrolledAt(y1) ==> ScrolledAt(y2)
    ensures ScrolledAt(y1) != ScrolledAt(y2) <==> y1 <= ScrollThreshold < y2
  {
  }

  /** The boundary is strict: 20 is not scrolled, 21 is, and so is anything past 20. */
  lemma ScrolledBoundary()
    ensures !ScrolledAt(20.0) && ScrolledAt(21.0) && ScrolledAt(20.5)
  {
  }

  /** The theme button: `!isDarkMode`. */
  function Toggle(isDarkMode: bool): (r: bool)
    ensures r != isDarkMode
  {
    !isDarkMode
  }

  /** Two clicks of the theme button restore the theme. */
  lemma ToggleTwice(isDarkMode: bool)
    ensures Toggle(Toggle(isDarkMode)) == isDarkMode
  {
  }

  /** The navigation bar's background classes. */
  const Transparent: string := "bg-transparent"
  const DarkSolid: string := "bg-slate-950/95 backdrop-blur-md shadow-lg shadow-slate-900/50"
  const LightSolid: string := "bg-white/95 backdrop-blur-md shadow-lg shadow-slate-200/50"

  /**
   `navClasses`: chosen by theme, then by scroll. The bar is transparent
   exactly when the page is not scrolled, whatever the theme, and once
   scrolled the two themes give different backgrounds.
   */
  function NavClasses(isDarkMode: bool, isScrolled: bool): (r: string)
    ensures r == Transparent <==> !isScrolled
    ensures isScrolled ==> (r == DarkSolid <==> isDarkMode) && (r == LightSolid <==> !isDarkMode)
  {
    if isDarkMode then
      (if isScrolled then DarkSolid else Transparent)
    else
      (if isScrolled then LightSolid else Transparent)
  }

  /** Toggling the theme twice leaves the navigation bar as it was. */
  lemma NavClassesAfterToggleTwice(isDarkMode: bool, isScrolled: bool)
    ensures NavClasses(Toggle(Toggle(isDarkMode)), isScrolled) == NavClasses(isDarkMode, isScrolled)
  {
  }
}

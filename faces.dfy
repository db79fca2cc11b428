/** The four font settings the panel edits (faces_settings) and the `which` selector that
    get and set in face.go switch on. */
module Faces {

  datatype FacesSettings = FacesSettings(fontFamily: string, boldFont: string, italicFont: string, boldItalicFont: string)

  /** A value of `which` that names one of the four settings. */
  predicate IsFace(which: string) {
    which == "font_family" || which == "bold_font" || which == "italic_font" || which == "bold_italic_font"
  }

  /** face_panel.get: the setting `which` names. Any other value panics in the source. */
  function Get(s: FacesSettings, which: string): (r: string)
    requires IsFace(which)
    ensures r == s.fontFamily || r == s.boldFont || r == s.italicFont || r == s.boldItalicFont
  {
    if which == "font_family" then s.fontFamily
    else if which == "bold_font" then s.boldFont
    else if which == "italic_font" then s.italicFont
    else s.boldItalicFont
  }

  /** face_panel.set: replaces the setting `which` names; an unknown `which` changes nothing. */
  function Set(s: FacesSettings, which: string, v: string): (r: FacesSettings)
    ensures IsFace(which) ==> Get(r, which) == v
    ensures forall w :: IsFace(w) && w != which ==> Get(r, w) == Get(s, w)
    ensures !IsFace(which) ==> r == s
  {
    if which == "font_family" then s.(fontFamily := v)
    else if which == "bold_font" then s.(boldFont := v)
    else if which == "italic_font" then s.(italicFont := v)
    else if which == "bold_italic_font" then s.(boldItalicFont := v)
    else s
  }

  /** Setting what is already there changes nothing. */
  lemma SetGet(s: FacesSettings, which: string)
    requires IsFace(which)
    ensures Set(s, which, Get(s, which)) == s
  {
  }

  /** The later of two writes to the same setting wins. */
  lemma SetSet(s: FacesSettings, which: string, v: string, u: string)
    ensures Set(Set(s, which, v), which, u) == Set(s, which, u)
  {
  }
}

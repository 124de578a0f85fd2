/** The menu button of the earthquake page: a sidebar that opens and closes,
    with the main content's left margin following it (`toggle_sidebar`). */
module Sidebar {
  import opened Wrappers

  /** A CSS style dictionary. */
  type Style = map<string, string>

  const SidebarOpen: Style := map[
    "position" := "absolute",
    "left" := "0",
    "top" := "0",
    "width" := "300px",
    "height" := "100%",
    "background-color" := "#2A2E3E",
    "padding" := "20px",
    "transition" := "width 0.3s",
    "overflow" := "auto",
    "z-index" := "9999"]

  const SidebarClosed: Style := map[
    "position" := "absolute",
    "left" := "0",
    "top" := "0",
    "width" := "0px",
    "height" := "100%",
    "background-color" := "#2A2E3E",
    "padding" := "0px",
    "transition" := "width 0.3s",
    "overflow" := "hidden",
    "z-index" := "9999"]

  const ContentStyleOpen: Style := map[
    "margin-left" := "320px",
    "padding" := "20px"]

  const ContentStyleClosed: Style := map[
    "margin-left" := "20px",
    "padding" := "20px"]

  /** The two states the page can be in. */
  datatype Panel = Open | Closed

  function Flip(p: Panel): Panel
  {
    match p
    case Open => Closed
    case Closed => Open
  }

  /** The (sidebar, content) style pair that displays a state. */
  function Styles(p: Panel): (Style, Style)
  {
    match p
    case Open => (SidebarOpen, ContentStyleOpen)
    case Closed => (SidebarClosed, ContentStyleClosed)
  }

  /** The test the toggle applies to the current sidebar style: is it the
      300-pixel-wide, open one? A style without a `width` is not. */
  predicate ShowsOpen(style: Style)
  {
    "width" in style && style["width"] == "300px"
  }

  /** The callback behind the menu button. The click count and the content
      style are inputs of the callback that it does not read; a missing or
      empty sidebar style counts as "not yet set" and opens the sidebar. */
  function ToggleSidebar(nClicks: int, sidebarStyle: Option<Style>, contentStyle: Option<Style>)
    : (r: (Style, Style))
    ensures r == Styles(Open) || r == Styles(Closed)
    ensures "margin-left" in r.1
    ensures ShowsOpen(r.0) <==> r.1["margin-left"] == "320px"
  {
    if sidebarStyle.None? || |sidebarStyle.value| == 0 then
      (SidebarOpen, ContentStyleOpen)
    else if "width" in sidebarStyle.value && sidebarStyle.value["width"] == "300px" then
      (SidebarClosed, ContentStyleClosed)
    else
      (SidebarOpen, ContentStyleOpen)
  }

  /** Telling the two states apart by their styles: each constant pair
      displays exactly one state. */
  lemma StylesDistinguishPanels(p: Panel)
    ensures ShowsOpen(Styles(p).0) <==> p == Open
    ensures Styles(p).1["margin-left"] == (if p == Open then "320px" else "20px")
    ensures |Styles(p).0| > 0
  {
  }

  /** Without a sidebar style, or with an empty one, the page opens the sidebar. */
  lemma ToggleWithoutStyle(nClicks: int, sidebarStyle: Option<Style>, contentStyle: Option<Style>)
    requires sidebarStyle.None? || sidebarStyle.value == map[]
    ensures ToggleSidebar(nClicks, sidebarStyle, contentStyle) == Styles(Open)
  {
  }

  /** An open (300-pixel) sidebar is closed, and the content margin shrinks with it. */
  lemma ToggleClosesOpenSidebar(nClicks: int, style: Style, contentStyle: Option<Style>)
    requires ShowsOpen(style)
    ensures ToggleSidebar(nClicks, Some(style), contentStyle) == Styles(Closed)
  {
  }

  /** Any other non-empty sidebar style, one without a `width` included, is opened. */
  lemma ToggleOpensOtherSidebar(nClicks: int, style: Style, contentStyle: Option<Style>)
    requires |style| > 0 && !ShowsOpen(style)
    ensures ToggleSidebar(nClicks, Some(style), contentStyle) == Styles(Open)
  {
  }

  /** On the styles the page itself produces, the toggle flips the state. */
  lemma ToggleFlipsPanel(nClicks: int, p: Panel, contentStyle: Option<Style>)
    ensures ToggleSidebar(nClicks, Some(Styles(p).0), contentStyle) == Styles(Flip(p))
  {
  }

  /** From the initial open sidebar, one click closes it and a second one
      brings back the very style the page started with. */
  lemma ToggleAlternates(n1: int, n2: int, c1: Option<Style>, c2: Option<Style>)
    ensures var once := ToggleSidebar(n1, Some(SidebarOpen), c1);
      && once == (SidebarClosed, ContentStyleClosed)
      && ToggleSidebar(n2, Some(once.0), c2) == (SidebarOpen, ContentStyleOpen)
  {
  }
}

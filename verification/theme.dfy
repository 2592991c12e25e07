// The dashboard's two colour palettes and the lookup that picks one.

module Theme {
  /** The fifteen colour roles every palette defines. */
  const Roles: set<string> := {
    "background", "card_bg", "card_border", "text_primary", "text_secondary",
    "text_muted", "primary", "secondary", "success", "warning", "danger",
    "info", "grid", "plot_bg", "paper_bg"
  }

  const Transparent: string := "rgba(0,0,0,0)"

  const DarkPalette: map<string, string> := map[
    "background" := "#0f172a",
    "card_bg" := "#1e293b",
    "card_border" := "#334155",
    "text_primary" := "#e2e8f0",
    "text_secondary" := "#94a3b8",
    "text_muted" := "#64748b",
    "primary" := "#6366f1",
    "secondary" := "#8b5cf6",
    "success" := "#10b981",
    "warning" := "#f59e0b",
    "danger" := "#ef4444",
    "info" := "#3b82f6",
    "grid" := "#334155",
    "plot_bg" := Transparent,
    "paper_bg" := Transparent
  ]

  const LightPalette: map<string, string> := map[
    "background" := "#ffffff",
    "card_bg" := "#f8fafc",
    "card_border" := "#e2e8f0",
    "text_primary" := "#1e293b",
    "text_secondary" := "#475569",
    "text_muted" := "#94a3b8",
    "primary" := "#4f46e5",
    "secondary" := "#7c3aed",
    "success" := "#059669",
    "warning" := "#d97706",
    "danger" := "#dc2626",
    "info" := "#2563eb",
    "grid" := "#e2e8f0",
    "plot_bg" := Transparent,
    "paper_bg" := Transparent
  ]

  /** `THEME_COLORS`: the palettes by theme name. */
  const Palettes: map<string, map<string, string>> := map["dark" := DarkPalette, "light" := LightPalette]

  /** `get_theme_colors`: the palette of a known theme, and the dark palette
      for any other name. Whatever the name, every colour role can be
      looked up in the result, and the charts' backgrounds are transparent. */
  function ThemeColors(theme: string): (r: map<string, string>)
    ensures theme in Palettes ==> r == Palettes[theme]
    ensures theme !in Palettes ==> r == Palettes["dark"]
    ensures r.Keys == Roles
    ensures r["plot_bg"] == Transparent && r["paper_bg"] == Transparent
  {
    if theme in Palettes then Palettes[theme] else Palettes["dark"]
  }
}

module ThemeLaws {
  import opened Theme

  /** Only the name "light" selects the light palette; every other name,
      known or not, gets the dark one. */
  lemma LightOnlyByName(theme: string)
    ensures ThemeColors(theme) == LightPalette <==> theme == "light"
    ensures ThemeColors(theme) == DarkPalette <==> theme != "light"
  {
    assert DarkPalette["background"] != LightPalette["background"];
  }

  /** The two palettes differ in every role but the transparent chart
      backgrounds. */
  lemma PalettesDifferOutsideBackgrounds(role: string)
    requires role in Roles
    ensures DarkPalette[role] == LightPalette[role] <==> role == "plot_bg" || role == "paper_bg"
  {
  }
}

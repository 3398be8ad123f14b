/** The theme reference table: the six topics offered for selection, in the
    order they are shown. */
module Constants {
  import opened Types

  const THEMES: seq<ThemeOption> := [
    ThemeOption(AI, "Artificial Intelligence", AiIcon, AiDescription),
    ThemeOption(ROBOTICS, "Robotics", RoboticsIcon, RoboticsDescription),
    ThemeOption(HARDWARE, "Hardware & Wearables", HardwareIcon, HardwareDescription),
    ThemeOption(SCIENCE, "Scientific Breakthroughs", ScienceIcon, ScienceDescription),
    ThemeOption(SPACE, "Space Exploration", SpaceIcon, SpaceDescription),
    ThemeOption(WORLD, "World News", WorldIcon, WorldDescription)
  ]

  // The icons and descriptions of the table entries, shown on the theme cards.
  const AiIcon: string := "\U{1F916}"
  const AiDescription: string := "LLMs, generative art, and our future robot overlords."
  const RoboticsIcon: string := "\U{1F9BE}"
  const RoboticsDescription: string := "Boston Dynamics dances and automated helpers."
  const HardwareIcon: string := "\U{231A}"
  const HardwareDescription: string := "The latest chips, vision pros, and smart rings."
  const ScienceIcon: string := "\U{1F9EC}"
  const ScienceDescription: string := "CRISPR, fusion energy, and curing the incurable."
  const SpaceIcon: string := "\U{1F680}"
  const SpaceDescription: string := "Mars missions, Webb telescope, and aliens (maybe)."
  const WorldIcon: string := "\U{1F30D}"
  const WorldDescription: string := "Global events, minus the doomscrolling vibe."

  /** No two entries of the table share an id string, so a lookup by id finds
      at most one entry. */
  predicate IdsDistinct(themes: seq<ThemeOption>) {
    forall i, j :: 0 <= i < j < |themes| ==> themes[i].id.Value() != themes[j].id.Value()
  }

  /** Six entries, in the order AI, Robotics, Hardware, Science, Space, World. */
  lemma ThemesOrder()
    ensures |THEMES| == 6
    ensures [THEMES[0].id, THEMES[1].id, THEMES[2].id, THEMES[3].id, THEMES[4].id, THEMES[5].id]
         == [AI, ROBOTICS, HARDWARE, SCIENCE, SPACE, WORLD]
  {
  }

  /** The id strings of the table are pairwise distinct. */
  lemma ThemesIdsDistinct()
    ensures IdsDistinct(THEMES)
  {
  }

  /** Crypto and Gaming are enum members without a table entry. */
  lemma CryptoAndGamingNotOffered()
    ensures forall t :: t in THEMES ==> t.id != CRYPTO && t.id != GAMING
  {
  }

  /** Every label is its id's enum string, except AI's. */
  lemma LabelsAreEnumStrings()
    ensures forall t :: t in THEMES ==>
      t.labelText == (if t.id == AI then "Artificial Intelligence" else t.id.Value())
  {
  }
}

/** Target platforms of the "Translation to Code" page and the framework
    reset that runs whenever the target platform changes
    (src/pages/LangueToCode.js, `targetLanguages` and its effect). */
module Platforms {
  import opened Seqs

  /** One row of the platform table: its select value, its display name and
      its compatible i18n frameworks, the first being the default. */
  datatype Platform = Platform(value: string, caption: string, frameworks: seq<string>)

  const Table: seq<Platform> := [
    Platform("react", "React", ["react-i18next", "react-intl", "next-intl"]),
    Platform("vue", "Vue.js", ["vue-i18n", "vue-intl"]),
    Platform("angular", "Angular", ["ngx-translate", "@angular/localize"]),
    Platform("flutter", "Flutter", ["flutter_localizations", "easy_localization"]),
    Platform("swift", "Swift UI", ["SwiftGen", "Localize-Swift"])
  ]

  /** Every platform lists at least one framework, and no value is listed twice. */
  lemma TableWellFormed()
    ensures forall i :: 0 <= i < |Table| ==> |Table[i].frameworks| > 0
    ensures forall i, j :: 0 <= i < j < |Table| ==> Table[i].value != Table[j].value
  {
  }

  /** `targetLanguages.find(lang => lang.value === target)`. */
  function Lookup(target: string): (r: Option<Platform>)
    ensures r.Some? ==> r.value in Table && r.value.value == target
    ensures r.None? <==> forall i :: 0 <= i < |Table| ==> Table[i].value != target
  {
    Find(Table, (p: Platform) => p.value == target)
  }

  /** The framework after the target platform is set to `target`: the
      platform's first listed framework when `target` is in the table, and
      `current` otherwise. */
  function FrameworkAfterChange(target: string, current: string): (r: string)
    ensures forall i :: 0 <= i < |Table| && Table[i].value == target ==> r == Table[i].frameworks[0]
    ensures (forall i :: 0 <= i < |Table| ==> Table[i].value != target) ==> r == current
  {
    TableWellFormed();
    match Lookup(target)
    case Some(p) => p.frameworks[0]
    case None => current
  }

  /** The framework is the target platform's first listed one, whenever the
      target is in the table. */
  ghost predicate IsDefault(target: string, framework: string)
  {
    forall i :: 0 <= i < |Table| && Table[i].value == target ==> framework == Table[i].frameworks[0]
  }

  /** The framework is one the target platform lists, whenever the target is
      in the table. */
  ghost predicate Compatible(target: string, framework: string)
  {
    forall i :: 0 <= i < |Table| && Table[i].value == target ==> framework in Table[i].frameworks
  }

  /** After a change of platform, the chosen framework is compatible with it,
      whatever it was before. */
  lemma ChangeKeepsCompatible(target: string, current: string)
    ensures Compatible(target, FrameworkAfterChange(target, current))
  {
    TableWellFormed();
  }

  /** The initial selection (React with react-i18next) is already what the
      reset would pick, so the reset run on first render changes nothing. */
  lemma InitialSelectionStable()
    ensures FrameworkAfterChange("react", "react-i18next") == "react-i18next"
  {
  }
}

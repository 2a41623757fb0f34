/**
  The side-effect-free display rules of the Hub window: sidebar description
  truncation, the placeholder icon, the status indicator, the actions offered
  on a detail page, which detail page is shown and which cards are highlighted.
*/
module Presentation {
  import opened Wrappers
  import opened CupdeosModule

  /** Longest description the sidebar shows in full. */
  const MaxSidebarDescription: nat := 60
  const Ellipsis: string := "..."

  /** Row 2 of a module card: a long description is cut so that, with "...", it just fits. */
  function SidebarDescription(description: Option<string>): (shown: string)
    ensures |shown| <= MaxSidebarDescription
    ensures description.None? ==> shown == ""
    ensures description.Some? && |description.value| <= MaxSidebarDescription ==> shown == description.value
    ensures description.Some? && |description.value| > MaxSidebarDescription ==>
      |shown| == MaxSidebarDescription &&
      shown == description.value[..MaxSidebarDescription - |Ellipsis|] + Ellipsis
  {
    match description
    case None => ""
    case Some(d) => if |d| > MaxSidebarDescription then d[..MaxSidebarDescription - |Ellipsis|] + Ellipsis else d
  }

  /** Truncating an already shown description changes nothing. */
  lemma SidebarDescriptionIdempotent(description: Option<string>)
    ensures SidebarDescription(Some(SidebarDescription(description))) == SidebarDescription(description)
  {
  }

  /** The text shown in a placeholder icon: the first (at most) three characters of the abbreviation. */
  function PlaceholderLabel(abbreviation: string): (text: string)
    ensures |text| <= 3
    ensures text <= abbreviation
    ensures |abbreviation| >= 3 ==> |text| == 3
    ensures |abbreviation| < 3 ==> text == abbreviation
  {
    abbreviation[..if |abbreviation| < 3 then |abbreviation| else 3]
  }

  datatype IconView = ModuleIcon | Placeholder(text: string)

  /** A module without an icon gets the default: a placeholder with its abbreviation's prefix. */
  function CardIcon(m: ModuleInfo): (v: IconView)
    ensures v.ModuleIcon? <==> m.hasIcon
    ensures v.Placeholder? ==> v.text == PlaceholderLabel(m.abbreviation)
  {
    if m.hasIcon then ModuleIcon else Placeholder(PlaceholderLabel(m.abbreviation))
  }

  const OkDot: string := "\U{25CF}"
  const OkCheck: string := "\U{2713}"
  const WarningSign: string := "\U{26A0}"

  /** The status indicator on a sidebar card. */
  function CardStatusGlyph(m: ModuleInfo): (g: string)
    ensures g == OkDot <==> HealthOf(m.status).Healthy?
    ensures g == WarningSign <==> HealthOf(m.status).NeedsAttention?
  {
    if IsNullOrEmpty(m.status) then OkDot else WarningSign
  }

  /** The status indicator in the welcome page's list of installed modules. */
  function OverviewStatusGlyph(m: ModuleInfo): (g: string)
    ensures g == OkCheck <==> HealthOf(m.status).Healthy?
    ensures g == WarningSign <==> HealthOf(m.status).NeedsAttention?
  {
    if IsNullOrEmpty(m.status) then OkCheck else WarningSign
  }

  /** The warning box of a detail page, carrying the status message. */
  function DetailWarning(m: ModuleInfo): (w: Option<string>)
    ensures w.None? <==> HealthOf(m.status).Healthy?
    ensures w.Some? ==> m.status == Some(w.value) && w.value != ""
  {
    if IsNullOrEmpty(m.status) then None else m.status
  }

  datatype Action = OpenSettings | OpenDocumentation(url: string)

  /** The buttons of a detail page, in the order they are drawn. */
  function DetailActions(m: ModuleInfo): (actions: seq<Action>)
    ensures OpenSettings in actions <==> m.hasSettingsWindow
    ensures (exists u :: OpenDocumentation(u) in actions) <==> !IsNullOrEmpty(m.documentationUrl)
    ensures forall a :: a in actions && a.OpenDocumentation? ==> m.documentationUrl == Some(a.url) && a.url != ""
    ensures |actions| == (if m.hasSettingsWindow then 1 else 0) + (if IsNullOrEmpty(m.documentationUrl) then 0 else 1)
    ensures m.hasSettingsWindow ==> actions[0] == OpenSettings
  {
    (if m.hasSettingsWindow then [OpenSettings] else []) +
    (if IsNullOrEmpty(m.documentationUrl) then [] else [OpenDocumentation(m.documentationUrl.value)])
  }

  datatype Page = WelcomePage | ModuleDetail(shown: ModuleInfo)

  /** DrawDetailPanel: the module's page only when the welcome page is not requested and a module is selected. */
  function DetailPage(showWelcome: bool, selected: Option<ModuleInfo>): (p: Page)
    ensures p.ModuleDetail? <==> !showWelcome && selected.Some?
    ensures p.ModuleDetail? ==> p.shown == selected.value
  {
    if showWelcome then WelcomePage
    else if selected.Some? then ModuleDetail(selected.value)
    else WelcomePage
  }

  /** The welcome card is highlighted exactly while the welcome page is requested. */
  predicate WelcomeCardHighlighted(showWelcome: bool) {
    showWelcome
  }

  /** A module card is highlighted when the selection has its abbreviation. */
  predicate CardHighlighted(selected: Option<ModuleInfo>, card: ModuleInfo) {
    selected.Some? && selected.value.abbreviation == card.abbreviation
  }

  /** Every card sharing the selection's abbreviation is highlighted, and no other. */
  function HighlightedCards(selected: Option<ModuleInfo>, cards: seq<ModuleInfo>): (marked: seq<bool>)
    ensures |marked| == |cards|
    ensures forall i :: 0 <= i < |cards| ==>
      (marked[i] <==> selected.Some? && cards[i].abbreviation == selected.value.abbreviation)
    ensures selected.None? ==> forall i :: 0 <= i < |marked| ==> !marked[i]
  {
    seq(|cards|, i requires 0 <= i < |cards| => CardHighlighted(selected, cards[i]))
  }

  /** A selected module among the cards always highlights its own card. */
  lemma SelectedCardHighlighted(selected: Option<ModuleInfo>, cards: seq<ModuleInfo>, i: nat)
    requires i < |cards| && selected == Some(cards[i])
    ensures HighlightedCards(selected, cards)[i]
  {
  }
}

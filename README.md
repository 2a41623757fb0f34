# Cupdeos Hub — a verified model of the hub window's state and rules

The Cupdeos Hub is an editor panel that finds every installed Cupdeos module
and shows it in a two-pane browser. The sidebar holds a welcome card and one
card per module. The detail pane shows either the welcome page or the selected
module's page, with its status, actions and dependencies. This project models
what the panel decides, separate from how it draws:

- **The module records** (`cupdeos_module.dfy`, module `CupdeosModule`). The
  `ICupdeosModule` and `ICupdeosDependency` interfaces become datatypes holding
  what their getters return. `CupdeosDependency` becomes an immutable value
  built by `NewDependency`, whose display name defaults to `""`. The health
  contract of `GetStatusMessage` is also here: null or empty means healthy,
  anything else is a warning.
- **Discovery** (`discovery.dfy`, module `Discovery`). Each type the host's type
  cache reports is an abstract *candidate*. A candidate is abstract or not, an
  interface or not, and its construction either gives an instance or throws.
  `Discover` is the list the refresh loop builds. `FirstWithAbbreviation` and
  `Reselect` model how the selection is looked up again after a refresh.
- **Ordering** (`stable_order.dfy`, module `StableOrder`). `OrderBy(m =>
  m.DisplayName)` is modelled as a stable insertion sort over an abstract
  comparator `le` on display names, assumed to be a total preorder. The model
  proves the result is sorted and is a permutation of its input. It also proves
  stability: modules whose names rank equal keep their discovery order. Finally
  it proves that these properties determine the result: the sort is the only
  sorted list that keeps every rank class in input order.
- **Dependency status** (`dependencies.dfy`, module `Dependencies`). A
  dependency is Installed, External package or Not found. The matching is
  case-insensitive, and a required dependency whose abbreviation starts with
  "GC2" is external. An absent or empty dependency array draws no section.
- **Display rules** (`presentation.dfy`, module `Presentation`). These are
  sidebar description truncation to 60 characters, the three-character
  placeholder label, the status glyphs, the actions a detail page offers, the
  detail-page choice and card highlighting.
- **The window** (`hub_window.dfy`, module `Hub`, class `HubWindow`). It has
  the fields `modules`, `selected`, `showWelcome` and `initialized`. `Refresh`
  keeps the source's loop: it clears the list, appends each instantiable
  candidate, sorts, and re-resolves the selection. `OnGui` refreshes only when
  the window is not yet initialised. `ClickWelcome` and `ClickModule` are the
  two sidebar clicks.

One consequence of the code, proved in `Hub.LostSelectionShowsUnhighlightedWelcome`:
suppose a module page is open and a refresh finds no module with the selected
abbreviation. The selection becomes empty, so the welcome page is shown.
`Refresh` keeps `showWelcome` false, though, so the welcome card is not
highlighted.

Assumptions of the model:
- `StringComparison.OrdinalIgnoreCase` is modelled as an ASCII fold to upper
  case: only `a`–`z` and `A`–`Z` are equated. Characters outside ASCII compare
  exactly.
- The culture-sensitive string order that `OrderBy` uses is the parameter `le`.
  It is assumed to be a total preorder (`StableOrder.TotalPreorder`).
- `GetStatusMessage()` is stored as a value in the module record. The model
  therefore treats a module's status as fixed for the life of its instance,
  that is, between refreshes. The source asks again every frame, and the
  answer may change while the window is open (a scene component goes missing,
  say); the model does not capture such a change.
- The module's `Icon` is reduced to whether it is null.
- A module's `Abbreviation` and `DisplayName` and a dependency's `Abbreviation`
  are non-null strings. The fields the source tests for null are `Option`s:
  the description, the status message, the documentation URL and the two
  dependency arrays.

## Model

| member | source | states |
|---|---|---|
| `CupdeosModule.NewDependency` | Common/Editor/ICupdeosModule.cs:71-80 | the readonly struct stores the given abbreviation and display name unchanged; omitting the display name gives `""` |
| `CupdeosModule.HealthOf` | Common/Editor/ICupdeosModule.cs:55-59 | a status is healthy exactly when it is null or empty; otherwise it is a warning carrying that non-empty message |
| `AsciiFold.Fold` | Hub/Editor/CupdeosHubWindow.cs:564-565 | the case fold keeps the length, upper-cases each character independently, leaves no lower-case ASCII letter and is idempotent |
| `AsciiFold.EqualsIgnoreCaseEquivalence` | Hub/Editor/CupdeosHubWindow.cs:564-565 | equality ignoring case is reflexive, symmetric and transitive |
| `AsciiFold.StartsWithRespectsCase` | Hub/Editor/CupdeosHubWindow.cs:568-569 | two abbreviations that are equal ignoring case agree on whether they start with a prefix ignoring case |
| `StableOrder.InsertByName` | Hub/Editor/CupdeosHubWindow.cs:102 | inserting a module adds exactly that module to the multiset of the list |
| `StableOrder.OrderByDisplayName` | Hub/Editor/CupdeosHubWindow.cs:102 | sorting by display name is a permutation of the collected modules |
| `StableOrder.InsertByNameSorted` | Hub/Editor/CupdeosHubWindow.cs:102 | inserting into a list sorted by display name keeps it sorted |
| `StableOrder.OrderByDisplayNameSorted` | Hub/Editor/CupdeosHubWindow.cs:102 | the sorted list is non-decreasing by display name under any total preorder |
| `StableOrder.InsertByNameRankedAs` | Hub/Editor/CupdeosHubWindow.cs:102 | an inserted module goes before every module already present whose name ranks equal to it |
| `StableOrder.OrderByDisplayNameStable` | Hub/Editor/CupdeosHubWindow.cs:102 | for every name, the modules ranking equal to it appear in the same order before and after sorting |
| `StableOrder.SortedRankedAsUnique` | Hub/Editor/CupdeosHubWindow.cs:102 | two sorted lists that agree on every rank class are equal |
| `StableOrder.OrderByDisplayNameIsStableSort` | Hub/Editor/CupdeosHubWindow.cs:102 | the sort's result is the only sorted list that keeps each rank class of the input in input order |
| `Discovery.Admitted` | Hub/Editor/CupdeosHubWindow.cs:89-99 | one candidate contributes its instance exactly when it is neither abstract nor an interface and its construction does not throw; otherwise it contributes nothing |
| `Discovery.Discover` | Hub/Editor/CupdeosHubWindow.cs:84-100 | the collected list is never longer than the candidate list |
| `Discovery.DiscoverMembers` | Hub/Editor/CupdeosHubWindow.cs:84-100 | a module is collected exactly when some concrete, successfully constructed candidate produced it; nothing else is in the list |
| `Discovery.DiscoverCount` | Hub/Editor/CupdeosHubWindow.cs:87-100 | the list has one entry per instantiable candidate; skipped and failing candidates add none |
| `Discovery.FirstWithAbbreviation` | Hub/Editor/CupdeosHubWindow.cs:106-107 | the result is null exactly when no module has the abbreviation; otherwise it is the first module with that exact abbreviation |
| `Discovery.Reselect` | Hub/Editor/CupdeosHubWindow.cs:104-108 | no selection stays no selection; a new selection is a listed module with the old abbreviation; a lost selection means no listed module has it |
| `Dependencies.IsInstalled` | Hub/Editor/CupdeosHubWindow.cs:564-565 | true exactly when some module's abbreviation equals the dependency's ignoring case |
| `Dependencies.Classify` | Hub/Editor/CupdeosHubWindow.cs:564-591 | Installed iff a module matches ignoring case; External iff required, not installed and starts with "GC2" ignoring case; Not found in every other case |
| `Dependencies.StatusLabel` | Hub/Editor/CupdeosHubWindow.cs:589-591 | each state has its own label: "Installed", "External package", "Not found" |
| `Dependencies.StateGlyph` | Hub/Editor/CupdeosHubWindow.cs:573-585 | each state has its own row glyph: check mark, em dash, open circle |
| `Dependencies.DependencySection` | Hub/Editor/CupdeosHubWindow.cs:545-595 | a null or empty dependency array draws no section; otherwise there is one row per dependency, in order, with its display name and its classification |
| `Dependencies.DetailDependencies` | Hub/Editor/CupdeosHubWindow.cs:523-537 | the required array is classified as required and the optional array as optional, so no optional row is external |
| `Dependencies.OptionalNeverExternal` | Hub/Editor/CupdeosHubWindow.cs:568-569 | no row of an optional section is ever an external package |
| `Dependencies.ExactMatchIsInstalled` | Hub/Editor/CupdeosHubWindow.cs:564-565 | a module with exactly the dependency's abbreviation makes it Installed |
| `Dependencies.ClassifyIgnoresCase` | Hub/Editor/CupdeosHubWindow.cs:564-569 | two dependencies whose abbreviations differ only in ASCII case get the same classification |
| `Dependencies.LowerCaseGc2IsExternal` | Hub/Editor/CupdeosHubWindow.cs:568-569 | a required "gc2 Core" that no installed module matches ignoring case is an external package |
| `Presentation.SidebarDescription` | Hub/Editor/CupdeosHubWindow.cs:294-297 | the shown text is at most 60 long; null becomes ""; 60 or fewer characters are unchanged; a longer text becomes its first 57 characters plus "...", exactly 60 long |
| `Presentation.SidebarDescriptionIdempotent` | Hub/Editor/CupdeosHubWindow.cs:294-297 | truncating an already shown description changes nothing |
| `Presentation.PlaceholderLabel` | Hub/Editor/CupdeosHubWindow.cs:262-263 | the label is a prefix of the abbreviation of length min(3, length of the abbreviation) |
| `Presentation.CardIcon` | Hub/Editor/CupdeosHubWindow.cs:253-269 | the module's own icon is used iff it is non-null; otherwise the placeholder shows the abbreviation prefix |
| `Presentation.CardStatusGlyph` | Hub/Editor/CupdeosHubWindow.cs:282-287 | the sidebar card shows the OK dot iff the status is null or empty, the warning sign otherwise |
| `Presentation.OverviewStatusGlyph` | Hub/Editor/CupdeosHubWindow.cs:405-408 | the welcome page's overview shows a check mark iff the status is null or empty, the warning sign otherwise |
| `Presentation.DetailWarning` | Hub/Editor/CupdeosHubWindow.cs:486-491 | a warning box appears iff the status is non-empty, and it shows that status message |
| `Presentation.DetailActions` | Hub/Editor/CupdeosHubWindow.cs:502-516 | "Open Settings" is offered iff HasSettingsWindow, and offered first; "Documentation" is offered iff the URL is non-empty and opens that URL; nothing else and nothing twice is offered |
| `Presentation.DetailPage` | Hub/Editor/CupdeosHubWindow.cs:320-331 | the detail pane shows the selected module exactly when showWelcome is false and a module is selected; every other state shows the welcome page |
| `Hub.LostSelectionShowsUnhighlightedWelcome` | Hub/Editor/CupdeosHubWindow.cs:197 | when re-resolution loses the selection of an open module page, no module remains selected, the welcome page is shown and the welcome card is not highlighted |
| `Presentation.HighlightedCards` | Hub/Editor/CupdeosHubWindow.cs:243-246 | a card is highlighted iff a module is selected and has the card's abbreviation, so all cards sharing it are highlighted; with no selection none is |
| `Presentation.SelectedCardHighlighted` | Hub/Editor/CupdeosHubWindow.cs:243-246 | the selected module's own card is highlighted |
| `Hub.ListingContents` | Hub/Editor/CupdeosHubWindow.cs:84-102 | the refreshed list is sorted by name and holds exactly the instances of the instantiable candidates |
| `Hub.ReselectKeepsHighlight` | Hub/Editor/CupdeosHubWindow.cs:104-108 | re-resolving the selection never changes which listed cards are highlighted |
| `Hub.ReselectPage` | Hub/Editor/CupdeosHubWindow.cs:104-108 | after re-resolution, a module page shows a listed module with the old abbreviation; falling back to the welcome page means no such module is left |
| `Hub.HubWindow.constructor` | Hub/Editor/CupdeosHubWindow.cs:29-34 | a new window has an empty list, no selection, the welcome page requested and is not yet initialised |
| `Hub.HubWindow.Refresh` | Hub/Editor/CupdeosHubWindow.cs:82-111 | the new list is the sorted list of instantiable candidates, with nothing left of the old list; the selection is re-resolved by exact abbreviation; initialized becomes true; showWelcome is unchanged |
| `Hub.HubWindow.OnGui` | Hub/Editor/CupdeosHubWindow.cs:121-122 | a window already initialised keeps its list and selection; otherwise it refreshes; either way it ends initialised |
| `Hub.HubWindow.ClickWelcome` | Hub/Editor/CupdeosHubWindow.cs:221-225 | the welcome page is requested and the selection cleared; the list is untouched; the welcome card is highlighted and no module card is |
| `Hub.HubWindow.ClickModule` | Hub/Editor/CupdeosHubWindow.cs:303-306 | the clicked module becomes the selection and its detail page is shown; the list is untouched; exactly the cards with its abbreviation are highlighted, and the welcome card is not |

## Left out

- Immediate-mode drawing is not modelled. This covers layout calls, scroll
  views, spacing, `InitStyles` and the GUI style, texture and colour values.
  They are host objects built on floating point.
- The toolbar's "{n} module(s) installed" label and the welcome page's fixed
  text are drawing only.
- Scroll positions, window sizes and the layout constants (`MODULE_CARD_HEIGHT`,
  `SIDEBAR_WIDTH`, `PADDING`) are floating-point layout.
- The host's reflection is not modelled. `TypeCache.GetTypesDerivedFrom` and
  `Activator.CreateInstance` are replaced by the candidate sequence given to
  `Refresh`.
- Event plumbing is not modelled. This covers `Event.current`, mouse hit
  tests, `Event.Use`, `Repaint`, the menu item `ShowWindow`, and the
  `OnEnable`, `OnFocus` and toolbar button callers of `Refresh`. Each caller
  only invokes `Refresh` as modelled.
- `Debug.LogWarning` for a failing construction, `Application.OpenURL` and the
  body of `OpenSettingsWindow` are side effects. The model records only which
  action is offered (`Presentation.DetailActions`).
- Culture-sensitive string ordering is the comparator parameter `le`, not
  .NET collation.
- Unicode case folding: only ASCII letters are folded.
- Object identity of module instances is not modelled. Modules are values, so
  two instances with equal properties cannot be told apart. Every comparison
  in the source is by abbreviation.
- Null abbreviations are not modelled. The source would throw a
  NullReferenceException in `DrawDependencySection` for a module whose
  `Abbreviation` is null, or, under the "GC2" test, for a dependency whose
  `Abbreviation` is null. It would also throw in `DrawModuleCard`, when the
  placeholder label is cut from the null `Abbreviation` of a module without
  an icon.
- Presentation.SidebarDescription, Presentation.PlaceholderLabel: lengths and
  cut points are counted in Unicode scalar values, because a Dafny `char` is
  one. C# `Length` and `Substring` count UTF-16 code units. The two agree on
  text inside the Basic Multilingual Plane. For text outside it (emoji, say)
  the source cuts earlier than the model, and it can split a surrogate pair,
  which a Dafny string cannot hold. For example, 40 copies of U+1F600 are 80
  code units, so the source truncates them and the model does not. Likewise
  "\U{1F600}AB" gives the label "\U{1F600}A" in the source and "\U{1F600}AB"
  in the model.

/**
  The Hub window's state and the operations that change it: rebuilding the
  module list, the lazy first refresh, and the two kinds of sidebar click.
*/
module Hub {
  import opened Wrappers
  import opened CupdeosModule
  import opened StableOrder
  import opened Discovery
  import opened Presentation

  /** The module list a refresh produces from the candidates the type cache reports. */
  function Listing(candidates: seq<Candidate>, le: (string, string) -> bool): seq<ModuleInfo> {
    OrderByDisplayName(Discover(candidates), le)
  }

  /** After refresh the list holds exactly the instances of the instantiable candidates, sorted by name. */
  lemma ListingContents(candidates: seq<Candidate>, le: (string, string) -> bool, m: ModuleInfo)
    requires TotalPreorder(le)
    ensures SortedByDisplayName(Listing(candidates, le), le)
    ensures m in Listing(candidates, le) <==>
      exists i :: 0 <= i < |candidates| && Instantiable(candidates[i]) && candidates[i].construction.instance == m
  {
    OrderByDisplayNameSorted(Discover(candidates), le);
    DiscoverMembers(candidates, m);
    assert m in Listing(candidates, le) <==> m in multiset(Discover(candidates));
  }

  /** Refreshing never changes which cards are highlighted, even when the selection is lost. */
  lemma {:induction false} ReselectKeepsHighlight(previous: Option<ModuleInfo>, ms: seq<ModuleInfo>, card: ModuleInfo)
    requires card in ms
    ensures CardHighlighted(Reselect(previous, ms), card) <==> CardHighlighted(previous, card)
  {
  }

  /** A module page stays on a module of the same abbreviation, or falls back to the welcome page
      when no module of that abbreviation is left. */
  lemma {:induction false} ReselectPage(showWelcome: bool, previous: Option<ModuleInfo>, ms: seq<ModuleInfo>)
    ensures var p := DetailPage(showWelcome, Reselect(previous, ms));
      && (p.ModuleDetail? ==>
            && DetailPage(showWelcome, previous).ModuleDetail?
            && p.shown in ms
            && p.shown.abbreviation == previous.value.abbreviation)
      && (DetailPage(showWelcome, previous).ModuleDetail? && p.WelcomePage? ==>
            forall m :: m in ms ==> m.abbreviation != previous.value.abbreviation)
  {
  }

  /** A refresh that loses the selection of an open module page shows the welcome page, yet
      leaves the welcome card unhighlighted, because the welcome flag stays false. */
  lemma LostSelectionShowsUnhighlightedWelcome(
    showWelcome: bool, previous: Option<ModuleInfo>, ms: seq<ModuleInfo>)
    requires DetailPage(showWelcome, previous).ModuleDetail?
    requires forall m :: m in ms ==> m.abbreviation != previous.value.abbreviation
    ensures Reselect(previous, ms).None?
    ensures DetailPage(showWelcome, Reselect(previous, ms)) == WelcomePage
    ensures !WelcomeCardHighlighted(showWelcome)
  {
  }

  class HubWindow {
    var modules: seq<ModuleInfo>
    var selected: Option<ModuleInfo>
    var showWelcome: bool
    var initialized: bool

    /** The selection, when there is one, is a module of the list. */
    ghost predicate Valid()
      reads this
    {
      selected.Some? ==> selected.value in modules
    }

    /** The field initialisers: an empty list, nothing selected, the welcome page, not yet refreshed. */
    constructor ()
      ensures Valid()
      ensures modules == [] && selected == None && showWelcome && !initialized
    {
      modules := [];
      selected := None;
      showWelcome := true;
      initialized := false;
    }

    /** RefreshModules */
    method Refresh(candidates: seq<Candidate>, le: (string, string) -> bool)
      requires TotalPreorder(le)
      modifies this
      ensures Valid()
      ensures modules == Listing(candidates, le)
      ensures SortedByDisplayName(modules, le)
      ensures selected == Reselect(old(selected), modules)
      ensures initialized
      ensures showWelcome == old(showWelcome)
    {
      modules := [];
      var i := 0;
      while i < |candidates|
        invariant 0 <= i <= |candidates|
        invariant modules == Discover(candidates[..i])
        invariant selected == old(selected) && showWelcome == old(showWelcome)
      {
        var c := candidates[i];
        if !(c.isAbstract || c.isInterface) {
          match c.construction
          case Constructed(instance) =>
            modules := modules + [instance];
          case Threw(_) =>
            // the warning written to the console is not modelled
        }
        assert candidates[..i + 1][..i] == candidates[..i];
        i := i + 1;
      }
      assert candidates[..i] == candidates;
      modules := OrderByDisplayName(modules, le);
      OrderByDisplayNameSorted(Discover(candidates), le);
      if selected.Some? {
        selected := FirstWithAbbreviation(modules, selected.value.abbreviation);
      }
      initialized := true;
    }

    /** The start of OnGUI: the list is refreshed only while the window is not initialised. */
    method OnGui(candidates: seq<Candidate>, le: (string, string) -> bool)
      requires TotalPreorder(le)
      requires Valid()
      modifies this
      ensures Valid()
      ensures initialized
      ensures showWelcome == old(showWelcome)
      ensures old(initialized) ==> modules == old(modules) && selected == old(selected)
      ensures !old(initialized) ==> modules == Listing(candidates, le) && selected == Reselect(old(selected), modules)
    {
      if !initialized {
        Refresh(candidates, le);
      }
    }

    /** A click on the welcome card. */
    method ClickWelcome()
      modifies this
      ensures Valid()
      ensures showWelcome && selected == None
      ensures modules == old(modules) && initialized == old(initialized)
      ensures DetailPage(showWelcome, selected) == WelcomePage
      ensures WelcomeCardHighlighted(showWelcome)
      ensures forall i :: 0 <= i < |modules| ==> !CardHighlighted(selected, modules[i])
    {
      showWelcome := true;
      selected := None;
    }

    /** A click on the card of `m`, one of the listed modules. */
    method ClickModule(m: ModuleInfo)
      requires m in modules
      modifies this
      ensures Valid()
      ensures selected == Some(m) && !showWelcome
      ensures modules == old(modules) && initialized == old(initialized)
      ensures DetailPage(showWelcome, selected) == ModuleDetail(m)
      ensures !WelcomeCardHighlighted(showWelcome)
      ensures forall i :: 0 <= i < |modules| ==>
        (CardHighlighted(selected, modules[i]) <==> modules[i].abbreviation == m.abbreviation)
    {
      selected := Some(m);
      showWelcome := false;
    }
  }
}

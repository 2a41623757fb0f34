/**
  The dependency rows of a module's detail page: each declared dependency is
  shown as Installed, External package or Not found.
*/
module Dependencies {
  import opened Wrappers
  import opened CupdeosModule
  import opened AsciiFold

  datatype DependencyState = Installed | External | NotFound

  /** The prefix that marks a Game Creator 2 package, which is never a Cupdeos module. */
  const ExternalPrefix: string := "GC2"

  /** m_Modules.Any(m => m.Abbreviation.Equals(abbreviation, OrdinalIgnoreCase)) */
  function IsInstalled(ms: seq<ModuleInfo>, abbreviation: string): (b: bool)
    ensures b <==> exists i :: 0 <= i < |ms| && EqualsIgnoreCase(ms[i].abbreviation, abbreviation)
  {
    if ms == [] then false
    else
      assert forall i :: 0 < i < |ms| ==> ms[i] == ms[1..][i - 1];
      EqualsIgnoreCase(ms[0].abbreviation, abbreviation) || IsInstalled(ms[1..], abbreviation)
  }

  function Classify(ms: seq<ModuleInfo>, dep: Dependency, isRequired: bool): (s: DependencyState)
    ensures s == Installed <==> exists i :: 0 <= i < |ms| && EqualsIgnoreCase(ms[i].abbreviation, dep.abbreviation)
    ensures s == External <==>
      && isRequired
      && (forall i :: 0 <= i < |ms| ==> !EqualsIgnoreCase(ms[i].abbreviation, dep.abbreviation))
      && StartsWithIgnoreCase(dep.abbreviation, ExternalPrefix)
    ensures s == NotFound <==>
      && (forall i :: 0 <= i < |ms| ==> !EqualsIgnoreCase(ms[i].abbreviation, dep.abbreviation))
      && !(isRequired && StartsWithIgnoreCase(dep.abbreviation, ExternalPrefix))
  {
    var installed := IsInstalled(ms, dep.abbreviation);
    var isExternal := isRequired && !installed && StartsWithIgnoreCase(dep.abbreviation, ExternalPrefix);
    if installed then Installed else if isExternal then External else NotFound
  }

  function StatusLabel(s: DependencyState): (text: string)
    ensures text == "Installed" <==> s == Installed
    ensures text == "External package" <==> s == External
    ensures text == "Not found" <==> s == NotFound
  {
    match s
    case Installed => "Installed"
    case External => "External package"
    case NotFound => "Not found"
  }

  /** The glyph in front of a row: a check mark, an em dash or an open circle. */
  function StateGlyph(s: DependencyState): (g: string)
    ensures g == "\U{2713}" <==> s == Installed
    ensures g == "\U{2014}" <==> s == External
    ensures g == "\U{25CB}" <==> s == NotFound
  {
    match s
    case Installed => "\U{2713}"
    case External => "\U{2014}"
    case NotFound => "\U{25CB}"
  }

  datatype DependencyRow = DependencyRow(displayName: string, state: DependencyState)

  /** One section of dependency rows; None when the section is not drawn at all. */
  function DependencySection(ms: seq<ModuleInfo>, deps: Option<seq<Dependency>>, isRequired: bool)
    : (rows: Option<seq<DependencyRow>>)
    ensures rows.None? <==> deps.None? || deps.value == []
    ensures rows.Some? ==> |rows.value| == |deps.value|
    ensures rows.Some? ==> forall i :: 0 <= i < |rows.value| ==>
      rows.value[i].displayName == deps.value[i].displayName &&
      rows.value[i].state == Classify(ms, deps.value[i], isRequired)
  {
    match deps
    case None => None
    case Some(ds) =>
      if ds == [] then None
      else Some(seq(|ds|, i requires 0 <= i < |ds| => DependencyRow(ds[i].displayName, Classify(ms, ds[i], isRequired))))
  }

  /** The two sections of a module's detail page: required first, then optional. */
  function DetailDependencies(ms: seq<ModuleInfo>, m: ModuleInfo)
    : (sections: (Option<seq<DependencyRow>>, Option<seq<DependencyRow>>))
    ensures sections.0 == DependencySection(ms, m.requiredDependencies, true)
    ensures sections.1 == DependencySection(ms, m.optionalDependencies, false)
    ensures sections.1.Some? ==> forall i :: 0 <= i < |sections.1.value| ==> sections.1.value[i].state != External
  {
    (DependencySection(ms, m.requiredDependencies, true), DependencySection(ms, m.optionalDependencies, false))
  }

  /** An optional integration is never an external package. */
  lemma {:induction false} OptionalNeverExternal(ms: seq<ModuleInfo>, deps: Option<seq<Dependency>>)
    ensures var rows := DependencySection(ms, deps, false);
      rows.Some? ==> forall i :: 0 <= i < |rows.value| ==> rows.value[i].state != External
  {
  }

  /** A module listed under exactly the dependency's abbreviation makes it Installed. */
  lemma ExactMatchIsInstalled(ms: seq<ModuleInfo>, dep: Dependency, isRequired: bool, k: nat)
    requires k < |ms| && ms[k].abbreviation == dep.abbreviation
    ensures Classify(ms, dep, isRequired) == Installed
  {
    assert EqualsIgnoreCase(ms[k].abbreviation, dep.abbreviation);
  }

  /** Classification looks at the dependency's abbreviation only up to ASCII case. */
  lemma {:induction false} ClassifyIgnoresCase(ms: seq<ModuleInfo>, a: Dependency, b: Dependency, isRequired: bool)
    requires EqualsIgnoreCase(a.abbreviation, b.abbreviation)
    ensures Classify(ms, a, isRequired) == Classify(ms, b, isRequired)
  {
    StartsWithRespectsCase(a.abbreviation, b.abbreviation, ExternalPrefix);
    forall i | 0 <= i < |ms|
      ensures EqualsIgnoreCase(ms[i].abbreviation, a.abbreviation) <==> EqualsIgnoreCase(ms[i].abbreviation, b.abbreviation)
    {
      EqualsIgnoreCaseEquivalence(ms[i].abbreviation, a.abbreviation, b.abbreviation);
      EqualsIgnoreCaseEquivalence(ms[i].abbreviation, b.abbreviation, a.abbreviation);
    }
  }

  /** A required "gc2 ..." dependency with no matching module is an external package. */
  lemma LowerCaseGc2IsExternal(ms: seq<ModuleInfo>)
    requires !IsInstalled(ms, "gc2 Core")
    ensures Classify(ms, NewDependency("gc2 Core", "Game Creator 2"), true) == External
  {
    var d := NewDependency("gc2 Core", "Game Creator 2");
    assert Fold(d.abbreviation[..3]) == Fold(ExternalPrefix);
  }
}

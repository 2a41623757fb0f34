/**
  Module discovery: the types the host's type cache reports as implementing
  ICupdeosModule, and which of them become modules. Reflection is abstracted:
  each candidate says whether it is abstract or an interface and what
  Activator.CreateInstance does with it (an instance, or an exception).
*/
module Discovery {
  import opened Wrappers
  import opened CupdeosModule

  datatype Construction = Constructed(instance: ModuleInfo) | Threw(message: string)

  datatype Candidate = Candidate(
    typeName: string,
    isAbstract: bool,
    isInterface: bool,
    construction: Construction)

  /** A candidate the refresh loop turns into a module: concrete, and constructed without an exception. */
  predicate Instantiable(c: Candidate) {
    !c.isAbstract && !c.isInterface && c.construction.Constructed?
  }

  /** What the refresh loop appends for one candidate. */
  function Admitted(c: Candidate): (r: seq<ModuleInfo>)
    ensures |r| <= 1
    ensures r != [] <==> Instantiable(c)
    ensures r != [] ==> r[0] == c.construction.instance
  {
    if Instantiable(c) then [c.construction.instance] else []
  }

  /** The list the refresh loop has built after visiting `cs`, before sorting. */
  function Discover(cs: seq<Candidate>): (r: seq<ModuleInfo>)
    ensures |r| <= |cs|
  {
    if cs == [] then [] else Discover(cs[..|cs| - 1]) + Admitted(cs[|cs| - 1])
  }

  /** The discovered list holds exactly the instances of the instantiable candidates. */
  lemma {:induction false} DiscoverMembers(cs: seq<Candidate>, m: ModuleInfo)
    ensures m in Discover(cs) <==>
      exists i :: 0 <= i < |cs| && Instantiable(cs[i]) && cs[i].construction.instance == m
  {
    if cs != [] {
      var init := cs[..|cs| - 1];
      DiscoverMembers(init, m);
      assert forall i :: 0 <= i < |init| ==> init[i] == cs[i];
      if m in Discover(cs) {
        if m !in Discover(init) {
          assert m in Admitted(cs[|cs| - 1]);
        }
      } else {
        forall i | 0 <= i < |cs| && Instantiable(cs[i])
          ensures cs[i].construction.instance != m
        {
          if i == |cs| - 1 {
            assert Admitted(cs[i]) == [cs[i].construction.instance];
          }
        }
      }
    }
  }

  /** Abstract types, interfaces and failed constructions add nothing. */
  lemma {:induction false} DiscoverCount(cs: seq<Candidate>)
    ensures |Discover(cs)| == |set i | 0 <= i < |cs| && Instantiable(cs[i])|
  {
    if cs != [] {
      var n := |cs| - 1;
      var init := cs[..n];
      DiscoverCount(init);
      var before := set i | 0 <= i < |init| && Instantiable(init[i]);
      var after := set i | 0 <= i < |cs| && Instantiable(cs[i]);
      if Instantiable(cs[n]) {
        assert after == before + {n};
      } else {
        assert after == before;
      }
    }
  }

  /** m_Modules.FirstOrDefault(m => m.Abbreviation == abbreviation) */
  function FirstWithAbbreviation(ms: seq<ModuleInfo>, abbreviation: string): (r: Option<ModuleInfo>)
    ensures r.None? <==> forall i :: 0 <= i < |ms| ==> ms[i].abbreviation != abbreviation
    ensures r.Some? ==>
      exists i :: 0 <= i < |ms| && ms[i] == r.value && r.value.abbreviation == abbreviation &&
        forall j :: 0 <= j < i ==> ms[j].abbreviation != abbreviation
  {
    if ms == [] then None
    else if ms[0].abbreviation == abbreviation then Some(ms[0])
    else
      var r := FirstWithAbbreviation(ms[1..], abbreviation);
      assert forall i :: 0 < i < |ms| ==> ms[i] == ms[1..][i - 1];
      r
  }

  /** After the list is rebuilt, the old selection is looked up again by its abbreviation. */
  function Reselect(previous: Option<ModuleInfo>, ms: seq<ModuleInfo>): (r: Option<ModuleInfo>)
    ensures previous.None? ==> r.None?
    ensures r.Some? ==> r.value in ms && r.value.abbreviation == previous.value.abbreviation
    ensures previous.Some? && r.None? ==> forall m :: m in ms ==> m.abbreviation != previous.value.abbreviation
  {
    if previous.None? then None else FirstWithAbbreviation(ms, previous.value.abbreviation)
  }
}

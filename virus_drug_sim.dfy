/** The drug-resistance bookkeeping of PS8/virus_drug_sim.py: viruses with
    a resistance table, a patient's prescription list, the resistant
    population count and the update step. The random draws are supplied by
    the caller: `clears[i]` for `doesClear()` of the `i`-th virus,
    `births[j]` for the birth draw of the `j`-th survivor, and
    `flips[j][drug]` for its child's mutation draw on `drug`. */
module VirusDrugSim {
  import opened Wrappers
  import VirusSim

  datatype ResistantVirus = ResistantVirus(maxBirthProb: real, clearProb: real,
                                           resistances: map<string, bool>, mutProb: real)

  /** What these operations can end in besides a value: a drug missing from
      a resistance table (`KeyError`), or a zero `maxPop`. */
  datatype SimError = KeyError(drug: string) | ZeroDivisionError

  /** `isResistantTo(drug)`. */
  function IsResistantTo(v: ResistantVirus, drug: string): (r: Result<bool, SimError>)
    ensures r.Err? <==> drug !in v.resistances
    ensures r.Ok? ==> r.value == v.resistances[drug]
  {
    if drug in v.resistances then Ok(v.resistances[drug]) else Err(KeyError(drug))
  }

  /** The virus is resistant to every drug of the list. */
  predicate ResistantToAll(v: ResistantVirus, drugs: seq<string>) {
    forall d :: d in drugs ==> d in v.resistances && v.resistances[d]
  }

  /** The flag loop over the drugs: `KeyError` at the first drug missing
      from the table, otherwise whether no drug found the virus susceptible. */
  function CheckAll(v: ResistantVirus, drugs: seq<string>): Result<bool, SimError> {
    if drugs == [] then Ok(true)
    else
      match IsResistantTo(v, drugs[0])
      case Err(e) => Err(e)
      case Ok(b) =>
        match CheckAll(v, drugs[1..])
        case Err(e) => Err(e)
        case Ok(rest) => Ok(b && rest)
  }

  /** The flag loop fails exactly when a listed drug is missing from the
      table, and otherwise tells whether the virus resists all of them. */
  lemma {:induction false} CheckAllMeaning(v: ResistantVirus, drugs: seq<string>)
    ensures CheckAll(v, drugs).Err? <==> exists d :: d in drugs && d !in v.resistances
    ensures CheckAll(v, drugs).Ok? ==> (CheckAll(v, drugs).value <==> ResistantToAll(v, drugs))
    decreases |drugs|
  {
    if drugs != [] {
      CheckAllMeaning(v, drugs[1..]);
      assert drugs == [drugs[0]] + drugs[1..];
    }
  }

  /** The loop of `reproduce` that checks resistance to the active drugs. */
  method CheckResistance(v: ResistantVirus, drugs: seq<string>) returns (r: Result<bool, SimError>)
    ensures r == CheckAll(v, drugs)
  {
    var resistant := true;
    for i := 0 to |drugs|
      invariant CheckAll(v, drugs) == (match CheckAll(v, drugs[i..])
                                       case Err(e) => Err(e)
                                       case Ok(b) => Ok(resistant && b))
    {
      assert drugs[i..][1..] == drugs[i + 1..];
      var ok := IsResistantTo(v, drugs[i]);
      if ok.Err? {
        return Err(ok.error);
      }
      if !ok.value {
        resistant := false;
      }
    }
    r := Ok(resistant);
  }

  /** The child's table: every key of the parent's, switched where its
      mutation draw succeeded. */
  function ChildResistances(parent: map<string, bool>, flips: map<string, bool>): (r: map<string, bool>)
    requires parent.Keys <= flips.Keys
    ensures r.Keys == parent.Keys
  {
    map d | d in parent :: if flips[d] then !parent[d] else parent[d]
  }

  /** `reproduce(popDensity, activeDrugs)` given the birth draw and the
      mutation draws; `Ok(None)` is the `NoChildException`. */
  function Reproduce(v: ResistantVirus, activeDrugs: seq<string>, birth: bool, flips: map<string, bool>)
    : Result<Option<ResistantVirus>, SimError>
    requires v.resistances.Keys <= flips.Keys
  {
    match CheckAll(v, activeDrugs)
    case Err(e) => Err(e)
    case Ok(resistant) =>
      if resistant && birth then
        Ok(Some(ResistantVirus(v.maxBirthProb, v.clearProb, ChildResistances(v.resistances, flips), v.mutProb)))
      else Ok(None)
  }

  /** A virus without resistance to some active drug never has a child,
      whatever the draws. */
  lemma NoChildWithoutResistance(v: ResistantVirus, activeDrugs: seq<string>, birth: bool, flips: map<string, bool>)
    requires v.resistances.Keys <= flips.Keys
    requires forall d :: d in activeDrugs ==> d in v.resistances
    requires exists d :: d in activeDrugs && !v.resistances[d]
    ensures Reproduce(v, activeDrugs, birth, flips) == Ok(None)
  {
    CheckAllMeaning(v, activeDrugs);
  }

  /** A child has exactly its parent's resistance keys, each kept or switched
      by its draw, and inherits the three probabilities. */
  lemma ChildInherits(v: ResistantVirus, activeDrugs: seq<string>, birth: bool, flips: map<string, bool>)
    requires v.resistances.Keys <= flips.Keys
    requires Reproduce(v, activeDrugs, birth, flips).Ok? && Reproduce(v, activeDrugs, birth, flips).value.Some?
    ensures var c := Reproduce(v, activeDrugs, birth, flips).value.value;
            c.maxBirthProb == v.maxBirthProb && c.clearProb == v.clearProb && c.mutProb == v.mutProb &&
            c.resistances.Keys == v.resistances.Keys &&
            forall d :: d in c.resistances ==> (c.resistances[d] == v.resistances[d] <==> !flips[d])
    ensures birth && ResistantToAll(v, activeDrugs)
  {
    CheckAllMeaning(v, activeDrugs);
  }

  /** The child-table loop of `reproduce`. */
  method MutateResistances(parent: map<string, bool>, flips: map<string, bool>) returns (child: map<string, bool>)
    requires parent.Keys <= flips.Keys
    ensures child == ChildResistances(parent, flips)
  {
    child := map[];
    var todo := parent.Keys;
    while todo != {}
      invariant todo <= parent.Keys
      invariant child.Keys == parent.Keys - todo
      invariant forall d :: d in child ==> child[d] == if flips[d] then !parent[d] else parent[d]
      decreases |todo|
    {
      var d :| d in todo;
      if flips[d] {
        child := child[d := !parent[d]];
      } else {
        child := child[d := parent[d]];
      }
      todo := todo - {d};
    }
  }

  // ---------------------------------------------------------------------
  // The patient

  /** The prescription list after `addPrescription(newDrug)`. */
  function AddDrug(drugs: seq<string>, newDrug: string): seq<string> {
    if newDrug in drugs then drugs else drugs + [newDrug]
  }

  predicate NoDuplicates(drugs: seq<string>) {
    forall i, j :: 0 <= i < j < |drugs| ==> drugs[i] != drugs[j]
  }

  /** Adding a prescription keeps the list free of duplicates, keeps the
      earlier drugs in their order, ends with the drug listed, and is
      idempotent. */
  lemma AddDrugProperties(drugs: seq<string>, newDrug: string)
    ensures NoDuplicates(drugs) ==> NoDuplicates(AddDrug(drugs, newDrug))
    ensures drugs <= AddDrug(drugs, newDrug)
    ensures newDrug in AddDrug(drugs, newDrug)
    ensures forall d :: d in AddDrug(drugs, newDrug) <==> d in drugs || d == newDrug
    ensures AddDrug(AddDrug(drugs, newDrug), newDrug) == AddDrug(drugs, newDrug)
  {
  }

  /** The count `getResistPop(drugResist)` computes, or the `KeyError` it
      raises at the first virus lacking one of the drugs. */
  function ResistCount(viruses: seq<ResistantVirus>, drugs: seq<string>): Result<nat, SimError> {
    if viruses == [] then Ok(0)
    else
      match ResistCount(viruses[..|viruses| - 1], drugs)
      case Err(e) => Err(e)
      case Ok(n) =>
        match CheckAll(viruses[|viruses| - 1], drugs)
        case Err(e) => Err(e)
        case Ok(b) => Ok(if b then n + 1 else n)
  }

  /** The positions of the viruses resistant to every listed drug. */
  function ResistantAt(viruses: seq<ResistantVirus>, drugs: seq<string>): set<int> {
    set i | 0 <= i < |viruses| && ResistantToAll(viruses[i], drugs)
  }

  lemma ResistantAtSnoc(viruses: seq<ResistantVirus>, drugs: seq<string>)
    requires viruses != []
    ensures var n := |viruses| - 1;
            ResistantAt(viruses, drugs) ==
              ResistantAt(viruses[..n], drugs) + (if ResistantToAll(viruses[n], drugs) then {n} else {})
    ensures |viruses| - 1 !in ResistantAt(viruses[..|viruses| - 1], drugs)
  {
  }

  /** When every virus's table lists every drug, the count succeeds and is
      the number of viruses resistant to all the drugs. */
  lemma {:induction false} ResistCountMeaning(viruses: seq<ResistantVirus>, drugs: seq<string>)
    requires forall i, d :: 0 <= i < |viruses| && d in drugs ==> d in viruses[i].resistances
    ensures ResistCount(viruses, drugs) == Ok(|ResistantAt(viruses, drugs)|)
    decreases |viruses|
  {
    if viruses != [] {
      var n := |viruses| - 1;
      ResistCountMeaning(viruses[..n], drugs);
      ResistantAtSnoc(viruses, drugs);
      CheckAllMeaning(viruses[n], drugs);
    }
  }

  /** The count lies between 0 and the population, and with no drugs listed
      every virus counts. */
  lemma {:induction false} ResistCountBounds(viruses: seq<ResistantVirus>, drugs: seq<string>)
    ensures ResistCount(viruses, drugs).Ok? ==> ResistCount(viruses, drugs).value <= |viruses|
    ensures drugs == [] ==> ResistCount(viruses, drugs) == Ok(|viruses|)
    decreases |viruses|
  {
    if viruses != [] {
      ResistCountBounds(viruses[..|viruses| - 1], drugs);
    }
  }

  /** The offspring of the survivors, or the `KeyError` a survivor's
      `reproduce` raises; `update` catches only `NoChildException`. */
  function Offspring(survivors: seq<ResistantVirus>, drugs: seq<string>, births: seq<bool>,
                     flips: seq<map<string, bool>>): Result<seq<ResistantVirus>, SimError>
    requires |births| == |survivors| && |flips| == |survivors|
    requires forall j :: 0 <= j < |survivors| ==> survivors[j].resistances.Keys <= flips[j].Keys
  {
    if survivors == [] then Ok([])
    else
      var n := |survivors| - 1;
      match Offspring(survivors[..n], drugs, births[..n], flips[..n])
      case Err(e) => Err(e)
      case Ok(kids) =>
        match Reproduce(survivors[n], drugs, births[n], flips[n])
        case Err(e) => Err(e)
        case Ok(child) => Ok(kids + (if child.Some? then [child.value] else []))
  }

  /** At most one child per survivor, none for a survivor without resistance
      to every prescribed drug. */
  lemma {:induction false} OffspringBounded(survivors: seq<ResistantVirus>, drugs: seq<string>, births: seq<bool>,
                                            flips: seq<map<string, bool>>)
    requires |births| == |survivors| && |flips| == |survivors|
    requires forall j :: 0 <= j < |survivors| ==> survivors[j].resistances.Keys <= flips[j].Keys
    ensures var r := Offspring(survivors, drugs, births, flips);
            r.Ok? ==> |r.value| <= |ResistantAt(survivors, drugs)| <= |survivors|
    decreases |survivors|
  {
    if survivors != [] {
      var n := |survivors| - 1;
      OffspringBounded(survivors[..n], drugs, births[..n], flips[..n]);
      ResistantAtSnoc(survivors, drugs);
      CheckAllMeaning(survivors[n], drugs);
    }
  }

  class Patient {
    var viruses: seq<ResistantVirus>
    var maxPop: int
    var drugs: seq<string>

    /** `Patient(viruses, maxPop)`: no drugs prescribed. */
    constructor(viruses: seq<ResistantVirus>, maxPop: int)
      ensures this.viruses == viruses && this.maxPop == maxPop && drugs == []
    {
      this.viruses := viruses;
      this.maxPop := maxPop;
      drugs := [];
    }

    /** `addPrescription(newDrug)`: appends the drug unless already listed. */
    method AddPrescription(newDrug: string)
      modifies this
      ensures drugs == AddDrug(old(drugs), newDrug)
      ensures viruses == old(viruses) && maxPop == old(maxPop)
    {
      if !(newDrug in drugs) {
        drugs := drugs + [newDrug];
      }
    }

    /** `getPrescriptions()`: the list in insertion order. */
    function GetPrescriptions(): seq<string>
      reads this
    {
      drugs
    }

    /** `getResistPop(drugResist)`: the two nested flag and counter loops. */
    method GetResistPop(drugResist: seq<string>) returns (r: Result<nat, SimError>)
      ensures r == ResistCount(viruses, drugResist)
    {
      var resistPop: nat := 0;
      for i := 0 to |viruses|
        invariant ResistCount(viruses[..i], drugResist) == Ok(resistPop)
      {
        assert viruses[..i + 1][..i] == viruses[..i];
        var resistant := CheckResistance(viruses[i], drugResist);
        if resistant.Err? {
          ResistCountStopsAtError(viruses, drugResist, i + 1);
          return Err(resistant.error);
        }
        if resistant.value {
          resistPop := resistPop + 1;
        }
      }
      assert viruses[..|viruses|] == viruses;
      r := Ok(resistPop);
    }

    /** `update()`: keep the viruses whose clearance draw failed, then append
        the offspring of each survivor. A zero `maxPop` fails at the density
        division, and a `KeyError` in `reproduce` escapes; either way the
        survivors have already replaced the population. */
    method Update(clears: seq<bool>, births: seq<bool>, flips: seq<map<string, bool>>) returns (r: Result<nat, SimError>)
      requires |clears| == |viruses|
      requires |births| == |VirusSim.Survivors(viruses, clears)| && |flips| == |births|
      requires forall j :: 0 <= j < |births| ==>
                 VirusSim.Survivors(viruses, clears)[j].resistances.Keys <= flips[j].Keys
      modifies this
      ensures maxPop == old(maxPop) && drugs == old(drugs)
      ensures var survivors := VirusSim.Survivors(old(viruses), clears);
              if maxPop == 0 then r == Err(ZeroDivisionError) && viruses == survivors
              else match Offspring(survivors, drugs, births, flips)
                   case Err(e) => r == Err(e) && viruses == survivors
                   case Ok(kids) => viruses == survivors + kids && r == Ok(|viruses|)
    {
      var survived: seq<ResistantVirus> := [];
      for i := 0 to |viruses|
        invariant survived == VirusSim.Survivors(viruses[..i], clears[..i])
      {
        assert viruses[..i + 1][..i] == viruses[..i] && clears[..i + 1][..i] == clears[..i];
        if !clears[i] {
          survived := survived + [viruses[i]];
        }
      }
      assert viruses[..|viruses|] == viruses && clears[..|clears|] == clears;
      viruses := survived;
      if maxPop == 0 {
        return Err(ZeroDivisionError);
      }
      var kids := ReproduceAll(viruses, drugs, births, flips);
      if kids.Err? {
        return Err(kids.error);
      }
      viruses := viruses + kids.value;
      r := Ok(|viruses|);
    }
  }

  /** The reproduction loop of `update` over the survivors. */
  method ReproduceAll(survivors: seq<ResistantVirus>, drugs: seq<string>, births: seq<bool>,
                      flips: seq<map<string, bool>>) returns (r: Result<seq<ResistantVirus>, SimError>)
    requires |births| == |survivors| && |flips| == |survivors|
    requires forall j :: 0 <= j < |survivors| ==> survivors[j].resistances.Keys <= flips[j].Keys
    ensures r == Offspring(survivors, drugs, births, flips)
  {
    var newViruses: seq<ResistantVirus> := [];
    for j := 0 to |survivors|
      invariant Offspring(survivors[..j], drugs, births[..j], flips[..j]) == Ok(newViruses)
    {
      var child := ReproduceStep(survivors[j], drugs, births[j], flips[j]);
      OffspringSnoc(survivors, drugs, births, flips, j);
      if child.Err? {
        OffspringStopsAtError(survivors, drugs, births, flips, j + 1);
        return Err(child.error);
      }
      if child.value.Some? {
        newViruses := newViruses + [child.value.value];
      } else {
        assert newViruses + [] == newViruses;
      }
    }
    assert survivors[..|survivors|] == survivors && births[..|births|] == births && flips[..|flips|] == flips;
    r := Ok(newViruses);
  }

  /** `reproduce` with its two loops: the resistance check, then, on a
      birth, the child's table. */
  method ReproduceStep(v: ResistantVirus, activeDrugs: seq<string>, birth: bool, flips: map<string, bool>)
      returns (r: Result<Option<ResistantVirus>, SimError>)
    requires v.resistances.Keys <= flips.Keys
    ensures r == Reproduce(v, activeDrugs, birth, flips)
  {
    var resistant := CheckResistance(v, activeDrugs);
    if resistant.Err? {
      return Err(resistant.error);
    }
    if resistant.value && birth {
      var table := MutateResistances(v.resistances, flips);
      r := Ok(Some(ResistantVirus(v.maxBirthProb, v.clearProb, table, v.mutProb)));
    } else {
      r := Ok(None);
    }
  }

  lemma OffspringSnoc(survivors: seq<ResistantVirus>, drugs: seq<string>, births: seq<bool>,
                      flips: seq<map<string, bool>>, j: nat)
    requires |births| == |survivors| && |flips| == |survivors| && j < |survivors|
    requires forall i :: 0 <= i < |survivors| ==> survivors[i].resistances.Keys <= flips[i].Keys
    ensures Offspring(survivors[..j + 1], drugs, births[..j + 1], flips[..j + 1]) ==
              match Offspring(survivors[..j], drugs, births[..j], flips[..j])
              case Err(e) => Err(e)
              case Ok(kids) =>
                match Reproduce(survivors[j], drugs, births[j], flips[j])
                case Err(e) => Err(e)
                case Ok(child) => Ok(kids + (if child.Some? then [child.value] else []))
  {
    assert survivors[..j + 1][..j] == survivors[..j] && births[..j + 1][..j] == births[..j];
    assert flips[..j + 1][..j] == flips[..j];
  }

  lemma {:induction false} ResistCountStopsAtError(viruses: seq<ResistantVirus>, drugs: seq<string>, k: nat)
    requires k <= |viruses| && ResistCount(viruses[..k], drugs).Err?
    ensures ResistCount(viruses, drugs) == ResistCount(viruses[..k], drugs)
    decreases |viruses|
  {
    if k == |viruses| {
      assert viruses[..k] == viruses;
    } else {
      var init := viruses[..|viruses| - 1];
      assert init[..k] == viruses[..k];
      ResistCountStopsAtError(init, drugs, k);
    }
  }

  lemma {:induction false} OffspringStopsAtError(survivors: seq<ResistantVirus>, drugs: seq<string>, births: seq<bool>,
                                                 flips: seq<map<string, bool>>, k: nat)
    requires |births| == |survivors| && |flips| == |survivors|
    requires forall j :: 0 <= j < |survivors| ==> survivors[j].resistances.Keys <= flips[j].Keys
    requires k <= |survivors| && Offspring(survivors[..k], drugs, births[..k], flips[..k]).Err?
    ensures Offspring(survivors, drugs, births, flips) == Offspring(survivors[..k], drugs, births[..k], flips[..k])
    decreases |survivors|
  {
    if k == |survivors| {
      assert survivors[..k] == survivors && births[..k] == births && flips[..k] == flips;
    } else {
      var n := |survivors| - 1;
      assert survivors[..n][..k] == survivors[..k] && births[..n][..k] == births[..k] && flips[..n][..k] == flips[..k];
      OffspringStopsAtError(survivors[..n], drugs, births[..n], flips[..n], k);
    }
  }
}

/** The population bookkeeping of PS8/virus_sim.py: a patient's list of
    viruses, the clearance filter and the offspring appended after it. The
    random draws are supplied by the caller: `clears[i]` is the outcome of
    `doesClear()` for the `i`-th virus, `births[j]` the outcome of the birth
    draw in `reproduce` for the `j`-th survivor. */
module VirusSim {
  import opened Wrappers

  datatype SimpleVirus = SimpleVirus(maxBirthProb: real, clearProb: real)

  /** `reproduce(popDensity)` given the outcome of its birth draw; `None`
      is the `NoChildException`. */
  function Reproduce(v: SimpleVirus, birth: bool): (r: Option<SimpleVirus>)
    ensures r.Some? <==> birth
    ensures r.Some? ==> r.value.maxBirthProb == v.maxBirthProb && r.value.clearProb == v.clearProb
  {
    if birth then Some(SimpleVirus(v.maxBirthProb, v.clearProb)) else None
  }

  /** The viruses whose clearance draw failed, in their original order. */
  function Survivors<T>(viruses: seq<T>, clears: seq<bool>): (r: seq<T>)
    requires |clears| == |viruses|
    ensures |r| <= |viruses|
  {
    if viruses == [] then []
    else
      var n := |viruses| - 1;
      Survivors(viruses[..n], clears[..n]) + (if clears[n] then [] else [viruses[n]])
  }

  /** The children of the survivors whose birth draw succeeded. */
  function Offspring(survivors: seq<SimpleVirus>, births: seq<bool>): (r: seq<SimpleVirus>)
    requires |births| == |survivors|
  {
    if survivors == [] then []
    else
      var n := |survivors| - 1;
      var child := Reproduce(survivors[n], births[n]);
      Offspring(survivors[..n], births[..n]) + (if child.Some? then [child.value] else [])
  }

  /** A survivor is a virus whose clearance draw failed, and every such
      virus survives. */
  lemma {:induction false} SurvivorsMeaning<T>(viruses: seq<T>, clears: seq<bool>, v: T)
    requires |clears| == |viruses|
    ensures v in Survivors(viruses, clears) <==> exists i :: 0 <= i < |viruses| && !clears[i] && viruses[i] == v
    decreases |viruses|
  {
    if viruses != [] {
      var n := |viruses| - 1;
      SurvivorsMeaning(viruses[..n], clears[..n], v);
      if exists i :: 0 <= i < |viruses| && !clears[i] && viruses[i] == v {
        var i :| 0 <= i < |viruses| && !clears[i] && viruses[i] == v;
        if i < n {
          assert viruses[..n][i] == v && !clears[..n][i];
        }
      }
      if v in Survivors(viruses[..n], clears[..n]) {
        var i :| 0 <= i < n && !clears[..n][i] && viruses[..n][i] == v;
        assert !clears[i] && viruses[i] == v;
      }
    }
  }

  /** The filter keeps order: the survivors of a prefix of the list are a
      prefix of the survivors. */
  lemma {:induction false} SurvivorsKeepOrder<T>(viruses: seq<T>, clears: seq<bool>, k: nat)
    requires |clears| == |viruses| && k <= |viruses|
    ensures Survivors(viruses[..k], clears[..k]) <= Survivors(viruses, clears)
    decreases |viruses|
  {
    if k < |viruses| {
      var n := |viruses| - 1;
      SurvivorsKeepOrder(viruses[..n], clears[..n], k);
      assert viruses[..n][..k] == viruses[..k] && clears[..n][..k] == clears[..k];
    } else {
      assert viruses[..k] == viruses && clears[..k] == clears;
    }
  }

  /** At most one child per survivor, each with its parent's probabilities. */
  lemma {:induction false} OffspringFromSurvivors(survivors: seq<SimpleVirus>, births: seq<bool>)
    requires |births| == |survivors|
    ensures |Offspring(survivors, births)| <= |survivors|
    ensures forall c :: c in Offspring(survivors, births) ==> c in survivors
    decreases |survivors|
  {
    if survivors != [] {
      var n := |survivors| - 1;
      OffspringFromSurvivors(survivors[..n], births[..n]);
      assert forall c :: c in survivors[..n] ==> c in survivors;
    }
  }

  /** The error `update` can end in: `float(maxPop)` is zero. */
  datatype UpdateError = ZeroDivisionError

  class SimplePatient {
    var viruses: seq<SimpleVirus>
    var maxPop: int

    constructor(viruses: seq<SimpleVirus>, maxPop: int)
      ensures this.viruses == viruses && this.maxPop == maxPop
    {
      this.viruses := viruses;
      this.maxPop := maxPop;
    }

    /** `getTotalPop()`. */
    function GetTotalPop(): nat
      reads this
    {
      |viruses|
    }

    /** `update()`: drop the cleared viruses, then append the survivors'
        offspring; returns the new population. With `maxPop` zero the
        density division fails after the survivors have been kept. */
    method Update(clears: seq<bool>, births: seq<bool>) returns (r: Result<nat, UpdateError>)
      requires |clears| == |viruses|
      requires |births| == |Survivors(viruses, clears)|
      modifies this
      ensures maxPop == old(maxPop)
      ensures var survivors := Survivors(old(viruses), clears);
              if maxPop == 0 then r == Err(ZeroDivisionError) && viruses == survivors
              else viruses == survivors + Offspring(survivors, births) && r == Ok(|viruses|)
    {
      var survived: seq<SimpleVirus> := [];
      for i := 0 to |viruses|
        invariant survived == Survivors(viruses[..i], clears[..i])
      {
        assert viruses[..i + 1][..i] == viruses[..i] && clears[..i + 1][..i] == clears[..i];
        if !clears[i] {
          survived := survived + [viruses[i]];
        }
      }
      assert viruses[..|viruses|] == viruses && clears[..|clears|] == clears;
      viruses := survived;
      if maxPop == 0 {
        return Err(ZeroDivisionError);
      }
      var newViruses: seq<SimpleVirus> := [];
      for j := 0 to |viruses|
        invariant viruses == survived
        invariant newViruses == Offspring(viruses[..j], births[..j])
      {
        assert viruses[..j + 1][..j] == viruses[..j] && births[..j + 1][..j] == births[..j];
        var child := Reproduce(viruses[j], births[j]);
        if child.Some? {
          newViruses := newViruses + [child.value];
        }
      }
      assert viruses[..|viruses|] == viruses && births[..|births|] == births;
      viruses := viruses + newViruses;
      r := Ok(GetTotalPop());
    }
  }

  /** The population after an update is at most twice the survivors. */
  lemma UpdateAtMostDoubles(viruses: seq<SimpleVirus>, clears: seq<bool>, births: seq<bool>)
    requires |clears| == |viruses|
    requires |births| == |Survivors(viruses, clears)|
    ensures var survivors := Survivors(viruses, clears);
            |survivors + Offspring(survivors, births)| <= 2 * |survivors|
  {
    OffspringFromSurvivors(Survivors(viruses, clears), births);
  }
}

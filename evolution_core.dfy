/**
 * The engine object every genome points back to (EvolutionCore.java): network dimensions, the
 * settings table, the global innovation-number counter, the activation function and the
 * fitness calculator. The two callbacks are pure functions here.
 */
module Core {
  import opened Setting
  import Genes

  class EvolutionCore {
    const inputSize: int
    const outputSize: int
    const activate: real -> real
    const fitnessCalculator: Genes.Network -> real
    var settings: Table
    var currentInnovationNumber: int

    /** The settings start as a copy of every key's default; the counter starts at 1. */
    constructor (inputs: int, outputs: int, activate: real -> real, calculator: Genes.Network -> real)
      ensures inputSize == inputs && outputSize == outputs
      ensures this.activate == activate && fitnessCalculator == calculator
      ensures forall k: Key :: GetSetting(k) == DefaultValue(k)
      ensures currentInnovationNumber == 1
    {
      var keys := Values();
      var table: map<Key, real> := map[];
      for i := 0 to |keys|
        invariant forall j | 0 <= j < i :: keys[j] in table
        invariant forall k | k in table :: table[k] == DefaultValue(k)
      {
        table := table[keys[i] := DefaultValue(keys[i])];
      }
      assert Total(table) by {
        forall k: Key ensures k in table {
          ValuesListsEveryKey(k);
        }
      }
      inputSize := inputs;
      outputSize := outputs;
      this.activate := activate;
      fitnessCalculator := calculator;
      settings := table;
      currentInnovationNumber := 1;
    }

    function GetSetting(k: Key): real
      reads this
    {
      settings[k]
    }

    /** Overwrites one key; every other key keeps its value. */
    method SetSetting(k: Key, v: real)
      modifies this
      ensures GetSetting(k) == v
      ensures forall j: Key :: j != k ==> GetSetting(j) == old(GetSetting(j))
      ensures currentInnovationNumber == old(currentInnovationNumber)
    {
      settings := settings[k := v];
    }

    /** Hands out the current number and advances the counter by one (a post-increment). */
    method GetNextInnovationNumber() returns (n: int)
      modifies this
      ensures n == old(currentInnovationNumber)
      ensures currentInnovationNumber == n + 1
      ensures settings == old(settings)
    {
      n := currentInnovationNumber;
      currentInnovationNumber := currentInnovationNumber + 1;
    }
  }
}

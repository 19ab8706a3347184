/** Positional list equality (ArrayUtils.equals), used to compare connection lists. */
module ArrayUtils {

  /**
   * Compares two lists element by element. Lists of different sizes differ; otherwise the
   * scan stops at the first position where the elements differ.
   */
  method Equals<T(==)>(a: seq<T>, b: seq<T>) returns (same: bool)
    ensures same <==> |a| == |b| && forall i | 0 <= i < |a| :: a[i] == b[i]
    ensures same <==> a == b
  {
    if |a| != |b| {
      return false;
    }
    var i := 0;
    while i < |a|
      invariant 0 <= i <= |a|
      invariant forall j | 0 <= j < i :: a[j] == b[j]
    {
      if a[i] != b[i] {
        return false;
      }
      i := i + 1;
    }
    return true;
  }
}

/** The emptiness test on an error map (src/utils.ts). */
module Utils {
  import opened Types

  /** `Object.keys(errors).length > 0`: only the keys are inspected. */
  predicate HasError(e: Errors)
    ensures HasError(e) <==> exists k :: k in e
  {
    e != map[]
  }

  /** The empty map carries no error; a key mapped to `false` still counts;
      adding a key can only make an error map erroneous; and a merge of two
      maps has an error exactly when one of them has. */
  lemma HasErrorLaws(e: Errors, f: Errors, k: string, b: bool)
    ensures !HasError(map[])
    ensures HasError(map[k := false])
    ensures HasError(e) ==> HasError(e[k := b])
    ensures HasError(e[k := b])
    ensures HasError(e + f) <==> HasError(e) || HasError(f)
  {
    assert k in map[k := false];
    assert k in e[k := b];
    if HasError(e + f) {
      var j :| j in e + f;
      assert j in e || j in f;
    }
    if HasError(e) {
      var j :| j in e;
      assert j in e + f;
    }
    if HasError(f) {
      var j :| j in f;
      assert j in e + f;
    }
  }
}

/**
 * The registry of interface entries: the append-only list of every entry
 * added (`savedABIs`) and the index from selector to entry (`methodIDs`),
 * with `addABI`, `removeABI` and their two readers.
 */
module Registry {
  import opened Wrappers
  import opened Abi

  /** Some named entry of `arr` has selector `k`. */
  predicate Registers(sha3: string -> string, arr: seq<AbiEntry>, k: string) {
    exists j :: 0 <= j < |arr| && Named(arr[j]) && Selector(sha3, arr[j]) == k
  }

  /** The index after the loop of `addABI` has run over `arr`, entry by entry. */
  function IndexAll(sha3: string -> string, m: map<string, AbiEntry>, arr: seq<AbiEntry>): (r: map<string, AbiEntry>)
    ensures m.Keys <= r.Keys
    decreases |arr|
  {
    if arr == [] then m
    else
      var m' := IndexAll(sha3, m, arr[..|arr| - 1]);
      var a := arr[|arr| - 1];
      if Named(a) then m'[Selector(sha3, a) := a] else m'
  }

  /** The index after the loop of `removeABI` has run over `arr`, entry by entry. */
  function RemoveAll(sha3: string -> string, m: map<string, AbiEntry>, arr: seq<AbiEntry>): (r: map<string, AbiEntry>)
    ensures r.Keys <= m.Keys && forall k :: k in r ==> r[k] == m[k]
    decreases |arr|
  {
    if arr == [] then m
    else
      var m' := RemoveAll(sha3, m, arr[..|arr| - 1]);
      var a := arr[|arr| - 1];
      if Named(a) && Selector(sha3, a) in m' then m' - {Selector(sha3, a)} else m'
  }

  /**
   * Adding registers exactly the selectors of the named entries: a key is
   * present afterwards iff it was present before or a named entry of `arr`
   * has it as its selector. Unnamed entries add no key.
   */
  lemma {:induction false} IndexAllKeys(sha3: string -> string, m: map<string, AbiEntry>, arr: seq<AbiEntry>, k: string)
    ensures k in IndexAll(sha3, m, arr) <==> k in m || Registers(sha3, arr, k)
    decreases |arr|
  {
    if arr != [] {
      var init := arr[..|arr| - 1];
      IndexAllKeys(sha3, m, init, k);
      if Registers(sha3, init, k) {
        var j :| 0 <= j < |init| && Named(init[j]) && Selector(sha3, init[j]) == k;
        assert arr[j] == init[j];
      }
      if Registers(sha3, arr, k) {
        var j :| 0 <= j < |arr| && Named(arr[j]) && Selector(sha3, arr[j]) == k;
        if j < |arr| - 1 { assert init[j] == arr[j]; }
      }
    }
  }

  /**
   * Last write wins: a named entry that no later named entry of `arr` shares
   * a selector with is the value stored under its selector.
   */
  lemma {:induction false} IndexAllLastWins(sha3: string -> string, m: map<string, AbiEntry>, arr: seq<AbiEntry>, j: nat)
    requires j < |arr| && Named(arr[j])
    requires forall j' :: j < j' < |arr| && Named(arr[j']) ==> Selector(sha3, arr[j']) != Selector(sha3, arr[j])
    ensures var r := IndexAll(sha3, m, arr); Selector(sha3, arr[j]) in r && r[Selector(sha3, arr[j])] == arr[j]
    decreases |arr|
  {
    if j < |arr| - 1 {
      var init := arr[..|arr| - 1];
      IndexAllLastWins(sha3, m, init, j);
    }
  }

  /** Keys that no named entry of `arr` selects keep their value (or stay absent). */
  lemma {:induction false} IndexAllUntouched(sha3: string -> string, m: map<string, AbiEntry>, arr: seq<AbiEntry>, k: string)
    requires !Registers(sha3, arr, k)
    ensures var r := IndexAll(sha3, m, arr); (k in r <==> k in m) && (k in m ==> r[k] == m[k])
    decreases |arr|
  {
    if arr != [] {
      var init := arr[..|arr| - 1];
      assert forall j :: 0 <= j < |init| ==> init[j] == arr[j];
      IndexAllUntouched(sha3, m, init, k);
    }
  }

  /**
   * Removing deletes exactly the selectors of the named entries of `arr`,
   * whichever entry they were stored for, and leaves every other key and its
   * value as it was.
   */
  lemma {:induction false} RemoveAllKeys(sha3: string -> string, m: map<string, AbiEntry>, arr: seq<AbiEntry>, k: string)
    ensures var r := RemoveAll(sha3, m, arr);
      (k in r <==> k in m && !Registers(sha3, arr, k)) && (k in r ==> r[k] == m[k])
    decreases |arr|
  {
    if arr != [] {
      var init := arr[..|arr| - 1];
      RemoveAllKeys(sha3, m, init, k);
      if Registers(sha3, init, k) {
        var j :| 0 <= j < |init| && Named(init[j]) && Selector(sha3, init[j]) == k;
        assert arr[j] == init[j];
      }
      if Registers(sha3, arr, k) {
        var j :| 0 <= j < |arr| && Named(arr[j]) && Selector(sha3, arr[j]) == k;
        if j < |arr| - 1 { assert init[j] == arr[j]; }
      }
    }
  }

  /**
   * Adding `arr` and then removing it leaves the index as it was before,
   * less every key `arr` selects: a key that was present before the add
   * (a signature collision) is gone too.
   */
  lemma AddThenRemove(sha3: string -> string, m: map<string, AbiEntry>, arr: seq<AbiEntry>)
    ensures var r := RemoveAll(sha3, IndexAll(sha3, m, arr), arr);
      forall k :: (k in r <==> k in m && !Registers(sha3, arr, k)) && (k in r ==> r[k] == m[k])
  {
    var r := RemoveAll(sha3, IndexAll(sha3, m, arr), arr);
    forall k ensures (k in r <==> k in m && !Registers(sha3, arr, k)) && (k in r ==> r[k] == m[k]) {
      RemoveAllKeys(sha3, IndexAll(sha3, m, arr), arr, k);
      IndexAllKeys(sha3, m, arr, k);
      if !Registers(sha3, arr, k) {
        IndexAllUntouched(sha3, m, arr, k);
      }
    }
  }

  /** Add then remove is the identity exactly when none of `arr`'s selectors was registered before. */
  lemma AddThenRemoveRestores(sha3: string -> string, m: map<string, AbiEntry>, arr: seq<AbiEntry>)
    ensures RemoveAll(sha3, IndexAll(sha3, m, arr), arr) == m <==> forall k :: k in m ==> !Registers(sha3, arr, k)
  {
    AddThenRemove(sha3, m, arr);
  }

  /**
   * The registry invariant: every key of the index is the selector of the
   * named entry stored under it, and that entry was added.
   */
  ghost predicate WellKeyed(sha3: string -> string, m: map<string, AbiEntry>, saved: seq<AbiEntry>) {
    forall k :: k in m ==> Named(m[k]) && Selector(sha3, m[k]) == k && m[k] in saved
  }

  /** The selectors of the named entries of `saved`. */
  ghost function SelectorsOf(sha3: string -> string, saved: seq<AbiEntry>): set<string> {
    set e | e in saved && Named(e) :: Selector(sha3, e)
  }

  /**
   * A well-keyed index holds no more keys than there are distinct selectors
   * among the named entries ever added.
   */
  lemma WellKeyedBound(sha3: string -> string, m: map<string, AbiEntry>, saved: seq<AbiEntry>)
    requires WellKeyed(sha3, m, saved)
    ensures m.Keys <= SelectorsOf(sha3, saved)
    ensures |m| <= |SelectorsOf(sha3, saved)|
  {
    assert m.Keys <= SelectorsOf(sha3, saved) by {
      forall k | k in m ensures k in SelectorsOf(sha3, saved) {
        assert m[k] in saved && Named(m[k]);
      }
    }
    SubsetCardinality(m.Keys, SelectorsOf(sha3, saved));
  }

  lemma {:induction false} SubsetCardinality<T>(a: set<T>, b: set<T>)
    requires a <= b
    ensures |a| <= |b|
    decreases |a|
  {
    if a != {} {
      var x :| x in a;
      SubsetCardinality(a - {x}, b - {x});
    }
  }

  /** Adding keeps the index well keyed against the grown list of entries. */
  lemma IndexAllWellKeyed(sha3: string -> string, m: map<string, AbiEntry>, saved: seq<AbiEntry>, arr: seq<AbiEntry>)
    requires WellKeyed(sha3, m, saved)
    ensures WellKeyed(sha3, IndexAll(sha3, m, arr), saved + arr)
  {
    var r := IndexAll(sha3, m, arr);
    forall k | k in r ensures Named(r[k]) && Selector(sha3, r[k]) == k && r[k] in saved + arr {
      IndexAllKeys(sha3, m, arr, k);
      if Registers(sha3, arr, k) {
        var j := LastWriter(sha3, arr, k);
        IndexAllLastWins(sha3, m, arr, j);
      } else {
        IndexAllUntouched(sha3, m, arr, k);
      }
    }
  }

  /** The index of the last named entry of `arr` whose selector is `k`. */
  lemma LastWriter(sha3: string -> string, arr: seq<AbiEntry>, k: string) returns (j: nat)
    requires Registers(sha3, arr, k)
    ensures j < |arr| && Named(arr[j]) && Selector(sha3, arr[j]) == k
    ensures forall j' :: j < j' < |arr| && Named(arr[j']) ==> Selector(sha3, arr[j']) != k
  {
    var writes := seq(|arr|, i requires 0 <= i < |arr| => Named(arr[i]) && Selector(sha3, arr[i]) == k);
    var w :| 0 <= w < |arr| && Named(arr[w]) && Selector(sha3, arr[w]) == k;
    assert writes[w];
    j := LastTrue(writes);
    assert writes[j];
    forall j' | j < j' < |arr| && Named(arr[j']) ensures Selector(sha3, arr[j']) != k {
      assert !writes[j'];
    }
  }

  /** The last position holding `true` in a sequence that holds one. */
  lemma {:induction false} LastTrue(w: seq<bool>) returns (j: nat)
    requires exists i :: 0 <= i < |w| && w[i]
    ensures j < |w| && w[j] && forall i :: j < i < |w| ==> !w[i]
    decreases |w|
  {
    if w[|w| - 1] {
      j := |w| - 1;
    } else {
      var init := w[..|w| - 1];
      var i :| 0 <= i < |w| && w[i];
      assert init[i];
      j := LastTrue(init);
      assert forall i :: j < i < |w| - 1 ==> init[i] == w[i];
    }
  }

  /** Removing keeps the index well keyed against the unchanged list of entries. */
  lemma RemoveAllWellKeyed(sha3: string -> string, m: map<string, AbiEntry>, saved: seq<AbiEntry>, arr: seq<AbiEntry>)
    requires WellKeyed(sha3, m, saved)
    ensures WellKeyed(sha3, RemoveAll(sha3, m, arr), saved)
  {
    var r := RemoveAll(sha3, m, arr);
    forall k | k in r ensures Named(r[k]) && Selector(sha3, r[k]) == k && r[k] in saved {
      RemoveAllKeys(sha3, m, arr, k);
    }
  }

  /** One more entry of the `addABI` loop: a named entry is stored under its selector. */
  lemma IndexStep(sha3: string -> string, m: map<string, AbiEntry>, arr: seq<AbiEntry>, i: nat)
    requires i < |arr|
    ensures var before := IndexAll(sha3, m, arr[..i]);
      IndexAll(sha3, m, arr[..i + 1]) == if Named(arr[i]) then before[Selector(sha3, arr[i]) := arr[i]] else before
  {
    assert arr[..i + 1][..i] == arr[..i];
  }

  /** One more entry of the `removeABI` loop: a named entry's selector is deleted when present. */
  lemma RemoveStep(sha3: string -> string, m: map<string, AbiEntry>, arr: seq<AbiEntry>, i: nat)
    requires i < |arr|
    ensures var before := RemoveAll(sha3, m, arr[..i]);
      RemoveAll(sha3, m, arr[..i + 1])
        == if Named(arr[i]) && Selector(sha3, arr[i]) in before then before - {Selector(sha3, arr[i])} else before
  {
    assert arr[..i + 1][..i] == arr[..i];
  }

  /** The argument of `addABI`/`removeABI`: an array, or any other value with its `typeof`. */
  datatype AbiArg = Entries(entries: seq<AbiEntry>) | NotArray(typeOf: string)

  function NotArrayError(typeOf: string): Error {
    InvalidInput("Expected ABI array, got " + typeOf)
  }

  /** The module state of `index.js`: its two fields, and the hash it derives selectors with. */
  class Registry {
    const sha3: string -> string
    var savedABIs: seq<AbiEntry>
    var methodIDs: map<string, AbiEntry>

    ghost predicate Valid()
      reads this
    {
      WellKeyed(sha3, methodIDs, savedABIs)
    }

    constructor (sha3: string -> string)
      ensures Valid()
      ensures this.sha3 == sha3 && savedABIs == [] && methodIDs == map[]
    {
      this.sha3 := sha3;
      savedABIs := [];
      methodIDs := map[];
    }

    /** `getABIs()`: every entry ever added, in order, never shortened by a removal. */
    function GetABIs(): (r: seq<AbiEntry>)
      reads this
      ensures r == savedABIs
    {
      savedABIs
    }

    /** `getMethodIDs()`: the current index. */
    function GetMethodIDs(): (r: map<string, AbiEntry>)
      reads this
      requires Valid()
      ensures forall k :: k in r ==> Named(r[k]) && Selector(sha3, r[k]) == k && r[k] in GetABIs()
    {
      methodIDs
    }

    /**
     * `addABI(arg)`: throws on a non-array and changes nothing; otherwise
     * indexes every named entry under its selector, later entries
     * overwriting earlier ones, then appends all of `arg` to `savedABIs`.
     */
    method AddABI(arg: AbiArg) returns (r: Outcome<Error>)
      requires Valid()
      modifies this
      ensures Valid()
      ensures arg.NotArray? ==>
        (r == Fail(NotArrayError(arg.typeOf)) && savedABIs == old(savedABIs) && methodIDs == old(methodIDs))
      ensures arg.Entries? ==>
        (r == Pass && savedABIs == old(savedABIs) + arg.entries
         && methodIDs == IndexAll(sha3, old(methodIDs), arg.entries))
    {
      if arg.NotArray? {
        return Fail(NotArrayError(arg.typeOf));
      }
      var arr := arg.entries;
      var i := 0;
      while i < |arr|
        invariant 0 <= i <= |arr|
        invariant savedABIs == old(savedABIs)
        invariant methodIDs == IndexAll(sha3, old(methodIDs), arr[..i])
      {
        var abi := arr[i];
        IndexStep(sha3, old(methodIDs), arr, i);
        if Named(abi) {
          methodIDs := methodIDs[Selector(sha3, abi) := abi];
        }
        i := i + 1;
      }
      assert arr[..i] == arr;
      IndexAllWellKeyed(sha3, old(methodIDs), old(savedABIs), arr);
      savedABIs := savedABIs + arr;
      r := Pass;
    }

    /**
     * `removeABI(arg)`: throws on a non-array and changes nothing; otherwise
     * deletes the selector of every named entry from the index. `savedABIs`
     * is never changed.
     */
    method RemoveABI(arg: AbiArg) returns (r: Outcome<Error>)
      requires Valid()
      modifies this
      ensures Valid()
      ensures savedABIs == old(savedABIs)
      ensures arg.NotArray? ==> r == Fail(NotArrayError(arg.typeOf)) && methodIDs == old(methodIDs)
      ensures arg.Entries? ==> r == Pass && methodIDs == RemoveAll(sha3, old(methodIDs), arg.entries)
    {
      if arg.NotArray? {
        return Fail(NotArrayError(arg.typeOf));
      }
      var arr := arg.entries;
      var i := 0;
      while i < |arr|
        invariant 0 <= i <= |arr|
        invariant savedABIs == old(savedABIs)
        invariant methodIDs == RemoveAll(sha3, old(methodIDs), arr[..i])
      {
        var abi := arr[i];
        RemoveStep(sha3, old(methodIDs), arr, i);
        if Named(abi) {
          var key := Selector(sha3, abi);
          if key in methodIDs {
            methodIDs := methodIDs - {key};
          }
        }
        i := i + 1;
      }
      assert arr[..i] == arr;
      RemoveAllWellKeyed(sha3, old(methodIDs), savedABIs, arr);
      r := Pass;
    }
  }
}

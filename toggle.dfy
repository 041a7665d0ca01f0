/** The checkbox handlers `onCheckboxTagsChange` and `onCheckboxTypesChange`:
    find the entry named by the checkbox, copy the outer array, and assign the
    new state to the entry found.  The copy is shallow, so the entry object is
    shared with the array the component held before; and when no entry has the
    name, `findIndex` yields -1 and the assignment to `copy[-1].state` throws a
    TypeError, because `copy[-1]` is `undefined`. */
module Toggle {
  import opened Entries

  /** `findIndex(elem => elem.value === name)` (ECMA-262, section 23.1.3.10,
      Array.prototype.findIndex): the first index whose entry has the value,
      or -1 when there is none. */
  function FindIndex(s: seq<FilterElem>, name: string): (r: int)
    ensures -1 <= r < |s|
    ensures r == -1 <==> forall k :: 0 <= k < |s| ==> s[k].value != name
    ensures r != -1 ==> s[r].value == name && forall k :: 0 <= k < r ==> s[k].value != name
  {
    if s == [] then -1
    else if s[0].value == name then 0
    else
      var r := FindIndex(s[1..], name);
      assert forall k :: 1 <= k < |s| ==> s[k] == s[1..][k - 1];
      if r == -1 then -1 else r + 1
  }

  /** The outcome of a handler: the copy it hands to the state setter, or the
      TypeError thrown before the setter is reached. */
  datatype ToggleResult = Toggled(copy: array<FilterElem>, index: nat) | TypeError

  /** The objects an array refers to. */
  ghost function Objects(a: array<FilterElem>): set<FilterElem>
    reads a
  {
    set k | 0 <= k < a.Length :: a[k]
  }

  /** The body shared by both handlers: `index = elems.findIndex(...)`,
      `copy = [...elems]`, `copy[index].state = state`. */
  method ToggleEntry(elems: array<FilterElem>, name: string, state: bool) returns (r: ToggleResult)
    modifies Objects(elems)
    ensures r.TypeError? <==> forall k :: 0 <= k < elems.Length ==> elems[k].value != name
    ensures r.TypeError? ==> forall k :: 0 <= k < elems.Length ==> elems[k].state == old(elems[k].state)
    ensures r.Toggled? ==>
      && fresh(r.copy)
      && r.copy[..] == elems[..]
      && r.index == FindIndex(elems[..], name)
      && elems[r.index].state == state
      && forall k :: 0 <= k < elems.Length ==>
           elems[k].state == (if elems[k] == elems[r.index] then state else old(elems[k].state))
  {
    var index := FindIndex(elems[..], name);
    var copy := new FilterElem[elems.Length](k requires 0 <= k < elems.Length reads elems => elems[k]);
    if index < 0 {
      return TypeError;
    }
    copy[index].state := state;
    r := Toggled(copy, index);
  }
}

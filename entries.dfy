/** One selectable facet value of the filter panel (the `FilterElem` record the
    components receive).  Only `value` and `state` are used by the filter
    logic; the frequency field is never read there.  `value` is never
    assigned after creation, `state` is assigned in place by the checkbox
    handlers, so the entry is an object with one mutable field. */
module Entries {

  class FilterElem {
    const value: string
    var state: bool

    constructor (value: string, state: bool)
      ensures this.value == value && this.state == state
    {
      this.value := value;
      this.state := state;
    }
  }
}

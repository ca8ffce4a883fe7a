/**
 * EnumerableInputProvider: serves the confirmed inputs of an enumerable. The
 * enumerable is read once, on the first GetInputs, and the list made then is
 * returned by every later call. The enumerable is modelled as an object whose
 * items may change until it is first enumerated.
 */
module InputProviders {
  import opened Wrappers
  import opened InputContexts

  /** An IEnumerable<ConfirmedInputs<TInput>>: the items it would yield if enumerated now. */
  class Enumerable<T> {
    var items: seq<ConfirmedInputs<T>>

    constructor (items: seq<ConfirmedInputs<T>>)
      ensures this.items == items
    {
      this.items := items;
    }
  }

  class EnumerableInputProvider<T> {
    const inputSeq: Enumerable<T>
    /** The Lazy's value, once created. */
    var inputs: Option<seq<ConfirmedInputs<T>>>

    /** Nothing is enumerated at construction. */
    constructor (inputSeq: Enumerable<T>)
      ensures this.inputSeq == inputSeq && inputs == None
    {
      this.inputSeq := inputSeq;
      inputs := None;
    }

    /**
     * GetInputs: on the first call the enumerable's items, in order, which
     * are then kept; on every later call the list kept then. The context is
     * not used.
     */
    method GetInputs(context: InputContext<T>) returns (r: seq<ConfirmedInputs<T>>)
      modifies this`inputs
      ensures old(inputs).None? ==> r == inputSeq.items
      ensures old(inputs).Some? ==> r == old(inputs).value
      ensures inputs == Some(r)
    {
      if inputs.None? {
        inputs := Some(inputSeq.items);
      }
      r := inputs.value;
    }
  }
}

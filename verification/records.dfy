/** The extension records loaded from the data file, and their identities. */
module Records {

  /** One extension entry. `isActive` is the only field the page ever changes. */
  datatype Extension = Extension(name: string, description: string, logo: string, isActive: bool)

  /** The identity of a record object: its position in the store. Arrays in the page hold
      references to record objects, so two arrays can share (alias) the same record. */
  type Ref = nat

  /** Every record object the page has loaded, indexed by identity. Records are never created
      after loading, and a removed record keeps its slot (it is just no longer referenced). */
  type Store = seq<Extension>

  /** Every reference in `refs` denotes a record of `store`. */
  predicate InStore(store: Store, refs: seq<Ref>)
  {
    forall r :: r in refs ==> r < |store|
  }

  /** The references of a freshly loaded array of `n` records, in file order. */
  function Identities(n: nat): seq<Ref>
  {
    seq(n, i => i)
  }
}

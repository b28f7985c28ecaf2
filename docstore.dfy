/**
  The documentation store `_listener_docs`: a Python dict from event name to
  `{"desc", "cpd"}`. A dict remembers the order in which keys were first
  inserted, and assigning to an existing key keeps its place; the store is
  therefore modelled as the key order plus the map.
 */
module DocStore {

  /** `{"desc": desc, "cpd": cpd}`: a description and the parameter descriptions. */
  datatype Doc = Doc(desc: string, params: seq<string>)

  predicate Distinct<T(==)>(xs: seq<T>) {
    forall i, j :: 0 <= i < j < |xs| ==> xs[i] != xs[j]
  }

  datatype Store = Store(order: seq<string>, docs: map<string, Doc>) {
    /** The keys in `order` are the map's keys, each listed once. */
    ghost predicate WellFormed() {
      && Distinct(order)
      && (forall e :: e in docs <==> e in order)
    }

    /** `len(self._listener_docs)`. */
    function Count(): nat {
      |order|
    }
  }

  /** The empty dict of a freshly initialised object. */
  const Empty: Store := Store([], map[])

  /** `self._listener_docs[event] = doc`. */
  function Put(s: Store, event: string, doc: Doc): (s': Store)
    requires s.WellFormed()
    ensures s'.WellFormed()
    ensures s'.docs == s.docs[event := doc]
  {
    if event in s.docs then Store(s.order, s.docs[event := doc])
    else Store(s.order + [event], s.docs[event := doc])
  }

  /** A distinct list has as many elements as the set of its elements. */
  lemma {:induction false} DistinctCard<T>(xs: seq<T>)
    requires Distinct(xs)
    ensures |set x | x in xs| == |xs|
    decreases |xs|
  {
    if xs != [] {
      var init := xs[..|xs| - 1];
      var last := xs[|xs| - 1];
      assert Distinct(init);
      DistinctCard(init);
      assert (set x | x in xs) == (set x | x in init) + {last};
      assert last !in init;
    }
  }

  /** The reported count is the number of distinct documented events. */
  lemma CountIsDistinctEvents(s: Store)
    requires s.WellFormed()
    ensures s.Count() == |s.docs|
  {
    DistinctCard(s.order);
    assert s.docs.Keys == set x | x in s.order;
  }

  /** Documenting an event again overwrites it in place: its position and the count stay. */
  lemma PutExisting(s: Store, event: string, doc: Doc)
    requires s.WellFormed() && event in s.docs
    ensures Put(s, event, doc).order == s.order
    ensures Put(s, event, doc).Count() == s.Count()
  {
  }

  /** Documenting a new event puts it last and raises the count by one. */
  lemma PutNew(s: Store, event: string, doc: Doc)
    requires s.WellFormed() && event !in s.docs
    ensures Put(s, event, doc).order == s.order + [event]
    ensures Put(s, event, doc).Count() == s.Count() + 1
  {
  }

  /** Only the last of two annotations of the same event is kept. */
  lemma PutPut(s: Store, event: string, d1: Doc, d2: Doc)
    requires s.WellFormed()
    ensures Put(Put(s, event, d1), event, d2) == Put(s, event, d2)
  {
  }
}

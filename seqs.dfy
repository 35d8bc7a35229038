/** Sequences seen as sets, shared by the elimination and sampling modules. */
module Collections {
  /** The elements of a sequence. */
  ghost function Elements<T>(s: seq<T>): set<T> {
    set a | a in s
  }

  /** Appending one element adds it to the elements. */
  lemma ElementsSnoc<T>(s: seq<T>, a: T)
    ensures Elements(s + [a]) == Elements(s) + {a}
  {
    assert forall u :: u in s + [a] <==> u in s || u == a;
  }
}

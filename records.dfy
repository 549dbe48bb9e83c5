/**
 * The record a report is parsed into: a dictionary from field name to field
 * value. A header column the report lacks is stored as `None`; every other
 * stage stores text.
 */
module Records {
  import opened Options

  type Record = map<string, Option<string>>

  /** One assignment `data[key] = value`. */
  datatype Field = Field(key: string, value: Option<string>)

  /** The record after the assignments `fs`, performed in order. */
  function Store(d: Record, fs: seq<Field>): Record {
    if fs == [] then d else Store(d, fs[..|fs| - 1])[fs[|fs| - 1].key := fs[|fs| - 1].value]
  }

  /** Assigning `a` and then `b` is assigning `a + b`. */
  lemma {:induction false} StoreAppend(d: Record, a: seq<Field>, b: seq<Field>)
    ensures Store(d, a + b) == Store(Store(d, a), b)
  {
    if b == [] {
      assert a + b == a;
    } else {
      assert (a + b)[..|a + b| - 1] == a + b[..|b| - 1];
      StoreAppend(d, a, b[..|b| - 1]);
    }
  }

  /** A key that no assignment names keeps its presence and its value. */
  lemma {:induction false} StoreUntouched(d: Record, fs: seq<Field>, key: string)
    requires forall j :: 0 <= j < |fs| ==> fs[j].key != key
    ensures key in Store(d, fs) <==> key in d
    ensures key in d ==> Store(d, fs)[key] == d[key]
  {
    if fs != [] {
      StoreUntouched(d, fs[..|fs| - 1], key);
    }
  }

  /** The last assignment to a key decides its value. */
  lemma {:induction false} StoreLastWrite(d: Record, fs: seq<Field>, i: nat)
    requires i < |fs|
    requires forall j :: i < j < |fs| ==> fs[j].key != fs[i].key
    ensures fs[i].key in Store(d, fs) && Store(d, fs)[fs[i].key] == fs[i].value
  {
    if i < |fs| - 1 {
      StoreLastWrite(d, fs[..|fs| - 1], i);
    }
  }

  /** One more assignment updates one key. */
  lemma StoreSnoc(d: Record, fs: seq<Field>, f: Field)
    ensures Store(d, fs + [f]) == Store(d, fs)[f.key := f.value]
  {
    assert (fs + [f])[..|fs|] == fs;
  }
}

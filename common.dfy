/** Optional values: the model of Python's `None`. */
module Wrappers {
  datatype Option<+T> = None | Some(value: T)
}

/** Names, clock readings and the unit interval shared by the whole engine. */
module Common {
  /** Identity of an agent or a task. The source draws a fresh uuid4 for every entity;
      the model draws it from a counter owned by the controller. */
  type Id = nat

  /** A named skill tag, such as "data_analysis". */
  type Capability = string

  /** A clock reading, passed in wherever the source calls `datetime.now()`. */
  type Time = real

  /** An outcome of a task as kept in a capability's history: 1 for success, 0 for failure. */
  type Outcome = o: int | 0 <= o <= 1

  predicate InUnit(x: real) {
    0.0 <= x <= 1.0
  }

  /** `max(0.0, min(1.0, x))` */
  function Clamp01(x: real): (r: real)
    ensures InUnit(r)
    ensures InUnit(x) ==> r == x
    ensures x < 0.0 ==> r == 0.0
    ensures x > 1.0 ==> r == 1.0
  {
    if x < 0.0 then 0.0 else if x > 1.0 then 1.0 else x
  }
}

/** Small facts about sequences used as ordered collections. */
module Seqs {
  function Elements<T>(s: seq<T>): set<T> {
    set x | x in s
  }

  predicate Distinct<T(==)>(s: seq<T>) {
    forall i, j :: 0 <= i < j < |s| ==> s[i] != s[j]
  }

  /** A sequence without repeated elements has as many elements as distinct values. */
  lemma {:induction false} DistinctCard<T>(s: seq<T>)
    requires Distinct(s)
    ensures |Elements(s)| == |s|
  {
    if s != [] {
      var init := s[..|s|-1];
      DistinctCard(init);
      assert Elements(s) == Elements(init) + {s[|s|-1]};
      assert s[|s|-1] !in Elements(init);
    }
  }

  /** No sequence has more distinct values than elements. */
  lemma {:induction false} ElementsCard<T>(s: seq<T>)
    ensures |Elements(s)| <= |s|
  {
    if s != [] {
      var init := s[..|s|-1];
      ElementsCard(init);
      assert Elements(s) == Elements(init) + {s[|s|-1]};
    }
  }

  /** The first occurrence of every value, in order of first occurrence. */
  function Dedup<T(==)>(s: seq<T>): (r: seq<T>)
    ensures Elements(r) == Elements(s)
    ensures Distinct(r)
    ensures |r| <= |s|
  {
    if s == [] then []
    else
      var d := Dedup(s[..|s|-1]);
      assert Elements(s) == Elements(s[..|s|-1]) + {s[|s|-1]};
      if s[|s|-1] in d then d else d + [s[|s|-1]]
  }

  /** `s` with every occurrence of `x` taken out, the rest in order. */
  function Without<T(==)>(s: seq<T>, x: T): (r: seq<T>)
    ensures Elements(r) == Elements(s) - {x}
    ensures Distinct(s) ==> Distinct(r)
    ensures |r| <= |s|
  {
    if s == [] then []
    else
      var w := Without(s[..|s|-1], x);
      assert Elements(s) == Elements(s[..|s|-1]) + {s[|s|-1]};
      assert Distinct(s) ==> Distinct(s[..|s|-1]) && s[|s|-1] !in Elements(s[..|s|-1]);
      var y := s[|s|-1];
      if y == x then w
      else
        assert Elements(w + [y]) == Elements(w) + {y};
        assert Distinct(s) ==> y !in Elements(w);
        w + [y]
  }

  /** A sequence that enumerates the keys of a map without repetition has the map's size. */
  lemma MapSizeFromOrder<K, V>(order: seq<K>, m: map<K, V>)
    requires Distinct(order)
    requires forall k :: k in m <==> k in order
    ensures |m| == |order|
  {
    DistinctCard(order);
    assert m.Keys == Elements(order);
  }
}

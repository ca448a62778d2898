/** The fact store of the page: a fixed table from category key to a list of
    fact strings, the global pool that joins every list in declaration order,
    the pick `floor(r * length)` that turns a random number into an index,
    and the text the widget shows for a category. */
module Facts {

  /** `factsByCategory`: every category key with its facts, in source order. */
  const FactsByCategory: map<string, seq<string>> := map[
    "Religion" := [
      "The Bible is the most translated book in history.",
      "The word ‘Gospel’ means ‘Good News’."
    ],
    "Cosmos" := [
      "The observable universe spans ~93 billion light-years.",
      "Neutron stars can spin hundreds of times per second."
    ],
    "Animal" := [
      "Octopuses have three hearts.",
      "A group of flamingos is called a ‘flamboyance’."
    ],
    "Love" := [
      "Prolonged eye contact can sync heart rates.",
      "Oxytocin is nicknamed the ‘love hormone’."
    ],
    "Cars" := [
      "An average car has 30,000+ parts.",
      "The Bugatti Chiron uses ten radiators for cooling."
    ],
    "Phones" := [
      "Early mobile phones weighed over 1 kg.",
      "Modern smartphones outpower Apollo guidance computers."
    ],
    "Innovations" := [
      "3D printing was first invented in the 1980s.",
      "CRISPR enables precise gene editing."
    ]
  ]

  /** The order in which the keys were declared, which is the order
      `Object.values` lists the object's values in. */
  const CategoryOrder: seq<string> :=
    ["Religion", "Cosmos", "Animal", "Love", "Cars", "Phones", "Innovations"]

  /** The declaration order names every key of the table exactly once. */
  lemma CategoryOrderIsKeys()
    ensures forall k :: k in FactsByCategory <==> k in CategoryOrder
    ensures forall i, j :: 0 <= i < j < |CategoryOrder| ==> CategoryOrder[i] != CategoryOrder[j]
  {
  }

  /** Every category has at least one fact. */
  lemma EveryCategoryHasFacts()
    ensures forall k :: k in FactsByCategory ==> |FactsByCategory[k]| > 0
  {
  }

  /** `factsByCategory[key] || []`: the facts of a key, none for an unknown key. */
  function Pool(key: string): (p: seq<string>)
    ensures key in FactsByCategory ==> p == FactsByCategory[key]
    ensures key !in FactsByCategory ==> p == []
  {
    if key in FactsByCategory then FactsByCategory[key] else []
  }

  /** `.flat()` of a list of lists. */
  function Flatten(lists: seq<seq<string>>): seq<string> {
    if lists == [] then [] else lists[0] + Flatten(lists[1..])
  }

  lemma {:induction false} FlattenAppend(xs: seq<seq<string>>, ys: seq<seq<string>>)
    ensures Flatten(xs + ys) == Flatten(xs) + Flatten(ys)
  {
    if xs == [] {
      assert xs + ys == ys;
    } else {
      assert (xs + ys)[1..] == xs[1..] + ys;
      FlattenAppend(xs[1..], ys);
    }
  }

  /** The k-th list appears in the flattened list right after all the lists
      before it, unchanged. */
  lemma {:induction false} FlattenPlacement(lists: seq<seq<string>>, k: nat)
    requires k < |lists|
    ensures var off := |Flatten(lists[..k])|;
      off + |lists[k]| <= |Flatten(lists)| &&
      Flatten(lists)[off..off + |lists[k]|] == lists[k]
  {
    assert lists == lists[..k] + ([lists[k]] + lists[k + 1..]);
    FlattenAppend(lists[..k], [lists[k]] + lists[k + 1..]);
    FlattenAppend([lists[k]], lists[k + 1..]);
    assert Flatten([lists[k]]) == lists[k] by {
      assert [lists[k]][1..] == [];
    }
  }

  /** A string is in the flattened list exactly when it is in one of the lists. */
  lemma {:induction false} FlattenMember(lists: seq<seq<string>>, x: string)
    ensures x in Flatten(lists) <==> exists k :: 0 <= k < |lists| && x in lists[k]
  {
    if lists != [] {
      FlattenMember(lists[1..], x);
      if x in Flatten(lists[1..]) {
        var k :| 0 <= k < |lists[1..]| && x in lists[1..][k];
        assert x in lists[k + 1];
      }
      if exists k :: 0 <= k < |lists| && x in lists[k] {
        var k :| 0 <= k < |lists| && x in lists[k];
        if k > 0 {
          assert x in lists[1..][k - 1];
        }
      }
    }
  }

  /** The category lists in declaration order. */
  function PoolsInOrder(): (ps: seq<seq<string>>)
    ensures |ps| == |CategoryOrder|
    ensures forall i :: 0 <= i < |ps| ==> ps[i] == Pool(CategoryOrder[i])
  {
    seq(|CategoryOrder|, i requires 0 <= i < |CategoryOrder| => Pool(CategoryOrder[i]))
  }

  /** `Object.values(factsByCategory).flat()`: the global pool. */
  function AllFacts(): seq<string> {
    Flatten(PoolsInOrder())
  }

  /** The global pool is the categories' lists one after the other, in
      declaration order: the list of the k-th declared category starts right
      after the facts of the categories declared before it. */
  lemma GlobalPoolOrder(k: nat)
    requires k < |CategoryOrder|
    ensures var off := |Flatten(PoolsInOrder()[..k])|;
      var facts := FactsByCategory[CategoryOrder[k]];
      off + |facts| <= |AllFacts()| && AllFacts()[off..off + |facts|] == facts
  {
    FlattenPlacement(PoolsInOrder(), k);
  }

  /** A fact is in the global pool exactly when some category holds it. */
  lemma GlobalPoolMembers(x: string)
    ensures x in AllFacts() <==> exists key :: key in FactsByCategory && x in FactsByCategory[key]
  {
    FlattenMember(PoolsInOrder(), x);
    if x in AllFacts() {
      PooledFactHasCategory(x);
    }
    if exists key :: key in FactsByCategory && x in FactsByCategory[key] {
      var key :| key in FactsByCategory && x in FactsByCategory[key];
      CategoryFactIsPooled(key, x);
    }
  }

  lemma PooledFactHasCategory(x: string)
    requires exists k :: 0 <= k < |PoolsInOrder()| && x in PoolsInOrder()[k]
    ensures exists key :: key in FactsByCategory && x in FactsByCategory[key]
  {
    var ps := PoolsInOrder();
    var k :| 0 <= k < |ps| && x in ps[k];
    CategoryOrderIsKeys();
    var key := CategoryOrder[k];
    assert key in FactsByCategory && x in FactsByCategory[key];
  }

  lemma CategoryFactIsPooled(key: string, x: string)
    requires key in FactsByCategory && x in FactsByCategory[key]
    ensures exists k :: 0 <= k < |PoolsInOrder()| && x in PoolsInOrder()[k]
  {
    CategoryOrderIsKeys();
    var k :| 0 <= k < |CategoryOrder| && CategoryOrder[k] == key;
    assert x in PoolsInOrder()[k];
  }

  /** The pool a category key looks up is non-empty and is part of the
      global pool the random button draws from. */
  lemma PoolIsPartOfGlobal(key: string)
    requires key in FactsByCategory
    ensures |Pool(key)| > 0
    ensures forall f :: f in Pool(key) ==> f in AllFacts()
  {
    EveryCategoryHasFacts();
    forall f | f in Pool(key) ensures f in AllFacts() {
      GlobalPoolMembers(f);
    }
  }

  /** The global pool is never empty: it holds the first category's facts. */
  lemma AllFactsNonEmpty()
    ensures |AllFacts()| > 0
  {
    GlobalPoolOrder(0);
  }

  /** `Math.floor(r * n)` for `r` in [0, 1): always an index of a list of
      length `n`. */
  function PickIndex(n: nat, r: real): (i: nat)
    requires n > 0 && 0.0 <= r < 1.0
    ensures i < n
    ensures i as real <= r * n as real < i as real + 1.0
  {
    var x := r * n as real;
    assert 0.0 <= x < n as real;
    x.Floor
  }

  /** Every index can come out of the pick: `r = i / n` selects index `i`. */
  lemma PickReachesEvery(n: nat, i: nat)
    requires i < n
    ensures 0.0 <= i as real / n as real < 1.0
    ensures PickIndex(n, i as real / n as real) == i
  {
    var r := i as real / n as real;
    assert r * n as real == i as real;
  }

  /** The fact the random-fact button reveals for the random number `r`. */
  function GlobalFact(r: real): (f: string)
    requires 0.0 <= r < 1.0
    ensures f in AllFacts()
    ensures exists key :: key in FactsByCategory && f in FactsByCategory[key]
  {
    AllFactsNonEmpty();
    var f := AllFacts()[PickIndex(|AllFacts()|, r)];
    GlobalPoolMembers(f);
    f
  }

  /** What the widget shows when a category has no facts. */
  const NoFactsMessage: string := "No facts found for that category yet."

  /** `(${key}) ${fact}`. */
  function Labelled(key: string, fact: string): string {
    "(" + key + ") " + fact
  }

  /** The text a category link puts in the widget: one of the pool's facts
      behind the key in parentheses, or the fixed message when the pool is empty. */
  function CategoryText(pool: seq<string>, key: string, r: real): (t: string)
    requires 0.0 <= r < 1.0
    ensures |pool| == 0 ==> t == NoFactsMessage
    ensures |pool| > 0 ==> exists i :: 0 <= i < |pool| && t == Labelled(key, pool[i])
    ensures |pool| > 0 ==> t[..|key| + 3] == "(" + key + ") "
  {
    if |pool| > 0 then
      var i := PickIndex(|pool|, r);
      assert Labelled(key, pool[i]) == ("(" + key + ") ") + pool[i];
      Labelled(key, pool[i])
    else NoFactsMessage
  }

  /** A labelled fact never reads as the empty-pool message. */
  lemma LabelledIsNotFallback(key: string, fact: string)
    ensures Labelled(key, fact) != NoFactsMessage
  {
    assert Labelled(key, fact)[0] == '(';
    assert NoFactsMessage[0] == 'N';
  }
}

/** `_create_category_mapping`: the distinct non-empty categories of the
    rows, sorted, each mapped to its position in that order. */
module Categories {
  import opened Wrappers
  import opened StrOrder
  import opened Rows

  /** Python's truth test on the `categoria` column: not `None`, not empty. */
  predicate Truthy(c: Option<string>) {
    c.Some? && c.value != ""
  }

  /** `set(row['categoria'] for row in data if row['categoria'])`. */
  function Present(rows: seq<RawRow>): set<string> {
    set i | 0 <= i < |rows| && Truthy(rows[i].category) :: rows[i].category.value
  }

  lemma PresentSnoc(rows: seq<RawRow>, r: RawRow)
    ensures Present(rows + [r]) == Present(rows) + if Truthy(r.category) then {r.category.value} else {}
  {
    var all := rows + [r];
    forall c | c in Present(all)
      ensures c in Present(rows) || (Truthy(r.category) && c == r.category.value)
    {
      var i :| 0 <= i < |all| && Truthy(all[i].category) && all[i].category.value == c;
      if i < |rows| {
        assert all[i] == rows[i];
      }
    }
    forall c | c in Present(rows)
      ensures c in Present(all)
    {
      var i :| 0 <= i < |rows| && Truthy(rows[i].category) && rows[i].category.value == c;
      assert all[i] == rows[i];
    }
    if Truthy(r.category) {
      assert all[|rows|] == r;
    }
  }

  /** A strictly sorted sequence never repeats an element. */
  lemma SortedDistinct(xs: seq<string>)
    requires StrictlySorted(xs)
    ensures forall i, j :: 0 <= i < |xs| && 0 <= j < |xs| && xs[i] == xs[j] ==> i == j
  {
    forall i, j | 0 <= i < |xs| && 0 <= j < |xs| && xs[i] == xs[j]
      ensures i == j
    {
      if i != j {
        LessIrreflexive(xs[i]);
      }
    }
  }

  /** `x` put in its place in `xs`, unless it is there already. */
  function Insert(xs: seq<string>, x: string): (r: seq<string>)
    requires StrictlySorted(xs)
    ensures StrictlySorted(r)
    ensures Elems(r) == Elems(xs) + {x}
    ensures |r| == if x in xs then |xs| else |xs| + 1
    decreases |xs|
  {
    if xs == [] then [x]
    else if x == xs[0] then xs
    else if Less(x, xs[0]) then
      assert x !in xs by {
        forall i | 0 <= i < |xs|
          ensures xs[i] != x
        {
          if i > 0 {
            LessTransitive(x, xs[0], xs[i]);
            LessIrreflexive(x);
          } else {
            LessIrreflexive(x);
          }
        }
      }
      assert Elems([x] + xs) == Elems(xs) + {x};
      assert forall j :: 0 < j < |xs| + 1 ==> ([x] + xs)[j] == xs[j - 1];
      InsertFrontSorted(xs, x);
      [x] + xs
    else
      var tail := Insert(xs[1..], x);
      LessTotal(x, xs[0]);
      InsertBehind(xs, x, tail);
      [xs[0]] + tail
  }

  lemma InsertFrontSorted(xs: seq<string>, x: string)
    requires StrictlySorted(xs) && xs != [] && Less(x, xs[0])
    ensures StrictlySorted([x] + xs)
  {
    var r := [x] + xs;
    forall i, j | 0 <= i < j < |r|
      ensures Less(r[i], r[j])
    {
      if i == 0 && j > 1 {
        LessTransitive(x, xs[0], xs[j - 1]);
      } else if i > 0 {
        assert r[i] == xs[i - 1] && r[j] == xs[j - 1];
      }
    }
  }

  lemma InsertBehind(xs: seq<string>, x: string, tail: seq<string>)
    requires StrictlySorted(xs) && xs != [] && Less(xs[0], x)
    requires StrictlySorted(tail) && Elems(tail) == Elems(xs[1..]) + {x}
    requires |tail| == if x in xs[1..] then |xs| - 1 else |xs|
    ensures StrictlySorted([xs[0]] + tail)
    ensures Elems([xs[0]] + tail) == Elems(xs) + {x}
    ensures |[xs[0]] + tail| == if x in xs then |xs| else |xs| + 1
  {
    var r := [xs[0]] + tail;
    InBehind(xs, x);
    assert xs == [xs[0]] + xs[1..];
    assert Elems(r) == {xs[0]} + Elems(tail);
    assert Elems(xs) == {xs[0]} + Elems(xs[1..]);
    forall i, j | 0 <= i < j < |r|
      ensures Less(r[i], r[j])
    {
      if i == 0 {
        assert r[j] == tail[j - 1];
        assert tail[j - 1] in Elems(tail);
        if tail[j - 1] != x {
          var k :| 0 <= k < |xs[1..]| && xs[1..][k] == tail[j - 1];
          assert xs[k + 1] == tail[j - 1];
        }
      } else {
        assert r[i] == tail[i - 1] && r[j] == tail[j - 1];
      }
    }
  }

  lemma InBehind(xs: seq<string>, x: string)
    requires xs != [] && Less(xs[0], x)
    ensures x in xs <==> x in xs[1..]
  {
    LessIrreflexive(x);
    assert xs == [xs[0]] + xs[1..];
  }

  /** `sorted(categories)`: the categories present, strictly ascending in
      Python's string order. */
  function Sorted(rows: seq<RawRow>): (xs: seq<string>)
    ensures StrictlySorted(xs)
    ensures Elems(xs) == Present(rows)
    decreases |rows|
  {
    if rows == [] then []
    else
      var init := rows[..|rows| - 1];
      var last := rows[|rows| - 1];
      assert rows == init + [last];
      PresentSnoc(init, last);
      if Truthy(last.category) then Insert(Sorted(init), last.category.value) else Sorted(init)
  }

  /** Only one strictly sorted sequence holds a given set of strings, so
      `Sorted` is the sorted listing of the set, however it was built. */
  lemma {:induction false} SortedUnique(xs: seq<string>, ys: seq<string>)
    requires StrictlySorted(xs) && StrictlySorted(ys)
    requires Elems(xs) == Elems(ys)
    ensures xs == ys
    decreases |xs|
  {
    DistinctCard(xs);
    DistinctCard(ys);
    if xs != [] {
      assert xs[0] in Elems(ys);
      assert ys[0] in Elems(xs);
      var j :| 0 <= j < |ys| && ys[j] == xs[0];
      var i :| 0 <= i < |xs| && xs[i] == ys[0];
      if j > 0 {
        assert Less(ys[0], xs[0]);
        if i > 0 {
          LessAsymmetric(xs[0], xs[i]);
        } else {
          LessIrreflexive(xs[0]);
        }
      }
      HeadsEqualTails(xs, ys);
      SortedUnique(xs[1..], ys[1..]);
      assert xs == [xs[0]] + xs[1..] && ys == [ys[0]] + ys[1..];
    }
  }

  lemma HeadsEqualTails(xs: seq<string>, ys: seq<string>)
    requires StrictlySorted(xs) && StrictlySorted(ys)
    requires xs != [] && ys != [] && xs[0] == ys[0] && Elems(xs) == Elems(ys)
    ensures StrictlySorted(xs[1..]) && StrictlySorted(ys[1..])
    ensures Elems(xs[1..]) == Elems(ys[1..])
  {
    SortedDistinct(xs);
    SortedDistinct(ys);
    assert xs == [xs[0]] + xs[1..] && ys == [ys[0]] + ys[1..];
    assert xs[0] !in xs[1..];
    assert ys[0] !in ys[1..];
    assert Elems(xs) == {xs[0]} + Elems(xs[1..]);
    assert Elems(ys) == {ys[0]} + Elems(ys[1..]);
  }

  /** A sequence without repeats has as many elements as its set. */
  lemma {:induction false} DistinctCard(xs: seq<string>)
    requires StrictlySorted(xs)
    ensures |Elems(xs)| == |xs|
    decreases |xs|
  {
    if xs != [] {
      SortedDistinct(xs);
      assert xs == [xs[0]] + xs[1..];
      assert xs[0] !in xs[1..];
      assert Elems(xs) == {xs[0]} + Elems(xs[1..]);
      DistinctCard(xs[1..]);
    }
  }

  /** The mapping `{cat: idx for idx, cat in enumerate(sorted(categories))}`. */
  function CreateMapping(rows: seq<RawRow>): map<string, nat> {
    var xs := Sorted(rows);
    SortedDistinct(xs);
    map i | 0 <= i < |xs| :: xs[i] := i
  }

  /** The mapping's keys are exactly the categories present. */
  lemma MappingKeys(rows: seq<RawRow>)
    ensures CreateMapping(rows).Keys == Present(rows)
  {
    var xs := Sorted(rows);
    assert CreateMapping(rows).Keys == Elems(xs);
  }

  /** Each category is sent to its rank: its position in the sorted list,
      below the number of distinct categories. */
  lemma MappingRank(rows: seq<RawRow>, c: string)
    requires c in Present(rows)
    ensures c in CreateMapping(rows)
    ensures CreateMapping(rows)[c] < |Present(rows)|
    ensures Sorted(rows)[CreateMapping(rows)[c]] == c
  {
    var xs := Sorted(rows);
    MappingKeys(rows);
    DistinctCard(xs);
    SortedDistinct(xs);
    var i :| 0 <= i < |xs| && xs[i] == c;
  }

  /** The codes are exactly `0 .. n-1` for `n` distinct categories: the
      category at position `k` of the sorted list has code `k`. */
  lemma MappingRange(rows: seq<RawRow>)
    ensures |Sorted(rows)| == |Present(rows)|
    ensures forall k :: 0 <= k < |Sorted(rows)| ==>
              Sorted(rows)[k] in CreateMapping(rows) && CreateMapping(rows)[Sorted(rows)[k]] == k
  {
    var xs := Sorted(rows);
    DistinctCard(xs);
    SortedDistinct(xs);
  }

  /** Different categories get different codes. */
  lemma MappingInjective(rows: seq<RawRow>, c: string, d: string)
    requires c in CreateMapping(rows) && d in CreateMapping(rows)
    requires CreateMapping(rows)[c] == CreateMapping(rows)[d]
    ensures c == d
  {
    MappingKeys(rows);
    MappingRank(rows, c);
    MappingRank(rows, d);
  }

  /** A category sorts before another exactly when its code is smaller. */
  lemma MappingOrder(rows: seq<RawRow>, c: string, d: string)
    requires c in CreateMapping(rows) && d in CreateMapping(rows)
    ensures Less(c, d) <==> CreateMapping(rows)[c] < CreateMapping(rows)[d]
  {
    var xs := Sorted(rows);
    var m := CreateMapping(rows);
    MappingKeys(rows);
    MappingRank(rows, c);
    MappingRank(rows, d);
    if m[c] < m[d] {
      assert Less(xs[m[c]], xs[m[d]]);
    } else if m[c] == m[d] {
      LessIrreflexive(c);
    } else {
      assert Less(xs[m[d]], xs[m[c]]);
      LessAsymmetric(d, c);
    }
  }

  /** `category_mapping.get(row['categoria'], 0)`. */
  function Encode(m: map<string, nat>, c: Option<string>): nat {
    if c.Some? && c.value in m then m[c.value] else 0
  }

  /** A category outside the mapping (`None`, empty, or not among the rows)
      gets code 0, the code of the first category in sorted order. */
  lemma MissingEncodesAsFirst(rows: seq<RawRow>, c: Option<string>)
    requires !(c.Some? && c.value in CreateMapping(rows))
    requires Present(rows) != {}
    ensures Encode(CreateMapping(rows), c) == CreateMapping(rows)[Sorted(rows)[0]]
    ensures forall d :: d in Present(rows) && d != Sorted(rows)[0] ==> Less(Sorted(rows)[0], d)
  {
    var xs := Sorted(rows);
    assert xs != [] by {
      var d :| d in Present(rows);
      assert d in Elems(xs);
    }
    SortedDistinct(xs);
    forall d | d in Present(rows) && d != xs[0]
      ensures Less(xs[0], d)
    {
      var j :| 0 <= j < |xs| && xs[j] == d;
    }
  }

  /** Every code the encoder produces is a rank, or 0 when no category is
      present. */
  lemma EncodeInRange(rows: seq<RawRow>, c: Option<string>)
    ensures Encode(CreateMapping(rows), c) == 0 || Encode(CreateMapping(rows), c) < |Present(rows)|
  {
    if c.Some? && c.value in CreateMapping(rows) {
      MappingKeys(rows);
      MappingRank(rows, c.value);
    }
  }
}

/**
 * The DataTable's sort engine (DataTable.tsx lines 28-94): records, column
 * descriptors, the sort state, the comparator, the stable sort that derives
 * the displayed order, and the three-state header-click machine.
 */
module TableSort {
  import opened Wrappers

  /** A record maps field names to values. A field missing from the map is
      `null`/`undefined`: both read as an absent value. */
  type Record = map<string, int>

  /** A column descriptor; `render`, `width` and `align` are presentational. */
  datatype Column = Column(key: string, title: string, dataIndex: string, sortable: bool)

  datatype Direction = Asc | Desc

  /** `{ key, direction }`; `None` stands for `null`. */
  datatype SortState = SortState(key: Option<string>, direction: Option<Direction>)

  const Unsorted: SortState := SortState(None, None)

  /** The table only ever holds states whose key is null exactly when the direction is. */
  predicate WellFormed(st: SortState) {
    st.key.None? <==> st.direction.None?
  }

  /** `record[column.dataIndex]`, with undefined and null both absent. */
  function Project(r: Record, field: string): Option<int>
  {
    if field in r then Some(r[field]) else None
  }

  // ---------------------------------------------------------------------------
  // The comparator
  // ---------------------------------------------------------------------------

  /** The comparator exactly as the component passes it to `Array.prototype.sort`:
      an absent left value answers 1 before the right one is looked at, so two
      absent values each compare greater than the other. */
  function CompareAsWritten(d: Direction, a: Option<int>, b: Option<int>): int
  {
    if a.None? then 1
    else if b.None? then -1
    else
      var comparison := if a.value > b.value then 1 else if a.value < b.value then -1 else 0;
      if d == Desc then -comparison else comparison
  }

  /** The comparator with the both-absent case answering 0; it agrees with
      `CompareAsWritten` on every other pair. */
  function Compare(d: Direction, a: Option<int>, b: Option<int>): int
  {
    if a.None? && b.None? then 0 else CompareAsWritten(d, a, b)
  }

  /** The conditions under which ECMA-262 calls a comparison function consistent
      (Array.prototype.sort, "consistent comparator"): `=` is an equivalence,
      `<` and `>` are mirror images and both are transitive. With a comparator
      that is not consistent the resulting order is implementation-defined. */
  ghost predicate IsConsistentComparator(cmp: (Option<int>, Option<int>) -> int) {
    && (forall a :: cmp(a, a) == 0)
    && (forall a, b :: cmp(a, b) == 0 ==> cmp(b, a) == 0)
    && (forall a, b :: cmp(a, b) < 0 <==> cmp(b, a) > 0)
    && (forall a, b, c :: cmp(a, b) == 0 && cmp(b, c) == 0 ==> cmp(a, c) == 0)
    && (forall a, b, c :: cmp(a, b) < 0 && cmp(b, c) < 0 ==> cmp(a, c) < 0)
    && (forall a, b, c :: cmp(a, b) > 0 && cmp(b, c) > 0 ==> cmp(a, c) > 0)
  }

  /** The comparator as written is not consistent: two absent values each
      compare greater than the other, and an absent value compares greater
      than itself. */
  lemma CompareAsWrittenIsInconsistent(d: Direction)
    ensures CompareAsWritten(d, None, None) > 0
    ensures !IsConsistentComparator((a, b) => CompareAsWritten(d, a, b))
  {
    var cmp := (a, b) => CompareAsWritten(d, a, b);
    assert cmp(None, None) == 1;
  }

  /** The corrected comparator is consistent in both directions. */
  lemma CompareIsConsistent(d: Direction)
    ensures IsConsistentComparator((a, b) => Compare(d, a, b))
  {
  }

  /** Absent values compare after present ones in both directions: the early
      returns come before the `desc` negation. */
  lemma AbsentComparesLast(d: Direction, a: Option<int>, b: Option<int>)
    requires a.Some? && b.None?
    ensures Compare(d, a, b) < 0 && Compare(d, b, a) > 0
    ensures CompareAsWritten(d, a, b) < 0 && CompareAsWritten(d, b, a) > 0
  {
  }

  /** Between present values the direction flips the comparison. */
  lemma DescIsReversedAsc(a: Option<int>, b: Option<int>)
    requires a.Some? && b.Some?
    ensures Compare(Desc, a, b) == -Compare(Asc, a, b)
    ensures Compare(Asc, a, b) < 0 <==> a.value < b.value
    ensures Compare(Asc, a, b) == 0 <==> a.value == b.value
  {
  }

  /** `Compare` is antisymmetric. */
  lemma CompareAntisymmetric(d: Direction, a: Option<int>, b: Option<int>)
    ensures Compare(d, a, b) > 0 <==> Compare(d, b, a) < 0
  {
  }

  /** `Compare`'s "not after" is transitive. */
  lemma CompareTransitive(d: Direction, a: Option<int>, b: Option<int>, c: Option<int>)
    requires Compare(d, a, b) <= 0 && Compare(d, b, c) <= 0
    ensures Compare(d, a, c) <= 0
  {
  }

  /** `Compare` answers 0 exactly on equal values, absent ones included. */
  lemma CompareZeroIffEqual(d: Direction, a: Option<int>, b: Option<int>)
    ensures Compare(d, a, b) == 0 <==> a == b
  {
  }

  // ---------------------------------------------------------------------------
  // The stable sort
  // ---------------------------------------------------------------------------

  /** Record-level comparison on one field. */
  function CompareOn(d: Direction, f: string, x: Record, y: Record): int {
    Compare(d, Project(x, f), Project(y, f))
  }

  /** Places `x` in front of the first element it does not compare after. */
  function Insert(d: Direction, f: string, x: Record, s: seq<Record>): (r: seq<Record>)
    ensures multiset(r) == multiset(s) + multiset{x}
    ensures |r| == |s| + 1
  {
    if s == [] then [x]
    else if CompareOn(d, f, x, s[0]) > 0 then
      assert s == [s[0]] + s[1..];
      [s[0]] + Insert(d, f, x, s[1..])
    else [x] + s
  }

  /** The displayed order `[...data].sort(comparator)` produces when the comparator is
      consistent: ECMA-262 requires the sort to be stable, so the result is
      fixed. The input sequence is a value and is never changed. */
  function SortBy(d: Direction, f: string, s: seq<Record>): (r: seq<Record>)
    ensures multiset(r) == multiset(s)
    ensures |r| == |s|
  {
    if s == [] then []
    else
      assert s == [s[0]] + s[1..];
      Insert(d, f, s[0], SortBy(d, f, s[1..]))
  }

  /** No element compares after a later one. */
  ghost predicate SortedOn(d: Direction, f: string, s: seq<Record>) {
    forall i, j :: 0 <= i < j < |s| ==> CompareOn(d, f, s[i], s[j]) <= 0
  }

  /** The elements of `s` whose field `f` reads `v`, in their order in `s`. */
  function Group(f: string, v: Option<int>, s: seq<Record>): seq<Record>
  {
    if s == [] then [] else (if Project(s[0], f) == v then [s[0]] else []) + Group(f, v, s[1..])
  }

  /** Stability: every class of equal values keeps its order from the input. */
  ghost predicate StableOn(f: string, input: seq<Record>, output: seq<Record>) {
    forall v :: Group(f, v, output) == Group(f, v, input)
  }

  lemma {:induction false} GroupAppend(f: string, v: Option<int>, a: seq<Record>, b: seq<Record>)
    ensures Group(f, v, a + b) == Group(f, v, a) + Group(f, v, b)
  {
    if a == [] {
      assert a + b == b;
    } else {
      assert (a + b)[0] == a[0];
      assert (a + b)[1..] == a[1..] + b;
      GroupAppend(f, v, a[1..], b);
    }
  }

  /** `a` compares not after any element of `s`. */
  ghost predicate LowerBound(d: Direction, f: string, a: Record, s: seq<Record>) {
    forall k :: 0 <= k < |s| ==> CompareOn(d, f, a, s[k]) <= 0
  }

  lemma {:induction false} InsertLowerBound(d: Direction, f: string, a: Record, x: Record, s: seq<Record>)
    requires CompareOn(d, f, a, x) <= 0 && LowerBound(d, f, a, s)
    ensures LowerBound(d, f, a, Insert(d, f, x, s))
  {
    var r := Insert(d, f, x, s);
    if s == [] {
      assert r == [x];
    } else if CompareOn(d, f, x, s[0]) > 0 {
      var rest := Insert(d, f, x, s[1..]);
      assert LowerBound(d, f, a, s[1..]) by {
        forall k | 0 <= k < |s[1..]| ensures CompareOn(d, f, a, s[1..][k]) <= 0 {
          assert s[1..][k] == s[k + 1];
        }
      }
      InsertLowerBound(d, f, a, x, s[1..]);
      assert r == [s[0]] + rest;
      forall k | 0 <= k < |r| ensures CompareOn(d, f, a, r[k]) <= 0 {
        if k > 0 {
          assert r[k] == rest[k - 1];
        }
      }
    } else {
      assert r == [x] + s;
      forall k | 0 <= k < |r| ensures CompareOn(d, f, a, r[k]) <= 0 {
        if k > 0 {
          assert r[k] == s[k - 1];
        }
      }
    }
  }

  /** A sorted sequence stays sorted under a head that is a lower bound. */
  lemma SortedCons(d: Direction, f: string, a: Record, s: seq<Record>)
    requires LowerBound(d, f, a, s) && SortedOn(d, f, s)
    ensures SortedOn(d, f, [a] + s)
  {
    var r := [a] + s;
    forall i, j | 0 <= i < j < |r| ensures CompareOn(d, f, r[i], r[j]) <= 0 {
      assert r[j] == s[j - 1];
      if i > 0 {
        assert r[i] == s[i - 1];
      }
    }
  }

  /** The head of a sorted sequence is a lower bound of its sorted tail. */
  lemma SortedSplit(d: Direction, f: string, s: seq<Record>)
    requires s != [] && SortedOn(d, f, s)
    ensures LowerBound(d, f, s[0], s[1..]) && SortedOn(d, f, s[1..])
  {
    forall k | 0 <= k < |s[1..]| ensures CompareOn(d, f, s[0], s[1..][k]) <= 0 {
      assert s[1..][k] == s[k + 1];
    }
    forall i, j | 0 <= i < j < |s[1..]| ensures CompareOn(d, f, s[1..][i], s[1..][j]) <= 0 {
      assert s[1..][i] == s[i + 1] && s[1..][j] == s[j + 1];
    }
  }

  /** A record that compares not after the head of a sorted sequence is a
      lower bound of all of it. */
  lemma HeadLowerBound(d: Direction, f: string, x: Record, s: seq<Record>)
    requires s != [] && SortedOn(d, f, s) && CompareOn(d, f, x, s[0]) <= 0
    ensures LowerBound(d, f, x, s)
  {
    forall k | 0 <= k < |s| ensures CompareOn(d, f, x, s[k]) <= 0 {
      if k > 0 {
        assert CompareOn(d, f, s[0], s[k]) <= 0;
        CompareTransitive(d, Project(x, f), Project(s[0], f), Project(s[k], f));
      }
    }
  }

  lemma {:induction false} InsertSorted(d: Direction, f: string, x: Record, s: seq<Record>)
    requires SortedOn(d, f, s)
    ensures SortedOn(d, f, Insert(d, f, x, s))
  {
    if s == [] {
      assert Insert(d, f, x, s) == [x];
    } else if CompareOn(d, f, x, s[0]) > 0 {
      var rest := Insert(d, f, x, s[1..]);
      assert Insert(d, f, x, s) == [s[0]] + rest;
      SortedSplit(d, f, s);
      InsertSorted(d, f, x, s[1..]);
      CompareAntisymmetric(d, Project(x, f), Project(s[0], f));
      InsertLowerBound(d, f, s[0], x, s[1..]);
      SortedCons(d, f, s[0], rest);
    } else {
      assert Insert(d, f, x, s) == [x] + s;
      HeadLowerBound(d, f, x, s);
      SortedCons(d, f, x, s);
    }
  }

  /** A one-element sequence has a group only for its element's value. */
  lemma GroupSingleton(f: string, v: Option<int>, y: Record)
    ensures Group(f, v, [y]) == if Project(y, f) == v then [y] else []
  {
    assert [y][1..] == [];
  }

  /** Two records that compare unequal never share a group, so their groups
      commute. */
  lemma GroupSwap(d: Direction, f: string, v: Option<int>, x: Record, y: Record)
    requires CompareOn(d, f, x, y) != 0
    ensures Group(f, v, [x]) + Group(f, v, [y]) == Group(f, v, [y]) + Group(f, v, [x])
  {
    CompareZeroIffEqual(d, Project(x, f), Project(y, f));
    GroupSingleton(f, v, x);
    GroupSingleton(f, v, y);
  }

  /** Two commuting blocks can trade places in front of a common tail. */
  lemma SwapInFront<T>(a: seq<T>, b: seq<T>, c: seq<T>)
    requires a + b == b + a
    ensures b + (a + c) == a + (b + c)
  {
    assert b + (a + c) == (b + a) + c;
    assert a + (b + c) == (a + b) + c;
  }

  /** The step of `InsertStableAt` where `x` moves past a head `y` it does
      not compare equal to: `rest` stands for the insertion of `x` into `t`. */
  lemma InsertStableSwap(d: Direction, f: string, v: Option<int>, x: Record, y: Record, t: seq<Record>, rest: seq<Record>)
    requires CompareOn(d, f, x, y) != 0
    requires Group(f, v, rest) == Group(f, v, [x] + t)
    ensures Group(f, v, [y] + rest) == Group(f, v, [x] + ([y] + t))
  {
    var gx, gy, gt := Group(f, v, [x]), Group(f, v, [y]), Group(f, v, t);
    assert Group(f, v, [y] + rest) == gy + (gx + gt) by {
      GroupAppend(f, v, [y], rest);
      GroupAppend(f, v, [x], t);
    }
    assert Group(f, v, [x] + ([y] + t)) == gx + (gy + gt) by {
      GroupAppend(f, v, [x], [y] + t);
      GroupAppend(f, v, [y], t);
    }
    GroupSwap(d, f, v, x, y);
    SwapInFront(gx, gy, gt);
  }

  lemma {:induction false} InsertStableAt(d: Direction, f: string, v: Option<int>, x: Record, s: seq<Record>)
    ensures Group(f, v, Insert(d, f, x, s)) == Group(f, v, [x] + s)
  {
    if s != [] && CompareOn(d, f, x, s[0]) > 0 {
      var rest := Insert(d, f, x, s[1..]);
      assert Insert(d, f, x, s) == [s[0]] + rest;
      InsertStableAt(d, f, v, x, s[1..]);
      InsertStableSwap(d, f, v, x, s[0], s[1..], rest);
      assert s == [s[0]] + s[1..];
    } else {
      assert Insert(d, f, x, s) == [x] + s;
    }
  }

  lemma InsertStable(d: Direction, f: string, x: Record, s: seq<Record>)
    ensures StableOn(f, [x] + s, Insert(d, f, x, s))
  {
    forall v ensures Group(f, v, Insert(d, f, x, s)) == Group(f, v, [x] + s) {
      InsertStableAt(d, f, v, x, s);
    }
  }

  lemma {:induction false} SortBySorted(d: Direction, f: string, s: seq<Record>)
    ensures SortedOn(d, f, SortBy(d, f, s))
  {
    if s != [] {
      SortBySorted(d, f, s[1..]);
      InsertSorted(d, f, s[0], SortBy(d, f, s[1..]));
    }
  }

  lemma {:induction false} SortByStable(d: Direction, f: string, s: seq<Record>)
    ensures StableOn(f, s, SortBy(d, f, s))
  {
    if s != [] {
      var rest := SortBy(d, f, s[1..]);
      SortByStable(d, f, s[1..]);
      InsertStable(d, f, s[0], rest);
      assert s == [s[0]] + s[1..];
      forall v ensures Group(f, v, SortBy(d, f, s)) == Group(f, v, s) {
        GroupAppend(f, v, [s[0]], rest);
        GroupAppend(f, v, [s[0]], s[1..]);
      }
    }
  }

  /** The sorted output is a permutation of the input, sorted by the comparator
      and stable; absent values come after every present one, present values are
      non-decreasing under `Asc` and non-increasing under `Desc`. */
  lemma SortByCorrect(d: Direction, f: string, s: seq<Record>)
    ensures multiset(SortBy(d, f, s)) == multiset(s)
    ensures SortedOn(d, f, SortBy(d, f, s))
    ensures StableOn(f, s, SortBy(d, f, s))
    ensures forall i, j :: 0 <= i < j < |s| && Project(SortBy(d, f, s)[i], f).None? ==> Project(SortBy(d, f, s)[j], f).None?
    ensures forall i, j :: 0 <= i < j < |s| && f in SortBy(d, f, s)[i] && f in SortBy(d, f, s)[j] ==>
      if d == Asc then SortBy(d, f, s)[i][f] <= SortBy(d, f, s)[j][f] else SortBy(d, f, s)[i][f] >= SortBy(d, f, s)[j][f]
  {
    SortBySorted(d, f, s);
    SortByStable(d, f, s);
  }

  lemma {:induction false} GroupMember(f: string, v: Option<int>, s: seq<Record>, k: nat)
    requires k < |Group(f, v, s)|
    ensures Group(f, v, s)[k] in s && Project(Group(f, v, s)[k], f) == v
  {
    var head := if Project(s[0], f) == v then [s[0]] else [];
    if k < |head| {
    } else {
      GroupMember(f, v, s[1..], k - |head|);
      assert Group(f, v, s)[k] == Group(f, v, s[1..])[k - |head|];
    }
  }

  /** The head of a sorted sequence does not compare after any of its elements. */
  lemma SortedHeadFirst(d: Direction, f: string, t: seq<Record>, x: Record)
    requires SortedOn(d, f, t) && x in t
    ensures CompareOn(d, f, t[0], x) <= 0
  {
    var i :| 0 <= i < |t| && t[i] == x;
    if i > 0 { assert CompareOn(d, f, t[0], t[i]) <= 0; }
  }

  lemma GroupHead(f: string, s: seq<Record>)
    requires s != []
    ensures |Group(f, Project(s[0], f), s)| > 0 && Group(f, Project(s[0], f), s)[0] == s[0]
  {
  }

  /** Two non-empty sorted sequences with the same classes start with the same element. */
  lemma SortedHeadsEqual(d: Direction, f: string, t: seq<Record>, u: seq<Record>)
    requires t != [] && u != []
    requires SortedOn(d, f, t) && SortedOn(d, f, u)
    requires Group(f, Project(t[0], f), t) == Group(f, Project(t[0], f), u)
    requires Group(f, Project(u[0], f), t) == Group(f, Project(u[0], f), u)
    ensures t[0] == u[0]
  {
    var v1, v2 := Project(t[0], f), Project(u[0], f);
    // The head of u lies in t, so the head of t does not compare after it; and conversely.
    assert Compare(d, v1, v2) <= 0 by {
      GroupHead(f, u);
      GroupMember(f, v2, t, 0);
      SortedHeadFirst(d, f, t, u[0]);
    }
    assert Compare(d, v2, v1) <= 0 by {
      GroupHead(f, t);
      GroupMember(f, v1, u, 0);
      SortedHeadFirst(d, f, u, t[0]);
    }
    CompareAntisymmetric(d, v1, v2);
    CompareZeroIffEqual(d, v1, v2);
    assert v1 == v2;
    GroupHead(f, t);
    GroupHead(f, u);
  }

  /** Dropping equal heads keeps the classes equal. */
  lemma TailGroupsEqual(f: string, t: seq<Record>, u: seq<Record>)
    requires t != [] && u != [] && t[0] == u[0]
    requires forall v :: Group(f, v, t) == Group(f, v, u)
    ensures forall v :: Group(f, v, t[1..]) == Group(f, v, u[1..])
  {
    forall v ensures Group(f, v, t[1..]) == Group(f, v, u[1..]) {
      var gt, gu := Group(f, v, t[1..]), Group(f, v, u[1..]);
      var head := if Project(t[0], f) == v then [t[0]] else [];
      assert Group(f, v, t) == head + gt;
      assert Group(f, v, u) == head + gu;
      assert |gt| == |gu|;
      forall k | 0 <= k < |gt| ensures gt[k] == gu[k] {
        assert gt[k] == (head + gt)[k + |head|];
        assert gu[k] == (head + gu)[k + |head|];
      }
    }
  }

  /** Two sequences that are both sorted and have the same class of equal
      values for every value are equal. */
  lemma {:induction false} SortedGroupsDetermine(d: Direction, f: string, t: seq<Record>, u: seq<Record>)
    requires SortedOn(d, f, t) && SortedOn(d, f, u)
    requires forall v :: Group(f, v, t) == Group(f, v, u)
    ensures t == u
    decreases |t| + |u|
  {
    if t == [] || u == [] {
      if t != [] {
        GroupHead(f, t);
        assert false;
      } else if u != [] {
        GroupHead(f, u);
        assert false;
      }
    } else {
      assert Group(f, Project(t[0], f), t) == Group(f, Project(t[0], f), u);
      assert Group(f, Project(u[0], f), t) == Group(f, Project(u[0], f), u);
      SortedHeadsEqual(d, f, t, u);
      TailGroupsEqual(f, t, u);
      SortedSplit(d, f, t);
      SortedSplit(d, f, u);
      SortedGroupsDetermine(d, f, t[1..], u[1..]);
      assert t == [t[0]] + t[1..] && u == [u[0]] + u[1..];
    }
  }

  /** `SortBy` is the only sorted, stable rearrangement of its input, so every
      stable sort with this comparator produces the same display order. */
  lemma StableSortIsUnique(d: Direction, f: string, s: seq<Record>, t: seq<Record>)
    requires SortedOn(d, f, t) && StableOn(f, s, t)
    ensures t == SortBy(d, f, s)
  {
    SortByCorrect(d, f, s);
    SortedGroupsDetermine(d, f, t, SortBy(d, f, s));
  }

  // ---------------------------------------------------------------------------
  // The derived display order
  // ---------------------------------------------------------------------------

  /** `columns.find(col => col.key === key)`: the first column with that key. */
  function FindColumn(columns: seq<Column>, key: string): (r: Option<Column>)
    ensures r.None? <==> forall i :: 0 <= i < |columns| ==> columns[i].key != key
    ensures r.Some? ==> exists i :: 0 <= i < |columns| && columns[i] == r.value && r.value.key == key &&
                                   forall j :: 0 <= j < i ==> columns[j].key != key
  {
    if columns == [] then None
    else if columns[0].key == key then Some(columns[0])
    else
      var r := FindColumn(columns[1..], key);
      assert r.Some? ==> exists i :: 0 <= i < |columns[1..]| && columns[1..][i] == r.value && r.value.key == key &&
                                     forall j :: 0 <= j < i ==> columns[1..][j].key != key;
      if r.Some? then
        var i :| 0 <= i < |columns[1..]| && columns[1..][i] == r.value && r.value.key == key &&
                 forall j :: 0 <= j < i ==> columns[1..][j].key != key;
        assert columns[i + 1] == r.value;
        assert forall j :: 0 <= j < i + 1 ==> columns[j].key != key by {
          forall j | 0 <= j < i + 1 ensures columns[j].key != key {
            if j > 0 { assert columns[j] == columns[1..][j - 1]; }
          }
        }
        r
      else
        assert forall i :: 0 <= i < |columns| ==> columns[i].key != key by {
          forall i | 0 <= i < |columns| ensures columns[i].key != key {
            if i > 0 { assert columns[i] == columns[1..][i - 1]; }
          }
        }
        r
  }

  /** The direction and field of the sort that applies (lines 57-64), if any:
      none while the key is null or empty, the direction is null, no column has
      the key, or the column found is not sortable. */
  function ActiveSort(columns: seq<Column>, st: SortState): Option<(Direction, string)>
  {
    if st.key.None? || st.key.value == "" || st.direction.None? then None
    else match FindColumn(columns, st.key.value)
      case None => None
      case Some(column) => if !column.sortable then None else Some((st.direction.value, column.dataIndex))
  }

  /** `sortedData`: `data` itself when no sort applies, a sorted copy otherwise. */
  function DisplayOrder(data: seq<Record>, columns: seq<Column>, st: SortState): seq<Record>
  {
    match ActiveSort(columns, st)
    case None => data
    case Some((d, f)) => SortBy(d, f, data)
  }

  /** The display order is `data` exactly in the four cases of lines 57-64, and
      otherwise the stable sort on the active column. */
  lemma ActiveSortCases(columns: seq<Column>, st: SortState)
    ensures ActiveSort(columns, st).None? <==>
      || st.key.None? || st.key == Some("") || st.direction.None?
      || (forall i :: 0 <= i < |columns| ==> columns[i].key != st.key.value)
      || !FindColumn(columns, st.key.value).value.sortable
    ensures ActiveSort(columns, st).Some? ==>
      && st.direction.Some?
      && ActiveSort(columns, st).value.0 == st.direction.value
      && exists i :: 0 <= i < |columns| && Some(columns[i].key) == st.key && columns[i].sortable &&
                     columns[i].dataIndex == ActiveSort(columns, st).value.1
  {
  }

  /** Whatever the sort state, the displayed sequence holds exactly the records
      of `data`; it is `data` itself when no sort applies, and otherwise it is
      sorted and stable on the active column. */
  lemma DisplayOrderCorrect(data: seq<Record>, columns: seq<Column>, st: SortState)
    ensures multiset(DisplayOrder(data, columns, st)) == multiset(data)
    ensures ActiveSort(columns, st).None? ==> DisplayOrder(data, columns, st) == data
    ensures ActiveSort(columns, st).Some? ==>
      var (d, f) := ActiveSort(columns, st).value;
      SortedOn(d, f, DisplayOrder(data, columns, st)) && StableOn(f, data, DisplayOrder(data, columns, st))
  {
    if ActiveSort(columns, st).Some? {
      var (d, f) := ActiveSort(columns, st).value;
      SortByCorrect(d, f, data);
    }
  }

  // ---------------------------------------------------------------------------
  // The header-click machine
  // ---------------------------------------------------------------------------

  /** `handleSort`: the state after a click on `column`'s header. */
  function NextSortState(prev: SortState, column: Column): SortState
  {
    if !column.sortable then prev
    else if prev.key == Some(column.key) && prev.direction == Some(Asc) then SortState(Some(column.key), Some(Desc))
    else if prev.key == Some(column.key) && prev.direction == Some(Desc) then Unsorted
    else SortState(Some(column.key), Some(Asc))
  }

  /** The transitions of lines 81-94, one per case. */
  lemma NextSortStateCases(prev: SortState, column: Column)
    ensures !column.sortable ==> NextSortState(prev, column) == prev
    ensures column.sortable && prev == SortState(Some(column.key), Some(Asc)) ==>
      NextSortState(prev, column) == SortState(Some(column.key), Some(Desc))
    ensures column.sortable && prev == SortState(Some(column.key), Some(Desc)) ==>
      NextSortState(prev, column) == Unsorted
    ensures column.sortable && prev.key != Some(column.key) ==>
      NextSortState(prev, column) == SortState(Some(column.key), Some(Asc))
    ensures column.sortable && prev.key == Some(column.key) && prev.direction.None? ==>
      NextSortState(prev, column) == SortState(Some(column.key), Some(Asc))
    ensures column.sortable ==>
      NextSortState(prev, column) == Unsorted || NextSortState(prev, column).key == Some(column.key)
  {
  }

  /** A click keeps the invariant that the key is null exactly when the direction is. */
  lemma NextSortStatePreservesWellFormed(prev: SortState, column: Column)
    requires WellFormed(prev)
    ensures WellFormed(NextSortState(prev, column))
  {
  }

  /** Three clicks on one sortable column, from any state in which that column
      is not active (in particular from the initial state), go through ascending
      and descending back to the unsorted state, and back to the original order. */
  lemma ThreeClicksRestore(data: seq<Record>, columns: seq<Column>, prev: SortState, column: Column)
    requires column.sortable && prev.key != Some(column.key)
    ensures NextSortState(prev, column) == SortState(Some(column.key), Some(Asc))
    ensures NextSortState(NextSortState(prev, column), column) == SortState(Some(column.key), Some(Desc))
    ensures NextSortState(NextSortState(NextSortState(prev, column), column), column) == Unsorted
    ensures DisplayOrder(data, columns, NextSortState(NextSortState(NextSortState(prev, column), column), column)) == data
  {
  }

  /** With unique column keys, clicking the sortable header of a listed column
      whose key is not empty (from a state where it is not yet active) sorts
      the display ascending on that column's field. */
  lemma ClickSortsByClickedColumn(columns: seq<Column>, prev: SortState, k: nat)
    requires k < |columns| && columns[k].sortable && columns[k].key != ""
    requires forall i, j :: 0 <= i < |columns| && 0 <= j < |columns| && columns[i].key == columns[j].key ==> i == j
    requires prev.key != Some(columns[k].key)
    ensures ActiveSort(columns, NextSortState(prev, columns[k])) == Some((Asc, columns[k].dataIndex))
  {
    var c := FindColumn(columns, columns[k].key);
    assert c.Some?;
    var i :| 0 <= i < |columns| && columns[i] == c.value && c.value.key == columns[k].key &&
             forall j :: 0 <= j < i ==> columns[j].key != columns[k].key;
    assert i == k;
  }
}

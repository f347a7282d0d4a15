/** The dashboard's API-key table: the `ApiKey` record, the list update
    of handleGenerateApiKey, the filter of handleDeleteApiKey and the
    "Active API Keys" count. The table is an immutable list that each
    operation replaces, as the component does with `setApiKeys`. */
module ApiKeys {
  import opened JsBuiltins

  /** The closed set of status labels a record may carry. */
  datatype Status = Active | Limited | Revoked

  /** One row of the table. `id` and `requests` are JavaScript numbers;
      they only ever hold small non-negative integers here. */
  datatype ApiKey = ApiKey(
    id: int,
    name: string,
    key: string,
    status: Status,
    requests: int,
    createdAt: string)

  type Table = seq<ApiKey>

  /** `!name.trim()`: the guard that makes key creation a no-op. */
  predicate IsBlankName(name: string) {
    Trim(name) == []
  }

  /** A name is blank exactly when it consists of white space only. */
  lemma BlankNameIff(name: string)
    ensures IsBlankName(name) <==> AllWhiteSpace(name)
  {
    TrimEmptyIff(name);
  }

  /** The table after handleGenerateApiKey: unchanged for a blank name,
      otherwise the old rows followed by one fresh Active row whose id is
      the old length plus one and whose name is the input as typed. */
  function AddKey(table: Table, name: string, key: string, createdAt: string): (r: Table)
    ensures IsBlankName(name) ==> r == table
    ensures !IsBlankName(name) ==>
      |r| == |table| + 1 && r[..|table|] == table &&
      r[|table|] == ApiKey(|table| + 1, name, key, Active, 0, createdAt)
  {
    if IsBlankName(name) then table
    else table + [ApiKey(|table| + 1, name, key, Active, 0, createdAt)]
  }

  /** The table after handleDeleteApiKey: `filter(key => key.id !== id)`. */
  function DeleteKey(table: Table, id: int): (r: Table)
    ensures |r| <= |table|
    ensures forall k :: k in r <==> k in table && k.id != id
  {
    Filter(table, (k: ApiKey) => k.id != id)
  }

  /** `key.status === "Active"`: the test the count filters by. */
  predicate IsActive(k: ApiKey) {
    k.status == Active
  }

  /** The "Active API Keys" figure: the number of rows whose status is
      Active. */
  function ActiveCount(table: Table): (n: nat)
    ensures n <= |table|
  {
    |Filter(table, IsActive)|
  }

  // ---------------------------------------------------------------------
  // Delete

  /** Delete keeps the surviving rows in their original order, each as
      often as it occurred, and drops every row with the id. */
  lemma DeleteExactly(table: Table, id: int)
    ensures IsSubsequence(DeleteKey(table, id), table)
    ensures forall k :: multiset(DeleteKey(table, id))[k] == if k.id == id then 0 else multiset(table)[k]
  {
    var keep := (k: ApiKey) => k.id != id;
    FilterIsSubsequence(table, keep);
    forall k ensures multiset(DeleteKey(table, id))[k] == (if k.id == id then 0 else multiset(table)[k]) {
      FilterMultiset(table, keep, k);
    }
  }

  /** Deleting an id that no row carries leaves the table as it was. */
  lemma DeleteAbsent(table: Table, id: int)
    requires forall k :: k in table ==> k.id != id
    ensures DeleteKey(table, id) == table
  {
    FilterAllKept(table, (k: ApiKey) => k.id != id);
  }

  /** The table shrinks exactly when some row carries the id. */
  lemma DeleteShrinksIff(table: Table, id: int)
    ensures |DeleteKey(table, id)| < |table| <==> exists k :: k in table && k.id == id
  {
    FilterLengthIff(table, (k: ApiKey) => k.id != id);
  }

  /** Deleting twice is deleting once. */
  lemma DeleteIdempotent(table: Table, id: int)
    ensures DeleteKey(DeleteKey(table, id), id) == DeleteKey(table, id)
  {
    FilterIdempotent(table, (k: ApiKey) => k.id != id);
  }

  /** Deletions of two ids commute. */
  lemma DeleteCommute(table: Table, a: int, b: int)
    ensures DeleteKey(DeleteKey(table, a), b) == DeleteKey(DeleteKey(table, b), a)
  {
    FilterCommute(table, (k: ApiKey) => k.id != a, (k: ApiKey) => k.id != b);
  }

  // ---------------------------------------------------------------------
  // Active count

  /** The count reaches the table's length exactly when every row is
      Active, and is zero exactly when none is. */
  lemma ActiveCountBounds(table: Table)
    ensures ActiveCount(table) == |table| <==> forall k :: k in table ==> IsActive(k)
    ensures ActiveCount(table) == 0 <==> forall k :: k in table ==> !IsActive(k)
  {
    FilterLengthIff(table, IsActive);
    FilterEmptyIff(table, IsActive);
  }

  /** The positions of the table that hold an Active row. */
  function ActiveIndices(table: Table): set<int> {
    set i | 0 <= i < |table| && IsActive(table[i])
  }

  /** The count is the number of row positions holding an Active row. */
  lemma {:induction false} ActiveCountIndices(table: Table)
    ensures ActiveCount(table) == |ActiveIndices(table)|
  {
    if table != [] {
      var n := |table|;
      var init, last := table[..n - 1], table[n - 1];
      ActiveCountIndices(init);
      assert table == init + [last];
      FilterConcat(init, [last], IsActive);
      FilterSingleton(last, IsActive);
      ActiveIndicesSnoc(table);
    }
  }

  /** Appending a row adds its position to the Active positions exactly
      when the row is Active. */
  lemma ActiveIndicesSnoc(table: Table)
    requires table != []
    ensures var n := |table|;
      ActiveIndices(table) ==
        ActiveIndices(table[..n - 1]) + if IsActive(table[n - 1]) then {n - 1} else {}
    ensures |ActiveIndices(table)| ==
      |ActiveIndices(table[..|table| - 1])| + if IsActive(table[|table| - 1]) then 1 else 0
  {
    var n := |table|;
    var init := table[..n - 1];
    var before, after := ActiveIndices(init), ActiveIndices(table);
    var added: set<int> := if IsActive(table[n - 1]) then {n - 1} else {};
    forall i ensures i in after <==> i in before + added {
      if 0 <= i < n - 1 {
        assert table[i] == init[i];
      }
    }
    assert after == before + added;
    assert before !! added;
  }

  /** Every row is Active or not: the Active count and the count of the
      other rows add up to the table's length. */
  lemma ActiveCountPartition(table: Table)
    ensures ActiveCount(table) + |Filter(table, (k: ApiKey) => !IsActive(k))| == |table|
  {
    FilterPartition(table, IsActive, (k: ApiKey) => !IsActive(k));
  }

  /** A created key is Active, so a successful add raises the count by
      one; a blank name leaves it alone. */
  lemma ActiveCountAdd(table: Table, name: string, key: string, createdAt: string)
    ensures ActiveCount(AddKey(table, name, key, createdAt)) ==
      if IsBlankName(name) then ActiveCount(table) else ActiveCount(table) + 1
  {
    if !IsBlankName(name) {
      var row := ApiKey(|table| + 1, name, key, Active, 0, createdAt);
      FilterConcat(table, [row], IsActive);
    }
  }

  /** Deleting never raises the count, and leaves it unchanged when no
      Active row carries the id. */
  lemma ActiveCountDelete(table: Table, id: int)
    ensures ActiveCount(DeleteKey(table, id)) <= ActiveCount(table)
    ensures (forall k :: k in table && IsActive(k) ==> k.id != id) ==>
      ActiveCount(DeleteKey(table, id)) == ActiveCount(table)
  {
    var other := (k: ApiKey) => k.id != id;
    FilterCommute(table, other, IsActive);
    if forall k :: k in table && IsActive(k) ==> k.id != id {
      FilterAllKept(Filter(table, IsActive), other);
    }
  }

  // ---------------------------------------------------------------------
  // Ids

  /** Ids are 1, 2, ..., n in row order, as in the seed table. */
  predicate IdsSequential(table: Table) {
    forall i :: 0 <= i < |table| ==> table[i].id == i + 1
  }

  predicate UniqueIds(table: Table) {
    forall i, j :: 0 <= i < j < |table| ==> table[i].id != table[j].id
  }

  function Ids(table: Table): set<int> {
    set k | k in table :: k.id
  }

  /** Sequential ids are unique and are exactly the numbers 1 .. n. */
  lemma SequentialIds(table: Table)
    requires IdsSequential(table)
    ensures UniqueIds(table)
    ensures forall n :: n in Ids(table) <==> 1 <= n <= |table|
  {
    forall n ensures n in Ids(table) <==> 1 <= n <= |table| {
      if 1 <= n <= |table| {
        assert table[n - 1] in table;
      }
      if n in Ids(table) {
        var k :| k in table && k.id == n;
        var i :| 0 <= i < |table| && table[i] == k;
      }
    }
  }

  /** Adding to a table with ids 1 .. n gives ids 1 .. n+1 (or leaves the
      table alone): with no deletion in between, ids stay unique. */
  lemma AddKeepsSequential(table: Table, name: string, key: string, createdAt: string)
    requires IdsSequential(table)
    ensures IdsSequential(AddKey(table, name, key, createdAt))
  {
  }

  /** Adding to a table with unique ids keeps them unique exactly when no
      row already carries the new id, the old length plus one. */
  lemma AddUniqueIff(table: Table, name: string, key: string, createdAt: string)
    requires UniqueIds(table) && !IsBlankName(name)
    ensures UniqueIds(AddKey(table, name, key, createdAt)) <==> |table| + 1 !in Ids(table)
  {
    var r := AddKey(table, name, key, createdAt);
    if |table| + 1 in Ids(table) {
      var k :| k in table && k.id == |table| + 1;
      var i :| 0 <= i < |table| && table[i] == k;
      assert r[i].id == r[|table|].id;
    } else {
      forall i | 0 <= i < |table| ensures r[i].id != r[|table|].id {
        assert table[i] in table;
      }
    }
  }

  /** On ids 1 .. n, the rows lo .. hi-1 carry ids lo+1 .. hi. */
  lemma SequentialSliceIds(table: Table, lo: int, hi: int)
    requires IdsSequential(table) && 0 <= lo <= hi <= |table|
    ensures forall k :: k in table[lo..hi] ==> lo + 1 <= k.id <= hi
  {
    forall k | k in table[lo..hi] ensures lo + 1 <= k.id <= hi {
      var i :| 0 <= i < hi - lo && table[lo..hi][i] == k;
      assert k == table[lo + i];
    }
  }

  /** On ids 1 .. n, deleting the row with id x (1 <= x <= n) removes just
      the row at index x - 1. */
  lemma DeleteSequential(table: Table, x: int)
    requires IdsSequential(table) && 1 <= x <= |table|
    ensures DeleteKey(table, x) == table[..x - 1] + table[x..]
  {
    var keep := (k: ApiKey) => k.id != x;
    var front, back := table[..x - 1], table[x..];
    assert DeleteKey(table, x) == Filter(table, keep);
    assert table == front + [table[x - 1]] + back;
    SequentialSliceIds(table, 0, x - 1);
    SequentialSliceIds(table, x, |table|);
    assert table[0..x - 1] == front && table[x..|table|] == back;
    FilterDropOne(front, table[x - 1], back, keep);
  }

  /** The id rule `length + 1` after a deletion: starting from ids 1 .. n,
      deleting id x and then adding a key leaves the ids unique exactly
      when x is not one of 1 .. n-1. Deleting any row but the last makes
      the new row repeat the last row's id. */
  lemma DeleteThenAddUniqueIff(table: Table, x: int, name: string, key: string, createdAt: string)
    requires IdsSequential(table) && !IsBlankName(name)
    ensures UniqueIds(AddKey(DeleteKey(table, x), name, key, createdAt)) <==> !(1 <= x < |table|)
  {
    var n := |table|;
    if 1 <= x <= n {
      DeleteSequential(table, x);
      var d := DeleteKey(table, x);
      if x == n {
        assert d == table[..n - 1];
        AddKeepsSequential(d, name, key, createdAt);
        SequentialIds(AddKey(d, name, key, createdAt));
      } else {
        var r := AddKey(d, name, key, createdAt);
        assert |d| == n - 1;
        assert d[n - 2] == table[n - 1];
        assert r[n - 2].id == n == r[n - 1].id;
      }
    } else {
      forall k | k in table ensures k.id != x {
        var i :| 0 <= i < n && table[i] == k;
      }
      DeleteAbsent(table, x);
      AddKeepsSequential(table, name, key, createdAt);
      SequentialIds(AddKey(table, name, key, createdAt));
    }
  }
}

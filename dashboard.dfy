/** The dashboard component's key-table state: the three seed rows it starts
    with and the two event handlers that replace the table. The clock
    (`new Date().toISOString()`) and the random source are parameters; the
    simulated delay and the busy flag are not part of this model. */
module Dashboard {
  import opened JsBuiltins
  import opened KeyGen
  import opened ApiKeys

  /** The table's initial contents. */
  const Seed: Table := [
    ApiKey(1, "Production Key", "ABCD-1234-EFGH-5678", Active, 1250, "2024-01-15"),
    ApiKey(2, "Development Key", "IJKL-9012-MNOP-3456", Active, 340, "2024-01-20"),
    ApiKey(3, "Testing Key", "QRST-7890-UVWX-1234", Limited, 89, "2024-01-25")
  ]

  /** `isoNow.split("T")[0]`: the date part of an ISO-8601 timestamp. */
  function DatePart(isoNow: string): (date: string)
    ensures |date| <= |isoNow| && date == isoNow[..|date|]
    ensures 'T' !in date
    ensures |date| < |isoNow| ==> isoNow[|date|] == 'T'
  {
    BeforeFirst(isoNow, 'T')
  }

  /** toISOString renders YYYY-MM-DDTHH:mm:ss.sssZ: the first 'T' is at
      position 10, so the stored date is the ten characters YYYY-MM-DD. */
  lemma DatePartOfIsoString(isoNow: string)
    requires |isoNow| > 10 && isoNow[10] == 'T' && 'T' !in isoNow[..10]
    ensures DatePart(isoNow) == isoNow[..10]
  {
  }

  /** handleGenerateApiKey without its delay: a blank name changes nothing;
      otherwise a key is generated from the draws, a row is appended and
      the name field is cleared. */
  method HandleGenerateApiKey(apiKeys: Table, newKeyName: string, draws: seq<int>, isoNow: string)
    returns (keys: Table, keyName: string)
    requires |draws| == DrawCount
    ensures keys == AddKey(apiKeys, newKeyName, KeyOf(draws), DatePart(isoNow))
    ensures keyName == if IsBlankName(newKeyName) then newKeyName else ""
    ensures !IsBlankName(newKeyName) && ValidDraws(draws) ==>
      |keys| == |apiKeys| + 1 && IsKeyFormat(keys[|apiKeys|].key)
  {
    if IsBlankName(newKeyName) {
      return apiKeys, newKeyName;
    }
    var key := GenerateRandomKey(draws);
    var newKey := ApiKey(|apiKeys| + 1, newKeyName, key, Active, 0, DatePart(isoNow));
    keys := apiKeys + [newKey];
    keyName := "";
  }

  /** handleDeleteApiKey. */
  method HandleDeleteApiKey(apiKeys: Table, id: int) returns (keys: Table)
    ensures keys == DeleteKey(apiKeys, id)
    ensures forall k :: k in keys ==> k.id != id
    ensures IsSubsequence(keys, apiKeys)
  {
    keys := DeleteKey(apiKeys, id);
    DeleteExactly(apiKeys, id);
  }

  /** The seed rows have ids 1, 2, 3. */
  lemma SeedIds()
    ensures IdsSequential(Seed) && UniqueIds(Seed)
  {
    SequentialIds(Seed);
  }

  /** Two seed rows are Active: the dashboard starts by showing 2. */
  lemma SeedActiveCount()
    ensures ActiveCount(Seed) == 2
  {
    assert Seed[1..][1..][1..] == [];
    assert Filter(Seed, IsActive) == [Seed[0], Seed[1]];
  }

  /** Every seed key string has the generated format. */
  lemma SeedKeysWellFormed()
    ensures forall k :: k in Seed ==> IsKeyFormat(k.key)
  {
    forall i | 0 <= i < |Seed| ensures IsKeyFormat(Seed[i].key) {
      SeedKeyFormat(i);
    }
  }

  /** Seed row `i`'s key string has the generated format. */
  lemma SeedKeyFormat(i: nat)
    requires i < |Seed|
    ensures IsKeyFormat(Seed[i].key)
  {
    if i == 0 {
      KeyChars("ABCD-1234-EFGH-5678");
    } else if i == 1 {
      KeyChars("IJKL-9012-MNOP-3456");
    } else {
      KeyChars("QRST-7890-UVWX-1234");
    }
  }

  /** Every seed name is non-blank. */
  lemma SeedNamesNonBlank()
    ensures forall k :: k in Seed ==> !IsBlankName(k.name)
  {
    forall k | k in Seed ensures !IsBlankName(k.name) {
      assert !IsWhiteSpace(k.name[0]);
      BlankNameIff(k.name);
    }
  }

  /** The id rule on the seed: delete "Production Key" (id 1) and create
      a key under any non-blank name; the new row gets id 3, which
      "Testing Key" still carries, and a later delete of id 3 removes both
      rows. */
  lemma SeedDeleteThenAddRepeatsId(name: string, key: string, createdAt: string)
    requires !IsBlankName(name)
    ensures var t := AddKey(DeleteKey(Seed, 1), name, key, createdAt);
      |t| == 3 && t[1].id == 3 && t[2].id == 3 && !UniqueIds(t) &&
      DeleteKey(t, 3) == [Seed[1]]
  {
    SeedDeleteFirst();
    var t := AddKey(DeleteKey(Seed, 1), name, key, createdAt);
    assert t == [Seed[1], Seed[2], t[2]];
    DeleteKeepsFirstOfThree(Seed[1], Seed[2], t[2], 3);
  }

  /** Of three rows, deleting the id that only the last two carry leaves the
      first. */
  lemma DeleteKeepsFirstOfThree(a: ApiKey, b: ApiKey, c: ApiKey, id: int)
    requires a.id != id && b.id == id && c.id == id
    ensures DeleteKey([a, b, c], id) == [a]
  {
    var keep := (k: ApiKey) => k.id != id;
    assert [a, b, c] == [a] + [b, c];
    FilterConcat([a], [b, c], keep);
    FilterEmptyIff([b, c], keep);
    FilterSingleton(a, keep);
  }

  /** Deleting id 1 from the seed leaves its second and third rows. */
  lemma SeedDeleteFirst()
    ensures DeleteKey(Seed, 1) == [Seed[1], Seed[2]]
  {
    SeedIds();
    DeleteSequential(Seed, 1);
    assert Seed[..0] + Seed[1..] == [Seed[1], Seed[2]];
  }
}

/** The `merches` catalog: the seed rows of `InitializeMerch` and the
    exact-name lookup of both merch repositories
    (internal/repository/merch_repository.go, merchRepository.go). The
    catalog is a map from item name to price: lookups are by name and the
    seed names are distinct. */
module Catalog {
  import opened Wrappers
  import opened Model

  /** The ten rows `InitializeMerch` inserts, in the order it lists them. */
  const Seed: seq<Merch> := [
    Merch("t-shirt", 20),
    Merch("cup", 20),
    Merch("book", 50),
    Merch("pen", 10),
    Merch("powerbank", 200),
    Merch("hoody", 300),
    Merch("umbrella", 200),
    Merch("socks", 10),
    Merch("wallet", 50),
    Merch("pink-hoody", 500)
  ]

  /** The rows of a list of items, as a name-to-price table. */
  function AsTable(items: seq<Merch>): map<string, int>
  {
    if items == [] then map[]
    else AsTable(items[..|items| - 1])[items[|items| - 1].name := items[|items| - 1].price]
  }

  /** `FindByName`: the row whose name equals `name` exactly (case and all),
      or `RecordNotFound`. */
  function FindByName(catalog: map<string, int>, name: string): Result<Merch, DbError>
  {
    if name in catalog then Ok(Merch(name, catalog[name])) else Err(RecordNotFound)
  }

  /** No two seed rows share a name. */
  ghost predicate DistinctNames(items: seq<Merch>)
  {
    forall i, j :: 0 <= i < j < |items| ==> items[i].name != items[j].name
  }

  /** With distinct names, the table holds exactly the listed rows. */
  lemma {:induction false} AsTableExact(items: seq<Merch>)
    requires DistinctNames(items)
    ensures forall name :: name in AsTable(items) <==> exists k :: 0 <= k < |items| && items[k].name == name
    ensures forall k :: 0 <= k < |items| ==> items[k].name in AsTable(items) && AsTable(items)[items[k].name] == items[k].price
  {
    if items != [] {
      var init := items[..|items| - 1];
      assert DistinctNames(init) by {
        forall i, j | 0 <= i < j < |init| ensures init[i].name != init[j].name {
          assert init[i] == items[i] && init[j] == items[j];
        }
      }
      AsTableExact(init);
      var last := items[|items| - 1];
      assert AsTable(items) == AsTable(init)[last.name := last.price];
      forall name | name in AsTable(items)
        ensures exists k :: 0 <= k < |items| && items[k].name == name
      {
        if name == last.name {
          assert items[|items| - 1].name == name;
        } else {
          assert name in AsTable(init);
          var k :| 0 <= k < |init| && init[k].name == name;
          assert items[k] == init[k];
        }
      }
      forall k | 0 <= k < |items|
        ensures items[k].name in AsTable(items) && AsTable(items)[items[k].name] == items[k].price
      {
        if k < |init| {
          assert items[k] == init[k];
          assert items[k].name != items[|items| - 1].name;
        }
      }
    }
  }

  /** `First` over the rows of `merches` in list order: the first row whose
      name equals `name`, or `RecordNotFound`. */
  function FirstNamed(items: seq<Merch>, name: string): Result<Merch, DbError>
  {
    if items == [] then Err(RecordNotFound)
    else if items[0].name == name then Ok(items[0])
    else FirstNamed(items[1..], name)
  }

  /** The row search finds a row with that name, or reports that there is
      none. */
  lemma {:induction false} FirstNamedSound(items: seq<Merch>, name: string)
    ensures FirstNamed(items, name).Ok? ==> FirstNamed(items, name).value in items && FirstNamed(items, name).value.name == name
    ensures FirstNamed(items, name).Err? ==>
              FirstNamed(items, name).error == RecordNotFound && forall k :: 0 <= k < |items| ==> items[k].name != name
  {
    if items != [] && items[0].name != name {
      FirstNamedSound(items[1..], name);
      if FirstNamed(items, name).Err? {
        forall k | 0 <= k < |items| ensures items[k].name != name {
          if k > 0 {
            assert items[k] == items[1..][k - 1];
          }
        }
      }
    }
  }

  /** With distinct names, looking a name up in the catalog table gives what
      searching the rows gives: the row with that name, at its price, or
      `RecordNotFound` when no row has it. */
  lemma FindByNameSearchesRows(items: seq<Merch>, name: string)
    requires DistinctNames(items)
    ensures FindByName(AsTable(items), name) == FirstNamed(items, name)
  {
    AsTableExact(items);
    FirstNamedSound(items, name);
    var r := FirstNamed(items, name);
    if r.Ok? {
      var k :| 0 <= k < |items| && items[k] == r.value;
      assert AsTable(items)[items[k].name] == items[k].price;
    }
  }

  /** The seed: ten rows, positive prices, pairwise distinct names,
      pink-hoody at 500 and hoody at 300, and pen and socks as the cheapest
      items at 10. */
  lemma SeedFacts()
    ensures |Seed| == 10
    ensures DistinctNames(Seed)
    ensures forall k :: 0 <= k < |Seed| ==> Seed[k].price > 0
    ensures forall k :: 0 <= k < |Seed| ==> Seed[k].price >= 10
    ensures Seed[9] == Merch("pink-hoody", 500) && Seed[5] == Merch("hoody", 300)
    ensures Seed[3] == Merch("pen", 10) && Seed[7] == Merch("socks", 10)
  {
    SeedNamesDistinct();
  }

  /** The ten seed names are pairwise distinct. */
  lemma SeedNamesDistinct()
    ensures DistinctNames(Seed)
  {
    forall i, j | 0 <= i < j < |Seed| ensures Seed[i].name != Seed[j].name {
      assert |Seed[i].name| != |Seed[j].name| || Seed[i].name[0] != Seed[j].name[0] || Seed[i].name[1] != Seed[j].name[1];
    }
  }

  /** Looking up a seeded catalog: each of the ten names is found at its
      listed price, and every name found is one of them. */
  lemma SeedLookup(name: string)
    ensures FindByName(AsTable(Seed), name).Ok? <==> exists k :: 0 <= k < |Seed| && Seed[k].name == name
    ensures forall k :: 0 <= k < |Seed| ==> FindByName(AsTable(Seed), Seed[k].name) == Ok(Seed[k])
    ensures FindByName(AsTable(Seed), "pink-hoody") == Ok(Merch("pink-hoody", 500))
    ensures FindByName(AsTable(Seed), "Pen") == Err(RecordNotFound)
  {
    SeedFacts();
    AsTableExact(Seed);
    assert Seed[3].name == "pen";
    assert forall k :: 0 <= k < |Seed| ==> Seed[k].name != "Pen";
  }
}

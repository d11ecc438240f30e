/**
 * The application's SQLite database, held in memory: the `clients` and
 * `food` tables and one order table per profile, each a sequence of rows.
 * The methods of `Database` are the SQL statements the dialogs run.
 */
module Store {
  import opened Wrappers
  import opened Sql
  import Text

  /** `clients(first_name, last_name, address, phone_number)`. */
  datatype ClientData = ClientData(firstName: string, lastName: string, address: string, phoneNumber: string)

  /** A colour channel as a colour picker reports it. */
  type Channel = x: int | 0 <= x <= 255

  datatype Rgb = Rgb(red: Channel, green: Channel, blue: Channel)

  /** `food(food_name, red_color, green_color, blue_color)`; the colour columns may be NULL. */
  datatype FoodData = FoodData(foodName: string, redColor: Option<Channel>,
                               greenColor: Option<Channel>, blueColor: Option<Channel>)

  /** A profile table's `(client_id, food_id, food_quantity, date)`. */
  datatype OrderData = OrderData(clientId: int, foodId: int, foodQuantity: int, date: string)

  type ProfileTables = map<string, seq<Row<OrderData>>>

  const ClientsTable: string := "clients"
  const FoodTable: string := "food"

  /** SQLite compares table names without regard to the case of ASCII letters. */
  predicate SameTableName(a: string, b: string) {
    Text.LowerAll(a) == Text.LowerAll(b)
  }

  /** A table that SQLite would find under `name`. */
  predicate TableExists(profiles: ProfileTables, name: string) {
    SameTableName(name, ClientsTable) || SameTableName(name, FoodTable)
    || exists p :: p in profiles && SameTableName(p, name)
  }

  /** SQLite's table namespace: no two tables have names equal up to case. */
  ghost predicate DistinctTableNames(profiles: ProfileTables) {
    && (forall p :: p in profiles ==> !SameTableName(p, ClientsTable) && !SameTableName(p, FoodTable))
    && (forall p, q :: p in profiles && q in profiles && p != q ==> !SameTableName(p, q))
  }

  /** `CREATE TABLE IF NOT EXISTS name (...)` on the profile tables. */
  function CreateIfNotExists(profiles: ProfileTables, name: string): (r: ProfileTables)
    ensures forall p :: p in profiles ==> p in r && r[p] == profiles[p]
    ensures TableExists(profiles, name) ==> r == profiles
    ensures !TableExists(profiles, name) ==> r.Keys == profiles.Keys + {name} && r[name] == []
  {
    if TableExists(profiles, name) then profiles else profiles[name := []]
  }

  /** Creating a table that already exists changes nothing, so a second
      `CREATE TABLE IF NOT EXISTS` of the same name is a no-op. */
  lemma CreateIdempotent(profiles: ProfileTables, name: string)
    ensures CreateIfNotExists(CreateIfNotExists(profiles, name), name) == CreateIfNotExists(profiles, name)
  {
    var r := CreateIfNotExists(profiles, name);
    if !TableExists(profiles, name) {
      assert name in r && SameTableName(name, name);
    }
  }

  /** Creating a table keeps the table names distinct up to case. */
  lemma CreateKeepsNamesDistinct(profiles: ProfileTables, name: string)
    requires DistinctTableNames(profiles)
    ensures DistinctTableNames(CreateIfNotExists(profiles, name))
  {
  }

  /** `food` and `clients` are taken: a profile so named creates no table. */
  lemma ReservedNameCreatesNothing(profiles: ProfileTables, name: string)
    requires SameTableName(name, ClientsTable) || SameTableName(name, FoodTable)
    ensures CreateIfNotExists(profiles, name) == profiles
  {
  }

  /** `INSERT INTO name (...)` of an order: exactly one row, carrying `data`,
      is appended to the profile table `name`; every other table is kept. */
  function InsertOrderRow(profiles: ProfileTables, name: string, data: OrderData): (r: ProfileTables)
    requires name in profiles
    ensures r.Keys == profiles.Keys
    ensures forall p :: p in profiles && p != name ==> r[p] == profiles[p]
    ensures |r[name]| == |profiles[name]| + 1 && r[name][..|profiles[name]|] == profiles[name]
    ensures r[name][|profiles[name]|].cols == data
  {
    InsertFacts(profiles[name], data);
    profiles[name := Insert(profiles[name], data)]
  }

  class Database {
    var clients: seq<Row<ClientData>>
    var food: seq<Row<FoodData>>
    var profiles: ProfileTables

    /** What the schema guarantees: primary keys and table names are unique. */
    ghost predicate Valid()
      reads this
    {
      && UniqueIds(clients)
      && UniqueIds(food)
      && (forall p :: p in profiles ==> UniqueIds(profiles[p]))
      && DistinctTableNames(profiles)
    }

    constructor ()
      ensures Valid()
      ensures clients == [] && food == [] && profiles == map[]
    {
      clients, food, profiles := [], [], map[];
    }

    /** `INSERT INTO clients (first_name, last_name, address, phone_number) VALUES (?, ?, ?, ?)`. */
    method InsertClient(data: ClientData)
      requires Valid()
      modifies this
      ensures Valid()
      ensures clients == Insert(old(clients), data)
      ensures food == old(food) && profiles == old(profiles)
    {
      InsertFacts(clients, data);
      clients := Insert(clients, data);
    }

    /** `INSERT INTO food (...) VALUES (...)` with the given columns. */
    method InsertFood(data: FoodData)
      requires Valid()
      modifies this
      ensures Valid()
      ensures food == Insert(old(food), data)
      ensures clients == old(clients) && profiles == old(profiles)
    {
      InsertFacts(food, data);
      food := Insert(food, data);
    }

    /** `DELETE FROM clients WHERE id = (?)`; order tables are not touched. */
    method DeleteClient(id: int)
      requires Valid()
      modifies this
      ensures Valid()
      ensures clients == DeleteWhereId(old(clients), id)
      ensures food == old(food) && profiles == old(profiles)
    {
      DeletePresentId(clients, id);
      clients := DeleteWhereId(clients, id);
    }

    /** `DELETE FROM food WHERE id = (?)`; order tables are not touched. */
    method DeleteFood(id: int)
      requires Valid()
      modifies this
      ensures Valid()
      ensures food == DeleteWhereId(old(food), id)
      ensures clients == old(clients) && profiles == old(profiles)
    {
      DeletePresentId(food, id);
      food := DeleteWhereId(food, id);
    }

    /** `CREATE TABLE IF NOT EXISTS name (id, client_id, food_id, food_quantity, date)`. */
    method CreateProfileTable(name: string)
      requires Valid()
      modifies this
      ensures Valid()
      ensures profiles == CreateIfNotExists(old(profiles), name)
      ensures clients == old(clients) && food == old(food)
    {
      CreateKeepsNamesDistinct(profiles, name);
      profiles := CreateIfNotExists(profiles, name);
    }

    /** `INSERT INTO name (client_id, food_id, food_quantity, date) VALUES (?, ?, ?, ?)`.
        Without a table of that name the statement fails and nothing changes. */
    method InsertOrder(name: string, data: OrderData) returns (ok: bool)
      requires Valid()
      modifies this
      ensures Valid()
      ensures ok <==> name in old(profiles)
      ensures profiles == if ok then InsertOrderRow(old(profiles), name, data) else old(profiles)
      ensures clients == old(clients) && food == old(food)
    {
      ok := name in profiles;
      if ok {
        InsertFacts(profiles[name], data);
        profiles := InsertOrderRow(profiles, name, data);
      }
    }
  }
}
